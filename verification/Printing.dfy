/** What the compact printer writes, as tokens, and the tree its output stands for
  * (parser/ast/print.go). */
module Printing {
  import opened Wrappers
  import opened Syntax
  import opened Grammar

  /** A token in front of others. */
  function Put(t: Token, ts: seq<Token>): (r: seq<Token>)
    ensures Head(r) == t && Tail(r) == ts
  {
    [t] + ts
  }

  // ----- tokens of the leaves

  predicate IsKeyword(text: string) {
    text == "true" || text == "false" || text == "null" || text == "in"
  }

  function ComponentToken(text: string): Token {
    if text == "true" then TrueTok
    else if text == "false" then FalseTok
    else if text == "null" then NullTok
    else if text == "in" then In
    else Word(text)
  }

  predicate Negative(raw: string) {
    raw != "" && raw[0] == '-'
  }

  function PrintInt(raw: string, rest: seq<Token>): seq<Token> {
    if Negative(raw) then Put(Sub, Put(IntTok(raw[1..]), rest)) else Put(IntTok(raw), rest)
  }

  function PrintDecimal(raw: string, rest: seq<Token>): seq<Token> {
    if Negative(raw) then Put(Sub, Put(DecimalTok(raw[1..]), rest)) else Put(DecimalTok(raw), rest)
  }

  function PrintComponents(parts: seq<string>, rest: seq<Token>): seq<Token>
    requires parts != []
  {
    Put(ComponentToken(parts[0]), if |parts| == 1 then rest else Put(Dot, PrintComponents(parts[1..], rest)))
  }

  /** A name; a leading dot marks a path. */
  function PrintName(dotted: bool, parts: seq<string>, rest: seq<Token>): seq<Token> {
    if parts == [] then rest
    else if dotted then Put(Dot, PrintComponents(parts, rest))
    else PrintComponents(parts, rest)
  }

  // ----- the printer

  /** The operators that do not associate print a stronger left operand. */
  function LeftPrec(op: Token): nat {
    if op.Eq? || op.Ne? || op.In? || op.Match? then op.Precedence() + 1 else op.Precedence()
  }

  /** Whether the operand of a minus sign would merge with it. */
  predicate Merges(op: Token, x: Expr) {
    op.Sub? && (x.IntLit? || x.DecimalLit?)
  }

  const UNARY_PREC: nat := 7

  /** The tokens of `e`, as an operand of precedence `m`, in front of `rest`. */
  function Print(m: nat, e: Expr, rest: seq<Token>): seq<Token>
    decreases e, 1
  {
    match e
    case NullLit => Put(NullTok, rest)
    case BoolLit(b) => Put(if b then TrueTok else FalseTok, rest)
    case IntLit(raw) => PrintInt(raw, rest)
    case DecimalLit(raw) => PrintDecimal(raw, rest)
    case StringLit(s) => Put(StringTok(s), rest)
    case ListLit(es) => Put(LBrack, PrintAll(es, Put(RBrack, rest)))
    case TupleLit(es) => Put(LTuple, PrintAll(es, Put(RBrace, rest)))
    case ObjectLit(fs) => Put(LBrace, PrintEntries(fs, Put(RBrace, rest)))
    case Ident(parts) => PrintName(false, parts, rest)
    case Path(parts) => PrintName(true, parts, rest)
    case Name(parts) => PrintName(false, parts, rest)
    case Call(dotted, parts, args) => PrintName(dotted, parts, Put(LParen, PrintAll(args, Put(RParen, rest))))
    case Group(inner) => Put(LParen, Print(0, inner, Put(RParen, rest)))
    case Unary(op, x) =>
      Put(op, if Merges(op, x) then Put(LParen, Print(0, x, Put(RParen, rest))) else Print(UNARY_PREC, x, rest))
    case Binary(_, op, _) =>
      if op.Precedence() < m then Put(LParen, PrintBinary(e, Put(RParen, rest))) else PrintBinary(e, rest)
    case Schema(typ, clauses) => Put(LParen, Print(0, typ, PrintClauses(clauses, Put(RParen, rest))))
    case Union(l, r) => Print(0, l, Put(Pipe, Print(0, r, rest)))
    case Require(x) => if x.Ident? then Put(LParen, Print(0, x, Put(RParen, rest))) else Print(0, x, rest)
    case Attr(name, value) =>
      Put(ComponentToken(name), if value.Some? then Put(Assign, Print(0, value.value, rest)) else rest)
  }

  function PrintBinary(e: Expr, rest: seq<Token>): seq<Token>
    requires e.Binary?
    decreases e, 0
  {
    Print(LeftPrec(e.op), e.left, Put(e.op, Print(e.op.Precedence() + 1, e.right, rest)))
  }

  function PrintAll(es: seq<Expr>, rest: seq<Token>): seq<Token>
    decreases es
  {
    if es == [] then rest
    else Print(0, es[0], if |es| == 1 then rest else Put(Comma, PrintAll(es[1..], rest)))
  }

  function PrintEntries(fs: seq<Entry>, rest: seq<Token>): seq<Token>
    decreases fs
  {
    if fs == [] then rest
    else Put(StringTok(fs[0].key),
             Put(Colon, Print(0, fs[0].value, if |fs| == 1 then rest else Put(Comma, PrintEntries(fs[1..], rest)))))
  }

  function PrintClauses(cs: seq<Expr>, rest: seq<Token>): seq<Token>
    decreases cs
  {
    if cs == [] then rest else Put(Comma, Print(0, cs[0], PrintClauses(cs[1..], rest)))
  }

  // ----- the tree the output stands for

  /** `e` with a group for every pair of parentheses the printer adds. */
  function Regroup(m: nat, e: Expr): (r: Expr)
    decreases e
  {
    match e
    case ListLit(es) => ListLit(RegroupAll(es))
    case TupleLit(es) => TupleLit(RegroupAll(es))
    case ObjectLit(fs) => ObjectLit(RegroupEntries(fs))
    case Call(dotted, parts, args) => Call(dotted, parts, RegroupAll(args))
    case Group(inner) => Group(Regroup(0, inner))
    case Unary(op, x) => Unary(op, if Merges(op, x) then Group(x) else Regroup(UNARY_PREC, x))
    case Binary(l, op, r) =>
      var b := Binary(Regroup(LeftPrec(op), l), op, Regroup(op.Precedence() + 1, r));
      if op.Precedence() < m then Group(b) else b
    case Schema(typ, clauses) => Schema(Regroup(0, typ), RegroupAll(clauses))
    case Union(l, r) => Union(Regroup(0, l), Regroup(0, r))
    case Require(x) => Require(if x.Ident? then Group(x) else Regroup(0, x))
    case Attr(name, value) => Attr(name, if value.Some? then Some(Regroup(0, value.value)) else None)
    case _ => e
  }

  function RegroupAll(es: seq<Expr>): (r: seq<Expr>)
    ensures |r| == |es| && forall i :: 0 <= i < |es| ==> r[i] == Regroup(0, es[i])
    decreases es
  {
    if es == [] then [] else [Regroup(0, es[0])] + RegroupAll(es[1..])
  }

  function RegroupEntries(fs: seq<Entry>): (r: seq<Entry>)
    ensures |r| == |fs| && forall i :: 0 <= i < |fs| ==> r[i] == Entry(fs[i].key, Regroup(0, fs[i].value))
    decreases fs
  {
    if fs == [] then [] else [Entry(fs[0].key, Regroup(0, fs[0].value))] + RegroupEntries(fs[1..])
  }

  // ----- the tree without its groups

  function Erase(e: Expr): (r: Expr)
    decreases e
  {
    match e
    case Group(inner) => Erase(inner)
    case ListLit(es) => ListLit(EraseAll(es))
    case TupleLit(es) => TupleLit(EraseAll(es))
    case ObjectLit(fs) => ObjectLit(EraseEntries(fs))
    case Call(dotted, parts, args) => Call(dotted, parts, EraseAll(args))
    case Unary(op, x) => Unary(op, Erase(x))
    case Binary(l, op, r) => Binary(Erase(l), op, Erase(r))
    case Schema(typ, clauses) => Schema(Erase(typ), EraseAll(clauses))
    case Union(l, r) => Union(Erase(l), Erase(r))
    case Require(x) => Require(Erase(x))
    case Attr(name, value) => Attr(name, if value.Some? then Some(Erase(value.value)) else None)
    case _ => e
  }

  function EraseAll(es: seq<Expr>): (r: seq<Expr>)
    ensures |r| == |es| && forall i :: 0 <= i < |es| ==> r[i] == Erase(es[i])
    decreases es
  {
    if es == [] then [] else [Erase(es[0])] + EraseAll(es[1..])
  }

  function EraseEntries(fs: seq<Entry>): (r: seq<Entry>)
    ensures |r| == |fs| && forall i :: 0 <= i < |fs| ==> r[i] == Entry(fs[i].key, Erase(fs[i].value))
    decreases fs
  {
    if fs == [] then [] else [Entry(fs[0].key, Erase(fs[0].value))] + EraseEntries(fs[1..])
  }

  /** The printer adds nothing but parentheses. */
  lemma {:induction false} RegroupOnlyAddsGroups(m: nat, e: Expr)
    ensures Erase(Regroup(m, e)) == Erase(e)
    decreases e, 2
  {
    match e
    case ListLit(_) => RegroupContainer(m, e);
    case TupleLit(_) => RegroupContainer(m, e);
    case Call(_, _, _) => RegroupContainer(m, e);
    case ObjectLit(_) => RegroupContainer(m, e);
    case Group(inner) => RegroupOnlyAddsGroups(0, inner);
    case Unary(op, x) => if !Merges(op, x) { RegroupOnlyAddsGroups(UNARY_PREC, x); }
    case Binary(_, _, _) => RegroupBinary(m, e);
    case Schema(_, _) => RegroupSchema(m, e);
    case Union(_, _) => RegroupSchema(m, e);
    case Require(_) => RegroupSchema(m, e);
    case Attr(_, _) => RegroupSchema(m, e);
    case _ =>
  }

  lemma {:induction false} RegroupContainer(m: nat, e: Expr)
    requires e.ListLit? || e.TupleLit? || e.Call? || e.ObjectLit?
    ensures Erase(Regroup(m, e)) == Erase(e)
    decreases e, 0
  {
    if e.ObjectLit? {
      RegroupEntriesOnlyAddsGroups(e.entries);
    } else if e.Call? {
      RegroupAllOnlyAddsGroups(e.args);
    } else {
      RegroupAllOnlyAddsGroups(e.elems);
    }
  }

  lemma {:induction false} RegroupSchema(m: nat, e: Expr)
    requires e.Schema? || e.Union? || e.Require? || e.Attr?
    ensures Erase(Regroup(m, e)) == Erase(e)
    decreases e, 1
  {
    if e.Schema? {
      RegroupOnlyAddsGroups(0, e.typ);
      RegroupAllOnlyAddsGroups(e.clauses);
    } else if e.Union? {
      RegroupOnlyAddsGroups(0, e.l);
      RegroupOnlyAddsGroups(0, e.r);
    } else {
      RegroupClause(m, e);
    }
  }

  lemma {:induction false} RegroupClause(m: nat, e: Expr)
    requires e.Require? || e.Attr?
    ensures Erase(Regroup(m, e)) == Erase(e)
    decreases e, 0
  {
    if e.Require? {
      if !e.expr.Ident? { RegroupOnlyAddsGroups(0, e.expr); }
    } else if e.value.Some? {
      RegroupOnlyAddsGroups(0, e.value.value);
    }
  }

  lemma {:induction false} RegroupBinary(m: nat, e: Expr)
    requires e.Binary?
    ensures Erase(Regroup(m, e)) == Erase(e)
    decreases e, 0
  {
    var (l, r) := (Regroup(LeftPrec(e.op), e.left), Regroup(e.op.Precedence() + 1, e.right));
    RegroupOnlyAddsGroups(LeftPrec(e.op), e.left);
    RegroupOnlyAddsGroups(e.op.Precedence() + 1, e.right);
    assert Erase(Binary(l, e.op, r)) == Erase(e);
  }

  lemma {:induction false} RegroupEntriesOnlyAddsGroups(fs: seq<Entry>)
    ensures EraseEntries(RegroupEntries(fs)) == EraseEntries(fs)
    decreases fs
  {
    forall i | 0 <= i < |fs| ensures Erase(Regroup(0, fs[i].value)) == Erase(fs[i].value) {
      RegroupOnlyAddsGroups(0, fs[i].value);
    }
  }

  lemma {:induction false} RegroupAllOnlyAddsGroups(es: seq<Expr>)
    ensures EraseAll(RegroupAll(es)) == EraseAll(es)
    decreases es
  {
    forall i | 0 <= i < |es| ensures Erase(Regroup(0, es[i])) == Erase(es[i]) {
      RegroupOnlyAddsGroups(0, es[i]);
    }
  }

  // ----- the trees the parser can build

  predicate NumberText(raw: string) {
    Negative(raw) ==> !Negative(raw[1..])
  }

  /** A dotted name; without a leading dot it cannot start with a keyword. */
  predicate NameText(dotted: bool, parts: seq<string>) {
    parts != [] && (dotted || !IsKeyword(parts[0]))
  }

  predicate IsExpr(e: Expr)
    decreases e, 2
  {
    match e
    case Ident(parts) => NameText(false, parts)
    case Path(parts) => NameText(true, parts)
    case Call(dotted, parts, args) =>
      NameText(dotted, parts) && forall i :: 0 <= i < |args| ==> IsExpr(args[i])
    case Group(inner) => IsExpr(inner)
    case Unary(op, x) => op.IsUnary() && IsExpr(x)
    case Binary(l, op, r) => op.IsBinary() && IsExpr(l) && IsExpr(r)
    case _ => IsJson(e)
  }

  predicate IsJson(e: Expr)
    decreases e, 1
  {
    match e
    case NullLit => true
    case BoolLit(_) => true
    case IntLit(raw) => NumberText(raw)
    case DecimalLit(raw) => NumberText(raw)
    case StringLit(_) => true
    case ListLit(es) => forall i :: 0 <= i < |es| ==> IsRoot(es[i])
    case TupleLit(es) => forall i :: 0 <= i < |es| ==> IsRoot(es[i])
    case ObjectLit(fs) => forall i :: 0 <= i < |fs| ==> IsRoot(fs[i].value)
    case _ => false
  }

  /** A value: JSON, or a union of schemas, joined to the left. */
  predicate IsRoot(e: Expr)
    decreases e, 3
  {
    IsJson(e) || IsSchemas(e)
  }

  predicate IsSchemas(e: Expr)
    decreases e, 2
  {
    IsSchema(e) || (e.Union? && IsSchemas(e.l) && IsSchema(e.r))
  }

  predicate IsSchema(e: Expr)
    decreases e, 1
  {
    && e.Schema? && IsTypes(e.typ) && !e.typ.Schema?
    && forall i :: 0 <= i < |e.clauses| ==> IsClause(e.clauses[i])
  }

  predicate IsTypes(e: Expr)
    decreases e, 3
  {
    IsTypeAtom(e) || (e.Union? && IsTypes(e.l) && IsTypeAtom(e.r))
  }

  predicate IsTypeAtom(e: Expr)
    decreases e, 2
  {
    match e
    case Name(parts) => NameText(false, parts)
    case Path(parts) => NameText(true, parts)
    case ListLit(_) => IsJson(e)
    case TupleLit(_) => IsJson(e)
    case ObjectLit(_) => IsJson(e)
    case Schema(_, _) => IsSchema(e)
    case _ => false
  }

  predicate IsClause(e: Expr)
    decreases e, 2
  {
    match e
    case Require(x) => IsExpr(x)
    case Attr(name, value) => !IsKeyword(name) && (value.Some? ==> IsJson(value.value))
    case _ => false
  }
}
