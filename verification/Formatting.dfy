/** Every tree the parser returns is one the printer writes faithfully, so formatting a source keeps its
  * meaning (parser/parser.go, parser/expr.go, parser/ast/print.go). */
module Formatting {
  import opened Wrappers
  import opened Syntax
  import opened Grammar
  import opened Printing
  import opened RoundTrip
  import opened Minimality
  import opened Printers

  /** Tokens as the lexer delivers them: keywords are not words, and number tokens carry no sign. */
  predicate Lexed(ts: seq<Token>) {
    forall i :: 0 <= i < |ts| ==> LexedToken(ts[i])
  }

  predicate LexedToken(t: Token) {
    match t
    case Word(text) => !IsKeyword(text)
    case IntTok(text) => !Negative(text)
    case DecimalTok(text) => !Negative(text)
    case EndOfFile => false
    case _ => true
  }

  lemma LexedParts(ts: seq<Token>)
    requires Lexed(ts)
    ensures Lexed(Tail(ts)) && (ts != [] ==> LexedToken(Head(ts)))
  {
  }

  lemma {:induction false} ComponentsGood(acc: seq<string>, ts: seq<Token>)
    requires Lexed(ts)
    ensures var r := Components(acc, ts); r.Parsed? ==> Lexed(r.rest) && acc <= r.tree
    ensures var r := Components([], ts); r.Parsed? && Head(ts).Word? ==> !IsKeyword(r.tree[0])
    decreases |ts|
  {
    LexedParts(ts);
    LexedParts(Tail(ts));
    if ComponentText(Head(ts)).Some? && Head(Tail(ts)).Dot? {
      ComponentsGood(acc + [ComponentText(Head(ts)).value], Tail(Tail(ts)));
      ComponentsGood([] + [ComponentText(Head(ts)).value], Tail(Tail(ts)));
    }
  }

  lemma {:induction false} RefGood(isType: bool, ts: seq<Token>)
    requires Lexed(ts) && (Head(ts).Word? || Head(ts).Dot?)
    ensures var r := Ref(isType, ts);
      r.Parsed? ==>
        Lexed(r.rest) && Minimal(r.tree) && !r.tree.Binary? && if isType then IsTypeAtom(r.tree) else IsExpr(r.tree)
    decreases |ts|, 0
  {
    LexedParts(ts);
    var ts' := if Head(ts).Dot? then Tail(ts) else ts;
    ComponentsGood([], ts');
    match Components([], ts') {
      case Failed =>
      case Parsed(parts, rest) =>
        if Head(rest).LParen? && !isType {
          LexedParts(rest);
          ArgumentsGood([], Tail(rest));
        }
    }
  }

  lemma {:induction false} ArgumentsGood(acc: seq<Expr>, ts: seq<Token>)
    requires Lexed(ts) && forall i :: 0 <= i < |acc| ==> IsExpr(acc[i]) && Minimal(acc[i])
    ensures var r := Arguments(acc, ts);
      r.Parsed? ==> Lexed(r.rest) && forall i :: 0 <= i < |r.tree| ==> IsExpr(r.tree[i]) && Minimal(r.tree[i])
    decreases |ts|, 5
  {
    LexedParts(ts);
    if !Head(ts).RParen? {
      ExprGood(1, ts);
      match ParseExpr(1, ts) {
        case Failed =>
        case Parsed(x, rest) =>
          LexedParts(rest);
          if Head(rest).Comma? { ArgumentsGood(acc + [x], Tail(rest)); }
      }
    }
  }

  lemma {:induction false} ExprGood(m: nat, ts: seq<Token>)
    requires Lexed(ts) && m >= 1
    ensures var r := ParseExpr(m, ts); r.Parsed? ==>
      Lexed(r.rest) && IsExpr(r.tree) && Minimal(r.tree) && Binds(m, r.tree) && Head(r.rest).Precedence() < m
    decreases |ts|, 4
  {
    UnaryGood(ts);
    match ParseUnary(ts) {
      case Failed =>
      case Parsed(left, rest) => ClimbGood(left, m, rest);
    }
  }

  /** What may follow a climbed operand: no stronger operator, and no equality after an equality. */
  predicate Climbed(left: Expr, ts: seq<Token>) {
    left.Binary? ==> LeftPrec(Head(ts)) <= left.op.Precedence()
  }

  lemma JoinedGood(left: Expr, op: Token, right: Expr, rest: seq<Token>)
    requires IsExpr(left) && Minimal(left) && Binds(LeftPrec(op), left) && op.IsBinary()
    requires IsExpr(right) && Minimal(right) && Binds(op.Precedence() + 1, right)
    requires Head(rest).Precedence() <= op.Precedence()
    requires !(op.Precedence() == Eq.Precedence() == Head(rest).Precedence())
    ensures var b := Binary(left, op, right); IsExpr(b) && Minimal(b) && Climbed(b, rest)
  {
  }

  lemma {:induction false} ClimbGood(left: Expr, m: nat, ts: seq<Token>)
    requires Lexed(ts) && m >= 1 && IsExpr(left) && Minimal(left) && Binds(m, left) && Climbed(left, ts)
    ensures var r := Climb(left, m, ts); r.Parsed? ==>
      Lexed(r.rest) && IsExpr(r.tree) && Minimal(r.tree) && Binds(m, r.tree) && Head(r.rest).Precedence() < m
    decreases |ts|, 4
  {
    LexedParts(ts);
    var op := Head(ts);
    if op.Precedence() >= m {
      ExprGood(op.Precedence() + 1, Tail(ts));
      match ParseExpr(op.Precedence() + 1, Tail(ts)) {
        case Failed =>
        case Parsed(right, rest) =>
          if op.Precedence() != Eq.Precedence() || Head(rest).Precedence() != op.Precedence() {
            JoinedGood(left, op, right, rest);
            ClimbGood(Binary(left, op, right), m, rest);
          }
      }
    }
  }

  lemma {:induction false} UnaryGood(ts: seq<Token>)
    requires Lexed(ts)
    ensures var r := ParseUnary(ts);
      r.Parsed? ==> Lexed(r.rest) && IsExpr(r.tree) && Minimal(r.tree) && !r.tree.Binary?
    decreases |ts|, 3
  {
    LexedParts(ts);
    LexedParts(Tail(ts));
    if Head(ts).IsUnary() {
      SignedText(Head(Tail(ts)));
      UnaryGood(Tail(ts));
    } else {
      PrimaryGood(ts);
    }
  }

  lemma SignedText(t: Token)
    ensures t.IntTok? && LexedToken(t) ==> NumberText(t.text) && NumberText("-" + t.text) && NumberText("" + t.text)
    ensures t.DecimalTok? && LexedToken(t) ==> NumberText(t.text) && NumberText("-" + t.text) && NumberText("" + t.text)
  {
    if t.IntTok? || t.DecimalTok? {
      assert ("-" + t.text)[1..] == t.text;
      assert "" + t.text == t.text;
    }
  }

  lemma {:induction false} PrimaryGood(ts: seq<Token>)
    requires Lexed(ts)
    ensures var r := Primary(ts); r.Parsed? ==> Lexed(r.rest) && IsExpr(r.tree) && Minimal(r.tree) && !r.tree.Binary?
    decreases |ts|, 2
  {
    if Head(ts).Word? || Head(ts).Dot? {
      RefGood(false, ts);
    } else if Head(ts).LParen? {
      LexedParts(ts);
      ExprGood(1, Tail(ts));
      var r := ParseExpr(1, Tail(ts));
      if r.Parsed? { LexedParts(r.rest); }
    } else {
      JsonGood(ts);
    }
  }

  // ----- values

  lemma {:induction false} ValueGood(ts: seq<Token>)
    requires Lexed(ts)
    ensures var r := Value(ts); r.Parsed? ==> Lexed(r.rest) && IsRoot(r.tree) && Minimal(r.tree)
    decreases |ts|, 2
  {
    if Head(ts).LParen? { SchemaSumGood(ts); } else { JsonGood(ts); }
  }

  lemma {:induction false} JsonGood(ts: seq<Token>)
    requires Lexed(ts)
    ensures var r := Json(ts); r.Parsed? ==> Lexed(r.rest) && IsJson(r.tree) && Minimal(r.tree)
    decreases |ts|, 1
  {
    LexedParts(ts);
    if Head(ts).LBrace? {
      EntriesGood([], Tail(ts));
    } else if Head(ts).LBrack? {
      ValuesGood(RBrack, [], Tail(ts));
    } else if Head(ts).LTuple? {
      ValuesGood(RBrace, [], Tail(ts));
    } else if Head(ts).Sub? || Head(ts).IntTok? || Head(ts).DecimalTok? {
      NumberGood(ts);
    }
  }

  lemma NumberGood(ts: seq<Token>)
    requires Lexed(ts)
    ensures var r := Number(ts); r.Parsed? ==> Lexed(r.rest) && IsJson(r.tree) && Minimal(r.tree)
  {
    LexedParts(ts);
    LexedParts(Tail(ts));
    SignedText(Head(ts));
    SignedText(Head(Tail(ts)));
  }

  lemma {:induction false} ValuesGood(end: Token, acc: seq<Expr>, ts: seq<Token>)
    requires Lexed(ts) && forall i :: 0 <= i < |acc| ==> IsRoot(acc[i]) && Minimal(acc[i])
    ensures var r := Values(end, acc, ts);
      r.Parsed? ==> Lexed(r.rest) && forall i :: 0 <= i < |r.tree| ==> IsRoot(r.tree[i]) && Minimal(r.tree[i])
    decreases |ts|, 3
  {
    LexedParts(ts);
    if Head(ts) != end {
      ValueGood(ts);
      match Value(ts) {
        case Failed =>
        case Parsed(v, rest) =>
          LexedParts(rest);
          if Head(rest).Comma? { ValuesGood(end, acc + [v], Tail(rest)); }
      }
    }
  }

  lemma {:induction false} EntriesGood(acc: seq<Entry>, ts: seq<Token>)
    requires Lexed(ts) && forall i :: 0 <= i < |acc| ==> IsRoot(acc[i].value) && Minimal(acc[i].value)
    ensures var r := Entries(acc, ts);
      r.Parsed? ==> Lexed(r.rest) && forall i :: 0 <= i < |r.tree| ==> IsRoot(r.tree[i].value) && Minimal(r.tree[i].value)
    decreases |ts|, 3
  {
    LexedParts(ts);
    LexedParts(Tail(ts));
    if Head(ts).StringTok? && Head(Tail(ts)).Colon? {
      ValueGood(Tail(Tail(ts)));
      match Value(Tail(Tail(ts))) {
        case Failed =>
        case Parsed(v, rest) =>
          LexedParts(rest);
          if Head(rest).Comma? { EntriesGood(acc + [Entry(Head(ts).value, v)], Tail(rest)); }
      }
    }
  }

  // ----- schemas

  lemma {:induction false} SchemaSumGood(ts: seq<Token>)
    requires Lexed(ts)
    ensures var r := SchemaSum(ts); r.Parsed? ==> Lexed(r.rest) && IsSchemas(r.tree) && Minimal(r.tree)
    decreases |ts|, 1
  {
    SchemaGood(ts);
    match ParseSchema(ts) {
      case Failed =>
      case Parsed(left, rest) => MoreSchemasGood(left, rest);
    }
  }

  lemma {:induction false} MoreSchemasGood(left: Expr, ts: seq<Token>)
    requires Lexed(ts) && IsSchemas(left) && Minimal(left)
    ensures var r := MoreSchemas(left, ts); r.Parsed? ==> Lexed(r.rest) && IsSchemas(r.tree) && Minimal(r.tree)
    decreases |ts|, 1
  {
    LexedParts(ts);
    if Head(ts).Pipe? {
      SchemaGood(Tail(ts));
      match ParseSchema(Tail(ts)) {
        case Failed =>
        case Parsed(right, rest) => MoreSchemasGood(Union(left, right), rest);
      }
    }
  }

  lemma {:induction false} SchemaGood(ts: seq<Token>)
    requires Lexed(ts)
    ensures var r := ParseSchema(ts); r.Parsed? ==> Lexed(r.rest) && IsSchema(r.tree) && Minimal(r.tree)
    decreases |ts|, 0
  {
    LexedParts(ts);
    if Head(ts).LParen? {
      TypeSumGood(Tail(ts));
      match TypeSum(Tail(ts)) {
        case Failed =>
        case Parsed(typ, rest) => ClausesGood([], rest);
      }
    }
  }

  lemma {:induction false} ClausesGood(acc: seq<Expr>, ts: seq<Token>)
    requires Lexed(ts) && forall i :: 0 <= i < |acc| ==> IsClause(acc[i]) && Minimal(acc[i])
    ensures var r := ParseClauses(acc, ts);
      r.Parsed? ==> Lexed(r.rest) && forall i :: 0 <= i < |r.tree| ==> IsClause(r.tree[i]) && Minimal(r.tree[i])
    decreases |ts|, 0
  {
    LexedParts(ts);
    LexedParts(Tail(ts));
    if Head(ts).Comma? && !Head(Tail(ts)).RParen? {
      ClauseGood(Tail(ts));
      match Clause(Tail(ts)) {
        case Failed =>
        case Parsed(c, rest) => ClausesGood(acc + [c], rest);
      }
    }
  }

  lemma {:induction false} ClauseGood(ts: seq<Token>)
    requires Lexed(ts)
    ensures var r := Clause(ts); r.Parsed? ==> Lexed(r.rest) && IsClause(r.tree) && Minimal(r.tree)
    decreases |ts|, 5
  {
    LexedParts(ts);
    LexedParts(Tail(ts));
    if Head(ts).Word? && EndsMetadata(Head(Tail(ts))) {
      JsonGood(Tail(Tail(ts)));
    } else {
      ExprGood(1, ts);
    }
  }

  lemma {:induction false} TypeSumGood(ts: seq<Token>)
    requires Lexed(ts)
    ensures var r := TypeSum(ts); r.Parsed? ==> Lexed(r.rest) && IsTypes(r.tree) && Minimal(r.tree) && !r.tree.Schema?
    decreases |ts|, 3
  {
    TypeAtomGood(ts);
    match TypeAtom(ts) {
      case Failed =>
      case Parsed(left, rest) => MoreTypesGood(left, rest);
    }
  }

  lemma {:induction false} MoreTypesGood(left: Expr, ts: seq<Token>)
    requires Lexed(ts) && IsTypes(left) && Minimal(left)
    ensures var r := MoreTypes(left, ts);
      r.Parsed? ==>
        Lexed(r.rest) && IsTypes(r.tree) && Minimal(r.tree) && (r.tree.Schema? ==> r.tree == left && !Head(ts).Pipe?)
    decreases |ts|, 3
  {
    LexedParts(ts);
    if Head(ts).Pipe? {
      TypeAtomGood(Tail(ts));
      match TypeAtom(Tail(ts)) {
        case Failed =>
        case Parsed(right, rest) => MoreTypesGood(Union(left, right), rest);
      }
    }
  }

  lemma {:induction false} TypeAtomGood(ts: seq<Token>)
    requires Lexed(ts)
    ensures var r := TypeAtom(ts); r.Parsed? ==> Lexed(r.rest) && IsTypeAtom(r.tree) && Minimal(r.tree)
    decreases |ts|, 2
  {
    if Head(ts).Word? || Head(ts).Dot? {
      RefGood(true, ts);
    } else if Head(ts).LParen? {
      SchemaGood(ts);
    } else {
      JsonGood(ts);
    }
  }

  // ----- the printer accepts every tree the parser builds

  predicate IsSyntax(e: Expr) {
    IsExpr(e) || IsRoot(e) || IsTypes(e) || IsClause(e)
  }

  lemma UnionParts(e: Expr)
    requires IsSyntax(e) && e.Union?
    ensures (IsSchemas(e.l) && IsSchema(e.r)) || (IsTypes(e.l) && IsTypeAtom(e.r))
  {
    assert !IsSchema(e) && !IsTypeAtom(e);
    assert IsRoot(e) ==> IsJson(e) || IsSchemas(e);
    assert IsSchemas(e) || IsTypes(e);
  }

  lemma SchemaParts(e: Expr)
    requires IsSyntax(e) && e.Schema?
    ensures IsSchema(e)
  {
    assert IsRoot(e) ==> IsJson(e) || IsSchemas(e);
    assert IsSchemas(e) ==> IsSchema(e);
    assert IsTypes(e) ==> IsTypeAtom(e);
  }

  lemma JsonParts(e: Expr)
    requires IsSyntax(e) && (e.ListLit? || e.TupleLit? || e.ObjectLit?)
    ensures IsJson(e)
  {
    assert !IsSchema(e);
    assert IsRoot(e) ==> IsJson(e) || IsSchemas(e);
    assert IsTypes(e) ==> IsTypeAtom(e);
  }

  lemma ExprParts(e: Expr)
    requires IsSyntax(e) && (e.Group? || e.Unary? || e.Binary? || e.Call?)
    ensures IsExpr(e)
  {
    assert !IsSchema(e);
    assert IsRoot(e) ==> IsJson(e) || IsSchemas(e);
    assert IsTypes(e) ==> IsTypeAtom(e);
  }

  lemma ClauseParts(e: Expr)
    requires IsSyntax(e) && (e.Require? || e.Attr?)
    ensures IsClause(e)
  {
    assert !IsSchema(e);
    assert IsRoot(e) ==> IsJson(e) || IsSchemas(e);
    assert IsTypes(e) ==> IsTypeAtom(e);
  }

  lemma TypesMember(e: Expr)
    requires IsTypes(e) || IsSchemas(e) || IsTypeAtom(e) || IsSchema(e)
    ensures UnionMember(e)
  {
    if !e.Union? {
      assert IsTypes(e) ==> IsTypeAtom(e);
      assert IsSchemas(e) ==> IsSchema(e);
      assert IsSchema(e) ==> e.Schema?;
    }
  }

  lemma SyntaxIsPrintable(e: Expr)
    requires IsSyntax(e)
    ensures Shaped(e) && KnownOp(e)
  {
    if e.Schema? {
      SchemaParts(e);
      assert IsTypes(e.typ) && !e.typ.Schema?;
      assert IsTypeAtom(e.typ) || e.typ.Union?;
    } else if e.Union? {
      UnionParts(e);
      TypesMember(e.l);
      TypesMember(e.r);
    } else if e.Unary? || e.Binary? {
      ExprParts(e);
    }
  }

  lemma {:induction false} EverywherePrintable(e: Expr, p: Expr -> bool)
    requires IsSyntax(e) && forall x :: IsSyntax(x) ==> p(x)
    ensures Everywhere(e, p)
    decreases e, 1
  {
    match e
    case Group(inner) => ExprParts(e); EverywherePrintable(inner, p);
    case Unary(_, x) => ExprParts(e); EverywherePrintable(x, p);
    case Binary(l, _, r) => ExprParts(e); EverywherePrintable(l, p); EverywherePrintable(r, p);
    case Union(l, r) => UnionPrintable(e, p);
    case Schema(typ, cs) => SchemaParts(e); EverywherePrintable(typ, p); AllPrintable(cs, |cs|, p);
    case Require(x) => ClauseParts(e); EverywherePrintable(x, p);
    case Attr(_, value) => ClauseParts(e); if value.Some? { EverywherePrintable(value.value, p); }
    case ListLit(es) => JsonParts(e); AllPrintable(es, |es|, p);
    case TupleLit(es) => JsonParts(e); AllPrintable(es, |es|, p);
    case ObjectLit(fs) => JsonParts(e); FieldsPrintable(fs, |fs|, p);
    case Call(_, _, args) => ExprParts(e); AllPrintable(args, |args|, p);
    case _ =>
  }

  lemma {:induction false} UnionPrintable(e: Expr, p: Expr -> bool)
    requires IsSyntax(e) && e.Union? && forall x :: IsSyntax(x) ==> p(x)
    ensures Everywhere(e.l, p) && Everywhere(e.r, p)
    decreases e, 0
  {
    UnionParts(e);
    assert IsSchemas(e.l) ==> IsRoot(e.l);
    assert IsSchema(e.r) ==> IsSchemas(e.r);
    assert IsSchemas(e.r) ==> IsRoot(e.r);
    EverywherePrintable(e.l, p);
    EverywherePrintable(e.r, p);
  }

  lemma {:induction false} AllPrintable(es: seq<Expr>, n: nat, p: Expr -> bool)
    requires n <= |es| && (forall i :: 0 <= i < |es| ==> IsSyntax(es[i])) && forall x :: IsSyntax(x) ==> p(x)
    ensures AllHave(es, n, p)
    decreases es, 0, n
  {
    if n > 0 {
      AllPrintable(es, n - 1, p);
      EverywherePrintable(es[n - 1], p);
    }
  }

  lemma {:induction false} FieldsPrintable(fs: seq<Entry>, n: nat, p: Expr -> bool)
    requires n <= |fs| && (forall i :: 0 <= i < |fs| ==> IsSyntax(fs[i].value)) && forall x :: IsSyntax(x) ==> p(x)
    ensures FieldsHave(fs, n, p)
    decreases fs, 0, n
  {
    if n > 0 {
      FieldsPrintable(fs, n - 1, p);
      EverywherePrintable(fs[n - 1].value, p);
    }
  }

  /** The printer neither panics nor fails on what the parser returned. */
  lemma ParsedPrints(ts: seq<Token>)
    requires Lexed(ts) && Parse(ts).Some?
    ensures Everywhere(Parse(ts).value, Shaped) && Everywhere(Parse(ts).value, KnownOp)
  {
    ValueGood(ts);
    forall x | IsSyntax(x) ensures Shaped(x) && KnownOp(x) { SyntaxIsPrintable(x); }
    EverywherePrintable(Parse(ts).value, Shaped);
    EverywherePrintable(Parse(ts).value, KnownOp);
  }

  // ----- formatting

  /** Whatever parses prints to tokens that parse to the same tree up to parentheses. */
  lemma FormattingKeepsMeaning(ts: seq<Token>)
    requires Lexed(ts) && Parse(ts).Some?
    ensures var e := Parse(ts).value;
      && Parse(Print(0, e, [])).Some?
      && Erase(Parse(Print(0, e, [])).value) == Erase(e)
  {
    ValueGood(ts);
    PrintThenParse(Parse(ts).value);
  }

  /** Trees that print alike differ only in parentheses. */
  lemma PrintingUnambiguous(d: Expr, e: Expr)
    requires IsRoot(d) && IsRoot(e) && Print(0, d, []) == Print(0, e, [])
    ensures Erase(d) == Erase(e)
  {
    PrintThenParse(d);
    PrintThenParse(e);
  }

  lemma SignRead(digits: string, rest: seq<Token>)
    ensures ParseUnary(Put(Sub, Put(IntTok(digits), rest))) == Parsed(IntLit("-" + digits), rest)
  {
  }

  lemma SignPrinted(digits: string, rest: seq<Token>)
    ensures PrintInt("-" + digits, rest) == Put(Sub, Put(IntTok(digits), rest))
  {
    assert ("-" + digits)[1..] == digits;
  }

  /** A parsed tree is printed and read back unchanged exactly when no minus sign stands before a number literal and
    * no constraint is a bare name; there the printer adds parentheses, and nowhere else. */
  lemma ReprintExact(ts: seq<Token>)
    requires Lexed(ts) && Parse(ts).Some?
    ensures var e := Parse(ts).value; Parse(Print(0, e, [])) == Some(e) <==> PrintsAsIs(e)
  {
    ValueGood(ts);
    PrintThenParse(Parse(ts).value);
    RegroupExact(0, Parse(ts).value);
  }

  /** The first of the two: the source has two minus signs before a number. */
  lemma DoubleMinusReprinted(digits: string, rest: seq<Token>)
    ensures var twice := Unary(Sub, IntLit("-" + digits));
      && ParseUnary(Put(Sub, Put(Sub, Put(IntTok(digits), rest)))) == Parsed(twice, rest)
      && Print(0, twice, rest) == Put(Sub, Put(LParen, Put(Sub, Put(IntTok(digits), Put(RParen, rest)))))
  {
    SignRead(digits, rest);
    TwiceRead(digits, rest);
    SignPrinted(digits, Put(RParen, rest));
    MergingPrinted(IntLit("-" + digits), rest);
  }

  lemma TwiceRead(digits: string, rest: seq<Token>)
    requires ParseUnary(Put(Sub, Put(IntTok(digits), rest))) == Parsed(IntLit("-" + digits), rest)
    ensures ParseUnary(Put(Sub, Put(Sub, Put(IntTok(digits), rest)))) == Parsed(Unary(Sub, IntLit("-" + digits)), rest)
  {
  }

  lemma MergingPrinted(x: Expr, rest: seq<Token>)
    requires x.IntLit?
    ensures Print(0, Unary(Sub, x), rest) == Put(Sub, Put(LParen, PrintInt(x.raw, Put(RParen, rest))))
  {
    UnaryPrinted(0, Unary(Sub, x), rest);
    assert Print(0, x, Put(RParen, rest)) == PrintInt(x.raw, Put(RParen, rest));
  }

  /** The second: a dotted name as a constraint, which the dot keeps from being read as metadata. */
  lemma DottedConstraintReprinted(parts: seq<string>, rest: seq<Token>)
    requires NameText(false, parts) && |parts| > 1 && Head(rest).RParen?
    ensures Clause(PrintName(false, parts, rest)) == Parsed(Require(Ident(parts)), rest)
    ensures Print(0, Require(Ident(parts)), rest) == Put(LParen, PrintName(false, parts, Put(RParen, rest)))
  {
    DottedConstraintRead(parts, rest);
    RequirePrinted(Ident(parts), rest);
    NamePrinted(parts, Put(RParen, rest));
  }

  lemma DottedConstraintRead(parts: seq<string>, rest: seq<Token>)
    requires NameText(false, parts) && |parts| > 1 && Head(rest).RParen?
    ensures Clause(PrintName(false, parts, rest)) == Parsed(Require(Ident(parts)), rest)
  {
    var ts := PrintName(false, parts, rest);
    RefRead(false, false, parts, rest);
    PrimaryRead(ts);
    ClimbStops(Ident(parts), 1, rest);
    NameSecond(parts, rest);
    RequireRead(ts, Ident(parts), rest);
  }

  lemma NamePrinted(parts: seq<string>, rest: seq<Token>)
    ensures Print(0, Ident(parts), rest) == PrintName(false, parts, rest)
  {
  }
}
