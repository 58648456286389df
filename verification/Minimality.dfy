/** When the printer adds no parentheses, and that printing again changes nothing (parser/ast/print.go). */
module Minimality {
  import opened Wrappers
  import opened Syntax
  import opened Grammar
  import opened Printing

  /** An operand of precedence `m` that needs no parentheses. */
  predicate Binds(m: nat, e: Expr) {
    e.Binary? ==> e.op.Precedence() >= m
  }

  /** Every operand binds as its place asks, throughout the tree. */
  predicate Minimal(e: Expr)
    decreases e
  {
    match e
    case ListLit(es) => forall i :: 0 <= i < |es| ==> Minimal(es[i])
    case TupleLit(es) => forall i :: 0 <= i < |es| ==> Minimal(es[i])
    case ObjectLit(fs) => forall i :: 0 <= i < |fs| ==> Minimal(fs[i].value)
    case Call(_, _, args) => forall i :: 0 <= i < |args| ==> Minimal(args[i])
    case Group(inner) => Minimal(inner)
    case Unary(_, x) => Minimal(x) && !x.Binary?
    case Binary(l, op, r) =>
      Minimal(l) && Binds(LeftPrec(op), l) && Minimal(r) && Binds(op.Precedence() + 1, r)
    case Schema(typ, clauses) => Minimal(typ) && forall i :: 0 <= i < |clauses| ==> Minimal(clauses[i])
    case Union(l, r) => Minimal(l) && Minimal(r)
    case Require(x) => Minimal(x)
    case Attr(_, value) => value.Some? ==> Minimal(value.value)
    case _ => true
  }

  /** No minus sign stands before a number literal, and no constraint is a bare name. */
  predicate PrintsAsIs(e: Expr)
    decreases e
  {
    match e
    case ListLit(es) => forall i :: 0 <= i < |es| ==> PrintsAsIs(es[i])
    case TupleLit(es) => forall i :: 0 <= i < |es| ==> PrintsAsIs(es[i])
    case ObjectLit(fs) => forall i :: 0 <= i < |fs| ==> PrintsAsIs(fs[i].value)
    case Call(_, _, args) => forall i :: 0 <= i < |args| ==> PrintsAsIs(args[i])
    case Group(inner) => PrintsAsIs(inner)
    case Unary(op, x) => !(op.Sub? && (x.IntLit? || x.DecimalLit?)) && PrintsAsIs(x)
    case Binary(l, _, r) => PrintsAsIs(l) && PrintsAsIs(r)
    case Schema(typ, clauses) => PrintsAsIs(typ) && forall i :: 0 <= i < |clauses| ==> PrintsAsIs(clauses[i])
    case Union(l, r) => PrintsAsIs(l) && PrintsAsIs(r)
    case Require(x) => !x.Ident? && PrintsAsIs(x)
    case Attr(_, value) => value.Some? ==> PrintsAsIs(value.value)
    case _ => true
  }

  /** On a minimal tree the printer adds no parentheses exactly when it has neither of the two. */
  lemma {:induction false} RegroupExact(m: nat, e: Expr)
    requires Minimal(e) && Binds(m, e)
    ensures Regroup(m, e) == e <==> PrintsAsIs(e)
    decreases e, 1
  {
    match e
    case ListLit(es) => RegroupAllExact(es);
    case TupleLit(es) => RegroupAllExact(es);
    case ObjectLit(fs) => RegroupEntriesExact(fs);
    case Call(_, _, args) => RegroupAllExact(args);
    case Group(inner) => RegroupExact(0, inner);
    case Unary(op, x) => RegroupExact(UNARY_PREC, x);
    case Binary(l, op, r) => RegroupBinaryExact(m, e);
    case Schema(typ, clauses) => RegroupExact(0, typ); RegroupAllExact(clauses);
    case Union(l, r) => RegroupExact(0, l); RegroupExact(0, r);
    case Require(x) => RegroupExact(0, x);
    case Attr(_, value) => if value.Some? { RegroupExact(0, value.value); }
    case _ =>
  }

  lemma {:induction false} RegroupBinaryExact(m: nat, e: Expr)
    requires e.Binary? && Minimal(e) && Binds(m, e)
    ensures Regroup(m, e) == e <==> PrintsAsIs(e)
    decreases e, 0
  {
    RegroupExact(LeftPrec(e.op), e.left);
    RegroupExact(e.op.Precedence() + 1, e.right);
  }

  lemma {:induction false} RegroupAllExact(es: seq<Expr>)
    requires forall i :: 0 <= i < |es| ==> Minimal(es[i])
    ensures RegroupAll(es) == es <==> forall i :: 0 <= i < |es| ==> PrintsAsIs(es[i])
    decreases es
  {
    forall i | 0 <= i < |es| ensures RegroupAll(es)[i] == es[i] <==> PrintsAsIs(es[i]) { RegroupExact(0, es[i]); }
  }

  lemma {:induction false} RegroupEntriesExact(fs: seq<Entry>)
    requires forall i :: 0 <= i < |fs| ==> Minimal(fs[i].value)
    ensures RegroupEntries(fs) == fs <==> forall i :: 0 <= i < |fs| ==> PrintsAsIs(fs[i].value)
    decreases fs
  {
    forall i | 0 <= i < |fs| ensures RegroupEntries(fs)[i] == fs[i] <==> PrintsAsIs(fs[i].value) {
      RegroupExact(0, fs[i].value);
    }
  }

  // ----- printing again

  /** The tree of the output prints as the tree itself: formatting twice is formatting once. */
  lemma {:induction false} PrintIdempotent(m: nat, e: Expr, rest: seq<Token>)
    ensures Print(m, Regroup(m, e), rest) == Print(m, e, rest)
    decreases e, 1
  {
    match e
    case ListLit(es) => PrintAllIdempotent(es, Put(RBrack, rest));
    case TupleLit(es) => PrintAllIdempotent(es, Put(RBrace, rest));
    case ObjectLit(fs) => PrintEntriesIdempotent(fs, Put(RBrace, rest));
    case Call(_, _, args) => PrintAllIdempotent(args, Put(RParen, rest));
    case Group(inner) => PrintIdempotent(0, inner, Put(RParen, rest));
    case Unary(_, _) => PrintUnaryIdempotent(m, e, rest);
    case Binary(_, _, _) =>
      PrintBinaryIdempotent(e, rest);
      PrintBinaryIdempotent(e, Put(RParen, rest));
      BinaryPlaced(m, e, rest);
      BinaryParentheses(m, RegroupOperands(e), rest);
    case Schema(_, _) => PrintTypeIdempotent(m, e, rest);
    case Union(_, _) => PrintTypeIdempotent(m, e, rest);
    case Require(_) => PrintClauseIdempotent(m, e, rest);
    case Attr(_, _) => PrintClauseIdempotent(m, e, rest);
    case _ =>
  }

  lemma {:induction false} PrintUnaryIdempotent(m: nat, e: Expr, rest: seq<Token>)
    requires e.Unary?
    ensures Print(m, Regroup(m, e), rest) == Print(m, e, rest)
    decreases e, 0
  {
    if !Merges(e.op, e.x) {
      PrintIdempotent(UNARY_PREC, e.x, rest);
      assert !Merges(e.op, Regroup(UNARY_PREC, e.x));
    } else {
      assert Print(UNARY_PREC, Group(e.x), rest) == Put(LParen, Print(0, e.x, Put(RParen, rest)));
    }
    UnaryPrinted(m, e, rest);
    UnaryPrinted(m, Regroup(m, e), rest);
  }

  lemma UnaryPrinted(m: nat, e: Expr, rest: seq<Token>)
    requires e.Unary?
    ensures Print(m, e, rest) ==
      Put(e.op, if Merges(e.op, e.x) then Put(LParen, Print(0, e.x, Put(RParen, rest))) else Print(UNARY_PREC, e.x, rest))
  {
  }

  lemma {:induction false} PrintTypeIdempotent(m: nat, e: Expr, rest: seq<Token>)
    requires e.Schema? || e.Union?
    ensures Print(m, Regroup(m, e), rest) == Print(m, e, rest)
    decreases e, 0
  {
    if e.Schema? {
      PrintClausesIdempotent(e.clauses, Put(RParen, rest));
      PrintIdempotent(0, e.typ, PrintClauses(e.clauses, Put(RParen, rest)));
    } else {
      PrintIdempotent(0, e.r, rest);
      PrintIdempotent(0, e.l, Put(Pipe, Print(0, e.r, rest)));
    }
  }

  lemma {:induction false} PrintClauseIdempotent(m: nat, e: Expr, rest: seq<Token>)
    requires e.Require? || e.Attr?
    ensures Print(m, Regroup(m, e), rest) == Print(m, e, rest)
    decreases e, 0
  {
    if e.Attr? {
      if e.value.Some? {
        PrintIdempotent(0, e.value.value, rest);
        SamePrintAttr(m, e.name, Regroup(0, e.value.value), e.value.value, rest);
      }
    } else if e.expr.Ident? {
      GroupPrinted(m, Group(e.expr), rest);
    } else {
      PrintIdempotent(0, e.expr, rest);
    }
  }

  lemma SamePrintAttr(m: nat, name: string, x: Expr, y: Expr, rest: seq<Token>)
    requires Print(0, x, rest) == Print(0, y, rest)
    ensures Print(m, Attr(name, Some(x)), rest) == Print(m, Attr(name, Some(y)), rest)
  {
  }

  lemma BinaryPlaced(m: nat, e: Expr, rest: seq<Token>)
    requires e.Binary?
    ensures Print(m, e, rest) ==
      if e.op.Precedence() < m then Put(LParen, PrintBinary(e, Put(RParen, rest))) else PrintBinary(e, rest)
  {
  }

  lemma GroupPrinted(m: nat, e: Expr, rest: seq<Token>)
    requires e.Group?
    ensures Print(m, e, rest) == Put(LParen, Print(0, e.inner, Put(RParen, rest)))
  {
  }

  /** A binary expression with or without its parentheses. */
  lemma BinaryParentheses(m: nat, d: Expr, rest: seq<Token>)
    requires d.Binary?
    ensures Print(m, if d.op.Precedence() < m then Group(d) else d, rest) ==
      if d.op.Precedence() < m then Put(LParen, PrintBinary(d, Put(RParen, rest))) else PrintBinary(d, rest)
  {
    if d.op.Precedence() < m {
      GroupPrinted(m, Group(d), rest);
      BinaryPlaced(0, d, Put(RParen, rest));
    } else {
      BinaryPlaced(m, d, rest);
    }
  }

  /** The regrouped operands, before any parentheses around the whole. */
  function RegroupOperands(e: Expr): Expr
    requires e.Binary?
  {
    Binary(Regroup(LeftPrec(e.op), e.left), e.op, Regroup(e.op.Precedence() + 1, e.right))
  }

  lemma {:induction false} PrintBinaryIdempotent(e: Expr, rest: seq<Token>)
    requires e.Binary?
    ensures PrintBinary(RegroupOperands(e), rest) == PrintBinary(e, rest)
    decreases e, 0
  {
    var d := RegroupOperands(e);
    PrintIdempotent(e.op.Precedence() + 1, e.right, rest);
    PrintIdempotent(LeftPrec(e.op), e.left, Put(e.op, Print(e.op.Precedence() + 1, e.right, rest)));
    SamePrintBinary(d, e, rest);
  }

  lemma SamePrintBinary(d: Expr, e: Expr, rest: seq<Token>)
    requires d.Binary? && e.Binary? && d.op == e.op
    requires Print(e.op.Precedence() + 1, d.right, rest) == Print(e.op.Precedence() + 1, e.right, rest)
    requires var more := Put(e.op, Print(e.op.Precedence() + 1, e.right, rest));
      Print(LeftPrec(e.op), d.left, more) == Print(LeftPrec(e.op), e.left, more)
    ensures PrintBinary(d, rest) == PrintBinary(e, rest)
  {
  }

  lemma {:induction false} PrintAllIdempotent(es: seq<Expr>, rest: seq<Token>)
    ensures PrintAll(RegroupAll(es), rest) == PrintAll(es, rest)
    decreases es
  {
    if es != [] {
      var more := if |es| == 1 then rest else Put(Comma, PrintAll(es[1..], rest));
      PrintAllIdempotent(es[1..], rest);
      PrintIdempotent(0, es[0], more);
      assert RegroupAll(es)[1..] == RegroupAll(es[1..]);
    }
  }

  lemma {:induction false} PrintEntriesIdempotent(fs: seq<Entry>, rest: seq<Token>)
    ensures PrintEntries(RegroupEntries(fs), rest) == PrintEntries(fs, rest)
    decreases fs
  {
    if fs != [] {
      var more := if |fs| == 1 then rest else Put(Comma, PrintEntries(fs[1..], rest));
      PrintEntriesIdempotent(fs[1..], rest);
      PrintIdempotent(0, fs[0].value, more);
      assert RegroupEntries(fs)[1..] == RegroupEntries(fs[1..]);
    }
  }

  lemma {:induction false} PrintClausesIdempotent(cs: seq<Expr>, rest: seq<Token>)
    ensures PrintClauses(RegroupAll(cs), rest) == PrintClauses(cs, rest)
    decreases cs
  {
    if cs != [] {
      PrintClausesIdempotent(cs[1..], rest);
      PrintIdempotent(0, cs[0], PrintClauses(cs[1..], rest));
      assert RegroupAll(cs)[1..] == RegroupAll(cs[1..]);
    }
  }
}
