/** The printer that writes as it walks the tree (parser/ast/print.go), against the tokens of `Print`.  An
  * operator it does not know is an error, after which it writes nothing more. */
module Printers {
  import opened Wrappers
  import opened Syntax
  import opened Grammar
  import opened Printing

  /** A property of every node of a tree. */
  predicate Everywhere(e: Expr, p: Expr -> bool)
    decreases e, 1
  {
    p(e) &&
    match e
    case Group(inner) => Everywhere(inner, p)
    case Unary(_, x) => Everywhere(x, p)
    case Binary(l, _, r) => Everywhere(l, p) && Everywhere(r, p)
    case Schema(typ, clauses) => Everywhere(typ, p) && AllHave(clauses, |clauses|, p)
    case Union(l, r) => Everywhere(l, p) && Everywhere(r, p)
    case Require(x) => Everywhere(x, p)
    case Attr(_, value) => value.Some? ==> Everywhere(value.value, p)
    case ListLit(es) => AllHave(es, |es|, p)
    case TupleLit(es) => AllHave(es, |es|, p)
    case ObjectLit(fs) => FieldsHave(fs, |fs|, p)
    case Call(_, _, args) => AllHave(args, |args|, p)
    case _ => true
  }

  /** The property in the first `n` elements. */
  predicate AllHave(es: seq<Expr>, n: nat, p: Expr -> bool)
    requires n <= |es|
    decreases es, 0, n
  {
    n == 0 || (AllHave(es, n - 1, p) && Everywhere(es[n - 1], p))
  }

  predicate FieldsHave(fs: seq<Entry>, n: nat, p: Expr -> bool)
    requires n <= |fs|
    decreases fs, 0, n
  {
    n == 0 || (FieldsHave(fs, n - 1, p) && Everywhere(fs[n - 1].value, p))
  }

  lemma {:induction false} AllHaveEach(es: seq<Expr>, n: nat, i: nat, p: Expr -> bool)
    requires i < n <= |es| && AllHave(es, n, p)
    ensures Everywhere(es[i], p)
  {
    if i < n - 1 { AllHaveEach(es, n - 1, i, p); }
  }

  lemma {:induction false} FieldsHaveEach(fs: seq<Entry>, n: nat, i: nat, p: Expr -> bool)
    requires i < n <= |fs| && FieldsHave(fs, n, p)
    ensures Everywhere(fs[i].value, p)
  {
    if i < n - 1 { FieldsHaveEach(fs, n - 1, i, p); }
  }

  predicate KnownOp(e: Expr) {
    (e.Unary? ==> e.op.IsUnary()) && (e.Binary? ==> e.op.IsBinary())
  }

  predicate IsTypeRef(e: Expr) {
    e.Name? || e.Path? || e.ListLit? || e.TupleLit? || e.ObjectLit?
  }

  predicate IsLiteral(e: Expr) {
    match e
    case NullLit => true
    case BoolLit(_) => true
    case IntLit(_) => true
    case DecimalLit(_) => true
    case StringLit(_) => true
    case ListLit(_) => true
    case TupleLit(_) => true
    case ObjectLit(_) => true
    case Schema(_, _) => true
    case _ => false
  }

  predicate UnionMember(e: Expr) {
    e.Union? || IsLiteral(e) || IsTypeRef(e)
  }

  /** The shapes outside of which the printer panics. */
  predicate Shaped(e: Expr) {
    && (e.Schema? ==> e.typ.Union? || IsTypeRef(e.typ))
    && (e.Union? ==> UnionMember(e.l) && UnionMember(e.r))
  }

  /** What a list prints from its `i`-th element on, separators included. */
  function FromElement(es: seq<Expr>, i: nat, rest: seq<Token>): seq<Token>
    requires i <= |es|
  {
    if i == 0 then PrintAll(es, rest)
    else if i == |es| then rest
    else Put(Comma, PrintAll(es[i..], rest))
  }

  function FromEntry(fs: seq<Entry>, i: nat, rest: seq<Token>): seq<Token>
    requires i <= |fs|
  {
    if i == 0 then PrintEntries(fs, rest)
    else if i == |fs| then rest
    else Put(Comma, PrintEntries(fs[i..], rest))
  }

  lemma NextElement(es: seq<Expr>, i: nat, rest: seq<Token>)
    requires i < |es|
    ensures FromElement(es, i, rest) ==
      if i == 0 then Print(0, es[i], FromElement(es, 1, rest))
      else Put(Comma, Print(0, es[i], FromElement(es, i + 1, rest)))
  {
    var tail := es[i..];
    if i + 1 < |es| { assert tail[1..] == es[i + 1..]; }
  }

  function PrintField(f: Entry, first: bool, rest: seq<Token>): seq<Token> {
    var field := Put(StringTok(f.key), Put(Colon, Print(0, f.value, rest)));
    if first then field else Put(Comma, field)
  }

  lemma NextEntry(fs: seq<Entry>, i: nat, rest: seq<Token>)
    requires i < |fs|
    ensures FromEntry(fs, i, rest) == PrintField(fs[i], i == 0, FromEntry(fs, i + 1, rest))
  {
    var tail := fs[i..];
    if i + 1 < |fs| { assert tail[1..] == fs[i + 1..]; }
  }

  lemma NextClause(cs: seq<Expr>, i: nat, rest: seq<Token>)
    requires i < |cs|
    ensures PrintClauses(cs[i..], rest) == Put(Comma, Print(0, cs[i], PrintClauses(cs[i + 1..], rest)))
  {
    assert cs[i..][1..] == cs[i + 1..];
  }

  class Printer {
    var out: seq<Token>
    var err: bool

    constructor ()
      ensures out == [] && !err
    {
      out, err := [], false;
    }

    /** `rest` is what will be written afterwards. */
    method Write(t: Token, ghost rest: seq<Token>)
      modifies this
      ensures err == old(err)
      ensures if err then out == old(out) else out + rest == old(out) + Put(t, rest)
    {
      if !err { out := out + [t]; }
    }

    /** Print a node, as an operand of precedence `minPrec` if it is an operator. */
    method Expr(e: Syntax.Expr, minPrec: nat, ghost rest: seq<Token>)
      requires Everywhere(e, Shaped)
      modifies this
      ensures err == (old(err) || !Everywhere(e, KnownOp))
      ensures !err ==> out + rest == old(out) + Print(minPrec, e, rest)
      decreases e, 4
    {
      if err { return; }
      if e.Unary? {
        Unary(e, rest);
      } else if e.Binary? {
        Binary(e, minPrec, rest);
      } else {
        Node(e, rest);
      }
    }

    method Unary(e: Syntax.Expr, ghost rest: seq<Token>)
      requires e.Unary? && Everywhere(e, Shaped) && !err
      modifies this
      ensures err == !Everywhere(e, KnownOp)
      ensures !err ==> out + rest == old(out) + Print(0, e, rest)
      decreases e, 0
    {
      if !e.op.IsUnary() {
        err := true;
        return;
      }
      if Merges(e.op, e.x) {
        Write(e.op, Put(LParen, Print(0, e.x, Put(RParen, rest))));
        Write(LParen, Print(0, e.x, Put(RParen, rest)));
        Node(e.x, Put(RParen, rest));
        Write(RParen, rest);
      } else {
        Write(e.op, Print(UNARY_PREC, e.x, rest));
        Expr(e.x, UNARY_PREC, rest);
      }
    }

    method Binary(e: Syntax.Expr, minPrec: nat, ghost rest: seq<Token>)
      requires e.Binary? && Everywhere(e, Shaped) && !err
      modifies this
      ensures err == !Everywhere(e, KnownOp)
      ensures !err ==> out + rest == old(out) + Print(minPrec, e, rest)
      decreases e, 1
    {
      var prec := e.op.Precedence();
      if prec == 0 {
        err := true;
        return;
      }
      if prec < minPrec {
        Write(LParen, PrintBinary(e, Put(RParen, rest)));
        Operands(e, Put(RParen, rest));
        Write(RParen, rest);
      } else {
        Operands(e, rest);
      }
    }

    method Operands(e: Syntax.Expr, ghost rest: seq<Token>)
      requires e.Binary? && Everywhere(e, Shaped) && !err && e.op.IsBinary()
      modifies this
      ensures err == !Everywhere(e, KnownOp)
      ensures !err ==> out + rest == old(out) + PrintBinary(e, rest)
      decreases e, 0
    {
      ghost var right := Print(e.op.Precedence() + 1, e.right, rest);
      Expr(e.left, LeftPrec(e.op), Put(e.op, right));
      Write(e.op, right);
      Expr(e.right, e.op.Precedence() + 1, rest);
    }

    method Node(e: Syntax.Expr, ghost rest: seq<Token>)
      requires Everywhere(e, Shaped)
      modifies this
      ensures err == (old(err) || !Everywhere(e, KnownOp))
      ensures !err ==> out + rest == old(out) + Print(0, e, rest)
      decreases e, 3
    {
      if err { return; }
      if IsLeaf(e) {
        Leaf(e, rest);
      } else if e.Schema? || e.Union? || e.Require? || e.Attr? {
        SchemaPart(e, rest);
      } else {
        Compound(e, rest);
      }
    }

    method Compound(e: Syntax.Expr, ghost rest: seq<Token>)
      requires !IsLeaf(e) && !e.Schema? && !e.Union? && !e.Require? && !e.Attr?
      requires Everywhere(e, Shaped) && !err
      modifies this
      ensures err == !Everywhere(e, KnownOp)
      ensures !err ==> out + rest == old(out) + Print(0, e, rest)
      decreases e, 2
    {
      if e.ListLit? || e.TupleLit? {
        Sequence(e, rest);
      } else if e.ObjectLit? {
        Object(e, rest);
      } else if e.Call? {
        Call(e, rest);
      } else if e.Group? {
        Parenthesised(e.inner, rest);
      } else if e.Unary? {
        Unary(e, rest);
      } else {
        Binary(e, 0, rest);
      }
    }

    method SchemaPart(e: Syntax.Expr, ghost rest: seq<Token>)
      requires (e.Schema? || e.Union? || e.Require? || e.Attr?) && Everywhere(e, Shaped) && !err
      modifies this
      ensures err == !Everywhere(e, KnownOp)
      ensures !err ==> out + rest == old(out) + Print(0, e, rest)
      decreases e, 1
    {
      if e.Schema? {
        Schema(e, rest);
      } else if e.Union? {
        Union(e, rest);
      } else if e.Require? {
        Constraint(e, rest);
      } else {
        Attribute(e, rest);
      }
    }

    predicate IsLeaf(e: Syntax.Expr) {
      e.NullLit? || e.BoolLit? || e.StringLit? || e.IntLit? || e.DecimalLit? || e.Name? || e.Path? || e.Ident?
    }

    method Leaf(e: Syntax.Expr, ghost rest: seq<Token>)
      requires IsLeaf(e) && !err
      modifies this
      ensures !err && out + rest == old(out) + Print(0, e, rest)
    {
      match e
      case NullLit => Write(NullTok, rest);
      case BoolLit(b) => Write(if b then TrueTok else FalseTok, rest);
      case StringLit(s) => Write(StringTok(s), rest);
      case Name(parts) => Dotted(false, parts, rest);
      case Path(parts) => Dotted(true, parts, rest);
      case Ident(parts) => Dotted(false, parts, rest);
      case IntLit(_) => Number(e, rest);
      case DecimalLit(_) => Number(e, rest);
      case _ =>
    }

    method Union(e: Syntax.Expr, ghost rest: seq<Token>)
      requires e.Union? && Everywhere(e, Shaped) && !err
      modifies this
      ensures err == !Everywhere(e, KnownOp)
      ensures !err ==> out + rest == old(out) + Print(0, e, rest)
      decreases e, 0
    {
      Node(e.l, Put(Pipe, Print(0, e.r, rest)));
      Write(Pipe, Print(0, e.r, rest));
      Node(e.r, rest);
    }

    /** A number; its sign is a token of its own. */
    method Number(e: Syntax.Expr, ghost rest: seq<Token>)
      requires (e.IntLit? || e.DecimalLit?) && !err
      modifies this
      ensures !err && out + rest == old(out) + Print(0, e, rest)
    {
      var digits := if Negative(e.raw) then e.raw[1..] else e.raw;
      var t := if e.IntLit? then IntTok(digits) else DecimalTok(digits);
      if Negative(e.raw) { Write(Sub, Put(t, rest)); }
      Write(t, rest);
    }

    method Sequence(e: Syntax.Expr, ghost rest: seq<Token>)
      requires (e.ListLit? || e.TupleLit?) && Everywhere(e, Shaped) && !err
      modifies this
      ensures err == !Everywhere(e, KnownOp)
      ensures !err ==> out + rest == old(out) + Print(0, e, rest)
      decreases e, 0
    {
      if e.ListLit? {
        Enclosed(LBrack, e.elems, RBrack, rest);
      } else {
        Enclosed(LTuple, e.elems, RBrace, rest);
      }
    }

    method Enclosed(open: Token, es: seq<Syntax.Expr>, close: Token, ghost rest: seq<Token>)
      requires AllHave(es, |es|, Shaped)
      requires !err
      modifies this
      ensures err == !AllHave(es, |es|, KnownOp)
      ensures !err ==> out + rest == old(out) + Put(open, PrintAll(es, Put(close, rest)))
      decreases es, 1
    {
      Write(open, PrintAll(es, Put(close, rest)));
      Elements(es, Put(close, rest));
      Write(close, rest);
    }

    method Elements(es: seq<Syntax.Expr>, ghost rest: seq<Token>)
      requires AllHave(es, |es|, Shaped)
      modifies this
      ensures err == (old(err) || !AllHave(es, |es|, KnownOp))
      ensures !err ==> out + rest == old(out) + PrintAll(es, rest)
      decreases es, 0
    {
      ghost var start := out;
      for i := 0 to |es|
        invariant err == (old(err) || !AllHave(es, i, KnownOp))
        invariant !err ==> out + FromElement(es, i, rest) == start + PrintAll(es, rest)
      {
        NextElement(es, i, rest);
        AllHaveEach(es, |es|, i, Shaped);
        if i != 0 { Write(Comma, Print(0, es[i], FromElement(es, i + 1, rest))); }
        Node(es[i], FromElement(es, i + 1, rest));
      }
    }

    method Object(e: Syntax.Expr, ghost rest: seq<Token>)
      requires e.ObjectLit? && Everywhere(e, Shaped) && !err
      modifies this
      ensures err == !Everywhere(e, KnownOp)
      ensures !err ==> out + rest == old(out) + Print(0, e, rest)
      decreases e, 0
    {
      Braced(e.entries, rest);
    }

    method Braced(fs: seq<Entry>, ghost rest: seq<Token>)
      requires FieldsHave(fs, |fs|, Shaped) && !err
      modifies this
      ensures err == !FieldsHave(fs, |fs|, KnownOp)
      ensures !err ==> out + rest == old(out) + Put(LBrace, FromEntry(fs, 0, Put(RBrace, rest)))
      decreases fs, 2
    {
      Write(LBrace, FromEntry(fs, 0, Put(RBrace, rest)));
      Fields(fs, Put(RBrace, rest));
      Write(RBrace, rest);
    }

    method Fields(fs: seq<Entry>, ghost rest: seq<Token>)
      requires FieldsHave(fs, |fs|, Shaped)
      modifies this
      ensures err == (old(err) || !FieldsHave(fs, |fs|, KnownOp))
      ensures !err ==> out + rest == old(out) + FromEntry(fs, 0, rest)
      decreases fs, 1
    {
      ghost var target := out + FromEntry(fs, 0, rest);
      for i := 0 to |fs|
        invariant err == (old(err) || !FieldsHave(fs, i, KnownOp))
        invariant !err ==> out + FromEntry(fs, i, rest) == target
      {
        FieldAt(fs, i, rest);
      }
      assert FromEntry(fs, |fs|, rest) == rest;
    }

    method FieldAt(fs: seq<Entry>, i: nat, ghost rest: seq<Token>)
      requires FieldsHave(fs, |fs|, Shaped) && i < |fs|
      modifies this
      ensures err == (old(err) || !Everywhere(fs[i].value, KnownOp))
      ensures !err ==> out + FromEntry(fs, i + 1, rest) == old(out) + FromEntry(fs, i, rest)
      decreases fs, 0
    {
      NextEntry(fs, i, rest);
      FieldsHaveEach(fs, |fs|, i, Shaped);
      Field(fs[i], i == 0, FromEntry(fs, i + 1, rest));
    }

    method Field(f: Entry, first: bool, ghost rest: seq<Token>)
      requires Everywhere(f.value, Shaped)
      modifies this
      ensures err == (old(err) || !Everywhere(f.value, KnownOp))
      ensures !err ==> out + rest == old(out) + PrintField(f, first, rest)
      decreases f
    {
      ghost var value := Print(0, f.value, rest);
      if !first { Write(Comma, Put(StringTok(f.key), Put(Colon, value))); }
      Write(StringTok(f.key), Put(Colon, value));
      Write(Colon, value);
      Node(f.value, rest);
    }

    method Schema(e: Syntax.Expr, ghost rest: seq<Token>)
      requires e.Schema? && Everywhere(e, Shaped) && !err
      modifies this
      ensures err == !Everywhere(e, KnownOp)
      ensures !err ==> out + rest == old(out) + Print(0, e, rest)
      decreases e, 0
    {
      ghost var after := Put(RParen, rest);
      Write(LParen, Print(0, e.typ, PrintClauses(e.clauses, after)));
      Node(e.typ, PrintClauses(e.clauses, after));
      Clauses(e.clauses, after);
      Write(RParen, rest);
    }

    method Clauses(cs: seq<Syntax.Expr>, ghost rest: seq<Token>)
      requires AllHave(cs, |cs|, Shaped)
      modifies this
      ensures err == (old(err) || !AllHave(cs, |cs|, KnownOp))
      ensures !err ==> out + rest == old(out) + PrintClauses(cs, rest)
      decreases cs
    {
      assert cs[0..] == cs;
      for i := 0 to |cs|
        invariant err == (old(err) || !AllHave(cs, i, KnownOp))
        invariant !err ==> out + PrintClauses(cs[i..], rest) == old(out) + PrintClauses(cs, rest)
      {
        NextClause(cs, i, rest);
        AllHaveEach(cs, |cs|, i, Shaped);
        Write(Comma, Print(0, cs[i], PrintClauses(cs[i + 1..], rest)));
        Node(cs[i], PrintClauses(cs[i + 1..], rest));
      }
    }

    method Dotted(dotted: bool, parts: seq<string>, ghost rest: seq<Token>)
      requires !err
      modifies this
      ensures !err && out + rest == old(out) + PrintName(dotted, parts, rest)
    {
      ghost var start := out;
      for i := 0 to |parts|
        invariant !err && out + FromPart(dotted, parts, i, rest) == start + PrintName(dotted, parts, rest)
      {
        NextPart(dotted, parts, i, rest);
        ghost var after := FromPart(dotted, parts, i + 1, rest);
        if dotted || i != 0 { Write(Dot, Put(ComponentToken(parts[i]), after)); }
        Write(ComponentToken(parts[i]), after);
      }
    }

    /** A constraint that is a bare name would read as metadata, so it gets parentheses. */
    method Constraint(e: Syntax.Expr, ghost rest: seq<Token>)
      requires e.Require? && Everywhere(e, Shaped) && !err
      modifies this
      ensures err == !Everywhere(e, KnownOp)
      ensures !err ==> out + rest == old(out) + Print(0, e, rest)
      decreases e, 0
    {
      if e.expr.Ident? { Parenthesised(e.expr, rest); } else { Node(e.expr, rest); }
    }

    method Parenthesised(e: Syntax.Expr, ghost rest: seq<Token>)
      requires Everywhere(e, Shaped) && !err
      modifies this
      ensures err == !Everywhere(e, KnownOp)
      ensures !err ==> out + rest == old(out) + Put(LParen, Print(0, e, Put(RParen, rest)))
      decreases e, 5
    {
      Write(LParen, Print(0, e, Put(RParen, rest)));
      Node(e, Put(RParen, rest));
      Write(RParen, rest);
    }

    method Attribute(e: Syntax.Expr, ghost rest: seq<Token>)
      requires e.Attr? && Everywhere(e, Shaped) && !err
      modifies this
      ensures err == !Everywhere(e, KnownOp)
      ensures !err ==> out + rest == old(out) + Print(0, e, rest)
      decreases e, 0
    {
      if e.value.Some? {
        var v := e.value.value;
        Write(ComponentToken(e.name), Put(Assign, Print(0, v, rest)));
        Write(Assign, Print(0, v, rest));
        Node(v, rest);
      } else {
        Write(ComponentToken(e.name), rest);
      }
    }

    method Call(e: Syntax.Expr, ghost rest: seq<Token>)
      requires e.Call? && Everywhere(e, Shaped) && !err
      modifies this
      ensures err == !Everywhere(e, KnownOp)
      ensures !err ==> out + rest == old(out) + Print(0, e, rest)
      decreases e, 0
    {
      ghost var args := PrintAll(e.args, Put(RParen, rest));
      Dotted(e.dotted, e.parts, Put(LParen, args));
      Write(LParen, args);
      Elements(e.args, Put(RParen, rest));
      Write(RParen, rest);
    }
  }

  /** What a name prints from its `i`-th component on, dots included. */
  function FromPart(dotted: bool, parts: seq<string>, i: nat, rest: seq<Token>): seq<Token>
    requires i <= |parts|
  {
    if i == |parts| then rest
    else if dotted || i != 0 then Put(Dot, PrintComponents(parts[i..], rest))
    else PrintComponents(parts, rest)
  }

  lemma NextPart(dotted: bool, parts: seq<string>, i: nat, rest: seq<Token>)
    requires i < |parts|
    ensures var part := Put(ComponentToken(parts[i]), FromPart(dotted, parts, i + 1, rest));
      FromPart(dotted, parts, i, rest) == if dotted || i != 0 then Put(Dot, part) else part
  {
    assert parts[i..][1..] == parts[i + 1..];
    assert parts[0..] == parts;
  }

  /** `Print`: the compact form of a tree, unless it holds an unknown operator. */
  method PrintTree(e: Syntax.Expr) returns (out: seq<Token>, err: bool)
    requires Everywhere(e, Shaped)
    ensures err <==> !Everywhere(e, KnownOp)
    ensures !err ==> out == Print(0, e, [])
  {
    var p := new Printer();
    p.Node(e, []);
    out, err := p.out, p.err;
    assert out + [] == out && [] + Print(0, e, []) == Print(0, e, []);
  }
}
