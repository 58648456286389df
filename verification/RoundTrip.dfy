/** Parsing what the printer wrote gives the tree back, up to the parentheses it added
  * (parser/parser.go, parser/expr.go, parser/ast/print.go). */
module RoundTrip {
  import opened Wrappers
  import opened Syntax
  import opened Grammar
  import opened Printing

  /** Not a continuation of a name. */
  predicate Apart(rest: seq<Token>) {
    !Head(rest).Dot? && !Head(rest).LParen?
  }

  /** What may follow a printed operand of precedence `k`: no stronger operator, and no equality after an equality. */
  predicate Follows(k: nat, rest: seq<Token>) {
    var h := Head(rest).Precedence();
    Apart(rest) && (h < k || (h == k && k != Eq.Precedence()))
  }

  /** What ends an expression. */
  predicate Ends(rest: seq<Token>) {
    Apart(rest) && Head(rest).Precedence() == 0
  }

  predicate Open(e: Expr, k: nat) {
    e.Binary? && e.op.Precedence() >= k
  }

  /** Moving the next element of a list to the accumulator. */
  lemma Shift<T>(acc: seq<T>, xs: seq<T>)
    requires xs != []
    ensures (acc + [xs[0]]) + xs[1..] == acc + xs
    ensures |xs| == 1 ==> acc + [xs[0]] == acc + xs
  {
  }

  // ----- names

  lemma ComponentRead(text: string)
    ensures ComponentText(ComponentToken(text)) == Some(text)
    ensures ComponentToken(text).Word? <==> !IsKeyword(text)
  {
  }

  /** Name tokens with dots between them. */
  function PrintTokens(tokens: seq<Token>, rest: seq<Token>): seq<Token>
    requires tokens != []
  {
    Put(tokens[0], if |tokens| == 1 then rest else Put(Dot, PrintTokens(tokens[1..], rest)))
  }

  function TokensOf(parts: seq<string>): (tokens: seq<Token>)
    ensures |tokens| == |parts| && forall i :: 0 <= i < |parts| ==> tokens[i] == ComponentToken(parts[i])
  {
    seq(|parts|, i requires 0 <= i < |parts| => ComponentToken(parts[i]))
  }

  lemma {:induction false} PrintsTokens(parts: seq<string>, rest: seq<Token>)
    requires parts != []
    ensures PrintComponents(parts, rest) == PrintTokens(TokensOf(parts), rest)
  {
    if |parts| > 1 {
      assert TokensOf(parts)[1..] == TokensOf(parts[1..]);
      PrintsTokens(parts[1..], rest);
    }
  }

  lemma ComponentStep(acc: seq<string>, t: Token, text: string, more: seq<Token>)
    requires ComponentText(t) == Some(text)
    ensures Components(acc, Put(t, more)) ==
            if Head(more).Dot? then Components(acc + [text], Tail(more)) else Parsed(acc + [text], more)
  {
  }

  lemma {:induction false} TokensRead(acc: seq<string>, tokens: seq<Token>, parts: seq<string>, rest: seq<Token>)
    requires |tokens| == |parts| > 0 && !Head(rest).Dot?
    requires forall i :: 0 <= i < |parts| ==> ComponentText(tokens[i]) == Some(parts[i])
    ensures Components(acc, PrintTokens(tokens, rest)) == Parsed(acc + parts, rest)
    decreases |parts|
  {
    Shift(acc, parts);
    if |parts| == 1 {
      ComponentStep(acc, tokens[0], parts[0], rest);
    } else {
      ComponentStep(acc, tokens[0], parts[0], Put(Dot, PrintTokens(tokens[1..], rest)));
      TokensRead(acc + [parts[0]], tokens[1..], parts[1..], rest);
    }
  }

  lemma ComponentsRead(parts: seq<string>, rest: seq<Token>)
    requires parts != [] && !Head(rest).Dot?
    ensures Components([], PrintComponents(parts, rest)) == Parsed(parts, rest)
  {
    forall i | 0 <= i < |parts| ensures ComponentText(TokensOf(parts)[i]) == Some(parts[i]) {
      ComponentRead(parts[i]);
    }
    PrintsTokens(parts, rest);
    TokensRead([], TokensOf(parts), parts, rest);
    assert [] + parts == parts;
  }

  /** The components of a printed name, read back. */
  lemma NameRead(dotted: bool, parts: seq<string>, rest: seq<Token>)
    requires NameText(dotted, parts) && !Head(rest).Dot?
    ensures var ts := PrintName(dotted, parts, rest);
      && (dotted <==> Head(ts).Dot?) && (!dotted ==> Head(ts).Word?)
      && Components([], if dotted then Tail(ts) else ts) == Parsed(parts, rest)
  {
    ComponentRead(parts[0]);
    ComponentsRead(parts, rest);
  }

  /** A name alone, as an expression or as a type. */
  lemma RefRead(isType: bool, dotted: bool, parts: seq<string>, rest: seq<Token>)
    requires NameText(dotted, parts) && Apart(rest)
    ensures Ref(isType, PrintName(dotted, parts, rest)) ==
            Parsed(if dotted then Path(parts) else if isType then Name(parts) else Ident(parts), rest)
    ensures var h := Head(PrintName(dotted, parts, rest)); if dotted then h.Dot? else h.Word?
  {
    NameRead(dotted, parts, rest);
  }

  lemma CallRead(dotted: bool, parts: seq<string>, args: seq<Expr>, after: seq<Token>, rest: seq<Token>)
    requires NameText(dotted, parts) && Arguments([], after) == Parsed(args, rest)
    ensures Ref(false, PrintName(dotted, parts, Put(LParen, after))) == Parsed(Call(dotted, parts, args), rest)
    ensures var h := Head(PrintName(dotted, parts, Put(LParen, after))); if dotted then h.Dot? else h.Word?
  {
    NameRead(dotted, parts, Put(LParen, after));
  }

  lemma GroupRead(body: seq<Token>, t: Expr, rest: seq<Token>)
    requires ParseExpr(1, body) == Parsed(t, Put(RParen, rest))
    ensures ParseUnary(Put(LParen, body)) == Parsed(Group(t), rest)
  {
    var ts := Put(LParen, body);
    assert ParseGroup(ts) == Parsed(Group(t), rest);
    assert Primary(ts) == ParseGroup(ts);
  }

  lemma SequenceRead(tuple: bool, body: seq<Token>, es: seq<Expr>, rest: seq<Token>)
    requires Values(if tuple then RBrace else RBrack, [], body) == Parsed(es, rest)
    ensures Json(Put(if tuple then LTuple else LBrack, body)) == Parsed(if tuple then TupleLit(es) else ListLit(es), rest)
  {
  }

  lemma ObjectRead(body: seq<Token>, fs: seq<Entry>, rest: seq<Token>)
    requires Entries([], body) == Parsed(fs, rest)
    ensures Json(Put(LBrace, body)) == Parsed(ObjectLit(fs), rest)
  {
  }

  lemma RequireRead(ts: seq<Token>, e: Expr, rest: seq<Token>)
    requires ParseExpr(1, ts) == Parsed(e, rest) && (Head(rest).Comma? || Head(rest).RParen?)
    requires !(Head(ts).Word? && EndsMetadata(Head(Tail(ts))))
    ensures Clause(ts) == Parsed(Require(e), rest)
  {
  }

  lemma PrimaryRead(ts: seq<Token>)
    ensures Head(ts).Word? || Head(ts).Dot? ==> ParseUnary(ts) == Ref(false, ts)
    ensures StartsJson(Head(ts)) ==> ParseUnary(ts) == Json(ts)
  {
  }

  // ----- one turn of each loop of the grammar

  lemma ArgumentStep(acc: seq<Expr>, ts: seq<Token>, x: Expr, rest: seq<Token>)
    requires !Head(ts).RParen? && ParseExpr(1, ts) == Parsed(x, rest)
    ensures Head(rest).Comma? ==> Arguments(acc, ts) == Arguments(acc + [x], Tail(rest))
    ensures Head(rest).RParen? ==> Arguments(acc, ts) == Parsed(acc + [x], Tail(rest))
  {
  }

  lemma ValueStep(end: Token, acc: seq<Expr>, ts: seq<Token>, x: Expr, rest: seq<Token>)
    requires Head(ts) != end && end != Comma && Value(ts) == Parsed(x, rest)
    ensures Head(rest).Comma? ==> Values(end, acc, ts) == Values(end, acc + [x], Tail(rest))
    ensures Head(rest) == end ==> Values(end, acc, ts) == Parsed(acc + [x], Tail(rest))
  {
  }

  lemma EntryStep(acc: seq<Entry>, key: string, body: seq<Token>, x: Expr, rest: seq<Token>)
    requires Value(body) == Parsed(x, rest)
    ensures var ts := Put(StringTok(key), Put(Colon, body));
      && (Head(rest).Comma? ==> Entries(acc, ts) == Entries(acc + [Entry(key, x)], Tail(rest)))
      && (Head(rest).RBrace? ==> Entries(acc, ts) == Parsed(acc + [Entry(key, x)], Tail(rest)))
  {
  }

  lemma ClimbStep(left: Expr, op: Token, m: nat, body: seq<Token>, right: Expr, rest: seq<Token>)
    requires 1 <= m <= op.Precedence() && ParseExpr(op.Precedence() + 1, body) == Parsed(right, rest)
    requires !(op.Precedence() == Eq.Precedence() == Head(rest).Precedence())
    ensures Climb(left, m, Put(op, body)) == Climb(Binary(left, op, right), m, rest)
  {
  }

  lemma ClimbStops(left: Expr, m: nat, ts: seq<Token>)
    requires m >= 1 && Head(ts).Precedence() < m
    ensures Climb(left, m, ts) == Parsed(left, ts)
  {
  }

  lemma SchemaRead(body: seq<Token>, typ: Expr, more: seq<Token>, clauses: seq<Expr>, rest: seq<Token>)
    requires TypeSum(body) == Parsed(typ, more) && ParseClauses([], more) == Parsed(clauses, rest)
    ensures ParseSchema(Put(LParen, body)) == Parsed(Schema(typ, clauses), rest)
  {
  }

  lemma TypeAtomRead(ts: seq<Token>)
    ensures Head(ts).Word? || Head(ts).Dot? ==> TypeAtom(ts) == Ref(true, ts)
    ensures Head(ts).LParen? ==> TypeAtom(ts) == ParseSchema(ts)
    ensures Head(ts).LBrack? || Head(ts).LTuple? || Head(ts).LBrace? ==> TypeAtom(ts) == Json(ts)
  {
  }

  // ----- which tokens a printed tree can start with

  /** Only a number starts with a number token. */
  lemma UnaryHead(x: Expr, rest: seq<Token>)
    requires IsExpr(x)
    ensures Head(Print(UNARY_PREC, x, rest)).IntTok? ==> x.IntLit?
    ensures Head(Print(UNARY_PREC, x, rest)).DecimalTok? ==> x.DecimalLit?
  {
  }

  // ----- expressions

  lemma {:induction false} UnaryReads(m: nat, e: Expr, rest: seq<Token>)
    requires IsExpr(e) && !Open(e, m) && Apart(rest)
    ensures ParseUnary(Print(m, e, rest)) == Parsed(Regroup(m, e), rest)
    decreases e, 6
  {
    if e.Group? {
      GroupReads(e, rest);
    } else if e.Unary? {
      UnaryOpReads(e, rest);
    } else if e.Binary? {
      ParenthesesRead(m, e, rest);
    } else if e.Ident? || e.Path? || e.Call? {
      RefReads(e, rest);
    } else {
      LiteralReads(e, rest);
    }
  }

  lemma {:induction false} GroupReads(e: Expr, rest: seq<Token>)
    requires IsExpr(e) && e.Group?
    ensures ParseUnary(Print(0, e, rest)) == Parsed(Regroup(0, e), rest)
    decreases e, 5
  {
    ExprReads(0, e.inner, Put(RParen, rest));
    GroupRead(Print(0, e.inner, Put(RParen, rest)), Regroup(0, e.inner), rest);
  }

  lemma {:induction false} RefReads(e: Expr, rest: seq<Token>)
    requires IsExpr(e) && (e.Ident? || e.Path? || e.Call?) && Apart(rest)
    ensures ParseUnary(Print(0, e, rest)) == Parsed(Regroup(0, e), rest)
    decreases e, 5
  {
    PrimaryRead(Print(0, e, rest));
    if e.Call? {
      CallReads(e, rest);
    } else {
      RefRead(false, e.Path?, e.parts, rest);
    }
  }

  lemma {:induction false} CallReads(e: Expr, rest: seq<Token>)
    requires IsExpr(e) && e.Call?
    ensures Ref(false, Print(0, e, rest)) == Parsed(Regroup(0, e), rest)
    ensures Head(Print(0, e, rest)).Word? || Head(Print(0, e, rest)).Dot?
    decreases e, 4
  {
    ArgumentsRead([], e.args, rest);
    assert [] + RegroupAll(e.args) == RegroupAll(e.args);
    CallRead(e.dotted, e.parts, RegroupAll(e.args), PrintAll(e.args, Put(RParen, rest)), rest);
  }

  lemma {:induction false} ParenthesesRead(m: nat, e: Expr, rest: seq<Token>)
    requires IsExpr(e) && e.Binary? && !Open(e, m)
    ensures ParseUnary(Print(m, e, rest)) == Parsed(Regroup(m, e), rest)
    decreases e, 5
  {
    BinaryReads(e, 1, 1, Put(RParen, rest));
    GroupRead(PrintBinary(e, Put(RParen, rest)), Regroup(1, e), rest);
  }

  lemma {:induction false} UnaryOpReads(e: Expr, rest: seq<Token>)
    requires IsExpr(e) && e.Unary? && Apart(rest)
    ensures ParseUnary(Print(0, e, rest)) == Parsed(Regroup(0, e), rest)
    decreases e, 5
  {
    if Merges(e.op, e.x) {
      ExprReads(0, e.x, Put(RParen, rest));
      GroupRead(Print(0, e.x, Put(RParen, rest)), e.x, rest);
    } else {
      UnaryHead(e.x, rest);
      UnaryReads(UNARY_PREC, e.x, rest);
    }
  }

  /** A literal in an expression; a negative number is read by the sign rule. */
  lemma {:induction false} LiteralReads(e: Expr, rest: seq<Token>)
    requires IsJson(e)
    ensures ParseUnary(Print(0, e, rest)) == Parsed(Regroup(0, e), rest)
    decreases e, 5
  {
    if e.IntLit? || e.DecimalLit? {
      NumberReads(e, rest);
    } else {
      JsonReads(e, rest);
      LiteralHead(e, rest);
      PrimaryRead(Print(0, e, rest));
    }
  }

  lemma LiteralHead(e: Expr, rest: seq<Token>)
    requires IsJson(e) && !e.IntLit? && !e.DecimalLit?
    ensures StartsJson(Head(Print(0, e, rest)))
  {
  }

  lemma NumberReads(e: Expr, rest: seq<Token>)
    requires IsJson(e) && (e.IntLit? || e.DecimalLit?)
    ensures ParseUnary(Print(0, e, rest)) == Parsed(e, rest)
  {
    NumberRead(e, rest);
    var ts := Print(0, e, rest);
    if !Negative(e.raw) {
      PrimaryRead(ts);
      assert Json(ts) == Number(ts);
    }
  }

  /** An operand of precedence `k` is read up to the loop that climbs from `m`. */
  lemma {:induction false} OperandReads(k: nat, e: Expr, m: nat, rest: seq<Token>)
    requires IsExpr(e) && 1 <= m <= k && Follows(k, rest)
    ensures ParseExpr(m, Print(k, e, rest)) == Climb(Regroup(k, e), m, rest)
    decreases e, 7
  {
    if Open(e, k) { BinaryReads(e, k, m, rest); } else { UnaryReads(k, e, rest); }
  }

  lemma {:induction false} BinaryReads(e: Expr, k: nat, m: nat, rest: seq<Token>)
    requires IsExpr(e) && Open(e, k) && 1 <= m <= k && Follows(k, rest)
    ensures ParseExpr(m, PrintBinary(e, rest)) == Climb(Regroup(k, e), m, rest)
    decreases e, 4
  {
    var p := e.op.Precedence();
    OperandReads(LeftPrec(e.op), e.left, m, Put(e.op, Print(p + 1, e.right, rest)));
    OperandReads(p + 1, e.right, p + 1, rest);
    ClimbStops(Regroup(p + 1, e.right), p + 1, rest);
    ClimbStep(Regroup(LeftPrec(e.op), e.left), e.op, m, Print(p + 1, e.right, rest), Regroup(p + 1, e.right), rest);
  }

  /** A whole expression. */
  lemma {:induction false} ExprReads(k: nat, e: Expr, rest: seq<Token>)
    requires IsExpr(e) && k <= 1 && Ends(rest)
    ensures ParseExpr(1, Print(k, e, rest)) == Parsed(Regroup(k, e), rest)
    decreases e, 8
  {
    LoosePrint(k, e, rest);
    OperandReads(1, e, 1, rest);
  }

  /** No operator is weaker than 1. */
  lemma LoosePrint(k: nat, e: Expr, rest: seq<Token>)
    requires IsExpr(e) && k <= 1
    ensures Print(k, e, rest) == Print(1, e, rest) && Regroup(k, e) == Regroup(1, e)
  {
  }

  /** No expression starts with a closing token. */
  lemma {:induction false} ExprHead(k: nat, e: Expr, rest: seq<Token>)
    requires IsExpr(e)
    ensures var h := Head(Print(k, e, rest)); !h.RParen? && !h.RBrack? && !h.RBrace? && !h.Comma?
    decreases e
  {
    if e.Binary? && Open(e, k) {
      ExprHead(LeftPrec(e.op), e.left, Put(e.op, Print(e.op.Precedence() + 1, e.right, rest)));
    } else if e.Ident? || e.Path? || e.Call? {
      ComponentRead(e.parts[0]);
    }
  }

  lemma {:induction false} ArgumentsRead(acc: seq<Expr>, args: seq<Expr>, rest: seq<Token>)
    requires forall i :: 0 <= i < |args| ==> IsExpr(args[i])
    ensures Arguments(acc, PrintAll(args, Put(RParen, rest))) == Parsed(acc + RegroupAll(args), rest)
    decreases args
  {
    if args == [] {
      assert acc + RegroupAll(args) == acc;
    } else {
      var more := if |args| == 1 then Put(RParen, rest) else Put(Comma, PrintAll(args[1..], Put(RParen, rest)));
      ExprHead(0, args[0], more);
      ExprReads(0, args[0], more);
      var acc' := acc + [Regroup(0, args[0])];
      Shift(acc, RegroupAll(args));
      assert RegroupAll(args)[1..] == RegroupAll(args[1..]);
      ArgumentStep(acc, Print(0, args[0], more), Regroup(0, args[0]), more);
      if |args| > 1 { ArgumentsRead(acc', args[1..], rest); }
    }
  }

  // ----- values

  lemma NumberRead(e: Expr, rest: seq<Token>)
    requires IsJson(e)
    ensures e.IntLit? && Negative(e.raw) ==> "-" + e.raw[1..] == e.raw
    ensures e.DecimalLit? && Negative(e.raw) ==> "-" + e.raw[1..] == e.raw
    ensures e.IntLit? || e.DecimalLit? ==> "" + e.raw == e.raw
  {
  }

  lemma {:induction false} JsonReads(e: Expr, rest: seq<Token>)
    requires IsJson(e)
    ensures Json(Print(0, e, rest)) == Parsed(Regroup(0, e), rest)
    decreases e, 0, 1
  {
    if e.ListLit? || e.TupleLit? {
      SequenceReads(e, rest);
    } else if e.ObjectLit? {
      ObjectReads(e, rest);
    } else {
      ScalarRead(e, rest);
    }
  }

  lemma {:induction false} SequenceReads(e: Expr, rest: seq<Token>)
    requires IsJson(e) && (e.ListLit? || e.TupleLit?)
    ensures Json(Print(0, e, rest)) == Parsed(Regroup(0, e), rest)
    decreases e, 0, 0
  {
    var end := if e.ListLit? then RBrack else RBrace;
    ValuesRead(end, [], e.elems, rest);
    assert [] + RegroupAll(e.elems) == RegroupAll(e.elems);
    SequenceRead(e.TupleLit?, PrintAll(e.elems, Put(end, rest)), RegroupAll(e.elems), rest);
  }

  lemma {:induction false} ObjectReads(e: Expr, rest: seq<Token>)
    requires IsJson(e) && e.ObjectLit?
    ensures Json(Print(0, e, rest)) == Parsed(Regroup(0, e), rest)
    decreases e, 0, 0
  {
    EntriesRead([], e.entries, rest);
    assert [] + RegroupEntries(e.entries) == RegroupEntries(e.entries);
    ObjectRead(PrintEntries(e.entries, Put(RBrace, rest)), RegroupEntries(e.entries), rest);
  }

  lemma ScalarRead(e: Expr, rest: seq<Token>)
    requires IsJson(e) && !e.ListLit? && !e.TupleLit? && !e.ObjectLit?
    ensures Json(Print(0, e, rest)) == Parsed(e, rest)
  {
    if e.IntLit? || e.DecimalLit? { JsonNumberRead(e, rest); }
  }

  lemma JsonNumberRead(e: Expr, rest: seq<Token>)
    requires IsJson(e) && (e.IntLit? || e.DecimalLit?)
    ensures Json(Print(0, e, rest)) == Parsed(e, rest)
  {
    NumberRead(e, rest);
    if Negative(e.raw) {
      NegativeJson(e.IntLit?, e.raw[1..], rest);
    } else {
      PositiveJson(e.IntLit?, e.raw, rest);
    }
  }

  function NumberToken(isInt: bool, text: string): Token {
    if isInt then IntTok(text) else DecimalTok(text)
  }

  function NumberLiteral(isInt: bool, raw: string): Expr {
    if isInt then IntLit(raw) else DecimalLit(raw)
  }

  lemma PositiveJson(isInt: bool, text: string, rest: seq<Token>)
    ensures Json(Put(NumberToken(isInt, text), rest)) == Parsed(NumberLiteral(isInt, text), rest)
  {
    assert "" + text == text;
    var ts := Put(NumberToken(isInt, text), rest);
    assert Json(ts) == Number(ts);
  }

  lemma NegativeJson(isInt: bool, text: string, rest: seq<Token>)
    ensures Json(Put(Sub, Put(NumberToken(isInt, text), rest))) == Parsed(NumberLiteral(isInt, "-" + text), rest)
  {
    var ts := Put(Sub, Put(NumberToken(isInt, text), rest));
    assert Json(ts) == Number(ts);
  }

  lemma {:induction false} ValuesRead(end: Token, acc: seq<Expr>, es: seq<Expr>, rest: seq<Token>)
    requires end.RBrack? || end.RBrace?
    requires forall i :: 0 <= i < |es| ==> IsRoot(es[i])
    ensures Values(end, acc, PrintAll(es, Put(end, rest))) == Parsed(acc + RegroupAll(es), rest)
    decreases es
  {
    if es == [] {
      assert acc + RegroupAll(es) == acc;
    } else {
      var more := if |es| == 1 then Put(end, rest) else Put(Comma, PrintAll(es[1..], Put(end, rest)));
      ValueReads(es[0], more);
      var acc' := acc + [Regroup(0, es[0])];
      Shift(acc, RegroupAll(es));
      assert RegroupAll(es)[1..] == RegroupAll(es[1..]);
      ValueStep(end, acc, Print(0, es[0], more), Regroup(0, es[0]), more);
      if |es| > 1 { ValuesRead(end, acc', es[1..], rest); }
    }
  }

  lemma PrintedEntry(fs: seq<Entry>, rest: seq<Token>)
    requires fs != []
    ensures PrintEntries(fs, rest) ==
      Put(StringTok(fs[0].key), Put(Colon, Print(0, fs[0].value,
        if |fs| == 1 then rest else Put(Comma, PrintEntries(fs[1..], rest)))))
    ensures RegroupEntries(fs) == [Entry(fs[0].key, Regroup(0, fs[0].value))] + RegroupEntries(fs[1..])
    ensures RegroupEntries(fs)[1..] == RegroupEntries(fs[1..])
  {
  }

  lemma {:induction false} EntriesRead(acc: seq<Entry>, fs: seq<Entry>, rest: seq<Token>)
    requires forall i :: 0 <= i < |fs| ==> IsRoot(fs[i].value)
    ensures Entries(acc, PrintEntries(fs, Put(RBrace, rest))) == Parsed(acc + RegroupEntries(fs), rest)
    decreases fs, 1
  {
    if fs == [] {
      assert acc + RegroupEntries(fs) == acc;
    } else if |fs| == 1 {
      LastEntryRead(acc, fs, rest);
    } else {
      var more := Put(Comma, PrintEntries(fs[1..], Put(RBrace, rest)));
      var acc' := acc + [Entry(fs[0].key, Regroup(0, fs[0].value))];
      ValueReads(fs[0].value, more);
      EntriesRead(acc', fs[1..], rest);
      EntryThenMore(acc, fs, Put(RBrace, rest), more);
      Shift(acc, RegroupEntries(fs));
    }
  }

  lemma EntryThenMore(acc: seq<Entry>, fs: seq<Entry>, rest: seq<Token>, more: seq<Token>)
    requires |fs| > 1 && more == Put(Comma, PrintEntries(fs[1..], rest))
    requires Value(Print(0, fs[0].value, more)) == Parsed(Regroup(0, fs[0].value), more)
    ensures Entries(acc, PrintEntries(fs, rest)) ==
            Entries(acc + [RegroupEntries(fs)[0]], PrintEntries(fs[1..], rest))
    ensures RegroupEntries(fs)[1..] == RegroupEntries(fs[1..])
  {
    PrintedEntry(fs, rest);
    EntryStep(acc, fs[0].key, Print(0, fs[0].value, more), Regroup(0, fs[0].value), more);
  }

  lemma {:induction false} LastEntryRead(acc: seq<Entry>, fs: seq<Entry>, rest: seq<Token>)
    requires |fs| == 1 && IsRoot(fs[0].value)
    ensures Entries(acc, PrintEntries(fs, Put(RBrace, rest))) == Parsed(acc + RegroupEntries(fs), rest)
    decreases fs, 0
  {
    var more := Put(RBrace, rest);
    ValueReads(fs[0].value, more);
    PrintedEntry(fs, more);
    Shift(acc, RegroupEntries(fs));
    EntryStep(acc, fs[0].key, Print(0, fs[0].value, more), Regroup(0, fs[0].value), more);
  }

  lemma {:induction false} ValueReads(e: Expr, rest: seq<Token>)
    requires IsRoot(e) && Ends(rest) && !Head(rest).Pipe?
    ensures Value(Print(0, e, rest)) == Parsed(Regroup(0, e), rest)
    ensures var h := Head(Print(0, e, rest)); !h.RBrack? && !h.RBrace?
    decreases e, 9
  {
    if IsJson(e) {
      JsonReads(e, rest);
    } else {
      SchemasRead(e, rest);
    }
  }

  // ----- schemas

  lemma {:induction false} SchemasRead(e: Expr, rest: seq<Token>)
    requires IsSchemas(e)
    ensures SchemaSum(Print(0, e, rest)) == MoreSchemas(Regroup(0, e), rest)
    ensures Head(Print(0, e, rest)).LParen?
    decreases e, 3
  {
    if e.Union? {
      SchemaReads(e.r, rest);
      SchemasRead(e.l, Put(Pipe, Print(0, e.r, rest)));
    } else {
      SchemaReads(e, rest);
    }
  }

  lemma {:induction false} SchemaReads(e: Expr, rest: seq<Token>)
    requires IsSchema(e)
    ensures ParseSchema(Print(0, e, rest)) == Parsed(Regroup(0, e), rest)
    decreases e, 2
  {
    var more := PrintClauses(e.clauses, Put(RParen, rest));
    ClausesRead([], e.clauses, rest);
    assert [] + RegroupAll(e.clauses) == RegroupAll(e.clauses);
    TypesRead(e.typ, more);
    SchemaRead(Print(0, e.typ, more), Regroup(0, e.typ), more, RegroupAll(e.clauses), rest);
  }

  lemma {:induction false} ClausesRead(acc: seq<Expr>, cs: seq<Expr>, rest: seq<Token>)
    requires forall i :: 0 <= i < |cs| ==> IsClause(cs[i])
    ensures ParseClauses(acc, PrintClauses(cs, Put(RParen, rest))) == Parsed(acc + RegroupAll(cs), rest)
    ensures var h := Head(PrintClauses(cs, Put(RParen, rest))); h.Comma? || h.RParen?
    decreases cs
  {
    if cs == [] {
      assert acc + RegroupAll(cs) == acc;
    } else {
      var acc' := acc + [Regroup(0, cs[0])];
      ClausesRead(acc', cs[1..], rest);
      ClauseReads(cs[0], PrintClauses(cs[1..], Put(RParen, rest)));
      Shift(acc, RegroupAll(cs));
      assert RegroupAll(cs)[1..] == RegroupAll(cs[1..]);
    }
  }

  lemma {:induction false} TypesRead(e: Expr, rest: seq<Token>)
    requires IsTypes(e) && !e.Schema? && Ends(rest) && !Head(rest).Pipe?
    ensures TypeSum(Print(0, e, rest)) == Parsed(Regroup(0, e), rest)
    decreases e, 9
  {
    if e.Union? { UnionReads(e, rest); } else { TypeAtomReads(e, rest); }
  }

  lemma {:induction false} UnionReads(e: Expr, rest: seq<Token>)
    requires IsTypes(e) && Apart(rest) && e.Union?
    ensures TypeSum(Print(0, e, rest)) == MoreTypes(Regroup(0, e), rest)
    decreases e, 8
  {
    var more := Put(Pipe, Print(0, e.r, rest));
    TypeAtomReads(e.r, rest);
    if e.l.Union? {
      UnionReads(e.l, more);
    } else {
      assert IsTypes(e.l) ==> IsTypeAtom(e.l);
      TypeAtomReads(e.l, more);
    }
  }

  lemma {:induction false} TypeAtomReads(e: Expr, rest: seq<Token>)
    requires IsTypeAtom(e) && Apart(rest)
    ensures TypeAtom(Print(0, e, rest)) == Parsed(Regroup(0, e), rest)
    decreases e, 7
  {
    TypeAtomRead(Print(0, e, rest));
    if e.Name? || e.Path? {
      RefRead(true, e.Path?, e.parts, rest);
    } else if e.Schema? {
      SchemaReads(e, rest);
    } else {
      ContainerTypeReads(e, rest);
    }
  }

  lemma {:induction false} ContainerTypeReads(e: Expr, rest: seq<Token>)
    requires IsJson(e) && (e.ListLit? || e.TupleLit? || e.ObjectLit?)
    ensures TypeAtom(Print(0, e, rest)) == Parsed(Regroup(0, e), rest)
    decreases e, 6
  {
    ContainerHead(e, rest);
    JsonReads(e, rest);
    TypeAtomRead(Print(0, e, rest));
  }

  lemma ContainerHead(e: Expr, rest: seq<Token>)
    requires e.ListLit? || e.TupleLit? || e.ObjectLit?
    ensures var h := Head(Print(0, e, rest)); h.LBrack? || h.LTuple? || h.LBrace?
  {
  }

  lemma {:induction false} ClauseReads(e: Expr, rest: seq<Token>)
    requires IsClause(e) && (Head(rest).Comma? || Head(rest).RParen?)
    ensures Clause(Print(0, e, rest)) == Parsed(Regroup(0, e), rest)
    ensures !Head(Print(0, e, rest)).RParen?
    decreases e, 9
  {
    if e.Attr? { AttrReads(e, rest); } else { RequireReads(e.expr, rest); }
  }

  lemma {:induction false} AttrReads(e: Expr, rest: seq<Token>)
    requires IsClause(e) && e.Attr? && (Head(rest).Comma? || Head(rest).RParen?)
    ensures Clause(Print(0, e, rest)) == Parsed(Regroup(0, e), rest)
    ensures !Head(Print(0, e, rest)).RParen?
    decreases e, 8
  {
    ComponentRead(e.name);
    if e.value.Some? { JsonReads(e.value.value, rest); }
  }

  lemma {:induction false} RequireReads(x: Expr, rest: seq<Token>)
    requires IsExpr(x) && (Head(rest).Comma? || Head(rest).RParen?)
    ensures Clause(Print(0, Require(x), rest)) == Parsed(Regroup(0, Require(x)), rest)
    ensures !Head(Print(0, Require(x), rest)).RParen?
    decreases x, 10
  {
    RequirePrinted(x, rest);
    if x.Ident? {
      GroupedExprReads(x, rest);
    } else {
      PlainRequireReads(x, rest);
    }
  }

  lemma {:induction false} PlainRequireReads(x: Expr, rest: seq<Token>)
    requires IsExpr(x) && !x.Ident? && (Head(rest).Comma? || Head(rest).RParen?)
    ensures Clause(Print(0, x, rest)) == Parsed(Require(Regroup(0, x)), rest)
    ensures !Head(Print(0, x, rest)).RParen?
    decreases x, 9
  {
    ExprHead(0, x, rest);
    NotMetadata(0, x, rest);
    ExprReads(0, x, rest);
    RequireRead(Print(0, x, rest), Regroup(0, x), rest);
  }

  lemma {:induction false} GroupedExprReads(x: Expr, rest: seq<Token>)
    requires IsExpr(x) && x.Ident? && (Head(rest).Comma? || Head(rest).RParen?)
    ensures Clause(Put(LParen, Print(0, x, Put(RParen, rest)))) == Parsed(Require(Group(x)), rest)
    decreases x, 9
  {
    ExprReads(0, x, Put(RParen, rest));
    GroupedClauseRead(Print(0, x, Put(RParen, rest)), Regroup(0, x), rest);
  }

  lemma GroupedClauseRead(inner: seq<Token>, t: Expr, rest: seq<Token>)
    requires ParseExpr(1, inner) == Parsed(t, Put(RParen, rest)) && (Head(rest).Comma? || Head(rest).RParen?)
    ensures Clause(Put(LParen, inner)) == Parsed(Require(Group(t)), rest)
  {
    GroupRead(inner, t, rest);
    ClimbStops(Group(t), 1, rest);
    RequireRead(Put(LParen, inner), Group(t), rest);
  }

  lemma RequirePrinted(x: Expr, rest: seq<Token>)
    ensures x.Ident? ==> Print(0, Require(x), rest) == Put(LParen, Print(0, x, Put(RParen, rest)))
    ensures !x.Ident? ==> Print(0, Require(x), rest) == Print(0, x, rest)
    ensures Regroup(0, Require(x)) == Require(if x.Ident? then Group(x) else Regroup(0, x))
  {
  }

  /** After the first word of a name comes a dot or what follows the name. */
  lemma NameSecond(parts: seq<string>, rest: seq<Token>)
    requires parts != []
    ensures var h := Head(Tail(PrintName(false, parts, rest))); h.Dot? || h == Head(rest)
  {
  }

  lemma WordsStartNames(k: nat, x: Expr, rest: seq<Token>)
    requires IsExpr(x) && !Open(x, k) && !x.Ident? && !x.Call?
    ensures !Head(Print(k, x, rest)).Word?
  {
    match x
    case Path(_) =>
    case IntLit(_) =>
    case DecimalLit(_) =>
    case Binary(_, _, _) =>
    case _ =>
  }

  /** Only a bare name looks like metadata after one token of lookahead. */
  lemma {:induction false} NotMetadata(k: nat, x: Expr, rest: seq<Token>)
    requires IsExpr(x) && !x.Ident?
    ensures var ts := Print(k, x, rest); Head(ts).Word? ==> !EndsMetadata(Head(Tail(ts)))
    decreases x
  {
    if x.Call? {
      NameSecond(x.parts, Put(LParen, PrintAll(x.args, Put(RParen, rest))));
    } else if Open(x, k) {
      var more := Put(x.op, Print(x.op.Precedence() + 1, x.right, rest));
      if x.left.Ident? { NameSecond(x.left.parts, more); } else { NotMetadata(LeftPrec(x.op), x.left, more); }
      assert Head(more) == x.op && !EndsMetadata(x.op);
      assert Print(k, x, rest) == PrintBinary(x, rest) == Print(LeftPrec(x.op), x.left, more);
    } else {
      WordsStartNames(k, x, rest);
    }
  }

  /** Printing a value and parsing the tokens gives the value back: every token is used, and only
    * parentheses are new. */
  lemma PrintThenParse(e: Expr)
    requires IsRoot(e)
    ensures Parse(Print(0, e, [])) == Some(Regroup(0, e))
    ensures Erase(Regroup(0, e)) == Erase(e)
  {
    ValueReads(e, []);
    RegroupOnlyAddsGroups(0, e);
  }

  /** The same for an expression standing alone. */
  lemma PrintThenParseExpr(e: Expr)
    requires IsExpr(e)
    ensures ParseExpr(1, Print(0, e, [])) == Parsed(Regroup(0, e), [])
    ensures Erase(Regroup(0, e)) == Erase(e)
  {
    ExprReads(0, e, []);
    RegroupOnlyAddsGroups(0, e);
  }
}
