/** The grammar as a function from tokens to trees: what the parser must return
  * (parser/parser.go, parser/expr.go).  Tokens are a list that ends before the end-of-file token. */
module Grammar {
  import opened Wrappers
  import opened Syntax

  datatype Parsed<T> = Parsed(tree: T, rest: seq<Token>) | Failed

  function Head(ts: seq<Token>): Token {
    if ts == [] then EndOfFile else ts[0]
  }

  function Tail(ts: seq<Token>): seq<Token> {
    if ts == [] then [] else ts[1..]
  }

  // ----- names

  /** The text of a token that can be part of a dotted name. */
  function ComponentText(t: Token): Option<string> {
    match t
    case Word(text) => Some(text)
    case TrueTok => Some("true")
    case FalseTok => Some("false")
    case NullTok => Some("null")
    case In => Some("in")
    case _ => None
  }

  function Components(acc: seq<string>, ts: seq<Token>): (r: Parsed<seq<string>>)
    ensures r.Parsed? ==> |r.rest| < |ts| && |acc| < |r.tree|
    decreases |ts|
  {
    if ComponentText(Head(ts)).None? then Failed
    else
      var parts := acc + [ComponentText(Head(ts)).value];
      if Head(Tail(ts)).Dot? then Components(parts, Tail(Tail(ts))) else Parsed(parts, Tail(ts))
  }

  function Ref(isType: bool, ts: seq<Token>): (r: Parsed<Expr>)
    ensures r.Parsed? ==> |r.rest| < |ts|
    decreases |ts|, 0
  {
    var dotted := Head(ts).Dot?;
    match Components([], if dotted then Tail(ts) else ts)
    case Failed => Failed
    case Parsed(parts, rest) =>
      if dotted && (isType || !Head(rest).LParen?) then Parsed(Path(parts), rest)
      else if isType then Parsed(Name(parts), rest)
      else if Head(rest).LParen? then ParseCall(dotted, parts, rest)
      else Parsed(Ident(parts), rest)
  }

  function ParseCall(dotted: bool, parts: seq<string>, ts: seq<Token>): (r: Parsed<Expr>)
    ensures r.Parsed? ==> |r.rest| < |ts|
    decreases |ts|, 0
  {
    if !Head(ts).LParen? then Failed
    else match Arguments([], Tail(ts))
      case Failed => Failed
      case Parsed(args, rest) => Parsed(Call(dotted, parts, args), rest)
  }

  function Arguments(acc: seq<Expr>, ts: seq<Token>): (r: Parsed<seq<Expr>>)
    ensures r.Parsed? ==> |r.rest| < |ts|
    decreases |ts|, 5
  {
    if Head(ts).RParen? then Parsed(acc, Tail(ts))
    else match ParseExpr(1, ts)
      case Failed => Failed
      case Parsed(x, rest) =>
        if Head(rest).Comma? then Arguments(acc + [x], Tail(rest))
        else if Head(rest).RParen? then Parsed(acc + [x], Tail(rest))
        else Failed
  }

  // ----- expressions

  /** Precedence climbing: operators of at least `minPrec`, joined to the left. */
  function ParseExpr(minPrec: nat, ts: seq<Token>): (r: Parsed<Expr>)
    requires minPrec >= 1
    ensures r.Parsed? ==> |r.rest| < |ts|
    decreases |ts|, 4
  {
    match ParseUnary(ts)
    case Failed => Failed
    case Parsed(left, rest) => Climb(left, minPrec, rest)
  }

  function Climb(left: Expr, minPrec: nat, ts: seq<Token>): (r: Parsed<Expr>)
    requires minPrec >= 1
    ensures r.Parsed? ==> |r.rest| <= |ts|
    decreases |ts|, 4
  {
    var op := Head(ts);
    if op.Precedence() < minPrec then Parsed(left, ts)
    else match ParseExpr(op.Precedence() + 1, Tail(ts))
      case Failed => Failed
      case Parsed(right, rest) =>
        if op.Precedence() == Eq.Precedence() && Head(rest).Precedence() == op.Precedence() then Failed
        else Climb(Binary(left, op, right), minPrec, rest)
  }

  /** A minus sign before a number belongs to the number. */
  function ParseUnary(ts: seq<Token>): (r: Parsed<Expr>)
    ensures r.Parsed? ==> |r.rest| < |ts|
    decreases |ts|, 3
  {
    if !Head(ts).IsUnary() then Primary(ts)
    else if Head(ts).Sub? && Head(Tail(ts)).IntTok? then
      Parsed(IntLit("-" + Head(Tail(ts)).text), Tail(Tail(ts)))
    else if Head(ts).Sub? && Head(Tail(ts)).DecimalTok? then
      Parsed(DecimalLit("-" + Head(Tail(ts)).text), Tail(Tail(ts)))
    else match ParseUnary(Tail(ts))
      case Failed => Failed
      case Parsed(x, rest) => Parsed(Unary(Head(ts), x), rest)
  }

  predicate StartsJson(t: Token) {
    t.NullTok? || t.TrueTok? || t.FalseTok? || t.IntTok? || t.DecimalTok? || t.StringTok? ||
    t.LBrace? || t.LBrack? || t.LTuple?
  }

  function Primary(ts: seq<Token>): (r: Parsed<Expr>)
    ensures r.Parsed? ==> |r.rest| < |ts|
    decreases |ts|, 2
  {
    match Head(ts)
    case Word(_) => Ref(false, ts)
    case Dot => Ref(false, ts)
    case LParen => ParseGroup(ts)
    case t => if StartsJson(t) then Json(ts) else Failed
  }

  function ParseGroup(ts: seq<Token>): (r: Parsed<Expr>)
    ensures r.Parsed? ==> |r.rest| < |ts|
    decreases |ts|, 1
  {
    if !Head(ts).LParen? then Failed
    else match ParseExpr(1, Tail(ts))
      case Failed => Failed
      case Parsed(x, rest) => if Head(rest).RParen? then Parsed(Group(x), Tail(rest)) else Failed
  }

  // ----- values

  function Value(ts: seq<Token>): (r: Parsed<Expr>)
    ensures r.Parsed? ==> |r.rest| < |ts|
    decreases |ts|, 2
  {
    if Head(ts).LParen? then SchemaSum(ts) else Json(ts)
  }

  function Json(ts: seq<Token>): (r: Parsed<Expr>)
    ensures r.Parsed? ==> |r.rest| < |ts|
    decreases |ts|, 1
  {
    match Head(ts)
    case LBrace => ParseObject(ts)
    case LBrack => ParseSequence(RBrack, ts)
    case LTuple => ParseSequence(RBrace, ts)
    case Sub => Number(ts)
    case IntTok(_) => Number(ts)
    case DecimalTok(_) => Number(ts)
    case StringTok(s) => Parsed(StringLit(s), Tail(ts))
    case NullTok => Parsed(NullLit, Tail(ts))
    case TrueTok => Parsed(BoolLit(true), Tail(ts))
    case FalseTok => Parsed(BoolLit(false), Tail(ts))
    case _ => Failed
  }

  function Number(ts: seq<Token>): (r: Parsed<Expr>)
    ensures r.Parsed? ==> |r.rest| < |ts|
  {
    var (sign, digits) := if Head(ts).Sub? then ("-", Tail(ts)) else ("", ts);
    match Head(digits)
    case IntTok(text) => Parsed(IntLit(sign + text), Tail(digits))
    case DecimalTok(text) => Parsed(DecimalLit(sign + text), Tail(digits))
    case _ => Failed
  }

  function ParseSequence(end: Token, ts: seq<Token>): (r: Parsed<Expr>)
    requires ts != []
    ensures r.Parsed? ==> |r.rest| < |ts|
    decreases |ts|, 0
  {
    match Values(end, [], Tail(ts))
    case Failed => Failed
    case Parsed(es, rest) => Parsed(if Head(ts).LTuple? then TupleLit(es) else ListLit(es), rest)
  }

  function Values(end: Token, acc: seq<Expr>, ts: seq<Token>): (r: Parsed<seq<Expr>>)
    ensures r.Parsed? ==> |r.rest| <= |ts|
    decreases |ts|, 3
  {
    if Head(ts) == end then Parsed(acc, Tail(ts))
    else match Value(ts)
      case Failed => Failed
      case Parsed(v, rest) =>
        if Head(rest).Comma? then Values(end, acc + [v], Tail(rest))
        else if Head(rest) == end then Parsed(acc + [v], Tail(rest))
        else Failed
  }

  function ParseObject(ts: seq<Token>): (r: Parsed<Expr>)
    ensures r.Parsed? ==> |r.rest| < |ts|
    decreases |ts|, 0
  {
    if !Head(ts).LBrace? then Failed
    else match Entries([], Tail(ts))
      case Failed => Failed
      case Parsed(fs, rest) => Parsed(ObjectLit(fs), rest)
  }

  function Entries(acc: seq<Entry>, ts: seq<Token>): (r: Parsed<seq<Entry>>)
    ensures r.Parsed? ==> |r.rest| <= |ts|
    decreases |ts|, 3
  {
    if Head(ts).RBrace? then Parsed(acc, Tail(ts))
    else if !Head(ts).StringTok? || !Head(Tail(ts)).Colon? then Failed
    else match Value(Tail(Tail(ts)))
      case Failed => Failed
      case Parsed(v, rest) =>
        var acc' := acc + [Entry(Head(ts).value, v)];
        if Head(rest).Comma? then Entries(acc', Tail(rest))
        else if Head(rest).RBrace? then Parsed(acc', Tail(rest))
        else Failed
  }

  // ----- schemas

  function SchemaSum(ts: seq<Token>): (r: Parsed<Expr>)
    ensures r.Parsed? ==> |r.rest| < |ts|
    decreases |ts|, 1
  {
    match ParseSchema(ts)
    case Failed => Failed
    case Parsed(left, rest) => MoreSchemas(left, rest)
  }

  function MoreSchemas(left: Expr, ts: seq<Token>): (r: Parsed<Expr>)
    ensures r.Parsed? ==> |r.rest| <= |ts|
    decreases |ts|, 1
  {
    if !Head(ts).Pipe? then Parsed(left, ts)
    else match ParseSchema(Tail(ts))
      case Failed => Failed
      case Parsed(right, rest) => MoreSchemas(Union(left, right), rest)
  }

  function ParseSchema(ts: seq<Token>): (r: Parsed<Expr>)
    ensures r.Parsed? ==> |r.rest| < |ts|
    decreases |ts|, 0
  {
    if !Head(ts).LParen? then Failed
    else match TypeSum(Tail(ts))
      case Failed => Failed
      case Parsed(typ, rest) =>
        match ParseClauses([], rest)
        case Failed => Failed
        case Parsed(clauses, rest') => Parsed(Schema(typ, clauses), rest')
  }

  function ParseClauses(acc: seq<Expr>, ts: seq<Token>): (r: Parsed<seq<Expr>>)
    ensures r.Parsed? ==> |r.rest| < |ts|
    decreases |ts|, 0
  {
    if Head(ts).RParen? then Parsed(acc, Tail(ts))
    else if !Head(ts).Comma? then Failed
    else if Head(Tail(ts)).RParen? then Parsed(acc, Tail(Tail(ts)))
    else match Clause(Tail(ts))
      case Failed => Failed
      case Parsed(c, rest) => ParseClauses(acc + [c], rest)
  }

  function TypeSum(ts: seq<Token>): (r: Parsed<Expr>)
    ensures r.Parsed? ==> |r.rest| < |ts|
    decreases |ts|, 3
  {
    match TypeAtom(ts)
    case Failed => Failed
    case Parsed(left, rest) =>
      if left.Schema? && !Head(rest).Pipe? then Failed else MoreTypes(left, rest)
  }

  function MoreTypes(left: Expr, ts: seq<Token>): (r: Parsed<Expr>)
    ensures r.Parsed? ==> |r.rest| <= |ts|
    decreases |ts|, 3
  {
    if !Head(ts).Pipe? then Parsed(left, ts)
    else match TypeAtom(Tail(ts))
      case Failed => Failed
      case Parsed(right, rest) => MoreTypes(Union(left, right), rest)
  }

  function TypeAtom(ts: seq<Token>): (r: Parsed<Expr>)
    ensures r.Parsed? ==> |r.rest| < |ts|
    decreases |ts|, 2
  {
    match Head(ts)
    case Word(_) => Ref(true, ts)
    case Dot => Ref(true, ts)
    case LBrace => Json(ts)
    case LBrack => Json(ts)
    case LTuple => Json(ts)
    case LParen => ParseSchema(ts)
    case _ => Failed
  }

  predicate EndsMetadata(t: Token) {
    t.Assign? || t.Comma? || t.RParen?
  }

  /** One token of lookahead tells metadata from a constraint. */
  function Clause(ts: seq<Token>): (r: Parsed<Expr>)
    ensures r.Parsed? ==> |r.rest| < |ts|
    decreases |ts|, 5
  {
    if Head(ts).Word? && EndsMetadata(Head(Tail(ts))) then Metadata(ts)
    else match ParseExpr(1, ts)
      case Failed => Failed
      case Parsed(e, rest) =>
        if Head(rest).Comma? || Head(rest).RParen? then Parsed(Require(e), rest) else Failed
  }

  function Metadata(ts: seq<Token>): (r: Parsed<Expr>)
    ensures r.Parsed? ==> |r.rest| < |ts|
    decreases |ts|, 2
  {
    if !Head(ts).Word? then Failed
    else if !Head(Tail(ts)).Assign? then Parsed(Attr(Head(ts).text, None), Tail(ts))
    else match Json(Tail(Tail(ts)))
      case Failed => Failed
      case Parsed(v, rest) => Parsed(Attr(Head(ts).text, Some(v)), rest)
  }

  /** One root value and nothing after it. */
  function Parse(ts: seq<Token>): Option<Expr> {
    match Value(ts)
    case Failed => None
    case Parsed(e, rest) => if rest == [] then Some(e) else None
  }
}
