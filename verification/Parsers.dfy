/** The recursive-descent parser with its token cursor (parser/parser.go, parser/expr.go), method by
  * method against the grammar. */
module Parsers {
  import opened Wrappers
  import opened Syntax
  import opened Grammar

  /** A parser's answer and where it stopped, against the grammar's; a failed parser may stop anywhere. */
  predicate Agrees<T(==)>(want: Parsed<T>, got: Option<T>, rest: seq<Token>) {
    match want
    case Failed => got.None?
    case Parsed(tree, more) => got == Some(tree) && rest == more
  }

  function Item(t: Token): seq<Token> {
    if t.EndOfFile? then [] else [t]
  }

  class Parser {
    /** What the lexer will deliver before the end of the file. */
    const source: seq<Token>
    var pos: nat
    var tok: Token
    var look: Token
    var haveLook: bool
    /** The current token and all that follow. */
    ghost var rest: seq<Token>

    ghost predicate Valid()
      reads this
    {
      && pos <= |source| && EndOfFile !in source
      && (tok.EndOfFile? || (haveLook && look.EndOfFile?) ==> pos == |source|)
      && (tok.EndOfFile? && haveLook ==> look.EndOfFile?)
      && rest == Item(tok) + (if haveLook then Item(look) else []) + source[pos..]
      && tok == Head(rest)
    }

    constructor (source: seq<Token>)
      requires EndOfFile !in source
      ensures Valid() && rest == source
    {
      this.source := source;
      pos, haveLook := 0, false;
      new;
      tok := Read();
      rest := source;
    }

    /** The lexer: the next token, or the end for ever. */
    method Read() returns (t: Token)
      requires pos <= |source|
      modifies this`pos
      ensures pos <= |source|
      ensures if old(pos) < |source| then t == source[old(pos)] && pos == old(pos) + 1
              else t == EndOfFile && pos == old(pos)
    {
      if pos < |source| {
        t := source[pos];
        pos := pos + 1;
      } else {
        t := EndOfFile;
      }
    }

    method Next()
      requires Valid()
      modifies this
      ensures Valid() && rest == Tail(old(rest))
    {
      if haveLook {
        tok := look;
        haveLook := false;
      } else {
        tok := Read();
      }
      rest := Tail(rest);
    }

    method Peek() returns (t: Token)
      requires Valid()
      modifies this
      ensures Valid() && rest == old(rest) && t == Head(Tail(rest))
    {
      if !haveLook {
        look := Read();
        haveLook := true;
      }
      t := look;
    }

    method Accept(kind: Token) returns (ok: bool)
      requires Valid()
      modifies this
      ensures Valid() && ok == (Head(old(rest)) == kind) && rest == if ok then Tail(old(rest)) else old(rest)
    {
      ok := tok == kind;
      if ok { Next(); }
    }

    // ----- expressions

    /** Precedence climbing. */
    method Expr(minPrec: nat) returns (r: Option<Expr>)
      requires Valid() && minPrec >= 1
      modifies this
      ensures Valid() && |rest| <= |old(rest)| && Agrees(ParseExpr(minPrec, old(rest)), r, rest)
      decreases |rest|, 4
    {
      ghost var start := rest;
      r := Unary();
      if r.None? { return; }
      var left := r.value;
      while true
        invariant Valid() && |rest| < |start| && ParseExpr(minPrec, start) == Climb(left, minPrec, rest)
        decreases |rest|
      {
        var op := tok;
        var prec := op.Precedence();
        if prec < minPrec { return Some(left); }
        Next();
        var right := Expr(prec + 1);
        if right.None? { return None; }
        left := Binary(left, op, right.value);
        if prec == Eq.Precedence() && tok.Precedence() == prec { return None; }
      }
    }

    method Unary() returns (r: Option<Expr>)
      requires Valid()
      modifies this
      ensures Valid() && |rest| <= |old(rest)| && Agrees(ParseUnary(old(rest)), r, rest)
      decreases |rest|, 3
    {
      var op := tok;
      if !op.IsUnary() {
        r := Primary();
        return;
      }
      Next();
      if op.Sub? && (tok.IntTok? || tok.DecimalTok?) {
        var x := tok;
        var raw := "-" + x.text;
        Next();
        return Some(if x.IntTok? then IntLit(raw) else DecimalLit(raw));
      }
      r := Unary();
      if r.Some? { r := Some(Syntax.Unary(op, r.value)); }
    }

    method Primary() returns (r: Option<Expr>)
      requires Valid()
      modifies this
      ensures Valid() && |rest| <= |old(rest)| && Agrees(Grammar.Primary(old(rest)), r, rest)
      decreases |rest|, 2
    {
      if tok.Word? || tok.Dot? {
        r := Ref(false);
      } else if tok.LParen? {
        r := Group();
      } else if StartsJson(tok) {
        r := JsonValue();
      } else {
        r := None;
      }
    }

    method Group() returns (r: Option<Expr>)
      requires Valid()
      modifies this
      ensures Valid() && |rest| <= |old(rest)| && Agrees(ParseGroup(old(rest)), r, rest)
      decreases |rest|, 1
    {
      var open := Accept(LParen);
      if !open { return None; }
      r := Expr(1);
      if r.None? { return; }
      var close := Accept(RParen);
      if !close { return None; }
      r := Some(Syntax.Group(r.value));
    }

    method Call(dotted: bool, parts: seq<string>) returns (r: Option<Expr>)
      requires Valid()
      modifies this
      ensures Valid() && |rest| <= |old(rest)| && Agrees(ParseCall(dotted, parts, old(rest)), r, rest)
      decreases |rest|, 0
    {
      var open := Accept(LParen);
      if !open { return None; }
      ghost var start := rest;
      var args: seq<Expr> := [];
      var more := true;
      while more && tok != RParen
        invariant Valid() && |rest| <= |start|
        invariant if more then Arguments([], start) == Arguments(args, rest)
          else Arguments([], start) == if Head(rest).RParen? then Parsed(args, Tail(rest)) else Failed
        decreases |rest|, more
      {
        var x := Expr(1);
        if x.None? { return None; }
        args := args + [x.value];
        more := Accept(Comma);
      }
      var close := Accept(RParen);
      r := if close then Some(Syntax.Call(dotted, parts, args)) else None;
    }

    method Ref(isType: bool) returns (r: Option<Expr>)
      requires Valid()
      modifies this
      ensures Valid() && |rest| <= |old(rest)| && Agrees(Grammar.Ref(isType, old(rest)), r, rest)
      decreases |rest|, 1
    {
      var path := Accept(Dot);
      ghost var start := rest;
      var parts: seq<string> := [];
      var more := true;
      while more
        invariant Valid() && |rest| <= |start|
        invariant Components([], start) == if more then Components(parts, rest) else Parsed(parts, rest)
        invariant !more ==> |rest| < |start|
        decreases |rest|, more
      {
        if ComponentText(tok).None? { return None; }
        parts := parts + [ComponentText(tok).value];
        Next();
        more := Accept(Dot);
      }
      if path && (isType || tok != LParen) { return Some(Path(parts)); }
      if isType { return Some(Name(parts)); }
      if tok == LParen {
        r := Call(path, parts);
        return;
      }
      return Some(Ident(parts));
    }

    // ----- values

    method Value() returns (r: Option<Expr>)
      requires Valid()
      modifies this
      ensures Valid() && |rest| <= |old(rest)| && Agrees(Grammar.Value(old(rest)), r, rest)
      decreases |rest|, 2
    {
      if tok == LParen { r := SchemaSum(); } else { r := JsonValue(); }
    }

    method JsonValue() returns (r: Option<Expr>)
      requires Valid()
      modifies this
      ensures Valid() && |rest| <= |old(rest)| && Agrees(Json(old(rest)), r, rest)
      decreases |rest|, 1
    {
      if tok.LBrace? {
        r := Object();
      } else if tok.LBrack? || tok.LTuple? {
        r := Sequence(if tok.LBrack? then RBrack else RBrace);
      } else if tok.Sub? || tok.IntTok? || tok.DecimalTok? {
        r := Number();
      } else {
        r := Word();
      }
    }

    /** A string or one of the literal words. */
    method Word() returns (r: Option<Expr>)
      requires Valid() && !tok.LBrace? && !tok.LBrack? && !tok.LTuple? && !tok.Sub? && !tok.IntTok? && !tok.DecimalTok?
      modifies this
      ensures Valid() && |rest| <= |old(rest)| && Agrees(Json(old(rest)), r, rest)
    {
      match tok {
        case StringTok(s) => r := Some(StringLit(s));
        case NullTok => r := Some(NullLit);
        case TrueTok => r := Some(BoolLit(true));
        case FalseTok => r := Some(BoolLit(false));
        case _ => return None;
      }
      Next();
    }

    method Number() returns (r: Option<Expr>)
      requires Valid() && (tok.Sub? || tok.IntTok? || tok.DecimalTok?)
      modifies this
      ensures Valid() && |rest| <= |old(rest)| && Agrees(Grammar.Number(old(rest)), r, rest)
    {
      var sign := "";
      if tok.Sub? {
        sign := "-";
        Next();
        if !tok.IntTok? && !tok.DecimalTok? { return None; }
      }
      var x := tok;
      Next();
      r := Some(if x.IntTok? then IntLit(sign + x.text) else DecimalLit(sign + x.text));
    }

    method Sequence(end: Token) returns (r: Option<Expr>)
      requires Valid() && (end == if tok.LBrack? then RBrack else RBrace) && (tok.LBrack? || tok.LTuple?)
      modifies this
      ensures Valid() && |rest| <= |old(rest)| && Agrees(ParseSequence(end, old(rest)), r, rest)
      decreases |rest|, 0
    {
      var open := tok;
      Next();
      ghost var start := rest;
      var elems: seq<Expr> := [];
      var more := true;
      while more && tok != end
        invariant Valid() && |rest| <= |start|
        invariant if more then Values(end, [], start) == Values(end, elems, rest)
          else Values(end, [], start) == if Head(rest) == end then Parsed(elems, Tail(rest)) else Failed
        decreases |rest|, more
      {
        var v := Value();
        if v.None? { return None; }
        elems := elems + [v.value];
        more := Accept(Comma);
      }
      var close := Accept(end);
      if !close { return None; }
      r := Some(if open.LTuple? then TupleLit(elems) else ListLit(elems));
    }

    method Object() returns (r: Option<Expr>)
      requires Valid()
      modifies this
      ensures Valid() && |rest| <= |old(rest)| && Agrees(ParseObject(old(rest)), r, rest)
      decreases |rest|, 0
    {
      var open := Accept(LBrace);
      if !open { return None; }
      ghost var (start, want) := (rest, Entries([], rest));
      assert ParseObject(old(rest)) == if want.Failed? then Failed else Parsed(ObjectLit(want.tree), want.rest);
      var fields: seq<Entry> := [];
      var more := true;
      while more && tok != RBrace
        invariant Valid() && |rest| <= |start|
        invariant if more then want == Entries(fields, rest)
          else want == if Head(rest).RBrace? then Parsed(fields, Tail(rest)) else Failed
        decreases |rest|, more
      {
        var field := Field();
        if field.None? { return None; }
        fields := fields + [field.value];
        more := Accept(Comma);
      }
      var close := Accept(RBrace);
      if !close { return None; }
      r := Some(ObjectLit(fields));
    }

    /** A field name, its colon and its value. */
    method Field() returns (field: Option<Entry>)
      requires Valid()
      modifies this
      ensures Valid() && |rest| <= |old(rest)| && (field.Some? ==> |rest| < |old(rest)|)
      ensures var (key, colon) := (Head(old(rest)), Head(Tail(old(rest))));
        if !key.StringTok? || !colon.Colon? then field.None?
        else match Grammar.Value(Tail(Tail(old(rest))))
          case Failed => field.None?
          case Parsed(v, more) => field == Some(Entry(key.value, v)) && rest == more
      decreases |rest|, 3
    {
      var name := Key();
      if name.None? { return None; }
      var v := Value();
      if v.None? { return None; }
      field := Some(Entry(name.value, v.value));
    }

    /** A field name and its colon. */
    method Key() returns (name: Option<string>)
      requires Valid()
      modifies this
      ensures Valid() && |rest| <= |old(rest)|
      ensures if Head(old(rest)).StringTok? && Head(Tail(old(rest))).Colon?
              then name == Some(Head(old(rest)).value) && rest == Tail(Tail(old(rest))) && |rest| < |old(rest)|
              else name.None?
    {
      if !tok.StringTok? { return None; }
      name := Some(tok.value);
      Next();
      var colon := Accept(Colon);
      if !colon { return None; }
    }

    // ----- schemas

    method SchemaSum() returns (r: Option<Expr>)
      requires Valid()
      modifies this
      ensures Valid() && |rest| <= |old(rest)| && Agrees(Grammar.SchemaSum(old(rest)), r, rest)
      decreases |rest|, 1
    {
      ghost var start := rest;
      r := SchemaForm();
      if r.None? { return; }
      var left := r.value;
      while tok == Pipe
        invariant Valid() && |rest| < |start| && Grammar.SchemaSum(start) == MoreSchemas(left, rest)
        decreases |rest|
      {
        Next();
        var right := SchemaForm();
        if right.None? { return None; }
        left := Union(left, right.value);
      }
      r := Some(left);
    }

    /** The parser's `schema`. */
    method SchemaForm() returns (r: Option<Expr>)
      requires Valid()
      modifies this
      ensures Valid() && |rest| <= |old(rest)| && Agrees(ParseSchema(old(rest)), r, rest)
      decreases |rest|, 0
    {
      var open := Accept(LParen);
      if !open { return None; }
      var typ := TypeSum();
      if typ.None? { return None; }
      ghost var start := rest;
      var clauses: seq<Expr> := [];
      while true
        invariant Valid() && |rest| <= |start| && ParseClauses([], start) == ParseClauses(clauses, rest)
        decreases |rest|
      {
        ghost var before := rest;
        var comma := Accept(Comma);
        if !comma || tok == RParen {
          assert ParseClauses(clauses, before) ==
            if Head(rest).RParen? then Parsed(clauses, Tail(rest)) else Failed;
          break;
        }
        var clause := Clause();
        if clause.None? { return None; }
        clauses := clauses + [clause.value];
      }
      var close := Accept(RParen);
      r := if close then Some(Schema(typ.value, clauses)) else None;
    }

    method TypeSum() returns (r: Option<Expr>)
      requires Valid()
      modifies this
      ensures Valid() && |rest| <= |old(rest)| && Agrees(Grammar.TypeSum(old(rest)), r, rest)
      decreases |rest|, 3
    {
      ghost var start := rest;
      r := TypeAtom();
      if r.None? { return; }
      if r.value.Schema? && tok != Pipe { return None; }
      var left := r.value;
      while tok == Pipe
        invariant Valid() && |rest| < |start| && Grammar.TypeSum(start) == MoreTypes(left, rest)
        decreases |rest|
      {
        Next();
        var right := TypeAtom();
        if right.None? { return None; }
        left := Union(left, right.value);
      }
      r := Some(left);
    }

    method TypeAtom() returns (r: Option<Expr>)
      requires Valid()
      modifies this
      ensures Valid() && |rest| <= |old(rest)| && Agrees(Grammar.TypeAtom(old(rest)), r, rest)
      decreases |rest|, 2
    {
      match tok
      case Word(_) => r := Ref(true);
      case Dot => r := Ref(true);
      case LBrace => r := JsonValue();
      case LBrack => r := JsonValue();
      case LTuple => r := JsonValue();
      case LParen => r := SchemaForm();
      case _ => r := None;
    }

    method Clause() returns (r: Option<Expr>)
      requires Valid()
      modifies this
      ensures Valid() && |rest| <= |old(rest)| && Agrees(Grammar.Clause(old(rest)), r, rest)
      decreases |rest|, 5
    {
      if tok.Word? {
        var next := Peek();
        if EndsMetadata(next) {
          r := Metadata();
          return;
        }
      }
      r := Expr(1);
      if r.None? { return; }
      if tok != Comma && tok != RParen { return None; }
      r := Some(Require(r.value));
    }

    method Metadata() returns (r: Option<Expr>)
      requires Valid()
      modifies this
      ensures Valid() && |rest| <= |old(rest)| && Agrees(Grammar.Metadata(old(rest)), r, rest)
      decreases |rest|, 2
    {
      if !tok.Word? { return None; }
      var name := tok.text;
      Next();
      var assign := Accept(Assign);
      if !assign { return Some(Attr(name, None)); }
      r := JsonValue();
      if r.Some? { r := Some(Attr(name, Some(r.value))); }
    }
  }

  /** `Parse`: one root value, nothing after it. */
  method ParseSource(source: seq<Token>) returns (r: Option<Expr>)
    requires EndOfFile !in source
    ensures r == Parse(source)
  {
    var p := new Parser(source);
    r := p.Value();
    if r.Some? && p.tok != EndOfFile { r := None; }
  }
}
