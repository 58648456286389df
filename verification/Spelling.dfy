/** What the parser reads: every token of the source, in the order the tree spells them, except commas in front of a
  * closing bracket (parser/parser.go, parser/expr.go). */
module Spelling {
  import opened Wrappers
  import opened Syntax
  import opened Grammar
  import opened Printing
  import opened Formatting

  predicate Closes(t: Token) {
    t.RParen? || t.RBrack? || t.RBrace?
  }

  /** The tokens without trailing commas. */
  function Trim(ts: seq<Token>): seq<Token> {
    if ts == [] then []
    else if ts[0].Comma? && Closes(Head(ts[1..])) then Trim(ts[1..])
    else Put(ts[0], Trim(ts[1..]))
  }

  /** The tokens of a tree in front of `rest`: its own parentheses and no others. */
  function Spell(e: Expr, rest: seq<Token>): seq<Token>
    decreases e
  {
    match e
    case NullLit => Put(NullTok, rest)
    case BoolLit(b) => Put(if b then TrueTok else FalseTok, rest)
    case IntLit(raw) => PrintInt(raw, rest)
    case DecimalLit(raw) => PrintDecimal(raw, rest)
    case StringLit(s) => Put(StringTok(s), rest)
    case ListLit(es) => Put(LBrack, SpellAll(es, Put(RBrack, rest)))
    case TupleLit(es) => Put(LTuple, SpellAll(es, Put(RBrace, rest)))
    case ObjectLit(fs) => Put(LBrace, SpellEntries(fs, Put(RBrace, rest)))
    case Ident(parts) => PrintName(false, parts, rest)
    case Path(parts) => PrintName(true, parts, rest)
    case Name(parts) => PrintName(false, parts, rest)
    case Call(dotted, parts, args) => PrintName(dotted, parts, Put(LParen, SpellAll(args, Put(RParen, rest))))
    case Group(inner) => Put(LParen, Spell(inner, Put(RParen, rest)))
    case Unary(op, x) => Put(op, Spell(x, rest))
    case Binary(l, op, r) => Spell(l, Put(op, Spell(r, rest)))
    case Schema(typ, clauses) => Put(LParen, Spell(typ, SpellClauses(clauses, Put(RParen, rest))))
    case Union(l, r) => Spell(l, Put(Pipe, Spell(r, rest)))
    case Require(x) => Spell(x, rest)
    case Attr(name, value) => Put(Word(name), if value.Some? then Put(Assign, Spell(value.value, rest)) else rest)
  }

  function SpellAll(es: seq<Expr>, rest: seq<Token>): seq<Token>
    decreases es
  {
    if es == [] then rest
    else Spell(es[0], if |es| == 1 then rest else Put(Comma, SpellAll(es[1..], rest)))
  }

  function SpellEntries(fs: seq<Entry>, rest: seq<Token>): seq<Token>
    decreases fs
  {
    if fs == [] then rest
    else Put(StringTok(fs[0].key),
             Put(Colon, Spell(fs[0].value, if |fs| == 1 then rest else Put(Comma, SpellEntries(fs[1..], rest)))))
  }

  function SpellClauses(cs: seq<Expr>, rest: seq<Token>): seq<Token>
    decreases cs
  {
    if cs == [] then rest else Put(Comma, Spell(cs[0], SpellClauses(cs[1..], rest)))
  }

  // ----- one token

  lemma TrimToken(ts: seq<Token>)
    requires ts != [] && !Head(ts).Comma?
    ensures Trim(ts) == Put(Head(ts), Trim(Tail(ts)))
  {
  }

  lemma TrimComma(ts: seq<Token>)
    requires ts != [] && Head(ts).Comma?
    ensures Trim(ts) == if Closes(Head(Tail(ts))) then Trim(Tail(ts)) else Put(Comma, Trim(Tail(ts)))
  {
  }

  /** The first elements that are still to be read. */
  lemma TakeOne<T>(acc: seq<T>, x: T, all: seq<T>)
    requires acc + [x] <= all
    ensures acc <= all && all[|acc|..] == [x] + all[|acc| + 1..]
  {
  }

  // ----- names

  lemma {:induction false} ComponentsSpelled(acc: seq<string>, ts: seq<Token>)
    requires Lexed(ts)
    ensures var r := Components(acc, ts); r.Parsed? ==>
      && Lexed(r.rest) && ts != [] && !Closes(Head(ts)) && acc <= r.tree && |acc| < |r.tree|
      && Trim(ts) == PrintComponents(r.tree[|acc|..], Trim(r.rest))
    decreases |ts|
  {
    LexedParts(ts);
    LexedParts(Tail(ts));
    if ComponentText(Head(ts)).Some? {
      var text := ComponentText(Head(ts)).value;
      assert ComponentToken(text) == Head(ts);
      TrimToken(ts);
      if Head(Tail(ts)).Dot? {
        ComponentsSpelled(acc + [text], Tail(Tail(ts)));
        var r := Components(acc + [text], Tail(Tail(ts)));
        if r.Parsed? {
          TrimToken(Tail(ts));
          TakeOne(acc, text, r.tree);
        }
      } else {
        assert (acc + [text])[|acc|..] == [text];
      }
    }
  }

  /** The tokens up to the rest spell the tree; they do not start with a closing bracket. */
  predicate Spelled(ts: seq<Token>, r: Parsed<Expr>) {
    r.Parsed? ==> Lexed(r.rest) && ts != [] && !Closes(Head(ts)) && Trim(ts) == Spell(r.tree, Trim(r.rest))
  }

  lemma {:induction false} RefSpelled(isType: bool, ts: seq<Token>)
    requires Lexed(ts) && (Head(ts).Word? || Head(ts).Dot?)
    ensures Spelled(ts, Ref(isType, ts))
    decreases |ts|, 0
  {
    NameSpelled(ts);
    var dotted := Head(ts).Dot?;
    match Components([], if dotted then Tail(ts) else ts) {
      case Failed =>
      case Parsed(parts, rest) =>
        NamesSpell(parts, Trim(rest));
        if Head(rest).LParen? && !isType { CallSpelled(dotted, parts, rest); }
    }
  }

  lemma NamesSpell(parts: seq<string>, rest: seq<Token>)
    ensures Spell(Ident(parts), rest) == Spell(Name(parts), rest) == PrintName(false, parts, rest)
    ensures Spell(Path(parts), rest) == PrintName(true, parts, rest)
  {
  }

  lemma NameSpelled(ts: seq<Token>)
    requires Lexed(ts) && (Head(ts).Word? || Head(ts).Dot?)
    ensures var r := Components([], if Head(ts).Dot? then Tail(ts) else ts);
      r.Parsed? ==> Lexed(r.rest) && Trim(ts) == PrintName(Head(ts).Dot?, r.tree, Trim(r.rest))
  {
    LexedParts(ts);
    var ts' := if Head(ts).Dot? then Tail(ts) else ts;
    ComponentsSpelled([], ts');
    TrimToken(ts);
    var r := Components([], ts');
    if r.Parsed? { assert r.tree[0..] == r.tree; }
  }

  lemma {:induction false} CallSpelled(dotted: bool, parts: seq<string>, ts: seq<Token>)
    requires Lexed(ts) && Head(ts).LParen?
    ensures var r := ParseCall(dotted, parts, ts); r.Parsed? ==>
      Lexed(r.rest) && PrintName(dotted, parts, Trim(ts)) == Spell(r.tree, Trim(r.rest))
    decreases |ts|, 0
  {
    LexedParts(ts);
    TrimToken(ts);
    ArgumentsSpelled([], Tail(ts));
    var r := Arguments([], Tail(ts));
    if r.Parsed? {
      assert r.tree[0..] == r.tree;
      CallSpells(dotted, parts, r.tree, Trim(r.rest));
    }
  }

  lemma CallSpells(dotted: bool, parts: seq<string>, args: seq<Expr>, rest: seq<Token>)
    ensures Spell(Call(dotted, parts, args), rest) == PrintName(dotted, parts, Put(LParen, SpellAll(args, Put(RParen, rest))))
  {
  }

  /** What is left to read of a list ends with its bracket. */
  predicate ListSpelled(acc: seq<Expr>, end: Token, ts: seq<Token>, r: Parsed<seq<Expr>>) {
    r.Parsed? ==>
      Lexed(r.rest) && ts != [] && acc <= r.tree && Trim(ts) == SpellAll(r.tree[|acc|..], Put(end, Trim(r.rest)))
  }

  /** The last element, with a comma behind it or not. */
  lemma LastSpelled(acc: seq<Expr>, x: Expr, end: Token, ts: seq<Token>, rest: seq<Token>, after: seq<Token>)
    requires ts != [] && Lexed(after) && Closes(end) && Trim(ts) == Spell(x, Trim(rest))
    requires rest == Put(end, after) || rest == Put(Comma, Put(end, after))
    ensures ListSpelled(acc, end, ts, Parsed(acc + [x], after))
  {
    TrimToken(Put(end, after));
    if rest != Put(end, after) { TrimComma(rest); }
    assert (acc + [x])[|acc|..] == [x];
  }

  /** An element that others follow. */
  lemma NextSpelled(acc: seq<Expr>, x: Expr, end: Token, ts: seq<Token>, rest: seq<Token>, r: Parsed<seq<Expr>>)
    requires ts != [] && Trim(ts) == Spell(x, Trim(Put(Comma, rest))) && !Closes(Head(rest))
    requires r.Parsed? && ListSpelled(acc + [x], end, rest, r) && |acc| + 1 < |r.tree|
    ensures ListSpelled(acc, end, ts, r)
  {
    TrimComma(Put(Comma, rest));
    TakeOne(acc, x, r.tree);
    assert r.tree[|acc + [x]|..] == r.tree[|acc|..][1..];
  }

  lemma {:induction false} ArgumentsSpelled(acc: seq<Expr>, ts: seq<Token>)
    requires Lexed(ts)
    ensures ListSpelled(acc, RParen, ts, Arguments(acc, ts))
    ensures var r := Arguments(acc, ts); r.Parsed? && !Head(ts).RParen? ==> !Closes(Head(ts)) && |acc| < |r.tree|
    decreases |ts|, 5
  {
    LexedParts(ts);
    if Head(ts).RParen? {
      TrimToken(ts);
      assert acc[|acc|..] == [];
    } else {
      ExprSpelled(1, ts);
      match ParseExpr(1, ts) {
        case Failed =>
        case Parsed(x, rest) =>
          LexedParts(rest);
          if Head(rest).Comma? {
            ArgumentsSpelled(acc + [x], Tail(rest));
            ArgumentsStep(acc, x, ts, rest);
          } else if Head(rest).RParen? {
            LastSpelled(acc, x, RParen, ts, rest, Tail(rest));
          }
      }
    }
  }

  lemma ArgumentsStep(acc: seq<Expr>, x: Expr, ts: seq<Token>, rest: seq<Token>)
    requires Lexed(rest) && Head(rest).Comma? && ts != [] && Trim(ts) == Spell(x, Trim(rest))
    requires var r := Arguments(acc + [x], Tail(rest));
      && ListSpelled(acc + [x], RParen, Tail(rest), r)
      && (r.Parsed? && !Head(Tail(rest)).RParen? ==> !Closes(Head(Tail(rest))) && |acc| + 1 < |r.tree|)
    ensures ListSpelled(acc, RParen, ts, Arguments(acc + [x], Tail(rest)))
  {
    LexedParts(rest);
    LexedParts(Tail(rest));
    var r := Arguments(acc + [x], Tail(rest));
    assert rest == Put(Comma, Tail(rest));
    if r.Parsed? {
      if Head(Tail(rest)).RParen? {
        LastSpelled(acc, x, RParen, ts, rest, Tail(Tail(rest)));
      } else {
        NextSpelled(acc, x, RParen, ts, Tail(rest), r);
      }
    }
  }

  // ----- expressions

  lemma {:induction false} ExprSpelled(m: nat, ts: seq<Token>)
    requires Lexed(ts) && m >= 1
    ensures Spelled(ts, ParseExpr(m, ts))
    decreases |ts|, 4
  {
    UnarySpelled(ts);
    match ParseUnary(ts) {
      case Failed =>
      case Parsed(left, rest) => ClimbSpelled(left, m, rest);
    }
  }

  lemma BinarySpelled(l: Expr, op: Token, r: Expr, rest: seq<Token>)
    ensures Spell(Binary(l, op, r), rest) == Spell(l, Put(op, Spell(r, rest)))
  {
  }

  lemma UnionSpelled(l: Expr, r: Expr, rest: seq<Token>)
    ensures Spell(Union(l, r), rest) == Spell(l, Put(Pipe, Spell(r, rest)))
  {
  }

  lemma {:induction false} ClimbSpelled(left: Expr, m: nat, ts: seq<Token>)
    requires Lexed(ts) && m >= 1
    ensures var r := Climb(left, m, ts); r.Parsed? ==> Lexed(r.rest) && Spell(left, Trim(ts)) == Spell(r.tree, Trim(r.rest))
    decreases |ts|, 4
  {
    LexedParts(ts);
    var op := Head(ts);
    if op.Precedence() >= m {
      TrimToken(ts);
      ExprSpelled(op.Precedence() + 1, Tail(ts));
      match ParseExpr(op.Precedence() + 1, Tail(ts)) {
        case Failed =>
        case Parsed(right, rest) =>
          BinarySpelled(left, op, right, Trim(rest));
          ClimbSpelled(Binary(left, op, right), m, rest);
      }
    }
  }

  lemma {:induction false} UnarySpelled(ts: seq<Token>)
    requires Lexed(ts)
    ensures Spelled(ts, ParseUnary(ts))
    decreases |ts|, 3
  {
    LexedParts(ts);
    LexedParts(Tail(ts));
    if !Head(ts).IsUnary() {
      PrimarySpelled(ts);
    } else {
      TrimToken(ts);
      if Head(ts).Sub? && (Head(Tail(ts)).IntTok? || Head(Tail(ts)).DecimalTok?) {
        TrimToken(Tail(ts));
        SignedNumber(Head(Tail(ts)));
      } else {
        UnarySpelled(Tail(ts));
      }
    }
  }

  lemma SignedNumber(t: Token)
    requires t.IntTok? || t.DecimalTok?
    ensures Negative("-" + t.text) && ("-" + t.text)[1..] == t.text
  {
  }

  lemma {:induction false} PrimarySpelled(ts: seq<Token>)
    requires Lexed(ts)
    ensures Spelled(ts, Primary(ts))
    decreases |ts|, 2
  {
    if Head(ts).Word? || Head(ts).Dot? {
      RefSpelled(false, ts);
    } else if Head(ts).LParen? {
      GroupSpelled(ts);
    } else {
      JsonSpelled(ts);
    }
  }

  lemma {:induction false} GroupSpelled(ts: seq<Token>)
    requires Lexed(ts) && Head(ts).LParen?
    ensures Spelled(ts, ParseGroup(ts))
    decreases |ts|, 1
  {
    LexedParts(ts);
    TrimToken(ts);
    ExprSpelled(1, Tail(ts));
    var r := ParseExpr(1, Tail(ts));
    if r.Parsed? && Head(r.rest).RParen? {
      LexedParts(r.rest);
      TrimToken(r.rest);
    }
  }

  // ----- values

  lemma {:induction false} ValueSpelled(ts: seq<Token>)
    requires Lexed(ts)
    ensures Spelled(ts, Value(ts))
    decreases |ts|, 2
  {
    if Head(ts).LParen? { SchemaSumSpelled(ts); } else { JsonSpelled(ts); }
  }

  lemma {:induction false} JsonSpelled(ts: seq<Token>)
    requires Lexed(ts)
    ensures Spelled(ts, Json(ts))
    decreases |ts|, 1
  {
    LexedParts(ts);
    if ts != [] && !Head(ts).Comma? {
      TrimToken(ts);
      if Head(ts).LBrace? {
        ObjectSpelled(ts);
      } else if Head(ts).LBrack? || Head(ts).LTuple? {
        SequenceSpelled(if Head(ts).LBrack? then RBrack else RBrace, ts);
      } else if Head(ts).Sub? || Head(ts).IntTok? || Head(ts).DecimalTok? {
        NumberSpelled(ts);
      }
    }
  }

  lemma {:induction false} ObjectSpelled(ts: seq<Token>)
    requires Lexed(ts) && Head(ts).LBrace?
    ensures Spelled(ts, ParseObject(ts))
    decreases |ts|, 0
  {
    LexedParts(ts);
    TrimToken(ts);
    EntriesSpelled([], Tail(ts));
    var r := Entries([], Tail(ts));
    if r.Parsed? { assert r.tree[0..] == r.tree; }
  }

  lemma {:induction false} SequenceSpelled(end: Token, ts: seq<Token>)
    requires Lexed(ts) && (Head(ts).LBrack? || Head(ts).LTuple?) && end == if Head(ts).LBrack? then RBrack else RBrace
    ensures Spelled(ts, ParseSequence(end, ts))
    decreases |ts|, 0
  {
    LexedParts(ts);
    TrimToken(ts);
    ValuesSpelled(end, [], Tail(ts));
    var r := Values(end, [], Tail(ts));
    if r.Parsed? { assert r.tree[0..] == r.tree; }
  }

  lemma NumberSpelled(ts: seq<Token>)
    requires Lexed(ts) && (Head(ts).Sub? || Head(ts).IntTok? || Head(ts).DecimalTok?)
    ensures Spelled(ts, Number(ts))
  {
    LexedParts(ts);
    LexedParts(Tail(ts));
    TrimToken(ts);
    if Head(ts).Sub? {
      if Head(Tail(ts)).IntTok? || Head(Tail(ts)).DecimalTok? {
        TrimToken(Tail(ts));
        SignedNumber(Head(Tail(ts)));
      }
    } else {
      assert "" + Head(ts).text == Head(ts).text;
    }
  }

  lemma {:induction false} ValuesSpelled(end: Token, acc: seq<Expr>, ts: seq<Token>)
    requires Lexed(ts) && (end == RBrack || end == RBrace)
    ensures ListSpelled(acc, end, ts, Values(end, acc, ts))
    ensures var r := Values(end, acc, ts); r.Parsed? && Head(ts) != end ==> !Closes(Head(ts)) && |acc| < |r.tree|
    decreases |ts|, 3
  {
    LexedParts(ts);
    if Head(ts) == end {
      TrimToken(ts);
      assert acc[|acc|..] == [];
    } else {
      ValueSpelled(ts);
      match Value(ts) {
        case Failed =>
        case Parsed(x, rest) =>
          LexedParts(rest);
          if Head(rest).Comma? {
            ValuesSpelled(end, acc + [x], Tail(rest));
            ValuesStep(end, acc, x, ts, rest);
          } else if Head(rest) == end {
            LastSpelled(acc, x, end, ts, rest, Tail(rest));
          }
      }
    }
  }

  lemma ValuesStep(end: Token, acc: seq<Expr>, x: Expr, ts: seq<Token>, rest: seq<Token>)
    requires end == RBrack || end == RBrace
    requires Lexed(rest) && Head(rest).Comma? && ts != [] && Trim(ts) == Spell(x, Trim(rest))
    requires var r := Values(end, acc + [x], Tail(rest));
      && ListSpelled(acc + [x], end, Tail(rest), r)
      && (r.Parsed? && Head(Tail(rest)) != end ==> !Closes(Head(Tail(rest))) && |acc| + 1 < |r.tree|)
    ensures ListSpelled(acc, end, ts, Values(end, acc + [x], Tail(rest)))
  {
    LexedParts(rest);
    LexedParts(Tail(rest));
    var r := Values(end, acc + [x], Tail(rest));
    assert rest == Put(Comma, Tail(rest));
    if r.Parsed? {
      if Head(Tail(rest)) == end {
        LastSpelled(acc, x, end, ts, rest, Tail(Tail(rest)));
      } else {
        NextSpelled(acc, x, end, ts, Tail(rest), r);
      }
    }
  }

  predicate EntriesRead(acc: seq<Entry>, ts: seq<Token>, r: Parsed<seq<Entry>>) {
    r.Parsed? ==>
      && Lexed(r.rest) && ts != [] && acc <= r.tree
      && Trim(ts) == SpellEntries(r.tree[|acc|..], Put(RBrace, Trim(r.rest)))
      && (!Head(ts).RBrace? ==> !Closes(Head(ts)) && |acc| < |r.tree|)
  }

  lemma {:induction false} EntriesSpelled(acc: seq<Entry>, ts: seq<Token>)
    requires Lexed(ts)
    ensures EntriesRead(acc, ts, Entries(acc, ts))
    decreases |ts|, 3
  {
    LexedParts(ts);
    LexedParts(Tail(ts));
    if Head(ts).RBrace? {
      TrimToken(ts);
      assert acc[|acc|..] == [];
    } else if Head(ts).StringTok? && Head(Tail(ts)).Colon? {
      ValueSpelled(Tail(Tail(ts)));
      match Value(Tail(Tail(ts))) {
        case Failed =>
        case Parsed(v, rest) =>
          TrimToken(ts);
          TrimToken(Tail(ts));
          LexedParts(rest);
          var entry := Entry(Head(ts).value, v);
          if Head(rest).Comma? {
            EntriesSpelled(acc + [entry], Tail(rest));
            LexedParts(Tail(rest));
            if Head(Tail(rest)).RBrace? {
              LastEntry(acc, entry, ts, rest, Tail(Tail(rest)));
            } else {
              NextEntry(acc, entry, ts, rest, Entries(acc + [entry], Tail(rest)));
            }
          } else if Head(rest).RBrace? {
            LastEntry(acc, entry, ts, rest, Tail(rest));
          }
      }
    }
  }

  lemma LastEntry(acc: seq<Entry>, x: Entry, ts: seq<Token>, rest: seq<Token>, after: seq<Token>)
    requires ts != [] && Head(ts).StringTok? && Lexed(after)
    requires Trim(ts) == Put(StringTok(x.key), Put(Colon, Spell(x.value, Trim(rest))))
    requires rest == Put(RBrace, after) || rest == Put(Comma, Put(RBrace, after))
    ensures EntriesRead(acc, ts, Parsed(acc + [x], after))
  {
    TrimToken(Put(RBrace, after));
    if rest != Put(RBrace, after) { TrimComma(rest); }
    assert (acc + [x])[|acc|..] == [x];
  }

  lemma NextEntry(acc: seq<Entry>, x: Entry, ts: seq<Token>, rest: seq<Token>, r: Parsed<seq<Entry>>)
    requires ts != [] && Head(ts).StringTok? && Lexed(rest) && Head(rest).Comma?
    requires Trim(ts) == Put(StringTok(x.key), Put(Colon, Spell(x.value, Trim(rest))))
    requires !Head(Tail(rest)).RBrace? && EntriesRead(acc + [x], Tail(rest), r)
    ensures EntriesRead(acc, ts, r)
  {
    if r.Parsed? {
      TrimComma(rest);
      TakeOne(acc, x, r.tree);
      MoreEntries(x, r.tree[|acc|..], Put(RBrace, Trim(r.rest)));
      assert r.tree[|acc + [x]|..] == r.tree[|acc|..][1..];
    }
  }

  lemma MoreEntries(x: Entry, fs: seq<Entry>, rest: seq<Token>)
    requires |fs| > 1 && fs[0] == x
    ensures SpellEntries(fs, rest) == Put(StringTok(x.key), Put(Colon, Spell(x.value, Put(Comma, SpellEntries(fs[1..], rest)))))
  {
  }

  // ----- schemas

  lemma {:induction false} SchemaSumSpelled(ts: seq<Token>)
    requires Lexed(ts)
    ensures Spelled(ts, SchemaSum(ts))
    decreases |ts|, 1
  {
    SchemaSpelled(ts);
    match ParseSchema(ts) {
      case Failed =>
      case Parsed(left, rest) => MoreSchemasSpelled(left, rest);
    }
  }

  lemma {:induction false} MoreSchemasSpelled(left: Expr, ts: seq<Token>)
    requires Lexed(ts)
    ensures var r := MoreSchemas(left, ts); r.Parsed? ==>
      Lexed(r.rest) && Spell(left, Trim(ts)) == Spell(r.tree, Trim(r.rest))
    decreases |ts|, 1
  {
    LexedParts(ts);
    if Head(ts).Pipe? {
      TrimToken(ts);
      SchemaSpelled(Tail(ts));
      match ParseSchema(Tail(ts)) {
        case Failed =>
        case Parsed(right, rest) =>
          UnionSpelled(left, right, Trim(rest));
          MoreSchemasSpelled(Union(left, right), rest);
      }
    }
  }

  lemma SchemaSpells(typ: Expr, clauses: seq<Expr>, rest: seq<Token>)
    ensures Spell(Schema(typ, clauses), rest) == Put(LParen, Spell(typ, SpellClauses(clauses, Put(RParen, rest))))
  {
  }

  lemma {:induction false} SchemaSpelled(ts: seq<Token>)
    requires Lexed(ts)
    ensures Spelled(ts, ParseSchema(ts))
    decreases |ts|, 0
  {
    LexedParts(ts);
    if Head(ts).LParen? {
      TrimToken(ts);
      TypeSumSpelled(Tail(ts));
      match TypeSum(Tail(ts)) {
        case Failed =>
        case Parsed(typ, rest) =>
          ClausesSpelled([], rest);
          var r := ParseClauses([], rest);
          if r.Parsed? {
            assert r.tree[0..] == r.tree;
            SchemaSpells(typ, r.tree, Trim(r.rest));
          }
      }
    }
  }

  lemma {:induction false} ClausesSpelled(acc: seq<Expr>, ts: seq<Token>)
    requires Lexed(ts)
    ensures var r := ParseClauses(acc, ts); r.Parsed? ==>
      Lexed(r.rest) && acc <= r.tree && Trim(ts) == SpellClauses(r.tree[|acc|..], Put(RParen, Trim(r.rest)))
    decreases |ts|, 0
  {
    LexedParts(ts);
    LexedParts(Tail(ts));
    if Head(ts).RParen? {
      TrimToken(ts);
      assert acc[|acc|..] == [];
    } else if Head(ts).Comma? {
      TrimComma(ts);
      if Head(Tail(ts)).RParen? {
        TrimToken(Tail(ts));
        assert acc[|acc|..] == [];
      } else {
        ClauseSpelled(Tail(ts));
        match Clause(Tail(ts)) {
          case Failed =>
          case Parsed(c, rest) =>
            ClausesSpelled(acc + [c], rest);
            var r := ParseClauses(acc + [c], rest);
            if r.Parsed? {
              TakeOne(acc, c, r.tree);
              assert r.tree[|acc + [c]|..] == r.tree[|acc|..][1..];
            }
        }
      }
    }
  }

  lemma {:induction false} ClauseSpelled(ts: seq<Token>)
    requires Lexed(ts)
    ensures Spelled(ts, Clause(ts))
    decreases |ts|, 5
  {
    LexedParts(ts);
    if Head(ts).Word? && EndsMetadata(Head(Tail(ts))) {
      MetadataSpelled(ts);
    } else {
      ExprSpelled(1, ts);
    }
  }

  lemma {:induction false} MetadataSpelled(ts: seq<Token>)
    requires Lexed(ts) && Head(ts).Word?
    ensures Spelled(ts, Metadata(ts))
    decreases |ts|, 2
  {
    LexedParts(ts);
    LexedParts(Tail(ts));
    TrimToken(ts);
    if Head(Tail(ts)).Assign? {
      TrimToken(Tail(ts));
      JsonSpelled(Tail(Tail(ts)));
    }
  }

  lemma {:induction false} TypeSumSpelled(ts: seq<Token>)
    requires Lexed(ts)
    ensures Spelled(ts, TypeSum(ts))
    decreases |ts|, 3
  {
    TypeAtomSpelled(ts);
    match TypeAtom(ts) {
      case Failed =>
      case Parsed(left, rest) => MoreTypesSpelled(left, rest);
    }
  }

  lemma {:induction false} MoreTypesSpelled(left: Expr, ts: seq<Token>)
    requires Lexed(ts)
    ensures var r := MoreTypes(left, ts); r.Parsed? ==>
      Lexed(r.rest) && Spell(left, Trim(ts)) == Spell(r.tree, Trim(r.rest))
    decreases |ts|, 3
  {
    LexedParts(ts);
    if Head(ts).Pipe? {
      TrimToken(ts);
      TypeAtomSpelled(Tail(ts));
      match TypeAtom(Tail(ts)) {
        case Failed =>
        case Parsed(right, rest) =>
          UnionSpelled(left, right, Trim(rest));
          MoreTypesSpelled(Union(left, right), rest);
      }
    }
  }

  lemma {:induction false} TypeAtomSpelled(ts: seq<Token>)
    requires Lexed(ts)
    ensures Spelled(ts, TypeAtom(ts))
    decreases |ts|, 2
  {
    if Head(ts).Word? || Head(ts).Dot? {
      RefSpelled(true, ts);
    } else if Head(ts).LParen? {
      SchemaSpelled(ts);
    } else {
      JsonSpelled(ts);
    }
  }

  // ----- whole sources

  /** A tree the parser returns spells the source it was read from, up to trailing commas: no token is skipped, none is
    * read as another and none is made up. */
  lemma ParsedSpells(ts: seq<Token>)
    requires Lexed(ts)
    ensures Parse(ts).Some? ==> Spell(Parse(ts).value, []) == Trim(ts)
  {
    ValueSpelled(ts);
  }

  // ----- trailing commas are allowed

  /** A comma behind the last element of a list, a tuple or an object, the last argument of a call and the last clause
    * of a schema changes nothing. */
  lemma TrailingComma(end: Token, acc: seq<Expr>, ts: seq<Token>, us: seq<Token>, v: Expr, rest: seq<Token>)
    requires Value(ts) == Parsed(v, Put(end, rest)) && Value(us) == Parsed(v, Put(Comma, Put(end, rest)))
    requires (end == RBrack || end == RBrace) && Head(ts) != end && Head(us) != end
    ensures Values(end, acc, us) == Values(end, acc, ts) == Parsed(acc + [v], rest)
  {
  }

  lemma TrailingArgument(acc: seq<Expr>, ts: seq<Token>, us: seq<Token>, x: Expr, rest: seq<Token>)
    requires ParseExpr(1, ts) == Parsed(x, Put(RParen, rest)) && ParseExpr(1, us) == Parsed(x, Put(Comma, Put(RParen, rest)))
    requires !Head(ts).RParen? && !Head(us).RParen?
    ensures Arguments(acc, us) == Arguments(acc, ts) == Parsed(acc + [x], rest)
  {
  }

  lemma TrailingEntry(acc: seq<Entry>, key: string, ts: seq<Token>, us: seq<Token>, v: Expr, rest: seq<Token>)
    requires Value(ts) == Parsed(v, Put(RBrace, rest)) && Value(us) == Parsed(v, Put(Comma, Put(RBrace, rest)))
    ensures Entries(acc, Put(StringTok(key), Put(Colon, us))) == Entries(acc, Put(StringTok(key), Put(Colon, ts)))
            == Parsed(acc + [Entry(key, v)], rest)
  {
  }

  lemma TrailingClause(acc: seq<Expr>, rest: seq<Token>)
    ensures ParseClauses(acc, Put(Comma, Put(RParen, rest))) == ParseClauses(acc, Put(RParen, rest)) == Parsed(acc, rest)
  {
  }
}
