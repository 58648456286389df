/** What the precedence table and the climbing loop mean for unparenthesised chains
  * (parser/token/token.go:171-196, parser/expr.go:11-36). */
module Precedences {
  import opened Wrappers
  import opened Syntax
  import opened Grammar
  import opened Printing
  import opened RoundTrip

  function Var(a: string): Expr {
    Ident([a])
  }

  lemma WordRead(a: string, rest: seq<Token>)
    requires Apart(rest)
    ensures ParseUnary(Put(Word(a), rest)) == Parsed(Var(a), rest)
  {
    var ts := Put(Word(a), rest);
    assert Components([], ts) == Parsed([] + [a], rest);
    assert [] + [a] == [a];
    PrimaryRead(ts);
  }

  /** `a op b`, read by a loop that takes `op` and not what follows. */
  lemma PairRead(m: nat, a: string, op: Token, b: string, rest: seq<Token>)
    requires 1 <= m <= op.Precedence() && Apart(rest) && Head(rest).Precedence() <= op.Precedence()
    requires !(op.Precedence() == Eq.Precedence() == Head(rest).Precedence())
    ensures ParseExpr(m, Put(Word(a), Put(op, Put(Word(b), rest)))) == Climb(Binary(Var(a), op, Var(b)), m, rest)
  {
    WordRead(a, Put(op, Put(Word(b), rest)));
    WordRead(b, rest);
    ClimbStops(Var(b), op.Precedence() + 1, rest);
    ClimbStep(Var(a), op, m, Put(Word(b), rest), Var(b), rest);
  }

  /** A stronger operator on the right takes the middle operand: `a p (b q c)`. */
  lemma StrongerRight(a: string, p: Token, b: string, q: Token, c: string, rest: seq<Token>)
    requires p.IsBinary() && p.Precedence() < q.Precedence() && Ends(rest)
    ensures ParseExpr(1, Put(Word(a), Put(p, Put(Word(b), Put(q, Put(Word(c), rest)))))) ==
            Parsed(Binary(Var(a), p, Binary(Var(b), q, Var(c))), rest)
  {
    var right := Binary(Var(b), q, Var(c));
    var body := Put(Word(b), Put(q, Put(Word(c), rest)));
    WordRead(a, Put(p, body));
    PairRead(p.Precedence() + 1, b, q, c, rest);
    ClimbStops(right, p.Precedence() + 1, rest);
    ClimbStep(Var(a), p, 1, body, right, rest);
    ClimbStops(Binary(Var(a), p, right), 1, rest);
  }

  /** One more operand joins on the right. */
  lemma JoinRead(left: Expr, m: nat, q: Token, c: string, rest: seq<Token>)
    requires 1 <= m <= q.Precedence() && Apart(rest) && Head(rest).Precedence() <= q.Precedence()
    requires !(q.Precedence() == Eq.Precedence() == Head(rest).Precedence())
    ensures Climb(left, m, Put(q, Put(Word(c), rest))) == Climb(Binary(left, q, Var(c)), m, rest)
  {
    WordRead(c, rest);
    ClimbStops(Var(c), q.Precedence() + 1, rest);
    ClimbStep(left, q, m, Put(Word(c), rest), Var(c), rest);
  }

  /** Otherwise the left pair comes first, unless both are equalities: `(a p b) q c`. */
  lemma LeftAssociative(a: string, p: Token, b: string, q: Token, c: string, rest: seq<Token>)
    requires q.IsBinary() && q.Precedence() <= p.Precedence() && Ends(rest)
    requires !(p.Precedence() == Eq.Precedence() == q.Precedence())
    ensures ParseExpr(1, Put(Word(a), Put(p, Put(Word(b), Put(q, Put(Word(c), rest)))))) ==
            Parsed(Binary(Binary(Var(a), p, Var(b)), q, Var(c)), rest)
  {
    var left := Binary(Var(a), p, Var(b));
    PairRead(1, a, p, b, Put(q, Put(Word(c), rest)));
    JoinRead(left, 1, q, c, rest);
    ClimbStops(Binary(left, q, Var(c)), 1, rest);
  }

  /** Three operators, each stronger than the next: `((a p b) q c) r d`. */
  lemma Descending(a: string, p: Token, b: string, q: Token, c: string, r: Token, d: string, rest: seq<Token>)
    requires p.Precedence() > q.Precedence() > r.Precedence() > 0 && Ends(rest)
    ensures ParseExpr(1, Put(Word(a), Put(p, Put(Word(b), Put(q, Put(Word(c), Put(r, Put(Word(d), rest)))))))) ==
            Parsed(Binary(Binary(Binary(Var(a), p, Var(b)), q, Var(c)), r, Var(d)), rest)
  {
    var (last, left) := (Put(r, Put(Word(d), rest)), Binary(Var(a), p, Var(b)));
    PairRead(1, a, p, b, Put(q, Put(Word(c), last)));
    JoinRead(left, 1, q, c, last);
    JoinRead(Binary(left, q, Var(c)), 1, r, d, rest);
    ClimbStops(Binary(Binary(left, q, Var(c)), r, Var(d)), 1, rest);
  }

  lemma ClimbFails(left: Expr, op: Token, m: nat, body: seq<Token>, right: Expr, rest: seq<Token>)
    requires 1 <= m <= op.Precedence() && ParseExpr(op.Precedence() + 1, body) == Parsed(right, rest)
    requires op.Precedence() == Eq.Precedence() == Head(rest).Precedence()
    ensures Climb(left, m, Put(op, body)) == Failed
  {
  }

  /** Equalities, memberships and matches do not chain without parentheses. */
  lemma EqualitiesDoNotChain(a: string, p: Token, b: string, q: Token, rest: seq<Token>)
    requires p.Precedence() == Eq.Precedence() == q.Precedence()
    ensures ParseExpr(1, Put(Word(a), Put(p, Put(Word(b), Put(q, rest))))) == Failed
  {
    var more := Put(q, rest);
    WordRead(a, Put(p, Put(Word(b), more)));
    WordRead(b, more);
    ClimbStops(Var(b), p.Precedence() + 1, more);
    ClimbFails(Var(a), p, 1, Put(Word(b), more), Var(b), more);
  }

  /** As documented, a product inside a sum is read first. */
  lemma SumsOfProducts(a: string, p: Token, b: string, q: Token, c: string, rest: seq<Token>)
    requires (p.Add? || p.Sub?) && (q.Mul? || q.Div? || q.Mod?) && Ends(rest)
    ensures ParseExpr(1, Put(Word(a), Put(p, Put(Word(b), Put(q, Put(Word(c), rest)))))) ==
            Parsed(Binary(Var(a), p, Binary(Var(b), q, Var(c))), rest)
  {
    StrongerRight(a, p, b, q, c, rest);
  }

  /** As documented, a comparison of a sum inside a conjunction or disjunction needs no parentheses. */
  lemma ComparisonsOfSums(a: string, p: Token, b: string, q: Token, c: string, r: Token, d: string, rest: seq<Token>)
    requires (p.Add? || p.Sub?) && (q.Lt? || q.Le? || q.Gt? || q.Ge? || q.Eq? || q.Ne?) && (r.And? || r.Or?) && Ends(rest)
    ensures ParseExpr(1, Put(Word(a), Put(p, Put(Word(b), Put(q, Put(Word(c), Put(r, Put(Word(d), rest)))))))) ==
            Parsed(Binary(Binary(Binary(Var(a), p, Var(b)), q, Var(c)), r, Var(d)), rest)
  {
    Descending(a, p, b, q, c, r, d, rest);
  }

  // ----- the documented levels, operator by operator

  predicate IsEquality(op: Token) {
    op.Eq? || op.Ne? || op.In? || op.Match?
  }

  predicate IsComparison(op: Token) {
    op.Lt? || op.Le? || op.Gt? || op.Ge?
  }

  predicate IsAdditive(op: Token) {
    op.Add? || op.Sub?
  }

  predicate IsMultiplicative(op: Token) {
    op.Mul? || op.Div? || op.Mod?
  }

  predicate IsOperator(op: Token) {
    op.Or? || op.And? || IsEquality(op) || IsComparison(op) || IsAdditive(op) || IsMultiplicative(op)
  }

  /** `||`, then `&&`, then equality, membership and match, then comparison, then sums, then products. */
  predicate Tighter(p: Token, q: Token) {
    if p.Or? then IsOperator(q) && !q.Or?
    else if p.And? then IsOperator(q) && !q.Or? && !q.And?
    else if IsEquality(p) then IsComparison(q) || IsAdditive(q) || IsMultiplicative(q)
    else if IsComparison(p) then IsAdditive(q) || IsMultiplicative(q)
    else IsAdditive(p) && IsMultiplicative(q)
  }

  predicate SameLevel(p: Token, q: Token) {
    (p.Or? && q.Or?) || (p.And? && q.And?) || (IsComparison(p) && IsComparison(q)) ||
    (IsAdditive(p) && IsAdditive(q)) || (IsMultiplicative(p) && IsMultiplicative(q))
  }

  /** What ends an expression: nothing more, a closing parenthesis or a comma. */
  predicate Closed(rest: seq<Token>) {
    rest == [] || rest[0].RParen? || rest[0].Comma?
  }

  function Chain(a: string, p: Token, b: string, q: Token, c: string, rest: seq<Token>): seq<Token> {
    Put(Word(a), Put(p, Put(Word(b), Put(q, Put(Word(c), rest)))))
  }

  lemma TighterLevels(p: Token, q: Token)
    requires Tighter(p, q)
    ensures 0 < p.Precedence() < q.Precedence()
  {
    LevelOf(p);
    LevelOf(q);
  }

  lemma OneLevel(p: Token, q: Token)
    requires SameLevel(p, q)
    ensures p.Precedence() == q.Precedence() > 0 && p.Precedence() != 3
  {
    LevelOf(p);
    LevelOf(q);
  }

  lemma LevelOf(t: Token)
    ensures t.Precedence() ==
      if t.Or? then 1 else if t.And? then 2 else if IsEquality(t) then 3 else if IsComparison(t) then 4
      else if IsAdditive(t) then 5 else if IsMultiplicative(t) then 6 else 0
  {
  }

  /** Without parentheses the tighter operator keeps its operands, on either side of the other. */
  lemma TighterBindsFirst(a: string, p: Token, b: string, q: Token, c: string, rest: seq<Token>)
    requires Tighter(p, q) && Closed(rest)
    ensures ParseExpr(1, Chain(a, p, b, q, c, rest)) == Parsed(Binary(Var(a), p, Binary(Var(b), q, Var(c))), rest)
    ensures ParseExpr(1, Chain(a, q, b, p, c, rest)) == Parsed(Binary(Binary(Var(a), q, Var(b)), p, Var(c)), rest)
  {
    TighterLevels(p, q);
    StrongerRight(a, p, b, q, c, rest);
    LeftAssociative(a, q, b, p, c, rest);
  }

  /** Operators of one level join to the left. */
  lemma SameLevelJoinsLeft(a: string, p: Token, b: string, q: Token, c: string, rest: seq<Token>)
    requires SameLevel(p, q) && Closed(rest)
    ensures ParseExpr(1, Chain(a, p, b, q, c, rest)) == Parsed(Binary(Binary(Var(a), p, Var(b)), q, Var(c)), rest)
  {
    OneLevel(p, q);
    LeftAssociative(a, p, b, q, c, rest);
  }

  /** Except those of the equality level, which do not chain. */
  lemma TwoEqualitiesFail(a: string, p: Token, b: string, q: Token, c: string, rest: seq<Token>)
    requires IsEquality(p) && IsEquality(q)
    ensures ParseExpr(1, Chain(a, p, b, q, c, rest)) == Failed
  {
    LevelOf(p);
    LevelOf(q);
    EqualitiesDoNotChain(a, p, b, q, Put(Word(c), rest));
  }

  /** No other token continues an expression; a dot or a parenthesis belongs to the name before it. */
  lemma OthersEnd(a: string, t: Token, rest: seq<Token>)
    requires !IsOperator(t) && !t.Dot? && !t.LParen?
    ensures ParseExpr(1, Put(Word(a), Put(t, rest))) == Parsed(Var(a), Put(t, rest))
  {
    WordRead(a, Put(t, rest));
    ClimbStops(Var(a), 1, Put(t, rest));
  }
}
