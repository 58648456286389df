/** The two object checks as the code runs them: presence bits with an early return, and a walk over two
  * sorted field lists (internal/compiled/validate.go:140-233, validate_type.go:105-122, view.go:346-363). */
module ObjectWalks {
  import opened Wrappers
  import opened Atoms
  import opened Types
  import opened Syntax
  import opened Validation

  // ----- one bit a field

  /** The word with only its `b`-th bit set, `1 << b`. */
  function Bit(b: nat): bv64 {
    if b == 0 then 1 else Bit(b - 1) << 1
  }

  lemma {:induction false} ZeroStays(b: nat, k: nat)
    requires Bit(b) == 0
    ensures Bit(b + k) == 0
  {
    if k > 0 { ZeroStays(b, k - 1); }
  }

  lemma TopBit()
    ensures Bit(63) == 0x8000_0000_0000_0000
  {
    assert Bit(3) == 0x8;
    assert Bit(7) == 0x80;
    assert Bit(11) == 0x800;
    assert Bit(15) == 0x8000;
    assert Bit(19) == 0x80000;
    assert Bit(23) == 0x800000;
    assert Bit(27) == 0x8000000;
    assert Bit(31) == 0x80000000;
    assert Bit(35) == 0x800000000;
    assert Bit(39) == 0x8000000000;
    assert Bit(43) == 0x80000000000;
    assert Bit(47) == 0x800000000000;
    assert Bit(51) == 0x8000000000000;
    assert Bit(55) == 0x80000000000000;
    assert Bit(59) == 0x800000000000000;
    assert Bit(63) == 0x8000000000000000;
  }

  lemma BitNonZero(b: nat)
    requires b < 64
    ensures Bit(b) != 0
  {
    TopBit();
    if Bit(b) == 0 { ZeroStays(b, 63 - b); }
  }

  lemma {:induction false} BitsApart(b: nat, c: nat)
    requires b < c
    ensures Bit(b) & Bit(c) == 0
  {
    var y := Bit(c - 1);
    if b == 0 {
      assert 1 & (y << 1) == 0;
    } else {
      BitsApart(b - 1, c - 1);
      var x := Bit(b - 1);
      assert (x << 1) & (y << 1) == (x & y) << 1;
    }
  }

  predicate Overlap(w: bv64, mask: bv64) {
    w & mask != 0
  }

  function Join(w: bv64, mask: bv64): bv64 {
    w | mask
  }

  predicate TestBit(w: bv64, b: nat) {
    Overlap(w, Bit(b))
  }

  function SetBit(w: bv64, b: nat): bv64 {
    Join(w, Bit(b))
  }

  // The loops below see a word only through its test and its mark.
  type Test = (bv64, nat) -> bool
  type Mark = (bv64, nat) -> bv64

  /** A test and a mark for 64 separate bits. */
  ghost predicate BitOps(test: Test, mark: Mark) {
    && (forall b :: 0 <= b < 64 ==> !test(0, b))
    && (forall w, b, c :: 0 <= b < 64 && 0 <= c < 64 ==> (test(mark(w, b), c) <==> test(w, c) || b == c))
  }

  lemma NothingOverlaps(x: bv64)
    ensures !Overlap(0, x)
  {
  }

  lemma JoinSame(w: bv64, x: bv64)
    requires x != 0
    ensures Overlap(Join(w, x), x)
  {
  }

  lemma JoinOther(w: bv64, x: bv64, y: bv64)
    requires x & y == 0
    ensures Overlap(Join(w, x), y) <==> Overlap(w, y)
  {
  }

  lemma Commutes(x: bv64, y: bv64)
    ensures x & y == y & x
  {
  }

  lemma WordSame(w: bv64, b: nat)
    requires b < 64
    ensures TestBit(SetBit(w, b), b)
  {
    BitNonZero(b);
    JoinSame(w, Bit(b));
  }

  lemma WordOther(w: bv64, b: nat, c: nat)
    requires Bit(b) & Bit(c) == 0
    ensures TestBit(SetBit(w, b), c) <==> TestBit(w, c)
  {
    JoinOther(w, Bit(b), Bit(c));
  }

  lemma Apart(b: nat, c: nat)
    requires b != c
    ensures Bit(b) & Bit(c) == 0
  {
    if b < c {
      BitsApart(b, c);
    } else {
      BitsApart(c, b);
      Commutes(Bit(b), Bit(c));
    }
  }

  lemma WordBits(w: bv64, b: nat, c: nat)
    requires b < 64 && c < 64
    ensures TestBit(SetBit(w, b), c) <==> TestBit(w, c) || b == c
  {
    if b == c {
      WordSame(w, b);
    } else {
      Apart(b, c);
      WordOther(w, b, c);
    }
  }

  lemma WordOps()
    ensures BitOps(TestBit, SetBit)
  {
    forall b | 0 <= b < 64 ensures !TestBit(0, b) { NothingOverlaps(Bit(b)); }
    forall w, b, c | 0 <= b < 64 && 0 <= c < 64 ensures TestBit(SetBit(w, b), c) <==> TestBit(w, c) || b == c {
      WordBits(w, b, c);
    }
  }

  predicate Has(test: Test, seen: seq<bv64>, i: nat)
    requires i / 64 < |seen|
  {
    test(seen[i / 64], i % 64)
  }

  // ----- counting keys

  function Keys(got: seq<Entry>, n: nat): set<string>
    requires n <= |got|
  {
    set k | 0 <= k < n :: got[k].key
  }

  function Names(want: seq<Field>): set<string> {
    set i | 0 <= i < |want| :: want[i].name
  }

  lemma {:induction false} KeyCount(got: seq<Entry>, n: nat)
    requires n <= |got| && DistinctKeys(got[..n])
    ensures |Keys(got, n)| == n
  {
    if n > 0 {
      assert DistinctKeys(got[..n - 1]);
      KeyCount(got, n - 1);
      assert forall k :: 0 <= k < n - 1 ==> got[..n][k].key != got[..n][n - 1].key;
      assert got[n - 1].key !in Keys(got, n - 1);
      assert Keys(got, n) == Keys(got, n - 1) + {got[n - 1].key};
    }
  }

  lemma {:induction false} NameCount(want: seq<Field>)
    requires SortedFields(want)
    ensures |Names(want)| == |want|
  {
    if want != [] {
      var (init, last) := (want[..|want| - 1], want[|want| - 1]);
      NameCount(init);
      CompareStringsIsOrder(last.name, last.name);
      assert last.name !in Names(init);
      assert Names(want) == Names(init) + {last.name};
    }
  }

  /** Distinct known keys are no more than the fields; if as many, every field is given. */
  lemma Pigeonhole(want: seq<Field>, got: seq<Entry>)
    requires SortedFields(want) && DistinctKeys(got)
    requires forall j :: 0 <= j < |got| ==> IndexOf(want, got[j].key) >= 0
    ensures |got| <= |want|
    ensures |got| == |want| ==> forall i :: 0 <= i < |want| ==> HasKey(got, want[i].name)
  {
    assert got[..|got|] == got;
    KeyCount(got, |got|);
    NameCount(want);
    forall k | k in Keys(got, |got|) ensures k in Names(want) {
      var j :| 0 <= j < |got| && got[j].key == k;
      assert want[IndexOf(want, k)].name == k;
    }
    SubsetCardinality(Keys(got, |got|), Names(want));
    if |got| == |want| {
      forall i | 0 <= i < |want| ensures HasKey(got, want[i].name) {
        assert want[i].name in Names(want);
      }
    }
  }

  // ----- field search

  /** Binary search for a field name (`Fields.index`, `findField`). */
  method SearchField(want: seq<Field>, name: string) returns (i: int)
    requires SortedFields(want)
    ensures i == IndexOf(want, name)
  {
    var lo, hi := 0, |want|;
    while lo < hi
      invariant 0 <= lo <= hi <= |want|
      invariant forall k :: 0 <= k < lo ==> CompareStrings(want[k].name, name) < 0
      invariant forall k :: hi <= k < |want| ==> CompareStrings(want[k].name, name) >= 0
    {
      var mid := (lo + hi) / 2;
      if CompareStrings(want[mid].name, name) < 0 {
        forall k | 0 <= k < mid ensures CompareStrings(want[k].name, name) < 0 {
          CompareStringsTransitive(want[k].name, want[mid].name, name);
        }
        lo := mid + 1;
      } else {
        forall k | mid < k < |want| ensures CompareStrings(want[k].name, name) >= 0 {
          LaterNotBefore(want[mid].name, want[k].name, name);
        }
        hi := mid;
      }
    }
    CompareStringsIsOrder(name, name);
    NotAfter(want, lo, name);
    if lo < |want| && want[lo].name == name {
      SortedNamesDistinct(want, lo, if IndexOf(want, name) >= 0 then IndexOf(want, name) else lo);
      i := lo;
    } else {
      i := -1;
    }
  }

  lemma NotAfter(want: seq<Field>, lo: nat, name: string)
    requires SortedFields(want) && lo <= |want|
    requires forall k :: 0 <= k < lo ==> CompareStrings(want[k].name, name) < 0
    requires forall k :: lo <= k < |want| ==> CompareStrings(want[k].name, name) >= 0
    ensures IndexOf(want, name) < 0 || IndexOf(want, name) == lo
  {
    var k := IndexOf(want, name);
    CompareStringsIsOrder(name, name);
    if k > lo { CompareStringsIsOrder(want[lo].name, name); }
  }

  lemma LaterNotBefore(a: string, b: string, name: string)
    requires CompareStrings(a, b) < 0 && CompareStrings(a, name) >= 0
    ensures CompareStrings(b, name) >= 0
  {
    if CompareStrings(b, name) < 0 { CompareStringsTransitive(a, b, name); }
  }

  // ----- validObject

  predicate EntryValid(want: seq<Field>, f: Entry) {
    IndexOf(want, f.key) >= 0 && ValidAST(want[IndexOf(want, f.key)].typ, f.value)
  }

  /** What a prefix of the entries must satisfy for the loop to go on. */
  predicate PrefixValid(want: seq<Field>, got: seq<Entry>, n: nat)
    requires n <= |got|
  {
    && DistinctKeys(got[..n])
    && forall j :: 0 <= j < n ==> EntryValid(want, got[j])
  }

  predicate RequiredGiven(want: seq<Field>, got: seq<Entry>) {
    forall i :: 0 <= i < |want| && !want[i].optional ==> HasKey(got, want[i].name)
  }

  lemma ObjectRule(want: seq<Field>, got: seq<Entry>)
    requires SortedFields(want)
    ensures ValidAST(Object(want), ObjectLit(got)) <==> PrefixValid(want, got, |got|) && RequiredGiven(want, got)
  {
    assert got[..|got|] == got;
    if PrefixValid(want, got, |got|) {
      forall i, j | 0 <= i < |want| && 0 <= j < |got| && want[i].name == got[j].key
        ensures ValidAST(want[i].typ, got[j].value)
      {
        SortedNamesDistinct(want, i, IndexOf(want, got[j].key));
      }
    }
  }

  /** The bits are those of the fields in `given`. */
  predicate Marks(test: Test, seen: seq<bv64>, given: set<nat>, count: nat)
    requires count <= 64 * |seen|
  {
    forall i :: 0 <= i < count ==> (Has(test, seen, i) <==> i in given)
  }

  lemma MarkWord(test: Test, mark: Mark, w: bv64, b: nat, c: nat)
    requires BitOps(test, mark) && b < 64 && c < 64
    ensures test(mark(w, b), c) <==> test(w, c) || b == c
  {
  }

  lemma MarkBit(test: Test, mark: Mark, seen: seq<bv64>, given: set<nat>, count: nat, i: nat)
    requires BitOps(test, mark) && i < count <= 64 * |seen| && Marks(test, seen, given, count)
    ensures Marks(test, seen[i / 64 := mark(seen[i / 64], i % 64)], given + {i}, count)
  {
    forall j | 0 <= j < count
      ensures Has(test, seen[i / 64 := mark(seen[i / 64], i % 64)], j) <==> j in given + {i}
    {
      assert Has(test, seen, j) <==> j in given;
      if i / 64 == j / 64 {
        MarkWord(test, mark, seen[i / 64], i % 64, j % 64);
      }
    }
  }

  /** The fields the first `n` entries name. */
  function Given(want: seq<Field>, got: seq<Entry>, n: nat): set<nat>
    requires n <= |got|
  {
    set j | 0 <= j < n && IndexOf(want, got[j].key) >= 0 :: IndexOf(want, got[j].key)
  }

  lemma RepeatedKey(want: seq<Field>, got: seq<Entry>, j: nat)
    requires j < |got| && IndexOf(want, got[j].key) in Given(want, got, j)
    ensures !PrefixValid(want, got, |got|)
  {
    var k :| 0 <= k < j && IndexOf(want, got[k].key) == IndexOf(want, got[j].key) >= 0;
    assert got[k].key == got[j].key;
    assert got[..|got|][k].key == got[..|got|][j].key;
  }

  lemma NewKey(want: seq<Field>, got: seq<Entry>, j: nat)
    requires j < |got| && DistinctKeys(got[..j])
    requires IndexOf(want, got[j].key) >= 0 && IndexOf(want, got[j].key) !in Given(want, got, j)
    ensures DistinctKeys(got[..j + 1])
    ensures Given(want, got, j + 1) == Given(want, got, j) + {IndexOf(want, got[j].key)}
  {
    var (before, after) := (got[..j], got[..j + 1]);
    forall a, b | 0 <= a < b < |after| ensures after[a].key != after[b].key {
      if b < j {
        assert before[a].key != before[b].key;
      } else {
        assert IndexOf(want, got[a].key) >= 0 ==> IndexOf(want, got[a].key) in Given(want, got, j);
      }
    }
  }

  lemma GivenHasKey(want: seq<Field>, got: seq<Entry>, i: nat)
    requires SortedFields(want) && i < |want|
    ensures i in Given(want, got, |got|) <==> HasKey(got, want[i].name)
  {
    if HasKey(got, want[i].name) {
      var j :| 0 <= j < |got| && got[j].key == want[i].name;
      SortedNamesDistinct(want, i, IndexOf(want, got[j].key));
    }
  }

  method ValidObject(want: seq<Field>, got: seq<Entry>) returns (ok: bool)
    requires SortedFields(want)
    ensures ok <==> ValidAST(Object(want), ObjectLit(got))
  {
    ObjectRule(want, got);
    WordOps();
    if |got| > |want| {
      TooMany(want, got);
      return false;
    }
    var seen := new bv64[if |want| > 4 * 64 then (|want| + 63) / 64 else 4](_ => 0);
    ok := MarkAll(TestBit, SetBit, want, got, seen);
    if !ok { return; }
    if |got| == |want| {
      assert got[..|got|] == got;
      Pigeonhole(want, got);
      return true;
    }
    ok := AllGiven(TestBit, want, got, seen);
  }

  lemma TooMany(want: seq<Field>, got: seq<Entry>)
    requires SortedFields(want) && |got| > |want|
    ensures !PrefixValid(want, got, |got|)
  {
    if PrefixValid(want, got, |got|) {
      assert got[..|got|] == got;
      assert forall j :: 0 <= j < |got| ==> EntryValid(want, got[j]);
      Pigeonhole(want, got);
    }
  }

  /** The first loop: known keys, no key twice, valid values. */
  method MarkAll(test: Test, mark: Mark, want: seq<Field>, got: seq<Entry>, seen: array<bv64>) returns (ok: bool)
    requires BitOps(test, mark) && SortedFields(want) && |want| <= 64 * seen.Length
    requires forall k :: 0 <= k < seen.Length ==> seen[k] == 0
    modifies seen
    ensures ok <==> PrefixValid(want, got, |got|)
    ensures ok ==> Marks(test, seen[..], Given(want, got, |got|), |want|)
  {
    NoMarks(test, mark, seen[..], |want|);
    assert Given(want, got, 0) == {};
    for j := 0 to |got|
      invariant PrefixValid(want, got, j) && Marks(test, seen[..], Given(want, got, j), |want|)
    {
      var i := SearchField(want, got[j].key);
      if i < 0 { return false; }
      assert Has(test, seen[..], i) <==> i in Given(want, got, j);
      if test(seen[i / 64], i % 64) {
        RepeatedKey(want, got, j);
        return false;
      }
      NewKey(want, got, j);
      MarkBit(test, mark, seen[..], Given(want, got, j), |want|, i);
      ghost var before := seen[..];
      seen[i / 64] := mark(seen[i / 64], i % 64);
      assert seen[..] == before[i / 64 := mark(before[i / 64], i % 64)];
      if !ValidAST(want[i].typ, got[j].value) {
        assert !EntryValid(want, got[j]);
        return false;
      }
    }
    return true;
  }

  lemma NoMarks(test: Test, mark: Mark, seen: seq<bv64>, count: nat)
    requires BitOps(test, mark) && count <= 64 * |seen| && forall k :: 0 <= k < |seen| ==> seen[k] == 0
    ensures Marks(test, seen, {}, count)
  {
  }

  /** The second loop: every required field has its bit. */
  method AllGiven(test: Test, want: seq<Field>, got: seq<Entry>, seen: array<bv64>) returns (ok: bool)
    requires SortedFields(want) && |want| <= 64 * seen.Length
    requires Marks(test, seen[..], Given(want, got, |got|), |want|)
    ensures ok <==> RequiredGiven(want, got)
  {
    for i := 0 to |want|
      invariant forall k :: 0 <= k < i && !want[k].optional ==> HasKey(got, want[k].name)
    {
      assert Has(test, seen[..], i) <==> i in Given(want, got, |got|);
      GivenHasKey(want, got, i);
      if !want[i].optional && !test(seen[i / 64], i % 64) { return false; }
    }
    return true;
  }

  // ----- validAny

  method ValidAnyLiteral(e: Expr) returns (ok: bool)
    ensures ok <==> ValidAny(e)
    decreases e
  {
    match e
    case IntLit(_) => return IntOf(e).Some?;
    case DecimalLit(_) => return NumberOf(e).Some?;
    case ListLit(es) => ok := ValidAnyElements(es);
    case TupleLit(es) => ok := ValidAnyElements(es);
    case ObjectLit(fs) => ok := ValidAnyFields(fs);
    case _ => return e.NullLit? || e.BoolLit? || e.StringLit?;
  }

  method ValidAnyElements(es: seq<Expr>) returns (ok: bool)
    ensures ok <==> forall i :: 0 <= i < |es| ==> ValidAny(es[i])
    decreases es
  {
    for i := 0 to |es|
      invariant forall k :: 0 <= k < i ==> ValidAny(es[k])
    {
      ok := ValidAnyLiteral(es[i]);
      if !ok { return; }
    }
    return true;
  }

  method ValidAnyFields(fs: seq<Entry>) returns (ok: bool)
    ensures ok <==> DistinctKeys(fs) && forall i :: 0 <= i < |fs| ==> ValidAny(fs[i].value)
    decreases fs
  {
    var seen: set<string> := {};
    for i := 0 to |fs|
      invariant seen == Keys(fs, i)
      invariant forall a, b :: 0 <= a < b < i ==> fs[a].key != fs[b].key
      invariant forall k :: 0 <= k < i ==> ValidAny(fs[k].value)
    {
      if fs[i].key in seen { return false; }
      seen := seen + {fs[i].key};
      ok := ValidAnyLiteral(fs[i].value);
      if !ok { return; }
    }
    return true;
  }

  // ----- literalBase

  /** Strip refinements until an atom or a bare type is left. */
  method StripRefinements(value: Type) returns (b: Type)
    ensures b == LiteralBase(value)
  {
    b := value;
    while b.Refined?
      invariant LiteralBase(b) == LiteralBase(value)
      decreases b
    {
      if Literal(b).Some? { return Lit(Literal(b).value); }
      b := b.base;
    }
  }

  // ----- acceptsObject

  predicate Found(fs: seq<Field>, n: nat, name: string) {
    0 <= IndexOf(fs, name) < n
  }

  predicate Settled(want: seq<Field>, got: seq<Field>, l: nat, j: nat)
    requires l < |want| && j <= |got|
  {
    if Found(got, j, want[l].name) then Accepts(want[l].typ, got[IndexOf(got, want[l].name)].typ)
    else want[l].optional
  }

  predicate AllSettled(want: seq<Field>, got: seq<Field>, i: nat, j: nat)
    requires i <= |want| && j <= |got|
  {
    forall l :: 0 <= l < i ==> Settled(want, got, l, j)
  }

  /** The first `j` values belong to the first `i` fields, which they settle, and the next value does not. */
  predicate MatchedUpTo(want: seq<Field>, got: seq<Field>, i: nat, j: nat)
    requires i <= |want| && j <= |got|
  {
    && (forall k :: 0 <= k < j ==> Found(want, i, got[k].name))
    && AllSettled(want, got, i, j)
    && (j < |got| ==> !Found(want, i, got[j].name))
  }

  /** The walk over both sorted field lists decides the object rule. */
  method AcceptsObject(want: seq<Field>, got: seq<Field>) returns (ok: bool)
    requires SortedFields(want) && SortedFields(got)
    ensures ok <==> Accepts(Object(want), Object(got))
  {
    var j := 0;
    for i := 0 to |want|
      invariant 0 <= j <= |got| && MatchedUpTo(want, got, i, j)
    {
      if j == |got| || want[i].name != got[j].name {
        if !want[i].optional {
          MissingField(want, got, i, j);
          return false;
        }
        SkipField(want, got, i, j);
      } else {
        MatchField(want, got, i, j);
        if !Accepts(want[i].typ, got[j].typ) { return false; }
        j := j + 1;
      }
    }
    WalkDone(want, got, j);
    return j == |got|;
  }

  lemma SkipField(want: seq<Field>, got: seq<Field>, i: nat, j: nat)
    requires SortedFields(want) && i < |want| && j <= |got| && MatchedUpTo(want, got, i, j)
    requires want[i].optional && (j < |got| ==> want[i].name != got[j].name)
    ensures MatchedUpTo(want, got, i + 1, j)
  {
    var k := IndexOf(got, want[i].name);
    if 0 <= k < j { SortedNamesDistinct(want, i, IndexOf(want, got[k].name)); }
  }

  lemma MatchField(want: seq<Field>, got: seq<Field>, i: nat, j: nat)
    requires SortedFields(want) && SortedFields(got) && i < |want| && j < |got| && MatchedUpTo(want, got, i, j)
    requires want[i].name == got[j].name
    ensures IndexOf(got, want[i].name) == j
    ensures Accepts(want[i].typ, got[j].typ) ==> MatchedUpTo(want, got, i + 1, j + 1)
  {
    SortedNamesDistinct(got, j, IndexOf(got, want[i].name));
    if Accepts(want[i].typ, got[j].typ) {
      MatchSettles(want, got, i, j);
      MatchFinds(want, got, i, j);
      if j + 1 < |got| { NextIsLater(want, got, i, j); }
    }
  }

  lemma MatchSettles(want: seq<Field>, got: seq<Field>, i: nat, j: nat)
    requires SortedFields(want) && i < |want| && j < |got| && IndexOf(got, want[i].name) == j
    requires AllSettled(want, got, i, j) && Accepts(want[i].typ, got[j].typ)
    ensures AllSettled(want, got, i + 1, j + 1)
  {
    var next := j + 1;
    SettledHere(want, got, i, j);
    forall l | 0 <= l < i ensures Settled(want, got, l, next) {
      StillSettled(want, got, i, j, l);
    }
  }

  lemma SettledHere(want: seq<Field>, got: seq<Field>, i: nat, j: nat)
    requires i < |want| && j < |got| && IndexOf(got, want[i].name) == j && Accepts(want[i].typ, got[j].typ)
    ensures Settled(want, got, i, j + 1)
  {
  }

  lemma MatchFinds(want: seq<Field>, got: seq<Field>, i: nat, j: nat)
    requires SortedFields(want) && i < |want| && j < |got| && want[i].name == got[j].name
    requires forall k :: 0 <= k < j ==> Found(want, i, got[k].name)
    ensures forall k :: 0 <= k < j + 1 ==> Found(want, i + 1, got[k].name)
  {
    SortedNamesDistinct(want, i, IndexOf(want, got[j].name));
  }

  lemma StillSettled(want: seq<Field>, got: seq<Field>, i: nat, j: nat, l: nat)
    requires SortedFields(want) && l < i < |want| && j < |got| && want[i].name == got[j].name
    requires Settled(want, got, l, j)
    ensures Settled(want, got, l, j + 1)
  {
    if IndexOf(got, want[l].name) == j { SortedNamesDistinct(want, l, i); }
  }

  lemma NextIsLater(want: seq<Field>, got: seq<Field>, i: nat, j: nat)
    requires SortedFields(want) && SortedFields(got) && i < |want| && j + 1 < |got| && want[i].name == got[j].name
    ensures !Found(want, i + 1, got[j + 1].name)
  {
    var m := IndexOf(want, got[j + 1].name);
    CompareStringsIsOrder(got[j].name, got[j + 1].name);
    if 0 <= m < i { CompareStringsIsOrder(want[m].name, want[i].name); }
  }

  /** A required field that is not next in the value is missing, or an unknown key stands before it. */
  lemma MissingField(want: seq<Field>, got: seq<Field>, i: nat, j: nat)
    requires SortedFields(want) && SortedFields(got) && i < |want| && j <= |got| && MatchedUpTo(want, got, i, j)
    requires !want[i].optional && (j < |got| ==> want[i].name != got[j].name)
    ensures !KeysFit(want, got)
  {
    var k := IndexOf(got, want[i].name);
    if 0 <= k < j {
      SortedNamesDistinct(want, i, IndexOf(want, got[k].name));
    } else if k >= 0 {
      CompareStringsIsOrder(got[j].name, want[i].name);
    }
  }

  lemma WalkDone(want: seq<Field>, got: seq<Field>, j: nat)
    requires j <= |got| && MatchedUpTo(want, got, |want|, j)
    ensures j == |got| <==> Accepts(Object(want), Object(got))
  {
    if j == |got| {
      forall i | 0 <= i < |want|
        ensures if IndexOf(got, want[i].name) >= 0 then Accepts(want[i].typ, got[IndexOf(got, want[i].name)].typ)
                else want[i].optional
      {
        assert Settled(want, got, i, j);
      }
    }
  }
}
