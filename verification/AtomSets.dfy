/** Sorted, duplicate-free lists of atoms: `sortUniqueTypes` and the merge intersection of `addEnum`
  * (internal/compiled/constraint.go). */
module AtomSets {
  import opened Wrappers
  import opened Atoms
  import opened Constraints

  /** Every atom is of one of the kinds. */
  predicate OfKinds(v: seq<Atom>, kinds: set<AtomKind>) {
    forall a :: a in v ==> KindOf(a) in kinds
  }

  function Kinds(v: seq<Atom>): (kinds: set<AtomKind>)
    ensures OfKinds(v, kinds)
  {
    set a | a in v :: KindOf(a)
  }

  predicate Sorted(v: seq<Atom>) {
    forall i, j :: 0 <= i < j < |v| ==> CompareAtoms(v[i], v[j]) <= 0
  }

  lemma CompareLeTransitive(x: Atom, y: Atom, z: Atom)
    requires Orderable({KindOf(x), KindOf(y), KindOf(z)})
    requires CompareAtoms(x, y) <= 0 && CompareAtoms(y, z) <= 0
    ensures CompareAtoms(x, z) <= 0
    ensures CompareAtoms(x, y) < 0 || CompareAtoms(y, z) < 0 ==> CompareAtoms(x, z) < 0
  {
    CompareDecidesValue(x, y);
    CompareDecidesValue(y, z);
    if CompareAtoms(x, y) == 0 {
      CompareRespectsValue(x, y, z);
    } else if CompareAtoms(y, z) == 0 {
      CompareRespectsValue(y, z, x);
    } else {
      CompareTransitive(x, y, z);
    }
  }

  // ----- the library sort

  function Insert(a: Atom, v: seq<Atom>): seq<Atom> {
    if v == [] || CompareAtoms(a, v[0]) <= 0 then [a] + v else [v[0]] + Insert(a, v[1..])
  }

  function Sort(v: seq<Atom>): seq<Atom> {
    if v == [] then [] else Insert(v[0], Sort(v[1..]))
  }

  lemma {:induction false} InsertElements(a: Atom, v: seq<Atom>)
    ensures forall x :: x in Insert(a, v) <==> x == a || x in v
  {
    if v != [] && CompareAtoms(a, v[0]) > 0 {
      InsertElements(a, v[1..]);
    }
  }

  lemma {:induction false} SortElements(v: seq<Atom>)
    ensures forall a :: a in Sort(v) <==> a in v
  {
    if v != [] {
      SortElements(v[1..]);
      InsertElements(v[0], Sort(v[1..]));
    }
  }

  lemma ConsSorted(a: Atom, v: seq<Atom>)
    requires Sorted(v) && forall x :: x in v ==> CompareAtoms(a, x) <= 0
    ensures Sorted([a] + v)
  {
    var all := [a] + v;
    forall i, j | 0 <= i < j < |all| ensures CompareAtoms(all[i], all[j]) <= 0 {
      assert all[j] == v[j - 1];
      if i > 0 { assert all[i] == v[i - 1]; }
    }
  }

  lemma {:induction false} InsertSorted(a: Atom, v: seq<Atom>, kinds: set<AtomKind>)
    requires Sorted(v) && Orderable(kinds) && OfKinds(v, kinds) && KindOf(a) in kinds
    ensures Sorted(Insert(a, v))
  {
    if v == [] {
    } else if CompareAtoms(a, v[0]) <= 0 {
      forall x | x in v ensures CompareAtoms(a, x) <= 0 {
        var j :| 0 <= j < |v| && v[j] == x;
        if j > 0 { CompareLeTransitive(a, v[0], v[j]); }
      }
      ConsSorted(a, v);
    } else {
      var rest := v[1..];
      assert forall i :: 0 <= i < |rest| ==> rest[i] == v[i + 1];
      InsertSorted(a, rest, kinds);
      InsertElements(a, rest);
      CompareDecidesValue(a, v[0]);
      forall x | x in Insert(a, rest) ensures CompareAtoms(v[0], x) <= 0 {
        if x in rest {
          var j :| 0 <= j < |rest| && rest[j] == x;
          assert x == v[j + 1];
        }
      }
      ConsSorted(v[0], Insert(a, rest));
    }
  }

  lemma {:induction false} SortSorts(v: seq<Atom>, kinds: set<AtomKind>)
    requires Orderable(kinds) && OfKinds(v, kinds)
    ensures Sorted(Sort(v))
  {
    if v != [] {
      SortSorts(v[1..], kinds);
      SortElements(v[1..]);
      InsertSorted(v[0], Sort(v[1..]), kinds);
    }
  }

  // ----- duplicates

  /** The first atom of every run of equal values. */
  function Squeeze(s: seq<Atom>): (out: seq<Atom>) {
    if s == [] then []
    else
      var (kept, last) := (Squeeze(s[..|s| - 1]), s[|s| - 1]);
      if kept == [] || CompareAtoms(kept[|kept| - 1], last) != 0 then kept + [last] else kept
  }

  /** Sorted, without runs. */
  function SortedUnique(v: seq<Atom>): seq<Atom> {
    Squeeze(Sort(v))
  }

  lemma {:induction false} SqueezeEnd(s: seq<Atom>)
    ensures NeighboursDiffer(Squeeze(s)) && forall a :: a in Squeeze(s) ==> a in s
    ensures s != [] ==> Squeeze(s) != [] && CompareAtoms(Squeeze(s)[|Squeeze(s)| - 1], s[|s| - 1]) == 0
  {
    if s != [] {
      SqueezeEnd(s[..|s| - 1]);
      CompareDecidesValue(s[|s| - 1], s[|s| - 1]);
    }
  }

  lemma {:induction false} SqueezeValues(s: seq<Atom>, a: Atom)
    ensures InEnum(Squeeze(s), a) <==> InEnum(s, a)
  {
    if s != [] {
      var (init, last) := (s[..|s| - 1], s[|s| - 1]);
      assert s == init + [last];
      SqueezeValues(init, a);
      InEnumAppend(init, last, a);
      SqueezeStep(Squeeze(init), last, a);
    }
  }

  lemma SqueezeStep(kept: seq<Atom>, last: Atom, a: Atom)
    ensures InEnum(kept, a) || CompareAtoms(a, last) == 0 <==>
      InEnum(if kept == [] || CompareAtoms(kept[|kept| - 1], last) != 0 then kept + [last] else kept, a)
  {
    InEnumAppend(kept, last, a);
    if kept != [] && CompareAtoms(kept[|kept| - 1], last) == 0 { EqualAtoms(a, kept[|kept| - 1], last); }
  }

  lemma EqualAtoms(a: Atom, x: Atom, y: Atom)
    requires CompareAtoms(x, y) == 0
    ensures CompareAtoms(a, x) == 0 <==> CompareAtoms(a, y) == 0
  {
    CompareDecidesValue(a, x);
    CompareDecidesValue(x, y);
    CompareDecidesValue(a, y);
  }

  lemma {:induction false} SqueezeAscends(s: seq<Atom>, kinds: set<AtomKind>)
    requires Sorted(s) && Orderable(kinds) && OfKinds(s, kinds)
    ensures Ascending(Squeeze(s))
  {
    if s != [] {
      var (init, last) := (s[..|s| - 1], s[|s| - 1]);
      assert forall a :: a in init ==> a in s;
      SqueezeAscends(init, kinds);
      SqueezeEnd(init);
      if init != [] { AppendLarger(Squeeze(init), init[|init| - 1], last, kinds); }
    }
  }

  lemma AppendLarger(kept: seq<Atom>, before: Atom, x: Atom, kinds: set<AtomKind>)
    requires kept != [] && Ascending(kept) && CompareAtoms(kept[|kept| - 1], before) == 0 && CompareAtoms(before, x) <= 0
    requires Orderable(kinds) && OfKinds(kept + [before, x], kinds)
    ensures CompareAtoms(kept[|kept| - 1], x) != 0 ==> Ascending(kept + [x])
  {
    var last := kept[|kept| - 1];
    var all := kept + [before, x];
    assert last in all && all[|kept|] == before && all[|kept| + 1] == x && before in all && x in all;
    CompareLeTransitive(last, before, x);
    if CompareAtoms(last, x) != 0 {
      forall k | 0 <= k < |kept| - 1 ensures CompareAtoms(kept[k], x) < 0 {
        assert all[k] == kept[k] && kept[k] in all;
        CompareLeTransitive(kept[k], last, x);
      }
    }
  }

  lemma InEnumAppend(v: seq<Atom>, x: Atom, a: Atom)
    ensures InEnum(v + [x], a) <==> InEnum(v, a) || CompareAtoms(a, x) == 0
  {
    if InEnum(v, a) {
      var i :| 0 <= i < |v| && CompareAtoms(a, v[i]) == 0;
      assert (v + [x])[i] == v[i];
    }
    if CompareAtoms(a, x) == 0 { assert (v + [x])[|v|] == x; }
  }

  lemma SameElements(s: seq<Atom>, v: seq<Atom>, a: Atom)
    requires forall x :: x in s <==> x in v
    ensures InEnum(s, a) <==> InEnum(v, a)
  {
    if InEnum(s, a) {
      var i :| 0 <= i < |s| && CompareAtoms(a, s[i]) == 0;
      assert s[i] in v;
    }
    if InEnum(v, a) {
      var i :| 0 <= i < |v| && CompareAtoms(a, v[i]) == 0;
      assert v[i] in s;
    }
  }

  /** The values survive for atoms of any kinds; the list ascends where the comparison is an order. */
  lemma SortedUniqueMeaning(v: seq<Atom>)
    ensures NeighboursDiffer(SortedUnique(v)) && forall a :: a in SortedUnique(v) ==> a in v
    ensures forall a :: InEnum(SortedUnique(v), a) <==> InEnum(v, a)
    ensures Orderable(Kinds(v)) ==> Ascending(SortedUnique(v))
  {
    SortElements(v);
    SqueezeEnd(Sort(v));
    forall a ensures InEnum(SortedUnique(v), a) <==> InEnum(v, a) {
      SqueezeValues(Sort(v), a);
      SameElements(Sort(v), v, a);
    }
    if Orderable(Kinds(v)) {
      SortSorts(v, Kinds(v));
      SqueezeAscends(Sort(v), Kinds(v));
    }
  }

  /** Sort, then keep the first atom of every run of equal values. */
  method SortUnique(v: seq<Atom>) returns (out: seq<Atom>)
    ensures out == SortedUnique(v)
    ensures NeighboursDiffer(out) && forall a :: a in out ==> a in v
    ensures forall a :: InEnum(out, a) <==> InEnum(v, a)
    ensures Orderable(Kinds(v)) ==> Ascending(out)
  {
    var s := Sort(v);
    out := [];
    for i := 0 to |s|
      invariant out == Squeeze(s[..i])
    {
      assert s[..i + 1][..i] == s[..i];
      if out == [] || CompareAtoms(out[|out| - 1], s[i]) != 0 {
        out := out + [s[i]];
      }
    }
    assert s[..|s|] == s;
    SortedUniqueMeaning(v);
  }

  // ----- intersection

  /** The atoms at which a walk over two sorted lists meets. */
  function Common(x: seq<Atom>, y: seq<Atom>): seq<Atom>
    decreases |x| + |y|
  {
    if x == [] || y == [] then []
    else if CompareAtoms(x[0], y[0]) < 0 then Common(x[1..], y)
    else if CompareAtoms(x[0], y[0]) > 0 then Common(x, y[1..])
    else [x[0]] + Common(x[1..], y[1..])
  }

  lemma InEnumHead(v: seq<Atom>, a: Atom)
    requires v != []
    ensures InEnum(v, a) <==> CompareAtoms(a, v[0]) == 0 || InEnum(v[1..], a)
  {
    if InEnum(v, a) {
      var k :| 0 <= k < |v| && CompareAtoms(a, v[k]) == 0;
      if k > 0 { assert v[1..][k - 1] == v[k]; }
    }
    if InEnum(v[1..], a) {
      var k :| 0 <= k < |v[1..]| && CompareAtoms(a, v[1..][k]) == 0;
      assert v[k + 1] == v[1..][k];
    }
  }

  /** Nothing in an ascending list equals an atom that sorts before its head. */
  lemma BeforeHead(v: seq<Atom>, kinds: set<AtomKind>, x: Atom, a: Atom)
    requires v != [] && Ascending(v) && CompareAtoms(x, v[0]) < 0 && CompareAtoms(a, x) == 0
    requires Orderable(kinds) && OfKinds(v, kinds) && KindOf(x) in kinds
    ensures !InEnum(v, a)
  {
    if InEnum(v, a) {
      var k :| 0 <= k < |v| && CompareAtoms(a, v[k]) == 0;
      CompareDecidesValue(a, x);
      CompareDecidesValue(a, v[k]);
      CompareDecidesValue(x, v[k]);
      if k > 0 { CompareTransitive(x, v[0], v[k]); }
    }
  }

  /** On lists that ascend by an order the walk meets at every common value. */
  lemma {:induction false} CommonExact(x: seq<Atom>, y: seq<Atom>, kinds: set<AtomKind>, a: Atom)
    requires Orderable(kinds) && OfKinds(x, kinds) && OfKinds(y, kinds) && Ascending(x) && Ascending(y)
    ensures InEnum(Common(x, y), a) <==> InEnum(x, a) && InEnum(y, a)
    decreases |x| + |y|
  {
    if x != [] && y != [] {
      var (p, q) := (x[0], y[0]);
      InEnumHead(x, a);
      InEnumHead(y, a);
      CompareDecidesValue(p, q);
      CompareDecidesValue(a, p);
      CompareDecidesValue(a, q);
      if CompareAtoms(p, q) < 0 {
        CommonExact(x[1..], y, kinds, a);
        if CompareAtoms(a, p) == 0 { BeforeHead(y, kinds, p, a); }
      } else if CompareAtoms(p, q) > 0 {
        CommonExact(x, y[1..], kinds, a);
        if CompareAtoms(a, q) == 0 { BeforeHead(x, kinds, q, a); }
      } else {
        CommonExact(x[1..], y[1..], kinds, a);
        InEnumHead(Common(x, y), a);
      }
    }
  }

  lemma {:induction false} CommonAscending(x: seq<Atom>, y: seq<Atom>)
    requires Ascending(x)
    ensures Ascending(Common(x, y)) && forall a :: a in Common(x, y) ==> a in x
    decreases |x| + |y|
  {
    if x != [] && y != [] {
      var c := CompareAtoms(x[0], y[0]);
      var rest := Common(if c <= 0 then x[1..] else x, if c >= 0 then y[1..] else y);
      CommonAscending(if c <= 0 then x[1..] else x, if c >= 0 then y[1..] else y);
      if c == 0 {
        forall k | 0 <= k < |rest| ensures CompareAtoms(x[0], rest[k]) < 0 {
          assert rest[k] in x[1..];
          var m :| 0 <= m < |x[1..]| && x[1..][m] == rest[k];
          assert x[m + 1] == rest[k];
        }
        assert Common(x, y) == [x[0]] + rest;
      }
    }
  }

  /** The sorted merge that keeps what both lists hold. */
  method Intersect(x: seq<Atom>, y: seq<Atom>) returns (out: seq<Atom>)
    ensures out == Common(x, y)
    ensures forall a :: a in out ==> a in x
    ensures Ascending(x) ==> Ascending(out)
    ensures Orderable(Kinds(x) + Kinds(y)) && Ascending(x) && Ascending(y) ==>
      forall a :: InEnum(out, a) <==> InEnum(x, a) && InEnum(y, a)
  {
    out := [];
    var i, j := 0, 0;
    assert x[0..] == x && y[0..] == y;
    while i < |x| && j < |y|
      invariant 0 <= i <= |x| && 0 <= j <= |y|
      invariant out + Common(x[i..], y[j..]) == Common(x, y)
      invariant forall a :: a in out ==> a in x
      decreases |x| - i + |y| - j
    {
      var c := CompareAtoms(x[i], y[j]);
      assert x[i..][1..] == x[i + 1..] && y[j..][1..] == y[j + 1..];
      if c < 0 {
        i := i + 1;
      } else if c > 0 {
        j := j + 1;
      } else {
        out := out + [x[i]];
        i, j := i + 1, j + 1;
      }
    }
    assert out == Common(x, y);
    CommonMeets(x, y);
  }

  lemma CommonMeets(x: seq<Atom>, y: seq<Atom>)
    ensures Ascending(x) ==> Ascending(Common(x, y))
    ensures Orderable(Kinds(x) + Kinds(y)) && Ascending(x) && Ascending(y) ==>
      forall a :: InEnum(Common(x, y), a) <==> InEnum(x, a) && InEnum(y, a)
  {
    if Ascending(x) { CommonAscending(x, y); }
    if Orderable(Kinds(x) + Kinds(y)) && Ascending(x) && Ascending(y) {
      forall a ensures InEnum(Common(x, y), a) <==> InEnum(x, a) && InEnum(y, a) {
        CommonExact(x, y, Kinds(x) + Kinds(y), a);
      }
    }
  }

  // ----- the kinds on which intersection works

  /** Each atom sorts before the next, which is all a sort can establish where the comparison is no order. */
  predicate Rising(v: seq<Atom>) {
    forall i :: 0 <= i < |v| - 1 ==> CompareAtoms(v[i], v[i + 1]) < 0
  }

  lemma {:induction false} RisingAscends(v: seq<Atom>, kinds: set<AtomKind>)
    requires Rising(v) && Orderable(kinds) && OfKinds(v, kinds)
    ensures Ascending(v)
  {
    if |v| > 1 {
      var rest := v[1..];
      assert forall i :: 0 <= i < |rest| ==> rest[i] == v[i + 1];
      RisingAscends(rest, kinds);
      forall j | 1 < j < |v| ensures CompareAtoms(v[0], v[j]) < 0 {
        assert CompareAtoms(rest[0], rest[j - 1]) < 0;
        CompareTransitive(v[0], v[1], v[j]);
      }
      forall i, j | 0 < i < j < |v| ensures CompareAtoms(v[i], v[j]) < 0 {
        assert CompareAtoms(rest[i - 1], rest[j - 1]) < 0;
      }
    }
  }

  /** Sorting and squeezing leave a rising list as it is. */
  lemma {:induction false} RisingSorted(v: seq<Atom>)
    requires Rising(v)
    ensures Sort(v) == v
  {
    if v != [] {
      assert forall i :: 0 <= i < |v[1..]| ==> v[1..][i] == v[i + 1];
      RisingSorted(v[1..]);
      assert v == [v[0]] + v[1..];
    }
  }

  lemma {:induction false} RisingSqueezed(v: seq<Atom>)
    requires Rising(v)
    ensures Squeeze(v) == v
  {
    if v != [] {
      RisingSqueezed(v[..|v| - 1]);
      assert v == v[..|v| - 1] + [v[|v| - 1]];
    }
  }

  /** The walk over two rising lists finds exactly what both hold. */
  ghost predicate MeetsAt(x: seq<Atom>, y: seq<Atom>) {
    forall a :: InEnum(Common(x, y), a) <==> InEnum(x, a) && InEnum(y, a)
  }

  ghost predicate MeetsOn(kinds: set<AtomKind>) {
    forall x, y :: OfKinds(x, kinds) && OfKinds(y, kinds) && Rising(x) && Rising(y) ==> MeetsAt(x, y)
  }

  /** With all three kinds the walk can miss an atom that both lists hold: over `any`, `x in [1.0, 5]` and
    * `x in [5, t, 1.0]` together leave only 5. */
  lemma MixedKindsLost(t: string)
    ensures var (p, q) := ([RealAtom(1.0), IntAtom(5)], [IntAtom(5), StringAtom(t), RealAtom(1.0)]);
      && Rising(p) && Rising(q)
      && InEnum(p, RealAtom(1.0)) && InEnum(q, RealAtom(1.0))
      && Common(p, q) == [IntAtom(5)] && !InEnum(Common(p, q), RealAtom(1.0))
  {
    var (one, five, text) := (RealAtom(1.0), IntAtom(5), StringAtom(t));
    var (p, q) := ([one, five], [five, text, one]);
    assert p[1..] == [five] && q[1..] == [text, one];
    assert CompareAtoms(one, q[2]) == 0 && CompareAtoms(one, p[0]) == 0;
    assert Common(p, q) == Common([five], q) == [five] + Common([], [text, one]);
  }

  /** The walk is exact on all lists over a set of kinds exactly when the set leaves out integers, strings or decimals. */
  lemma IntersectExactKinds(kinds: set<AtomKind>)
    ensures MeetsOn(kinds) <==> Orderable(kinds)
  {
    if Orderable(kinds) {
      forall x, y | OfKinds(x, kinds) && OfKinds(y, kinds) && Rising(x) && Rising(y) ensures MeetsAt(x, y) {
        RisingAscends(x, kinds);
        RisingAscends(y, kinds);
        forall a ensures InEnum(Common(x, y), a) <==> InEnum(x, a) && InEnum(y, a) { CommonExact(x, y, kinds, a); }
      }
    } else {
      MixedKindsLost("");
      var (p, q) := ([RealAtom(1.0), IntAtom(5)], [IntAtom(5), StringAtom(""), RealAtom(1.0)]);
      assert OfKinds(p, kinds) && OfKinds(q, kinds) && !MeetsAt(p, q);
    }
  }
}
