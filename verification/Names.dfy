/** Sorting things by their names (the order of object fields, internal/compiled/arena.go:412-417). */
module Names {
  import opened Atoms

  predicate SortedByName<T>(xs: seq<T>, name: T -> string) {
    forall i, j :: 0 <= i < j < |xs| ==> CompareStrings(name(xs[i]), name(xs[j])) < 0
  }

  predicate DistinctNames<T>(xs: seq<T>, name: T -> string) {
    forall i, j :: 0 <= i < j < |xs| ==> name(xs[i]) != name(xs[j])
  }

  function InsertByName<T>(x: T, xs: seq<T>, name: T -> string): (out: seq<T>)
    ensures |out| == |xs| + 1
  {
    if xs == [] || CompareStrings(name(x), name(xs[0])) < 0 then [x] + xs
    else [xs[0]] + InsertByName(x, xs[1..], name)
  }

  function SortByName<T>(xs: seq<T>, name: T -> string): (out: seq<T>)
    ensures |out| == |xs|
  {
    if xs == [] then [] else InsertByName(xs[0], SortByName(xs[1..], name), name)
  }

  lemma ConsSorted<T>(x: T, xs: seq<T>, name: T -> string)
    requires SortedByName(xs, name) && forall y :: y in xs ==> CompareStrings(name(x), name(y)) < 0
    ensures SortedByName([x] + xs, name)
  {
    var all := [x] + xs;
    forall i, j | 0 <= i < j < |all| ensures CompareStrings(name(all[i]), name(all[j])) < 0 {
      assert all[j] == xs[j - 1] && all[j] in xs;
      if i > 0 { assert all[i] == xs[i - 1]; }
    }
  }

  lemma HeadBeforeTail<T>(xs: seq<T>, name: T -> string, x: T)
    requires SortedByName(xs, name) && xs != [] && CompareStrings(name(x), name(xs[0])) < 0
    ensures forall y :: y in xs ==> CompareStrings(name(x), name(y)) < 0
  {
    forall y | y in xs ensures CompareStrings(name(x), name(y)) < 0 {
      var i :| 0 <= i < |xs| && xs[i] == y;
      if i > 0 { CompareStringsTransitive(name(x), name(xs[0]), name(y)); }
    }
  }

  lemma AfterInsert<T>(head: T, x: T, rest: seq<T>, inserted: seq<T>, name: T -> string)
    requires SortedByName(inserted, name) && multiset(inserted) == multiset{x} + multiset(rest)
    requires CompareStrings(name(head), name(x)) < 0
    requires forall y :: y in rest ==> CompareStrings(name(head), name(y)) < 0
    ensures SortedByName([head] + inserted, name)
  {
    forall y | y in inserted ensures CompareStrings(name(head), name(y)) < 0 {
      assert y in multiset(inserted);
      assert y == x || y in rest;
    }
    ConsSorted(head, inserted, name);
  }

  lemma {:induction false} InsertSorts<T>(x: T, xs: seq<T>, name: T -> string)
    requires SortedByName(xs, name) && forall y :: y in xs ==> name(y) != name(x)
    ensures SortedByName(InsertByName(x, xs, name), name)
    ensures multiset(InsertByName(x, xs, name)) == multiset{x} + multiset(xs)
  {
    if xs != [] {
      assert xs[0] in xs;
      CompareStringsIsOrder(name(x), name(xs[0]));
      CompareStringsIsOrder(name(xs[0]), name(x));
      if CompareStrings(name(x), name(xs[0])) < 0 {
        HeadBeforeTail(xs, name, x);
        ConsSorted(x, xs, name);
      } else {
        var rest := xs[1..];
        assert xs == [xs[0]] + rest;
        assert forall i :: 0 <= i < |rest| ==> rest[i] == xs[i + 1];
        InsertSorts(x, rest, name);
        TailLacksHead(xs, name);
        AfterInsert(xs[0], x, rest, InsertByName(x, rest, name), name);
      }
    }
  }

  /** Sorting things with distinct names keeps them all, in strictly ascending order. */
  lemma {:induction false} SortSorts<T>(xs: seq<T>, name: T -> string)
    requires DistinctNames(xs, name)
    ensures SortedByName(SortByName(xs, name), name)
    ensures multiset(SortByName(xs, name)) == multiset(xs)
  {
    if xs != [] {
      var rest := xs[1..];
      assert xs == [xs[0]] + rest;
      assert forall i :: 0 <= i < |rest| ==> rest[i] == xs[i + 1];
      SortSorts(rest, name);
      var sorted := SortByName(rest, name);
      forall y | y in sorted ensures name(y) != name(xs[0]) {
        assert y in multiset(sorted);
        assert y in rest;
        var i :| 0 <= i < |rest| && rest[i] == y;
        assert xs[i + 1] == y;
      }
      InsertSorts(xs[0], sorted, name);
    }
  }

  /** Two sorted lists of the same things are the same list. */
  lemma {:induction false} SortedUnique<T>(xs: seq<T>, ys: seq<T>, name: T -> string)
    requires SortedByName(xs, name) && SortedByName(ys, name) && multiset(xs) == multiset(ys)
    ensures xs == ys
  {
    assert |multiset(xs)| == |xs| && |multiset(ys)| == |ys|;
    if xs != [] {
      var (xt, yt) := (xs[1..], ys[1..]);
      SameHead(xs, ys, name);
      assert xs == [xs[0]] + xt && ys == [ys[0]] + yt;
      assert multiset(xt) == multiset(xs) - multiset{xs[0]} == multiset(yt);
      TailLacksHead(xs, name);
      TailLacksHead(ys, name);
      SortedUnique(xt, yt, name);
    }
  }

  lemma TailLacksHead<T>(xs: seq<T>, name: T -> string)
    requires SortedByName(xs, name) && xs != []
    ensures SortedByName(xs[1..], name) && xs[0] !in xs[1..]
    ensures forall y :: y in xs[1..] ==> CompareStrings(name(xs[0]), name(y)) < 0
  {
    forall y | y in xs[1..] ensures CompareStrings(name(xs[0]), name(y)) < 0 {
      var i :| 0 <= i < |xs[1..]| && xs[1..][i] == y;
      assert xs[i + 1] == y;
    }
    CompareStringsIsOrder(name(xs[0]), name(xs[0]));
  }

  lemma SameHead<T>(xs: seq<T>, ys: seq<T>, name: T -> string)
    requires SortedByName(xs, name) && SortedByName(ys, name) && xs != [] && ys != []
    requires multiset(xs) == multiset(ys)
    ensures xs[0] == ys[0]
  {
    assert xs[0] in multiset(ys) && ys[0] in multiset(xs);
    var i :| 0 <= i < |xs| && xs[i] == ys[0];
    var j :| 0 <= j < |ys| && ys[j] == xs[0];
    CompareStringsIsOrder(name(xs[0]), name(ys[0]));
  }
}
