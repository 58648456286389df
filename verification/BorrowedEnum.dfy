/** The enum a further refinement of a real type borrows from the arena, and when filtering it in place
  * leaves the type it was borrowed from intact (internal/compiled/constraint.go:577-643, 981-994). */
module BorrowedEnum {
  import opened Wrappers
  import opened Atoms
  import opened Constraints
  import opened Types
  import opened NormalForms

  /** The filter of `finish`, over a slice that is still part of the arena's enum table. */
  method FilterInPlace(table: array<Atom>, off: nat, len: nat, bounds: Constraint) returns (k: nat)
    requires off + len <= table.Length
    modifies table
    ensures k <= len && table[off..off + k] == Filter(bounds, old(table[off..off + len]))
    ensures table[..off] == old(table[..off]) && table[off + k..] == old(table[off + k..])
  {
    ghost var before := table[..];
    ghost var e := table[off..off + len];
    ghost var out: seq<Atom> := [];
    k := 0;
    assert e[0..] == e;
    for i := 0 to len
      invariant 0 <= k <= i && |out| == k && table[off..off + k] == out
      invariant Filter(bounds, e) == out + Filter(bounds, e[i..])
      invariant table[..off] == before[..off] && table[off + k..] == before[off + k..]
    {
      FilterStep(bounds, e, i);
      assert table[off + i] == table[off + k..][i - k] == before[off + i] == e[i];
      if Satisfies(bounds, Scalar(table[off + i])) {
        WriteNext(table[..], off, k, e[i]);
        table[off + k] := table[off + i];
        k := k + 1;
        out := out + [e[i]];
      }
    }
    assert e[len..] == [];
    assert out + [] == out;
  }

  lemma WriteNext(table: seq<Atom>, off: nat, k: nat, a: Atom)
    requires off + k < |table|
    ensures var table' := table[off + k := a];
      && table'[..off] == table[..off] && table'[off..off + k + 1] == table[off..off + k] + [a]
      && table'[off + k + 1..] == table[off + k..][1..]
  {
  }

  lemma FilterStep(bounds: Constraint, e: seq<Atom>, i: nat)
    requires i < |e|
    ensures Filter(bounds, e[i..]) ==
      (if Satisfies(bounds, Scalar(e[i])) then [e[i]] else []) + Filter(bounds, e[i + 1..])
  {
    assert e[i..][0] == e[i] && e[i..][1..] == e[i + 1..];
  }

  /** Bounds on numbers hold on an interval. */
  lemma BoundsConvex(bounds: Constraint, x: Atom, y: Atom, z: Atom)
    requires bounds == UNCONSTRAINED.(reals := bounds.reals, format := bounds.format)
    requires x.RealAtom? && y.RealAtom? && z.RealAtom? && x.r <= y.r <= z.r
    requires Satisfies(bounds, Scalar(x)) && Satisfies(bounds, Scalar(z))
    ensures Satisfies(bounds, Scalar(y))
  {
  }

  predicate RealEnum(e: seq<Atom>) {
    Ascending(e) && forall i :: 0 <= i < |e| ==> e[i].RealAtom?
  }

  lemma TailRealEnum(e: seq<Atom>)
    requires RealEnum(e) && e != []
    ensures RealEnum(e[1..])
  {
    assert forall i :: 0 <= i < |e[1..]| ==> e[1..][i] == e[i + 1];
  }

  /** If the first atom and a later one are in bounds, so is the second. */
  lemma SecondIsBetween(e: seq<Atom>, bounds: Constraint, k: nat)
    requires RealEnum(e) && 1 <= k < |e| && bounds == UNCONSTRAINED.(reals := bounds.reals, format := bounds.format)
    requires Satisfies(bounds, Scalar(e[0])) && Satisfies(bounds, Scalar(e[k]))
    ensures Satisfies(bounds, Scalar(e[1]))
  {
    assert CompareAtoms(e[0], e[1]) < 0;
    if k > 1 { assert CompareAtoms(e[1], e[k]) < 0; }
    BoundsConvex(bounds, e[0], e[1], e[k]);
  }

  /** If the first atom is kept, what is kept is a prefix. */
  lemma {:induction false} KeptIsPrefix(e: seq<Atom>, bounds: Constraint)
    requires RealEnum(e) && e != [] && Satisfies(bounds, Scalar(e[0]))
    requires bounds == UNCONSTRAINED.(reals := bounds.reals, format := bounds.format)
    ensures Filter(bounds, e) <= e
  {
    var rest := e[1..];
    TailRealEnum(e);
    assert e == [e[0]] + rest;
    if rest != [] {
      if Satisfies(bounds, Scalar(rest[0])) {
        KeptIsPrefix(rest, bounds);
      } else {
        FilterMembers(bounds, rest);
        if Filter(bounds, rest) != [] {
          var z := Filter(bounds, rest)[0];
          assert z in Filter(bounds, rest);
          var k :| 0 <= k < |rest| && rest[k] == z;
          assert e[1] == rest[0] && e[k + 1] == z;
          SecondIsBetween(e, bounds, k + 1);
        }
      }
    }
  }

  /** Filtering a borrowed enum in place leaves the original as it was exactly when no atom is in bounds
    * or the least one is; otherwise the type it was borrowed from silently changes. */
  lemma BorrowedEnumIntactExact(e: seq<Atom>, bounds: Constraint)
    requires RealEnum(e) && e != []
    requires bounds == UNCONSTRAINED.(reals := bounds.reals, format := bounds.format)
    ensures |Filter(bounds, e)| <= |e|
    ensures Filter(bounds, e) + e[|Filter(bounds, e)|..] == e <==>
      (forall i :: 0 <= i < |e| ==> !Satisfies(bounds, Scalar(e[i]))) || Satisfies(bounds, Scalar(e[0]))
  {
    var out := Filter(bounds, e);
    FilterNoLonger(bounds, e);
    FilterMembers(bounds, e);
    assert forall i :: 0 <= i < |e| ==> e[i] in e;
    if Satisfies(bounds, Scalar(e[0])) {
      KeptIsPrefix(e, bounds);
    } else if out != [] {
      assert out[0] in out;
      assert (out + e[|out|..])[0] == out[0];
    } else {
      assert out + e[0..] == e;
    }
  }

  lemma {:induction false} FilterNoLonger(bounds: Constraint, e: seq<Atom>)
    ensures |Filter(bounds, e)| <= |e|
  {
    if e != [] { FilterNoLonger(bounds, e[1..]); }
  }
}
