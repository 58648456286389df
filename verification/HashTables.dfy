/** The append-only table with hash chains that types and constraints are interned in
  * (internal/compiled/arena.go:212-239, internal/compiled/constraint.go:730-752).  IDs start at one; zero is
  * the absent ID.  Nothing is assumed about the hash: all keys may share one fingerprint. */
module HashTables {

  /** The largest ID up to `k` whose fingerprint is `fp`, or zero. */
  function LastWith(fps: seq<nat>, k: nat, fp: nat): (id: nat)
    requires k <= |fps|
    ensures id <= k
  {
    if k == 0 then 0 else if fps[k - 1] == fp then k else LastWith(fps, k - 1, fp)
  }

  lemma {:induction false} LastWithIs(fps: seq<nat>, k: nat, fp: nat)
    requires k <= |fps|
    ensures var id := LastWith(fps, k, fp);
      && (id > 0 ==> fps[id - 1] == fp)
      && (forall j :: id <= j < k ==> fps[j] != fp)
  {
    if k > 0 && fps[k - 1] != fp { LastWithIs(fps, k - 1, fp); }
  }

  lemma {:induction false} LastWithPrefix(fps: seq<nat>, more: seq<nat>, k: nat, fp: nat)
    requires k <= |fps| <= |more| && fps == more[..|fps|]
    ensures LastWith(fps, k, fp) == LastWith(more, k, fp)
  {
    if k > 0 && fps[k - 1] != fp { LastWithPrefix(fps, more, k - 1, fp); }
  }

  /** Each entry is linked to the last earlier one with its fingerprint. */
  predicate Chained(fps: seq<nat>, next: seq<nat>) {
    |next| == |fps| && forall j :: 0 <= j < |fps| ==> next[j] == LastWith(fps, j, fps[j])
  }

  /** The next link of a chain goes to the last entry before this one with the fingerprint. */
  lemma ChainStep(fps: seq<nat>, next: seq<nat>, k: nat, fp: nat)
    requires Chained(fps, next) && k <= |fps| && LastWith(fps, k, fp) > 0
    ensures var id := LastWith(fps, k, fp);
      next[id - 1] == LastWith(fps, id - 1, fp) && forall j :: id <= j < k ==> fps[j] != fp
  {
    LastWithIs(fps, k, fp);
  }

  /** No entry from the `k`-th on has this key and fingerprint. */
  predicate Absent<K(==)>(entries: seq<K>, fps: seq<nat>, key: K, fp: nat, k: nat)
    requires |fps| == |entries|
  {
    forall j :: k <= j < |fps| && fps[j] == fp ==> entries[j] != key
  }

  lemma SkipEntry<K>(entries: seq<K>, fps: seq<nat>, next: seq<nat>, key: K, fp: nat, k: nat)
    requires |fps| == |entries| && Chained(fps, next) && k <= |fps| && Absent(entries, fps, key, fp, k)
    requires var id := LastWith(fps, k, fp); id > 0 && entries[id - 1] != key
    ensures var id := LastWith(fps, k, fp);
      Absent(entries, fps, key, fp, id - 1) && next[id - 1] == LastWith(fps, id - 1, fp)
  {
    ChainStep(fps, next, k, fp);
  }

  function HeadOf(head: map<nat, nat>, fp: nat): nat {
    if fp in head then head[fp] else 0
  }

  /** Every chain starts at the last entry with its fingerprint. */
  ghost predicate Headed(fps: seq<nat>, head: map<nat, nat>) {
    forall fp :: HeadOf(head, fp) == LastWith(fps, |fps|, fp)
  }

  predicate Distinct<K(==)>(entries: seq<K>) {
    forall i, j :: 0 <= i < j < |entries| ==> entries[i] != entries[j]
  }

  lemma DistinctIndex<K>(entries: seq<K>, i: nat, j: nat)
    requires Distinct(entries) && i < |entries| && j < |entries| && entries[i] == entries[j]
    ensures i == j
  {
  }

  lemma AppendChained(fps: seq<nat>, next: seq<nat>, head: map<nat, nat>, fp: nat)
    requires Chained(fps, next) && Headed(fps, head)
    ensures Chained(fps + [fp], next + [HeadOf(head, fp)])
    ensures Headed(fps + [fp], head[fp := |fps| + 1])
  {
    var (fps', next') := (fps + [fp], next + [HeadOf(head, fp)]);
    assert fps == fps'[..|fps|];
    forall j | 0 <= j < |fps'| ensures next'[j] == LastWith(fps', j, fps'[j]) {
      LastWithPrefix(fps, fps', j, fps'[j]);
      if j < |fps| { assert next[j] == LastWith(fps, j, fps[j]); }
    }
    forall f ensures HeadOf(head[fp := |fps| + 1], f) == LastWith(fps', |fps'|, f) {
      LastWithPrefix(fps, fps', |fps|, f);
    }
  }

  class HashTable<K(==)> {
    var entries: seq<K>
    var fps: seq<nat>
    /** A second fingerprint, kept but not looked up. */
    var sems: seq<nat>
    var next: seq<nat>
    var head: map<nat, nat>

    /** Chains descend and hold exactly the IDs with their fingerprint; entries are distinct. */
    ghost predicate Valid()
      reads this
    {
      |fps| == |entries| == |sems| && Chained(fps, next) && Headed(fps, head) && Distinct(entries)
    }

    constructor ()
      ensures Valid() && entries == [] && fps == [] && sems == []
    {
      entries, fps, sems, next, head := [], [], [], [], map[];
    }

    /** Walk the chain of a fingerprint. */
    method Find(key: K, fp: nat) returns (id: nat)
      requires Valid()
      ensures id <= |entries|
      ensures id > 0 ==> entries[id - 1] == key && fps[id - 1] == fp
      ensures id == 0 ==> forall j :: 0 <= j < |entries| && fps[j] == fp ==> entries[j] != key
    {
      id := HeadOf(head, fp);
      ghost var k: nat := |fps|;
      while id != 0 && entries[id - 1] != key
        invariant k <= |fps| && id == LastWith(fps, k, fp)
        invariant Absent(entries, fps, key, fp, k)
        decreases k
      {
        SkipEntry(entries, fps, next, key, fp, k);
        k := id - 1;
        id := next[id - 1];
      }
      LastWithIs(fps, k, fp);
    }

    /** Append an entry in front of its chain. */
    method Append(key: K, fp: nat, sem: nat) returns (id: nat)
      requires Valid() && key !in entries
      modifies this
      ensures Valid() && id == |entries|
      ensures entries == old(entries) + [key] && fps == old(fps) + [fp] && sems == old(sems) + [sem]
    {
      AppendChained(fps, next, head, fp);
      id := |entries| + 1;
      next := next + [HeadOf(head, fp)];
      entries := entries + [key];
      fps := fps + [fp];
      sems := sems + [sem];
      head := head[fp := id];
    }

    /** Return the ID of the key, appending it if it is new.  The fingerprint must be a function of the key. */
    method Intern(key: K, fp: nat, sem: nat) returns (id: nat)
      requires Valid() && forall j :: 0 <= j < |entries| && entries[j] == key ==> fps[j] == fp
      modifies this
      ensures Valid() && 1 <= id <= |entries| && entries[id - 1] == key && fps[id - 1] == fp
      ensures if key in old(entries) then entries == old(entries) && fps == old(fps) && sems == old(sems)
              else entries == old(entries) + [key] && fps == old(fps) + [fp] && sems == old(sems) + [sem] && id == |entries|
    {
      id := Find(key, fp);
      if id == 0 {
        assert key !in entries;
        id := Append(key, fp, sem);
      }
    }
  }
}
