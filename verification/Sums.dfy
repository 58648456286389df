/** Canonical unions: which members `internSum` keeps, that the union loses no value, and exactly when
  * its member list does not depend on nesting (internal/compiled/arena.go:464-585). */
module Sums {
  import opened Wrappers
  import opened Atoms
  import opened Constraints
  import opened Types
  import opened Order
  import opened OrderLaws
  import opened Transitivity
  import opened Soundness

  /** An interned type as a candidate member: its ID, its fingerprint (any number), and its tree. */
  datatype Member = Member(id: nat, fp: nat, typ: Type)

  /** The tie-break between equivalent members: the fingerprint, then the position in ID order. */
  predicate Before(a: Member, b: Member) {
    a.fp < b.fp || (a.fp == b.fp && a.id < b.id)
  }

  /** `o` makes `m` redundant. */
  predicate Dominates(o: Member, m: Member) {
    SubtypeOf(true, m.typ, o.typ) && (!SubtypeOf(true, o.typ, m.typ) || Before(o, m))
  }

  predicate UniqueIds(s: set<Member>) {
    forall m, n :: m in s && n in s && m.id == n.id ==> m == n
  }

  /** IDs identify members, and their types are well-formed. */
  predicate Good(s: set<Member>) {
    (forall m :: m in s ==> WellFormed(m.typ)) && UniqueIds(s)
  }

  ghost function Maximal(s: set<Member>): set<Member> {
    set m | m in s && forall o :: o in s ==> !Dominates(o, m)
  }

  // ----- domination is a strict partial order

  lemma DominatesIrreflexive(m: Member)
    requires WellFormed(m.typ)
    ensures !Dominates(m, m)
  {
    BelowReflexive(m.typ);
    IdentityInvisible(m.typ, m.typ);
  }

  lemma DominatesTransitive(a: Member, b: Member, c: Member)
    requires WellFormed(a.typ) && WellFormed(b.typ) && WellFormed(c.typ)
    requires Dominates(b, a) && Dominates(c, b)
    ensures Dominates(c, a)
  {
    IdentityInvisible(a.typ, b.typ);
    IdentityInvisible(b.typ, a.typ);
    IdentityInvisible(b.typ, c.typ);
    IdentityInvisible(c.typ, b.typ);
    IdentityInvisible(a.typ, c.typ);
    IdentityInvisible(c.typ, a.typ);
    BelowTransitive(a.typ, b.typ, c.typ);
    if Below(c.typ, a.typ) {
      BelowTransitive(c.typ, a.typ, b.typ);
      BelowTransitive(b.typ, c.typ, a.typ);
    }
  }

  ghost function Dominators(s: set<Member>, m: Member): set<Member> {
    set o | o in s && Dominates(o, m)
  }

  /** Each dropped member has a kept one above it, so the list is never emptied. */
  lemma {:induction false} KeptAbove(s: set<Member>, m: Member) returns (k: Member)
    requires Good(s) && m in s
    ensures k in Maximal(s) && (k == m || Dominates(k, m))
    ensures Below(m.typ, k.typ)
    decreases |Dominators(s, m)|
  {
    IdentityInvisible(m.typ, m.typ);
    BelowReflexive(m.typ);
    if m in Maximal(s) {
      k := m;
    } else {
      var o :| o in s && Dominates(o, m);
      forall x | x in Dominators(s, o) ensures x in Dominators(s, m) { DominatesTransitive(m, o, x); }
      DominatesIrreflexive(o);
      assert o in Dominators(s, m) && o !in Dominators(s, o);
      SubsetCardinality(Dominators(s, o), Dominators(s, m));
      k := KeptAbove(s, o);
      if k != o { DominatesTransitive(m, o, k); }
      IdentityInvisible(m.typ, k.typ);
    }
  }

  // ----- the union loses nothing

  ghost predicate SomeAccepts(s: set<Member>, v: Type) {
    exists m :: m in s && Accepts(m.typ, v)
  }

  /** Dropping redundant members keeps the accepted values. */
  lemma MaximalKeepsValues(s: set<Member>, v: Type)
    requires Good(s) && WellFormed(v) && IsValue(v)
    ensures SomeAccepts(Maximal(s), v) <==> SomeAccepts(s, v)
  {
    if SomeAccepts(s, v) {
      var m :| m in s && Accepts(m.typ, v);
      var k := KeptAbove(s, m);
      SubtypeSound(m.typ, k.typ, v);
    }
  }

  // ----- true | false

  predicate IsBoolLiteral(t: Type, b: bool) {
    Literal(t) == Some(BoolAtom(b))
  }

  ghost predicate HasBool(s: set<Member>, b: bool) {
    exists m :: m in s && IsBoolLiteral(m.typ, b)
  }

  /** When both boolean literals occur, all of them give way to `bool`. */
  ghost function MergeBools(s: set<Member>, bool_: Member): set<Member> {
    if HasBool(s, true) && HasBool(s, false) then
      (set m | m in s && !IsBoolLiteral(m.typ, true) && !IsBoolLiteral(m.typ, false)) + {bool_}
    else s
  }

  /** A literal accepts its own atom and, among bare values, only values of it. */
  lemma BoolLiteralAccepts(t: Type, b: bool, v: Type)
    requires WellFormed(t) && IsBoolLiteral(t, b)
    ensures Accepts(t, v) <==> LiteralBase(v) == Lit(BoolAtom(b))
  {
    var (a, w) := (BoolAtom(b), LiteralBase(v));
    if t.Refined? {
      LiteralOfEnum(t);
      ConstrainedBase(t);
      assert KindOf(t.con.enum.value[0]) == BoolKind;
      if w.Lit? {
        CompareDecidesValue(w.atom, a);
        assert t.con.enum.value[0] == a;
      }
    } else if w.Lit? {
      CompareDecidesValue(w.atom, a);
    }
  }

  /** The two literals together are `bool`. */
  lemma BoolIsUnion(t: Type, f: Type, v: Type)
    requires WellFormed(t) && IsBoolLiteral(t, true) && WellFormed(f) && IsBoolLiteral(f, false)
    ensures Accepts(Bool, v) <==> Accepts(t, v) || Accepts(f, v)
  {
    BoolLiteralAccepts(t, true, v);
    BoolLiteralAccepts(f, false, v);
    var w := LiteralBase(v);
    if w.Lit? && w.atom.BoolAtom? { assert w.atom == BoolAtom(true) || w.atom == BoolAtom(false); }
  }

  lemma BoolLiteralIsBool(t: Type, b: bool, v: Type)
    requires WellFormed(t) && IsBoolLiteral(t, b) && Accepts(t, v)
    ensures Accepts(Bool, v)
  {
    BoolLiteralAccepts(t, b, v);
  }

  lemma MergeBoolsKeepsValues(s: set<Member>, bool_: Member, v: Type)
    requires Good(s) && bool_.typ == Bool
    ensures SomeAccepts(MergeBools(s, bool_), v) <==> SomeAccepts(s, v)
  {
    if HasBool(s, true) && HasBool(s, false) {
      var t :| t in s && IsBoolLiteral(t.typ, true);
      var f :| f in s && IsBoolLiteral(f.typ, false);
      BoolIsUnion(t.typ, f.typ, v);
      if SomeAccepts(s, v) { MergedAccepts(s, bool_, v); }
      if SomeAccepts(MergeBools(s, bool_), v) { UnmergedAccepts(s, bool_, t, f, v); }
    }
  }

  lemma UnmergedAccepts(s: set<Member>, bool_: Member, t: Member, f: Member, v: Type)
    requires t in s && f in s && (Accepts(bool_.typ, v) ==> Accepts(t.typ, v) || Accepts(f.typ, v))
    requires SomeAccepts(MergeBools(s, bool_), v)
    ensures SomeAccepts(s, v)
  {
    var m :| m in MergeBools(s, bool_) && Accepts(m.typ, v);
    assert m in s || m == bool_;
  }

  lemma MergedAccepts(s: set<Member>, bool_: Member, v: Type)
    requires Good(s) && bool_.typ == Bool && HasBool(s, true) && HasBool(s, false) && SomeAccepts(s, v)
    ensures SomeAccepts(MergeBools(s, bool_), v)
  {
    var merged := MergeBools(s, bool_);
    var m :| m in s && Accepts(m.typ, v);
    if IsBoolLiteral(m.typ, true) {
      BoolLiteralIsBool(m.typ, true, v);
      assert bool_ in merged;
    } else if IsBoolLiteral(m.typ, false) {
      BoolLiteralIsBool(m.typ, false, v);
      assert bool_ in merged;
    } else {
      assert m in merged;
    }
  }

  // ----- order and nesting do not matter

  /** Reducing a part first changes nothing. */
  lemma MaximalAbsorbs(a: set<Member>, b: set<Member>)
    requires Good(a + b)
    ensures Maximal(Maximal(a) + b) == Maximal(a + b)
  {
    forall m | m in Maximal(a + b) ensures m in Maximal(Maximal(a) + b) {
    }
    forall m | m in Maximal(Maximal(a) + b) ensures m in Maximal(a + b) {
      forall o | o in a + b ensures !Dominates(o, m) {
        if Dominates(o, m) && o in a {
          assert Good(a);
          var k := KeptAbove(a, o);
          if k != o { DominatesTransitive(m, o, k); }
        }
      }
    }
  }

  /** The members a union keeps. */
  ghost function Union(s: set<Member>, bool_: Member): set<Member> {
    Maximal(MergeBools(s, bool_))
  }

  // ----- what is kept, by the order alone

  /** What competes for a place: the candidates, with `bool` for the boolean literals if both occur. */
  ghost predicate Contends(s: set<Member>, bool_: Member, m: Member) {
    if HasBool(s, true) && HasBool(s, false) then
      m == bool_ || (m in s && Literal(m.typ) != Some(BoolAtom(true)) && Literal(m.typ) != Some(BoolAtom(false)))
    else m in s
  }

  /** `o` takes the place of `m`: it is above `m`, and if it is also below, its fingerprint is the lesser one, or the
    * fingerprints are equal and its ID is the lesser one. */
  predicate Replaces(o: Member, m: Member) {
    && Below(m.typ, o.typ)
    && (Below(o.typ, m.typ) ==> o.fp < m.fp || (o.fp == m.fp && o.id < m.id))
  }

  /** A candidate is kept exactly when none of the others takes its place. */
  lemma KeptExactly(s: set<Member>, bool_: Member, m: Member)
    requires Good(s + {bool_}) && bool_.typ == Bool
    ensures m in Union(s, bool_) <==>
      Contends(s, bool_, m) && forall o :: Contends(s, bool_, o) && o != m ==> !Replaces(o, m)
  {
    var merged := MergeBools(s, bool_);
    forall o ensures o in merged <==> Contends(s, bool_, o) { }
    if m in merged {
      assert WellFormed(m.typ);
      DominatesIrreflexive(m);
      forall o | o in merged ensures Dominates(o, m) <==> o != m && Replaces(o, m) {
        IdentityInvisible(m.typ, o.typ);
        IdentityInvisible(o.typ, m.typ);
      }
    }
  }

  /** Of two different kept members neither is below the other. */
  lemma KeptIncomparable(s: set<Member>, bool_: Member, m: Member, n: Member)
    requires Good(s + {bool_}) && bool_.typ == Bool && m in Union(s, bool_) && n in Union(s, bool_) && m != n
    ensures !Below(m.typ, n.typ)
  {
    KeptExactly(s, bool_, m);
    KeptExactly(s, bool_, n);
    assert !Replaces(n, m) && !Replaces(m, n);
  }

  /** A union admits what one of its candidates admits. */
  lemma UnionKeepsValues(s: set<Member>, bool_: Member, v: Type)
    requires Good(s + {bool_}) && bool_.typ == Bool && WellFormed(v) && IsValue(v)
    ensures SomeAccepts(Union(s, bool_), v) <==> SomeAccepts(s, v)
  {
    var merged := MergeBools(s, bool_);
    assert merged <= s + {bool_};
    assert Good(s) && Good(merged);
    MergeBoolsKeepsValues(s, bool_, v);
    MaximalKeepsValues(merged, v);
  }

  ghost predicate BothBools(s: set<Member>) {
    HasBool(s, true) && HasBool(s, false)
  }

  predicate BoolLiteral(t: Type) {
    IsBoolLiteral(t, true) || IsBoolLiteral(t, false)
  }

  /** `bool` is strictly above its literals. */
  lemma BoolAboveLiteral(l: Member, bool_: Member)
    requires WellFormed(l.typ) && BoolLiteral(l.typ) && bool_.typ == Bool
    ensures Dominates(bool_, l) && !Dominates(l, bool_)
  {
    var b := IsBoolLiteral(l.typ, true);
    IdentityInvisible(l.typ, Bool);
    IdentityInvisible(Bool, l.typ);
    ValueBelowIffAccepted(l.typ, Bool);
    if Below(Bool, l.typ) {
      var other := Lit(BoolAtom(!b));
      SubtypeSound(Bool, l.typ, other);
      BoolLiteralAccepts(l.typ, b, other);
    }
  }

  /** A literal does not hide the other one. */
  lemma LiteralsApart(o: Member, l: Member, b: bool)
    requires WellFormed(o.typ) && WellFormed(l.typ) && IsBoolLiteral(l.typ, b) && Dominates(o, l)
    ensures !IsBoolLiteral(o.typ, !b)
  {
    if IsBoolLiteral(o.typ, !b) {
      IdentityInvisible(l.typ, o.typ);
      ValueBelowIffAccepted(l.typ, o.typ);
      BoolLiteralAccepts(o.typ, !b, l.typ);
    }
  }

  /** Members below one that stays can be left out. */
  lemma DropDominated(q: set<Member>, r: set<Member>)
    requires q <= r && Good(r) && forall m :: m in r && m !in q ==> exists k :: k in q && Dominates(k, m)
    ensures Maximal(q) == Maximal(r)
  {
    forall m | m in Maximal(q) ensures m in Maximal(r) {
      forall o | o in r ensures !Dominates(o, m) {
        if Dominates(o, m) && o !in q {
          var k :| k in q && Dominates(k, o);
          DominatesTransitive(m, o, k);
        }
      }
    }
  }

  /** Where both literals occur, the union keeps what is maximal beside `bool`. */
  lemma MergedUnion(s: set<Member>, bool_: Member)
    requires Good(s + {bool_}) && bool_.typ == Bool && BothBools(s)
    ensures Union(s, bool_) == Maximal(s + {bool_})
  {
    var merged := MergeBools(s, bool_);
    forall m | m in s + {bool_} && m !in merged ensures exists k :: k in merged && Dominates(k, m) {
      BoolAboveLiteral(m, bool_);
      assert bool_ in merged;
    }
    DropDominated(merged, s + {bool_});
  }

  /** `bool`, or something above it, is a candidate already. */
  ghost predicate Covered(s: set<Member>, bool_: Member) {
    exists k :: k in s && (k == bool_ || Dominates(k, bool_))
  }

  lemma CoveredExact(s: set<Member>, bool_: Member)
    requires Good(s + {bool_}) && bool_.typ == Bool
    ensures Maximal(s) == Maximal(s + {bool_}) <==> Covered(s, bool_)
  {
    if Covered(s, bool_) {
      DropDominated(s, s + {bool_});
    } else {
      DominatesIrreflexive(bool_);
      assert bool_ in Maximal(s + {bool_}) && bool_ !in Maximal(s);
    }
  }

  /** Some candidate other than a boolean literal makes the member redundant. */
  ghost predicate HiddenBy(s: set<Member>, l: Member) {
    exists o :: o in s && !BoolLiteral(o.typ) && Dominates(o, l)
  }

  ghost predicate Hidden(s: set<Member>, b: bool) {
    forall l :: l in s && IsBoolLiteral(l.typ, b) ==> HiddenBy(s, l)
  }

  /** Both literals occur, one of them is hidden by other candidates, and none of these covers `bool`. */
  ghost predicate NestingMatters(s: set<Member>, bool_: Member) {
    BothBools(s) && !Covered(s, bool_) && (Hidden(s, true) || Hidden(s, false))
  }

  /** Forming the union of a part first gives the union of all. */
  ghost predicate Groups(p: set<Member>, c: set<Member>, bool_: Member) {
    Union(Union(p, bool_) + c, bool_) == Union(p + c, bool_)
  }

  /** With a literal lost in the part, the part hid it. */
  lemma LostIsHidden(p: set<Member>, c: set<Member>, b: bool)
    requires Good(p + c) && !HasBool(Maximal(p) + c, b)
    ensures Hidden(p + c, b)
  {
    forall l | l in p + c && IsBoolLiteral(l.typ, b) ensures HiddenBy(p + c, l) {
      assert l !in Maximal(p) + c;
      assert Good(p);
      var k := KeptAbove(p, l);
      LiteralsApart(k, l, b);
      assert k in Maximal(p) + c && !BoolLiteral(k.typ);
    }
  }

  lemma GroupsUnless(p: set<Member>, c: set<Member>, bool_: Member)
    requires Good(p + c + {bool_}) && bool_.typ == Bool && !NestingMatters(p + c, bool_)
    ensures Groups(p, c, bool_)
  {
    if BothBools(p) {
      MergedFirst(p, c, bool_);
    } else if BothBools(p + c) {
      MergedUnion(p + c, bool_);
      UnmergedPart(p, c, bool_);
    } else {
      assert Good(p + c);
      MaximalAbsorbs(p, c);
      assert !BothBools(Maximal(p) + c);
    }
  }

  lemma MergedFirst(p: set<Member>, c: set<Member>, bool_: Member)
    requires Good(p + c + {bool_}) && bool_.typ == Bool && BothBools(p)
    ensures Groups(p, c, bool_)
  {
    var q := p + {bool_};
    assert q + c == p + c + {bool_};
    MergedUnion(p, bool_);
    BothInPart(p, c);
    MergedUnion(p + c, bool_);
    if BothBools(Maximal(q) + c) {
      MergedLater(q, c, bool_);
      assert q + c + {bool_} == q + c;
    } else {
      MaximalAbsorbs(q, c);
    }
  }

  lemma BothInPart(p: set<Member>, c: set<Member>)
    requires BothBools(p)
    ensures BothBools(p + c)
  {
    var t, f :| t in p && f in p && IsBoolLiteral(t.typ, true) && IsBoolLiteral(f.typ, false);
    assert t in p + c && f in p + c;
  }

  lemma UnmergedPart(p: set<Member>, c: set<Member>, bool_: Member)
    requires Good(p + c + {bool_}) && bool_.typ == Bool && !NestingMatters(p + c, bool_)
    requires !BothBools(p) && BothBools(p + c)
    ensures Union(Union(p, bool_) + c, bool_) == Maximal(p + c + {bool_})
  {
    var u := Maximal(p);
    assert Union(p, bool_) == u;
    if BothBools(u + c) {
      MergedLater(p, c, bool_);
    } else {
      assert Good(p + c);
      MaximalAbsorbs(p, c);
      LostIsHidden(p, c, HasBool(u + c, false));
      CoveredExact(p + c, bool_);
    }
  }

  lemma MergedLater(p: set<Member>, c: set<Member>, bool_: Member)
    requires Good(p + c + {bool_}) && bool_.typ == Bool && BothBools(Maximal(p) + c)
    ensures Union(Maximal(p) + c, bool_) == Maximal(p + c + {bool_})
  {
    var rest := c + {bool_};
    assert Maximal(p) + c + {bool_} == Maximal(p) + rest && p + rest == p + c + {bool_};
    assert Good(Maximal(p) + c + {bool_});
    MergedUnion(Maximal(p) + c, bool_);
    MaximalAbsorbs(p, rest);
  }

  /** The split that loses a hidden literal: its opposites on one side, everything else on the other. */
  lemma SplitAtHidden(s: set<Member>, bool_: Member, b: bool) returns (p: set<Member>, c: set<Member>)
    requires Good(s + {bool_}) && bool_.typ == Bool && BothBools(s) && !Covered(s, bool_) && Hidden(s, b)
    ensures p + c == s && !Groups(p, c, bool_)
  {
    p := set m | m in s && !IsBoolLiteral(m.typ, !b);
    c := set m | m in s && IsBoolLiteral(m.typ, !b);
    assert p + c == s;
    assert !HasBool(p, !b);
    var u := Maximal(p);
    forall l | l in s && IsBoolLiteral(l.typ, b) ensures l !in u {
      assert HiddenBy(s, l);
      var o :| o in s && !BoolLiteral(o.typ) && Dominates(o, l);
      assert o in p;
    }
    assert !HasBool(u + c, b);
    assert Good(p + c);
    MaximalAbsorbs(p, c);
    MergedUnion(s, bool_);
    CoveredExact(s, bool_);
  }

  /** Every way of forming the union of a part first gives the members of the flat union exactly when no boolean
    * literal can be hidden from its opposite: a hidden one is not there to be merged with it. */
  lemma NestingExact(s: set<Member>, bool_: Member)
    requires Good(s + {bool_}) && bool_.typ == Bool
    ensures (forall p, c :: p + c == s ==> Groups(p, c, bool_)) <==> !NestingMatters(s, bool_)
  {
    if NestingMatters(s, bool_) {
      var p, c := SplitAtHidden(s, bool_, Hidden(s, true));
    } else {
      forall p, c | p + c == s ensures Groups(p, c, bool_) { GroupsUnless(p, c, bool_); }
    }
  }

  /** Unions are associative and commutative in the members they keep, wherever no literal is hidden. */
  lemma UnionAssociative(a: set<Member>, b: set<Member>, c: set<Member>, bool_: Member)
    requires Good(a + b + c + {bool_}) && bool_.typ == Bool && !NestingMatters(a + b + c, bool_)
    ensures Union(Union(a + b, bool_) + c, bool_) == Union(a + Union(b + c, bool_), bool_) == Union(a + b + c, bool_)
    ensures Union(a + b, bool_) == Union(b + a, bool_)
  {
    assert b + c + a == a + b + c && a + b == b + a;
    assert a + Union(b + c, bool_) == Union(b + c, bool_) + a;
    GroupsUnless(a + b, c, bool_);
    GroupsUnless(b + c, a, bool_);
  }

  /** What is enough: whatever makes a boolean literal redundant, other than another, makes `bool` redundant too. */
  lemma NothingHidden(s: set<Member>, bool_: Member)
    requires forall o, l :: o in s && l in s && BoolLiteral(l.typ) && !BoolLiteral(o.typ) && Dominates(o, l) ==>
      o == bool_ || Dominates(o, bool_)
    ensures !NestingMatters(s, bool_)
  {
    if BothBools(s) && (Hidden(s, true) || Hidden(s, false)) {
      var l :| l in s && IsBoolLiteral(l.typ, Hidden(s, true));
      assert HiddenBy(s, l);
      var o :| o in s && !BoolLiteral(o.typ) && Dominates(o, l);
      assert Covered(s, bool_);
    }
  }

  /** A union of a union with itself is that union. */
  lemma UnionIdempotent(s: set<Member>, bool_: Member)
    requires Good(s + {bool_}) && bool_.typ == Bool
    ensures Union(Union(s, bool_) + Union(s, bool_), bool_) == Union(s, bool_)
  {
    var merged := MergeBools(s, bool_);
    var u := Maximal(merged);
    assert Good(merged);
    assert u + u == u && !BothBools(u);
    MaximalAbsorbs(merged, {});
    assert u + {} == u && merged + {} == merged;
  }

  const MIXED := EnumType(Any, [BoolAtom(true), StringAtom("a")])

  lemma MixedWellFormed()
    ensures WellFormed(MIXED) && Literal(MIXED).None?
  {
  }

  /** An atom that only the left admits keeps it from being below the right. */
  lemma NotBelow(x: Type, y: Type, a: Atom)
    requires WellFormed(x) && WellFormed(y) && Accepts(x, Lit(a)) && !Accepts(y, Lit(a))
    ensures !SubtypeOf(true, x, y)
  {
    IdentityInvisible(x, y);
    if Below(x, y) { SubtypeSound(x, y, Lit(a)); }
  }

  /** A boolean literal, in whichever form, is below what admits its atom. */
  lemma LiteralBelowIffAccepted(l: Type, b: bool, t: Type)
    requires WellFormed(l) && IsBoolLiteral(l, b) && WellFormed(t)
    ensures SubtypeOf(true, l, t) <==> Accepts(t, Lit(BoolAtom(b)))
    ensures Accepts(l, Lit(BoolAtom(b))) && !Accepts(l, Lit(BoolAtom(!b))) && !Accepts(l, Lit(StringAtom("a")))
  {
    IdentityInvisible(l, t);
    ValueBelowIffAccepted(l, t);
    AcceptsLooksThroughRefinements(t, l);
    BoolLiteralAccepts(l, b, Lit(BoolAtom(b)));
    BoolLiteralAccepts(l, b, Lit(BoolAtom(!b)));
    BoolLiteralAccepts(l, b, Lit(StringAtom("a")));
  }

  lemma AnyEnumAccepts(e: seq<Atom>, a: Atom)
    ensures Accepts(EnumType(Any, e), Lit(a)) <==> InEnum(e, a)
  {
  }

  lemma MixedAccepts()
    ensures Accepts(MIXED, Lit(BoolAtom(true))) && Accepts(MIXED, Lit(StringAtom("a")))
    ensures !Accepts(MIXED, Lit(BoolAtom(false)))
  {
    var e := [BoolAtom(true), StringAtom("a")];
    AnyEnumAccepts(e, BoolAtom(true));
    AnyEnumAccepts(e, StringAtom("a"));
    AnyEnumAccepts(e, BoolAtom(false));
    CompareDecidesValue(BoolAtom(true), e[0]);
    CompareDecidesValue(StringAtom("a"), e[1]);
  }

  lemma MaximalPair(m: Member, n: Member)
    requires WellFormed(m.typ) && WellFormed(n.typ) && !Dominates(m, n)
    ensures Maximal({m} + {n}) == if Dominates(n, m) then {n} else {m, n}
  {
    DominatesIrreflexive(m);
    DominatesIrreflexive(n);
  }

  lemma NoMerge(s: set<Member>, bool_: Member, b: bool)
    requires forall m :: m in s ==> !IsBoolLiteral(m.typ, b)
    ensures Union(s, bool_) == Maximal(s)
  {
  }

  /** `true` and `false`, as bare atoms or as singleton enums. */
  predicate OppositeLiterals(a: Member, c: Member) {
    WellFormed(a.typ) && IsBoolLiteral(a.typ, true) && WellFormed(c.typ) && IsBoolLiteral(c.typ, false)
  }

  /** Where nesting matters, first family: an enum over `any` hides one literal before the two meet. */
  lemma BoolMergingNotAssociative(a: Member, b: Member, c: Member, bool_: Member)
    requires OppositeLiterals(a, c) && b.typ == MIXED && bool_.typ == Bool
    ensures Union(Union({a} + {b}, bool_) + {c}, bool_) == {b, c}
    ensures Union({a} + Union({b} + {c}, bool_), bool_) == {b, bool_}
  {
    MixedWellFormed();
    MixedAccepts();
    LiteralBelowIffAccepted(a.typ, true, MIXED);
    LiteralBelowIffAccepted(c.typ, false, MIXED);
    NotBelow(MIXED, a.typ, StringAtom("a"));
    NotBelow(MIXED, c.typ, StringAtom("a"));
    NotBelow(MIXED, Bool, StringAtom("a"));
    NotBelow(Bool, MIXED, BoolAtom(false));
    NestedLeft(a, b, c, bool_);
    NestedRight(a, b, c, bool_);
  }

  lemma NestedLeft(a: Member, b: Member, c: Member, bool_: Member)
    requires OppositeLiterals(a, c) && WellFormed(b.typ) && Literal(b.typ).None?
    requires Dominates(b, a) && !Dominates(a, b) && !Dominates(b, c) && !Dominates(c, b)
    ensures Union(Union({a} + {b}, bool_) + {c}, bool_) == {b, c}
  {
    NoMerge({a} + {b}, bool_, false);
    MaximalPair(a, b);
    NoMerge({b} + {c}, bool_, true);
    MaximalPair(b, c);
  }

  lemma NestedRight(a: Member, b: Member, c: Member, bool_: Member)
    requires OppositeLiterals(a, c) && WellFormed(b.typ) && Literal(b.typ).None? && bool_.typ == Bool
    requires !Dominates(b, c) && !Dominates(c, b) && !Dominates(b, bool_) && !Dominates(bool_, b)
    ensures Union({a} + Union({b} + {c}, bool_), bool_) == {b, bool_}
  {
    NoMerge({b} + {c}, bool_, true);
    MaximalPair(b, c);
    var s := {a} + {b, c};
    assert a in s && c in s && HasBool(s, true) && HasBool(s, false);
    assert MergeBools(s, bool_) == {b} + {bool_};
    MaximalPair(b, bool_);
  }

  const BOTH := EnumType(Bool, [BoolAtom(false), BoolAtom(true)])

  lemma BothWellFormed()
    ensures WellFormed(BOTH) && Literal(BOTH).None?
    ensures Accepts(BOTH, Lit(BoolAtom(true))) && Accepts(BOTH, Lit(BoolAtom(false)))
  {
    var e := BOTH.con.enum.value;
    assert CompareAtoms(BoolAtom(false), e[0]) == 0 && CompareAtoms(BoolAtom(true), e[1]) == 0;
  }

  lemma BothBelowBool()
    ensures SubtypeOf(true, BOTH, Bool) && !SubtypeOf(true, Bool, BOTH)
  {
    BothWellFormed();
    IdentityInvisible(BOTH, Bool);
    IdentityInvisible(Bool, BOTH);
    UnfoldRefinedLeft(BOTH, Bool);
    UnfoldRefinedRight(Bool, BOTH);
  }

  /** Second family, without `any`: an enum of both atoms over `bool` hides either literal, and `bool` hides the enum. */
  lemma OwnEnumHidesBools(a: Member, b: Member, c: Member, bool_: Member)
    requires OppositeLiterals(a, c) && b.typ == BOTH && bool_.typ == Bool
    ensures Union(Union({a} + {b}, bool_) + {c}, bool_) == {b}
    ensures Union(Union({a} + {c}, bool_) + {b}, bool_) == {bool_}
  {
    BothWellFormed();
    BothBelowBool();
    LiteralBelowIffAccepted(a.typ, true, BOTH);
    LiteralBelowIffAccepted(c.typ, false, BOTH);
    NotBelow(BOTH, a.typ, BoolAtom(false));
    NotBelow(BOTH, c.typ, BoolAtom(true));
    HiddenInTurn(a, b, c, bool_);
    MeetAtBool(a, b, c, bool_);
  }

  lemma HiddenInTurn(a: Member, b: Member, c: Member, bool_: Member)
    requires OppositeLiterals(a, c) && bool_.typ == Bool && WellFormed(b.typ) && Literal(b.typ).None?
    requires Dominates(b, a) && !Dominates(a, b) && Dominates(b, c) && !Dominates(c, b)
    ensures Union(Union({a} + {b}, bool_) + {c}, bool_) == {b}
  {
    NoMerge({a} + {b}, bool_, false);
    MaximalPair(a, b);
    NoMerge({b} + {c}, bool_, true);
    MaximalPair(c, b);
    assert {c} + {b} == {b} + {c};
  }

  lemma MeetAtBool(a: Member, b: Member, c: Member, bool_: Member)
    requires OppositeLiterals(a, c) && bool_.typ == Bool
    requires WellFormed(b.typ) && Literal(b.typ).None? && Dominates(bool_, b) && !Dominates(b, bool_)
    ensures Union(Union({a} + {c}, bool_) + {b}, bool_) == {bool_}
  {
    var s := {a} + {c};
    assert a in s && c in s;
    assert MergeBools(s, bool_) == {bool_};
    DominatesIrreflexive(bool_);
    assert Union(s, bool_) == {bool_};
    NoMerge({bool_} + {b}, bool_, true);
    assert {bool_} + {b} == {b} + {bool_};
    MaximalPair(b, bool_);
  }

  /** `any` absorbs every other member. */
  lemma AnyWins(s: set<Member>, bool_: Member, any: Member)
    requires Good(s + {bool_}) && bool_.typ == Bool
    requires any in s && any.typ == Any && forall m :: m in s && m.typ == Any ==> m == any
    ensures Maximal(MergeBools(s, bool_)) == {any}
  {
    var merged := MergeBools(s, bool_);
    assert any in merged;
    forall m | m in merged && m != any ensures Dominates(any, m) && !Dominates(m, any) {
      assert m.typ != Any;
    }
    DominatesIrreflexive(any);
  }

  // ----- the list algorithm

  function Elements(ms: seq<Member>): set<Member> {
    set i | 0 <= i < |ms| :: ms[i]
  }

  lemma ElementsMembers(ms: seq<Member>)
    ensures forall m :: m in Elements(ms) <==> m in ms
  {
  }

  lemma ElementsCons(m: Member, ms: seq<Member>)
    ensures Elements([m] + ms) == {m} + Elements(ms)
  {
    ElementsMembers([m] + ms);
    ElementsMembers(ms);
  }

  predicate AscendingIds(ms: seq<Member>) {
    forall i, j :: 0 <= i < j < |ms| ==> ms[i].id < ms[j].id
  }

  predicate SortedIds(ms: seq<Member>) {
    forall i, j :: 0 <= i < j < |ms| ==> ms[i].id <= ms[j].id
  }

  function InsertById(m: Member, ms: seq<Member>): seq<Member> {
    if ms == [] || m.id <= ms[0].id then [m] + ms else [ms[0]] + InsertById(m, ms[1..])
  }

  function SortById(ms: seq<Member>): seq<Member> {
    if ms == [] then [] else InsertById(ms[0], SortById(ms[1..]))
  }

  lemma ConsSortedIds(m: Member, ms: seq<Member>)
    requires SortedIds(ms) && forall x :: x in ms ==> m.id <= x.id
    ensures SortedIds([m] + ms)
  {
    var all := [m] + ms;
    forall i, j | 0 <= i < j < |all| ensures all[i].id <= all[j].id {
      assert all[j] == ms[j - 1] && all[j] in ms;
      if i > 0 { assert all[i] == ms[i - 1]; }
    }
  }

  lemma {:induction false} InsertByIdSorts(m: Member, ms: seq<Member>)
    requires SortedIds(ms)
    ensures SortedIds(InsertById(m, ms))
    ensures forall x :: x in InsertById(m, ms) <==> x == m || x in ms
  {
    if ms == [] || m.id <= ms[0].id {
      forall x | x in ms ensures m.id <= x.id {
        var i :| 0 <= i < |ms| && ms[i] == x;
        if i > 0 { assert ms[0].id <= ms[i].id; }
      }
      ConsSortedIds(m, ms);
    } else {
      var rest := ms[1..];
      assert forall i :: 0 <= i < |rest| ==> rest[i] == ms[i + 1];
      InsertByIdSorts(m, rest);
      ConsSortedIds(ms[0], InsertById(m, rest));
    }
  }

  lemma {:induction false} SortByIdSorts(ms: seq<Member>)
    ensures SortedIds(SortById(ms))
    ensures forall x :: x in SortById(ms) <==> x in ms
  {
    if ms != [] {
      SortByIdSorts(ms[1..]);
      InsertByIdSorts(ms[0], SortById(ms[1..]));
    }
  }

  /** Sort by ID and drop repeated IDs. */
  method SortUniqueIds(flat: seq<Member>) returns (out: seq<Member>)
    requires UniqueIds(Elements(flat))
    ensures AscendingIds(out) && Elements(out) == Elements(flat)
  {
    var s := SortById(flat);
    SortedFor(flat);
    out := [];
    NoneSeen(s);
    for i := 0 to |s|
      invariant Deduplicated(s, i, out)
    {
      Deduplicate(s, i, out);
      if out == [] || out[|out| - 1].id != s[i].id {
        out := out + [s[i]];
      }
    }
    AllDeduplicated(s, out);
  }

  /** What the scan rests on. */
  ghost predicate Scannable(s: seq<Member>) {
    SortedIds(s) && UniqueIds(Elements(s))
  }

  lemma SortedFor(flat: seq<Member>)
    requires UniqueIds(Elements(flat))
    ensures Scannable(SortById(flat)) && Elements(SortById(flat)) == Elements(flat)
  {
    SortByIdSorts(flat);
    SameElements(SortById(flat), flat);
  }

  lemma NoneSeen(s: seq<Member>)
    ensures Deduplicated(s, 0, [])
  {
  }

  lemma AllDeduplicated(s: seq<Member>, out: seq<Member>)
    requires Deduplicated(s, |s|, out)
    ensures AscendingIds(out) && Elements(out) == Elements(s)
  {
    assert s[..|s|] == s;
  }

  /** The distinct members among the first `i` sorted ones. */
  ghost predicate Deduplicated(s: seq<Member>, i: nat, out: seq<Member>)
    requires i <= |s|
  {
    && AscendingIds(out) && Elements(out) == Elements(s[..i])
    && if i == 0 then out == [] else out != [] && out[|out| - 1].id == s[i - 1].id
  }

  lemma Deduplicate(s: seq<Member>, i: nat, out: seq<Member>)
    requires Scannable(s) && i < |s| && Deduplicated(s, i, out)
    ensures Deduplicated(s, i + 1, if out == [] || out[|out| - 1].id != s[i].id then out + [s[i]] else out)
  {
    ElementsAppend(s[..i], s[i]);
    assert s[..i + 1] == s[..i] + [s[i]];
    if out == [] || out[|out| - 1].id != s[i].id {
      ElementsAppend(out, s[i]);
      if i > 0 { SortedAppend(s, i, out); }
    } else {
      SameIdSameMember(s, i, out);
    }
  }

  lemma SortedAppend(s: seq<Member>, i: nat, out: seq<Member>)
    requires SortedIds(s) && 0 < i < |s| && AscendingIds(out) && out != []
    requires out[|out| - 1].id == s[i - 1].id != s[i].id
    ensures AscendingIds(out + [s[i]])
  {
    assert s[i - 1].id <= s[i].id;
    forall k | 0 <= k < |out| ensures out[k].id < s[i].id {
      if k < |out| - 1 { assert out[k].id < out[|out| - 1].id; }
    }
  }

  lemma SameIdSameMember(s: seq<Member>, i: nat, out: seq<Member>)
    requires UniqueIds(Elements(s)) && i < |s| && Elements(out) == Elements(s[..i])
    requires out != [] && out[|out| - 1].id == s[i].id
    ensures s[i] in Elements(out)
  {
    var last := out[|out| - 1];
    assert last in Elements(out);
    SubElements(s, i);
    assert s[i] in Elements(s);
  }

  lemma SameElements(x: seq<Member>, y: seq<Member>)
    requires forall m :: m in x <==> m in y
    ensures Elements(x) == Elements(y)
  {
    ElementsMembers(x);
    ElementsMembers(y);
  }

  lemma ElementsAppend(ms: seq<Member>, m: Member)
    ensures Elements(ms + [m]) == Elements(ms) + {m}
  {
    ElementsMembers(ms);
    ElementsMembers(ms + [m]);
  }

  lemma SubElements(ms: seq<Member>, i: nat)
    requires i <= |ms|
    ensures Elements(ms[..i]) <= Elements(ms)
  {
    ElementsMembers(ms);
    ElementsMembers(ms[..i]);
  }

  /** Give up the boolean literals for `bool` when both occur. */
  method MergeBoolLiterals(flat: seq<Member>, bool_: Member) returns (out: seq<Member>)
    ensures Elements(out) == MergeBools(Elements(flat), bool_)
  {
    var hasTrue, hasFalse := false, false;
    var i := 0;
    while i < |flat|
      invariant 0 <= i <= |flat|
      invariant hasTrue <==> exists k :: 0 <= k < i && IsBoolLiteral(flat[k].typ, true)
      invariant hasFalse <==> exists k :: 0 <= k < i && IsBoolLiteral(flat[k].typ, false)
    {
      if IsBoolLiteral(flat[i].typ, true) {
        hasTrue := true;
      } else if IsBoolLiteral(flat[i].typ, false) {
        hasFalse := true;
      }
      i := i + 1;
    }
    BoolFlags(flat, true);
    BoolFlags(flat, false);
    if !(hasTrue && hasFalse) {
      return flat;
    }
    out := [];
    i := 0;
    while i < |flat|
      invariant 0 <= i <= |flat|
      invariant forall x :: x in out <==>
        x in flat[..i] && !IsBoolLiteral(x.typ, true) && !IsBoolLiteral(x.typ, false)
    {
      assert flat[..i + 1] == flat[..i] + [flat[i]];
      if !(IsBoolLiteral(flat[i].typ, true) || IsBoolLiteral(flat[i].typ, false)) {
        out := out + [flat[i]];
      }
      i := i + 1;
    }
    assert flat[..|flat|] == flat;
    out := out + [bool_];
    forall x ensures x in Elements(out) <==> x in MergeBools(Elements(flat), bool_) {
      ElementsMembers(out);
      ElementsMembers(flat);
    }
  }

  lemma BoolFlags(flat: seq<Member>, b: bool)
    ensures HasBool(Elements(flat), b) <==> exists k :: 0 <= k < |flat| && IsBoolLiteral(flat[k].typ, b)
  {
    if k: int :| 0 <= k < |flat| && IsBoolLiteral(flat[k].typ, b) {
      assert flat[k] in Elements(flat);
    }
  }

  /** Whether another member of the list makes the `i`-th redundant. */
  method IsRedundant(flat: seq<Member>, i: nat) returns (redundant: bool)
    requires AscendingIds(flat) && i < |flat| && WellFormed(flat[i].typ)
    ensures redundant <==> exists o :: o in flat && Dominates(o, flat[i])
  {
    var id := flat[i];
    var j := 0;
    while j < |flat|
      invariant 0 <= j <= |flat|
      invariant forall k :: 0 <= k < j ==> !Dominates(flat[k], id)
    {
      if i == j {
        DominatesIrreflexive(id);
      } else {
        var other := flat[j];
        var otherFirst := other.fp < id.fp || (other.fp == id.fp && j < i);
        assert otherFirst == Before(other, id);
        if SubtypeOf(true, id.typ, other.typ) && (!SubtypeOf(true, other.typ, id.typ) || otherFirst) {
          assert other in flat && Dominates(other, id);
          return true;
        }
      }
      j := j + 1;
    }
    return false;
  }

  /** Keep the members no other member makes redundant. */
  method DropRedundant(flat: seq<Member>) returns (keep: seq<Member>)
    requires AscendingIds(flat) && forall m :: m in flat ==> WellFormed(m.typ)
    ensures AscendingIds(keep) && Elements(keep) == Maximal(Elements(flat))
  {
    keep := [];
    var i := 0;
    while i < |flat|
      invariant 0 <= i <= |flat|
      invariant AscendingIds(keep) && forall x :: x in keep ==> x in flat[..i]
      invariant forall x :: x in keep <==> x in flat[..i] && forall o :: o in flat ==> !Dominates(o, x)
    {
      var redundant := IsRedundant(flat, i);
      assert flat[..i + 1] == flat[..i] + [flat[i]];
      if !redundant {
        AppendLast(flat, i, keep);
        keep := keep + [flat[i]];
      }
      i := i + 1;
    }
    assert flat[..|flat|] == flat;
    ElementsMembers(keep);
    ElementsMembers(flat);
  }

  lemma AppendLast(flat: seq<Member>, i: nat, keep: seq<Member>)
    requires AscendingIds(flat) && i < |flat| && AscendingIds(keep) && forall x :: x in keep ==> x in flat[..i]
    ensures AscendingIds(keep + [flat[i]])
  {
    forall k | 0 <= k < |keep| ensures keep[k].id < flat[i].id {
      assert keep[k] in keep;
      var m :| 0 <= m < i && flat[..i][m] == keep[k];
      assert flat[m] == keep[k];
    }
  }

  /** The members of a union: boolean literals merged, sorted by ID, redundant members dropped. */
  method CanonicalMembers(flat: seq<Member>, bool_: Member) returns (keep: seq<Member>)
    requires Good(Elements(flat) + {bool_}) && bool_.typ == Bool
    ensures AscendingIds(keep) && Elements(keep) == Maximal(MergeBools(Elements(flat), bool_))
    ensures Good(Elements(keep))
    ensures flat != [] ==> keep != []
    ensures forall v :: WellFormed(v) && IsValue(v) ==>
      (SomeAccepts(Elements(keep), v) <==> SomeAccepts(Elements(flat), v))
  {
    var merged := MergeBoolLiterals(flat, bool_);
    assert Good(Elements(merged)) by { assert Elements(merged) <= Elements(flat) + {bool_}; }
    var sorted := SortUniqueIds(merged);
    ElementsMembers(sorted);
    keep := DropRedundant(sorted);
    forall v | WellFormed(v) && IsValue(v) ensures SomeAccepts(Elements(keep), v) <==> SomeAccepts(Elements(flat), v) {
      assert Good(Elements(flat));
      MaximalKeepsValues(Elements(merged), v);
      MergeBoolsKeepsValues(Elements(flat), bool_, v);
    }
    if flat != [] {
      assert flat[0] in Elements(flat);
      assert Elements(merged) != {} by {
        if HasBool(Elements(flat), true) && HasBool(Elements(flat), false) { assert bool_ in Elements(merged); }
      }
      var m :| m in Elements(merged);
      ghost var k := KeptAbove(Elements(merged), m);
      assert k in Elements(keep);
    }
  }

  lemma TailElements(ms: seq<Member>)
    requires AscendingIds(ms) && ms != []
    ensures Elements(ms[1..]) == Elements(ms) - {ms[0]}
  {
    ElementsMembers(ms);
    ElementsMembers(ms[1..]);
    assert ms == [ms[0]] + ms[1..];
  }

  lemma NonEmptyElements(ms: seq<Member>)
    requires ms != []
    ensures Elements(ms) != {}
  {
    assert ms[0] in Elements(ms);
  }

  lemma LeastElement(ms: seq<Member>, m: Member)
    requires AscendingIds(ms) && m in Elements(ms)
    ensures ms[0].id <= m.id
  {
    var k :| 0 <= k < |ms| && ms[k] == m;
    if k > 0 { assert ms[0].id < ms[k].id; }
  }

  /** Two ID-sorted lists of the same members are the same list. */
  lemma {:induction false} SortedListUnique(x: seq<Member>, y: seq<Member>)
    requires AscendingIds(x) && AscendingIds(y) && Elements(x) == Elements(y)
    requires UniqueIds(Elements(x))
    ensures x == y
  {
    if x == [] {
      if y != [] { NonEmptyElements(y); }
    } else {
      assert x[0] in Elements(x);
      LeastElement(y, x[0]);
      assert y[0] in Elements(y);
      LeastElement(x, y[0]);
      TailElements(x);
      TailElements(y);
      SortedListUnique(x[1..], y[1..]);
      assert x == [x[0]] + x[1..] && y == [y[0]] + y[1..];
    }
  }
}
