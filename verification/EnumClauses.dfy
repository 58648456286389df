/** The atoms that equalities, memberships and their disjunctions list, and how the normaliser combines two lists
  * (internal/compiled/constraint.go:121-364, 535-600). */
module EnumClauses {
  import opened Wrappers
  import opened Atoms
  import opened Constraints
  import opened Types
  import opened Syntax
  import opened Clauses
  import opened AtomSets
  import opened NormalForms

  /** Atoms that can be equal to a value of the base. */
  predicate AllCompatible(kernel: Type, e: seq<Atom>) {
    forall a :: a in e ==> Compatible(kernel, a)
  }

  // ----- what a clause lists

  /** The atom an equality compares `x` with, if the base can hold it. */
  function EqualityAtoms(kernel: Type, l: Expr, r: Expr): Option<seq<Atom>> {
    if !IsX(l) && !IsX(r) then None
    else
      var a := LiteralAtom(if IsX(l) then r else l);
      if a.None? || !Compatible(kernel, a.value) then None else Some([a.value])
  }

  /** The atoms of literals, if all are scalars the base can hold. */
  function AtomsOf(kernel: Type, es: seq<Expr>): (out: Option<seq<Atom>>)
    ensures out.Some? ==> |out.value| == |es| && AllCompatible(kernel, out.value)
    ensures out.Some? ==> forall k :: 0 <= k < |es| ==> LiteralAtom(es[k]) == Some(out.value[k])
  {
    if es == [] then Some([])
    else
      var (init, a) := (AtomsOf(kernel, es[..|es| - 1]), LiteralAtom(es[|es| - 1]));
      if init.None? || a.None? || !Compatible(kernel, a.value) then None else Some(init.value + [a.value])
  }

  function InAtoms(kernel: Type, l: Expr, r: Expr): Option<seq<Atom>> {
    if !IsX(l) || ElementsOf(Ungroup(r)).None? then None
    else match AtomsOf(kernel, ElementsOf(Ungroup(r)).value)
      case None => None
      case Some(out) => Some(SortedUnique(out))
  }

  /** The atoms of an equality, a membership test or a disjunction of such. */
  function ListedAtoms(kernel: Type, e: Expr): Option<seq<Atom>>
    decreases e
  {
    var c := Ungroup(e);
    if !c.Binary? then None
    else if c.op.Or? then
      var (left, right) := (ListedAtoms(kernel, c.left), ListedAtoms(kernel, c.right));
      if left.None? || right.None? then None else Some(SortedUnique(left.value + right.value))
    else if c.op.Eq? then EqualityAtoms(kernel, c.left, c.right)
    else if c.op.In? then InAtoms(kernel, c.left, c.right)
    else None
  }

  lemma {:induction false} NoneStays(kernel: Type, es: seq<Expr>, i: nat)
    requires i <= |es| && AtomsOf(kernel, es[..i]).None?
    ensures AtomsOf(kernel, es).None?
    decreases |es|
  {
    if i < |es| {
      assert es[..|es| - 1][..i] == es[..i];
      NoneStays(kernel, es[..|es| - 1], i);
    } else {
      assert es[..i] == es;
    }
  }

  // ----- what it means

  predicate ListsValue(e: seq<Atom>, sat: Type -> bool, v: Type) {
    sat(v) <==> v.Lit? && InEnum(e, v.atom)
  }

  /** The list holds exactly the values the condition allows. */
  ghost predicate Lists(e: seq<Atom>, sat: Type -> bool) {
    forall v :: ListsValue(e, sat, v)
  }

  lemma SameList(e: seq<Atom>, f: Type -> bool, g: Type -> bool)
    requires Lists(e, f) && forall v :: f(v) == g(v)
    ensures Lists(e, g)
  {
    forall v ensures ListsValue(e, g, v) { assert ListsValue(e, f, v); }
  }

  lemma LiteralIsNotX(e: Expr)
    requires LiteralAtom(e).Some?
    ensures !IsX(e) && !IsLenX(e)
  {
  }

  lemma SingletonEnum(a: Atom, v: Type)
    ensures v.Lit? ==> (InEnum([a], v.atom) <==> SameValue(v.atom, a))
  {
    if v.Lit? {
      CompareDecidesValue(v.atom, a);
      assert [a][0] == a;
    }
  }

  lemma MembershipEnum(l: Expr, r: Expr, es: seq<Expr>, out: seq<Atom>, v: Type)
    requires IsX(l) && ElementsOf(Ungroup(r)) == Some(es) && |out| == |es|
    requires forall k :: 0 <= k < |es| ==> LiteralAtom(es[k]) == Some(out[k])
    ensures Sat(Binary(l, In, r), v) <==> v.Lit? && InEnum(out, v.atom)
  {
    if v.Lit? {
      forall k | 0 <= k < |es| ensures EqualsLiteral(es[k], v) <==> CompareAtoms(v.atom, out[k]) == 0 {
        CompareDecidesValue(v.atom, out[k]);
      }
    }
  }

  lemma EqualityLists(l: Expr, r: Expr, a: Atom)
    requires IsX(l) || IsX(r)
    requires LiteralAtom(if IsX(l) then r else l) == Some(a)
    ensures Lists([a], v => Sat(Binary(l, Eq, r), v)) && OfKinds([a], LiteralKinds(Binary(l, Eq, r)))
  {
    LiteralIsNotX(if IsX(l) then r else l);
    var sat := v => Sat(Binary(l, Eq, r), v);
    forall v ensures ListsValue([a], sat, v) {
      SingletonEnum(a, v);
    }
    var es := [l, r];
    assert es[0] == l && es[1] == r;
    assert KindOf(a) in KindsOf([l, r]);
  }

  lemma InLists(l: Expr, r: Expr, es: seq<Expr>, out: seq<Atom>, unique: seq<Atom>)
    requires IsX(l) && ElementsOf(Ungroup(r)) == Some(es) && |out| == |es|
    requires forall k :: 0 <= k < |es| ==> LiteralAtom(es[k]) == Some(out[k])
    requires forall a :: InEnum(unique, a) <==> InEnum(out, a)
    ensures Lists(unique, v => Sat(Binary(l, In, r), v))
  {
    var sat := v => Sat(Binary(l, In, r), v);
    forall v ensures ListsValue(unique, sat, v) {
      MembershipEnum(l, r, es, out, v);
    }
  }

  lemma ListedKinds(l: Expr, r: Expr, es: seq<Expr>, out: seq<Atom>)
    requires ElementsOf(Ungroup(r)) == Some(es) && |out| == |es|
    requires forall k :: 0 <= k < |es| ==> LiteralAtom(es[k]) == Some(out[k])
    ensures OfKinds(out, LiteralKinds(Binary(l, In, r)))
  {
    forall a | a in out ensures KindOf(a) in KindsOf(es) {
      var k :| 0 <= k < |out| && out[k] == a;
      assert es[k] in es;
    }
  }

  lemma UnionEnum(x: seq<Atom>, y: seq<Atom>, v: Type)
    ensures v.Lit? ==> (InEnum(x + y, v.atom) <==> InEnum(x, v.atom) || InEnum(y, v.atom))
  {
    if v.Lit? {
      var a := v.atom;
      if InEnum(x, a) {
        var i :| 0 <= i < |x| && CompareAtoms(a, x[i]) == 0;
        assert (x + y)[i] == x[i];
      }
      if InEnum(y, a) {
        var i :| 0 <= i < |y| && CompareAtoms(a, y[i]) == 0;
        assert (x + y)[|x| + i] == y[i];
      }
    }
  }

  lemma {:induction false} ListedMeaning(kernel: Type, e: Expr)
    requires ListedAtoms(kernel, e).Some?
    ensures var out := ListedAtoms(kernel, e).value;
      AllCompatible(kernel, out) && OfKinds(out, LiteralKinds(e)) && Lists(out, v => Sat(e, v))
    decreases e
  {
    var c := Ungroup(e);
    if c.op.Or? {
      ListedMeaning(kernel, c.left);
      ListedMeaning(kernel, c.right);
      OrLists(kernel, c, e);
    } else if c.op.Eq? {
      EqualityListed(kernel, e);
    } else {
      InListed(kernel, e);
    }
  }

  lemma EqualityListed(kernel: Type, e: Expr)
    requires Ungroup(e).Binary? && Ungroup(e).op.Eq? && ListedAtoms(kernel, e).Some?
    ensures var out := ListedAtoms(kernel, e).value;
      AllCompatible(kernel, out) && OfKinds(out, LiteralKinds(e)) && Lists(out, v => Sat(e, v))
  {
    var c := Ungroup(e);
    EqualityMeaning(kernel, c.left, c.right);
    SameList(ListedAtoms(kernel, e).value, v => Sat(Binary(c.left, Eq, c.right), v), v => Sat(e, v));
  }

  lemma InListed(kernel: Type, e: Expr)
    requires Ungroup(e).Binary? && Ungroup(e).op.In? && ListedAtoms(kernel, e).Some?
    ensures var out := ListedAtoms(kernel, e).value;
      AllCompatible(kernel, out) && OfKinds(out, LiteralKinds(e)) && Lists(out, v => Sat(e, v))
  {
    var c := Ungroup(e);
    InMeaning(kernel, c.left, c.right);
    SameList(ListedAtoms(kernel, e).value, v => Sat(Binary(c.left, In, c.right), v), v => Sat(e, v));
  }

  lemma EqualityMeaning(kernel: Type, l: Expr, r: Expr)
    requires EqualityAtoms(kernel, l, r).Some?
    ensures var out := EqualityAtoms(kernel, l, r).value;
      && AllCompatible(kernel, out) && OfKinds(out, LiteralKinds(Binary(l, Eq, r)))
      && Lists(out, v => Sat(Binary(l, Eq, r), v))
  {
    var out := EqualityAtoms(kernel, l, r).value;
    assert out == [out[0]];
    EqualityLists(l, r, out[0]);
  }

  lemma InMeaning(kernel: Type, l: Expr, r: Expr)
    requires InAtoms(kernel, l, r).Some?
    ensures var out := InAtoms(kernel, l, r).value;
      && AllCompatible(kernel, out) && OfKinds(out, LiteralKinds(Binary(l, In, r)))
      && Lists(out, v => Sat(Binary(l, In, r), v))
  {
    var es := ElementsOf(Ungroup(r)).value;
    var all := AtomsOf(kernel, es).value;
    SortedUniqueMeaning(all);
    ListedKinds(l, r, es, all);
    InLists(l, r, es, all, SortedUnique(all));
  }

  lemma OrLists(kernel: Type, c: Expr, e: Expr)
    requires c == Ungroup(e) && c.Binary? && c.op.Or? && ListedAtoms(kernel, e).Some?
    requires var x := ListedAtoms(kernel, c.left).value;
      AllCompatible(kernel, x) && OfKinds(x, LiteralKinds(c.left)) && Lists(x, v => Sat(c.left, v))
    requires var y := ListedAtoms(kernel, c.right).value;
      AllCompatible(kernel, y) && OfKinds(y, LiteralKinds(c.right)) && Lists(y, v => Sat(c.right, v))
    ensures var out := ListedAtoms(kernel, e).value;
      AllCompatible(kernel, out) && OfKinds(out, LiteralKinds(e)) && Lists(out, v => Sat(e, v))
  {
    var (x, y) := (ListedAtoms(kernel, c.left).value, ListedAtoms(kernel, c.right).value);
    var (out, sat) := (SortedUnique(x + y), v => Sat(e, v));
    SortedUniqueMeaning(x + y);
    forall v ensures ListsValue(out, sat, v) {
      assert ListsValue(x, v => Sat(c.left, v), v) && ListsValue(y, v => Sat(c.right, v), v);
      UnionEnum(x, y, v);
    }
  }

  // ----- combining lists

  function AsReal(a: Atom): Atom {
    if a.IntAtom? then RealAtom(a.i as real) else a
  }

  lemma AsRealKeepsValues(values: seq<Atom>, v: seq<Atom>, a: Atom)
    requires |v| == |values| && forall i :: 0 <= i < |v| ==> v[i] == values[i] || v[i] == AsReal(values[i])
    ensures InEnum(v, a) <==> InEnum(values, a)
  {
    forall i | 0 <= i < |v| ensures CompareAtoms(a, v[i]) == 0 <==> CompareAtoms(a, values[i]) == 0 {
      CompareDecidesValue(a, v[i]);
      CompareDecidesValue(a, values[i]);
    }
  }

  /** Under `real` an integer atom becomes the decimal of its value. */
  function Retyped(kernel: Type, values: seq<Atom>): seq<Atom> {
    if kernel.Real? then seq(|values|, i requires 0 <= i < |values| => AsReal(values[i])) else values
  }

  /** The first enum, sorted, or the walk over the old one and the new. */
  function Combined(kernel: Type, old_: Option<seq<Atom>>, values: seq<Atom>): seq<Atom> {
    var v := SortedUnique(Retyped(kernel, values));
    if old_.None? then v else Common(old_.value, v)
  }

  lemma OneKind(v: seq<Atom>, k: AtomKind)
    requires forall a :: a in v ==> KindOf(a) == k
    ensures Kinds(v) <= {k}
  {
  }

  /** A base owns atoms of one kind. */
  lemma OwnKind(kernel: Type, v: seq<Atom>) returns (k: AtomKind)
    requires !kernel.Any? && forall a :: a in v ==> OwnAtom(kernel, a)
    ensures Kinds(v) <= {k}
  {
    k := match kernel
      case Bool => BoolKind
      case Int => IntKind
      case Real => RealKind
      case String => StringKind
      case _ => NullKind;
    OneKind(v, k);
  }

  lemma OwnValues(kernel: Type, values: seq<Atom>, v: seq<Atom>)
    requires !kernel.Any? && AllCompatible(kernel, values) && |v| == |values|
    requires forall i :: 0 <= i < |v| ==> v[i] == if kernel.Real? then AsReal(values[i]) else values[i]
    ensures forall a :: a in v ==> OwnAtom(kernel, a)
  {
    forall a | a in v ensures OwnAtom(kernel, a) {
      var i :| 0 <= i < |v| && v[i] == a;
      assert values[i] in values;
    }
  }

  /** The comparison orders the values of one base, and over `any` those of orderable kinds. */
  lemma SortableValues(kernel: Type, v: seq<Atom>, kinds: set<AtomKind>)
    requires if kernel.Any? then Orderable(kinds) && OfKinds(v, kinds) else forall a :: a in v ==> OwnAtom(kernel, a)
    ensures Orderable(Kinds(v))
  {
    if !kernel.Any? { var k := OwnKind(kernel, v); }
  }

  /** What the old enum must be for the walk to be exact. */
  predicate Sortable(kernel: Type, e: seq<Atom>, kinds: set<AtomKind>) {
    if kernel.Any? then Orderable(kinds) && Ascending(e) && OfKinds(e, kinds) else EnumShaped(kernel, e)
  }

  /** The first enum keeps all values, of any kinds. */
  lemma FirstMeaning(kernel: Type, values: seq<Atom>)
    ensures NeighboursDiffer(Combined(kernel, None, values))
    ensures forall a :: InEnum(Combined(kernel, None, values), a) <==> InEnum(values, a)
  {
    var v := Retyped(kernel, values);
    SortedUniqueMeaning(v);
    forall a ensures InEnum(v, a) <==> InEnum(values, a) { AsRealKeepsValues(values, v, a); }
  }

  lemma CombinedShape(kernel: Type, old_: Option<seq<Atom>>, values: seq<Atom>, kinds: set<AtomKind>)
    requires AllCompatible(kernel, values) && (old_.Some? ==> Sortable(kernel, old_.value, kinds))
    requires kernel.Any? ==> Orderable(kinds) && OfKinds(values, kinds)
    ensures Sortable(kernel, Combined(kernel, old_, values), kinds)
  {
    var v := Retyped(kernel, values);
    if !kernel.Any? { OwnValues(kernel, values, v); }
    SortableValues(kernel, v, kinds);
    SortedUniqueMeaning(v);
    if old_.Some? { CommonAscending(old_.value, SortedUnique(v)); }
  }

  /** A later enum is intersected by value. */
  lemma CombinedMeaning(kernel: Type, old_: seq<Atom>, values: seq<Atom>, kinds: set<AtomKind>)
    requires AllCompatible(kernel, values) && Sortable(kernel, old_, kinds)
    requires kernel.Any? ==> Orderable(kinds) && OfKinds(values, kinds)
    ensures forall a :: InEnum(Combined(kernel, Some(old_), values), a) <==> InEnum(old_, a) && InEnum(values, a)
  {
    var v := Combined(kernel, None, values);
    CombinedShape(kernel, None, values, kinds);
    FirstMeaning(kernel, values);
    SortableValues(kernel, old_ + v, kinds);
    forall a ensures InEnum(Common(old_, v), a) <==> InEnum(old_, a) && InEnum(v, a) {
      CommonExact(old_, v, Kinds(old_ + v), a);
    }
  }

  // ----- over `any`, where a clause can only list atoms

  /** The enum after a clause, or nothing if it is rejected. */
  function ConsumeAny(old_: Option<seq<Atom>>, e: Expr): Option<seq<Atom>>
    decreases e
  {
    var c := Ungroup(e);
    if c.Binary? && c.op.And? then
      var left := ConsumeAny(old_, c.left);
      if left.None? then None else ConsumeAny(left, c.right)
    else
      var values := ListedAtoms(Any, e);
      if values.None? then None else Some(Combined(Any, old_, values.value))
  }

  /** What an enum admits, once there is one. */
  predicate Admits(e: Option<seq<Atom>>, v: Type) {
    e.Some? ==> v.Lit? && InEnum(e.value, v.atom)
  }

  lemma {:induction false} ConsumeAnyMeaning(old_: Option<seq<Atom>>, e: Expr, kinds: set<AtomKind>, v: Type)
    requires ConsumeAny(old_, e).Some? && Orderable(kinds) && LiteralKinds(e) <= kinds
    requires old_.Some? ==> Sortable(Any, old_.value, kinds)
    ensures Sortable(Any, ConsumeAny(old_, e).value, kinds)
    ensures Admits(ConsumeAny(old_, e), v) <==> Admits(old_, v) && Sat(e, v)
    decreases e
  {
    var c := Ungroup(e);
    if c.op.And? {
      ConsumeAnyMeaning(old_, c.left, kinds, v);
      ConsumeAnyMeaning(ConsumeAny(old_, c.left), c.right, kinds, v);
    } else {
      var values := ListedAtoms(Any, e).value;
      ListedMeaning(Any, e);
      assert ListsValue(values, v => Sat(e, v), v);
      CombinedShape(Any, old_, values, kinds);
      FirstMeaning(Any, values);
      if old_.Some? { CombinedMeaning(Any, old_.value, values, kinds); }
    }
  }
}
