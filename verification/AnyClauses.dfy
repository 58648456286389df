/** Constraints over `any`: on which literals the combined enum means what the clauses say
  * (internal/compiled/constraint.go:93-170, 535-600). */
module AnyClauses {
  import opened Wrappers
  import opened MachineInts
  import opened Atoms
  import opened Constraints
  import opened Types
  import opened Syntax
  import opened Clauses
  import opened AtomSets
  import opened EnumClauses
  import opened Refinements
  import Normalizer
  import Validation
  import D = Decimals
  import DO = DecimalOrder

  /** If the clauses are accepted, their enum admits exactly the values that satisfy them. */
  ghost predicate Exact(clauses: seq<Expr>) {
    EnumAfter(clauses, |clauses|).Some? ==>
      forall v :: Admits(EnumAfter(clauses, |clauses|).value, v) <==> AllSat(clauses, |clauses|, v)
  }

  lemma {:induction false} EnumAfterMeaning(clauses: seq<Expr>, k: nat, kinds: set<AtomKind>, v: Type)
    requires k <= |clauses| && EnumAfter(clauses, k).Some? && Orderable(kinds) && AllLiteralKinds(clauses) <= kinds
    ensures var e := EnumAfter(clauses, k).value;
      (e.Some? ==> Sortable(Any, e.value, kinds)) && (Admits(e, v) <==> AllSat(clauses, k, v))
  {
    if k > 0 {
      EnumAfterMeaning(clauses, k - 1, kinds, v);
      OwnKinds(clauses, k - 1);
      ConsumeAnyMeaning(EnumAfter(clauses, k - 1).value, clauses[k - 1], kinds, v);
      AllSatStep(clauses, k, v);
    }
  }

  lemma AllSatStep(clauses: seq<Expr>, k: nat, v: Type)
    requires 0 < k <= |clauses|
    ensures AllSat(clauses, k, v) <==> AllSat(clauses, k - 1, v) && Sat(clauses[k - 1], v)
  {
  }

  // ----- the clauses that fail

  function Membership(es: seq<Expr>): Expr {
    Binary(Normalizer.X, In, ListLit(es))
  }

  /** Literals of the three atoms 1.0, 5 and "t". */
  lemma ThreeLiterals() returns (one: Expr, five: Expr, text: Expr)
    ensures LiteralAtom(one) == Some(RealAtom(1.0)) && LiteralAtom(five) == Some(IntAtom(5))
    ensures LiteralAtom(text) == Some(StringAtom("t"))
  {
    one := Validation.DecimalLiteralOf(1);
    five, text := IntLit("5"), StringLit("t");
    FiveLiteral();
  }

  lemma FiveLiteral()
    ensures LiteralAtom(IntLit("5")) == Some(IntAtom(5))
  {
    assert D.Coefficient("5") == 5 by { assert "5"[..0] == ""; assert D.Coefficient("") == 0; }
  }

  lemma MembershipAtoms(es: seq<Expr>, atoms: seq<Atom>)
    requires |es| == |atoms| && forall k :: 0 <= k < |es| ==> LiteralAtom(es[k]) == Some(atoms[k])
    requires Rising(atoms)
    ensures ListedAtoms(Any, Membership(es)) == Some(atoms)
  {
    AllAtoms(es, atoms);
    RisingSorted(atoms);
    RisingSqueezed(atoms);
    MembershipLists(es);
  }

  lemma MembershipLists(es: seq<Expr>)
    ensures LiteralKinds(Membership(es)) == KindsOf(es) && !Conjunction(Membership(es))
    ensures AtomsOf(Any, es).Some? ==> ListedAtoms(Any, Membership(es)) == Some(SortedUnique(AtomsOf(Any, es).value))
  {
  }

  lemma {:induction false} AllAtoms(es: seq<Expr>, atoms: seq<Atom>)
    requires |es| == |atoms| && forall k :: 0 <= k < |es| ==> LiteralAtom(es[k]) == Some(atoms[k])
    ensures AtomsOf(Any, es) == Some(atoms)
  {
    if es != [] {
      AllAtoms(es[..|es| - 1], atoms[..|es| - 1]);
      assert atoms == atoms[..|es| - 1] + [atoms[|es| - 1]];
    }
  }

  lemma ListedSat(e: Expr, a: Atom)
    requires ListedAtoms(Any, e).Some?
    ensures Sat(e, Lit(a)) <==> InEnum(ListedAtoms(Any, e).value, a)
  {
    ListedMeaning(Any, e);
    assert ListsValue(ListedAtoms(Any, e).value, v => Sat(e, v), Lit(a));
  }

  lemma TwoClauses(c: Expr, d: Expr, p: seq<Atom>, q: seq<Atom>)
    requires ListedAtoms(Any, c) == Some(p) && ListedAtoms(Any, d) == Some(q) && !Conjunction(c) && !Conjunction(d)
    requires Rising(p) && Rising(q)
    ensures EnumAfter([c, d], 2) == Some(Some(Common(p, q)))
  {
    RisingSorted(p);
    RisingSqueezed(p);
    RisingSorted(q);
    RisingSqueezed(q);
    assert EnumAfter([c, d], 0) == Some(None);
    assert EnumAfter([c, d], 1) == Some(Some(p));
  }

  lemma TwoSat(c: Expr, d: Expr, v: Type)
    ensures AllSat([c, d], 2, v) <==> Sat(c, v) && Sat(d, v)
  {
    AllSatStep([c, d], 2, v);
    AllSatStep([c, d], 1, v);
    assert [c, d][0] == c && [c, d][1] == d;
  }

  /** Two enums, and a value that both list and their walk does not find. */
  lemma LosingClauses(x: seq<Expr>, y: seq<Expr>, p: seq<Atom>, q: seq<Atom>, a: Atom)
    requires |x| == |p| && forall k :: 0 <= k < |x| ==> LiteralAtom(x[k]) == Some(p[k])
    requires |y| == |q| && forall k :: 0 <= k < |y| ==> LiteralAtom(y[k]) == Some(q[k])
    requires Rising(p) && Rising(q) && InEnum(p, a) && InEnum(q, a) && !InEnum(Common(p, q), a)
    ensures EnumAfter([Membership(x), Membership(y)], 2) == Some(Some(Common(p, q)))
    ensures !Exact([Membership(x), Membership(y)])
  {
    var (c, d) := (Membership(x), Membership(y));
    MembershipAtoms(x, p);
    MembershipAtoms(y, q);
    MembershipLists(x);
    MembershipLists(y);
    TwoClauses(c, d, p, q);
    ListedSat(c, a);
    ListedSat(d, a);
    TwoSat(c, d, Lit(a));
    assert !Admits(Some(Common(p, q)), Lit(a));
    assert |[c, d]| == 2;
  }

  lemma TwoKinds(x: seq<Expr>, y: seq<Expr>, kinds: set<AtomKind>)
    requires KindsOf(x) <= kinds && KindsOf(y) <= kinds
    ensures AllLiteralKinds([Membership(x), Membership(y)]) <= kinds
  {
    MembershipLists(x);
    MembershipLists(y);
  }

  /** Two clauses over `any` whose enum loses a value: `x in [1.0, 5]` and `x in [5, "t", 1.0]` leave only 5. */
  lemma ThreeKindsInexact() returns (clauses: seq<Expr>)
    ensures AllLiteralKinds(clauses) <= {IntKind, RealKind, StringKind}
    ensures EnumAfter(clauses, |clauses|) == Some(Some([IntAtom(5)])) && !Exact(clauses)
  {
    var one, five, text := ThreeLiterals();
    var (x, y) := ([one, five], [five, text, one]);
    MixedKindsLost("t");
    LosingClauses(x, y, [RealAtom(1.0), IntAtom(5)], [IntAtom(5), StringAtom("t"), RealAtom(1.0)], RealAtom(1.0));
    TwoKinds(x, y, {IntKind, RealKind, StringKind});
    clauses := [Membership(x), Membership(y)];
  }

  /** Over `any` the normaliser is exact on all lists of clauses with literals of a set of kinds exactly when the set
    * leaves out integers, strings or decimals. */
  lemma AnyClausesExact(kinds: set<AtomKind>)
    ensures (forall clauses :: AllLiteralKinds(clauses) <= kinds ==> Exact(clauses)) <==> Orderable(kinds)
  {
    if Orderable(kinds) {
      forall clauses | AllLiteralKinds(clauses) <= kinds ensures Exact(clauses) {
        if EnumAfter(clauses, |clauses|).Some? {
          forall v ensures Admits(EnumAfter(clauses, |clauses|).value, v) <==> AllSat(clauses, |clauses|, v) {
            EnumAfterMeaning(clauses, |clauses|, kinds, v);
          }
        }
      }
    } else {
      var clauses := ThreeKindsInexact();
    }
  }
}
