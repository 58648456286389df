/** What a fingerprint says about a type: with a hash that never collides, two types have one fingerprint exactly when
  * they are the same up to the order of union members (internal/compiled/fingerprint.go:43-126). */
module FingerprintLaws {
  import opened Wrappers
  import opened Atoms
  import opened Constraints
  import opened Types
  import opened Fingerprints
  import opened SemanticFingerprints

  // ----- the same type

  /** Equal up to the order of union members. */
  ghost predicate Same(x: Type, y: Type)
    decreases x, 1
  {
    match (x, y)
    case (List(e), List(f)) => Same(e, f)
    case (Tuple(es), Tuple(fs)) => |es| == |fs| && forall i :: 0 <= i < |es| ==> Same(es[i], fs[i])
    case (Object(es), Object(fs)) =>
      |es| == |fs| && forall i :: 0 <= i < |es| ==>
        es[i].name == fs[i].name && es[i].optional == fs[i].optional && es[i].meta == fs[i].meta && Same(es[i].typ, fs[i].typ)
    case (Sum(es), Sum(fs)) => Matches(es, fs)
    case (Refined(a, c, m, n), Refined(b, d, o, p)) => Same(a, b) && c == d && m == o && n == p
    case _ => x == y
  }

  ghost predicate Matches(xs: seq<Type>, ys: seq<Type>)
    decreases xs, 0
  {
    if xs == [] then ys == []
    else exists i :: 0 <= i < |ys| && Same(xs[0], ys[i]) && Matches(xs[1..], ys[..i] + ys[i + 1..])
  }

  // ----- what is assumed of the hash and of the bytes of an atom

  ghost predicate InjectiveHash(h: Hashing) {
    && (forall s :: h.hash(s) != 0)
    && (forall s, t :: h.hash(s) == h.hash(t) ==> s == t)
    && (forall m, n :: h.metaFp(m) == h.metaFp(n) ==> m == n)
  }

  /** The bytes of an atom end by themselves, and tell atoms of one kind apart. */
  ghost predicate AtomsReadable(h: Hashing) {
    forall x, y, p, q :: KindOf(x) == KindOf(y) && h.atomBytes(x) + p == h.atomBytes(y) + q ==> x == y && p == q
  }

  ghost predicate Collisionless(h: Hashing) {
    InjectiveHash(h) && AtomsReadable(h)
  }

  lemma AtomBytesRead(h: Hashing, x: Atom, y: Atom, p: seq<int>, q: seq<int>)
    requires AtomsReadable(h) && KindOf(x) == KindOf(y) && h.atomBytes(x) + p == h.atomBytes(y) + q
    ensures x == y && p == q
  {
  }

  lemma HashRead(h: Hashing, s: seq<int>, t: seq<int>)
    requires InjectiveHash(h) && h.hash(s) == h.hash(t)
    ensures s == t
  {
  }

  // ----- reading the parts back

  lemma StringRead(s: string, t: string, p: seq<int>, q: seq<int>)
    requires StringCode(s) + p == StringCode(t) + q
    ensures s == t && p == q
  {
    var (x, y) := (StringCode(s) + p, StringCode(t) + q);
    assert |s| == x[0] == y[0] == |t|;
    forall i | 0 <= i < |s| ensures s[i] == t[i] {
      assert x[i + 1] == s[i] as int && y[i + 1] == t[i] as int;
    }
    assert p == x[|s| + 1..] && q == y[|t| + 1..];
  }

  lemma TailRead(head: seq<int>, x: seq<int>, y: seq<int>)
    requires head + x == head + y
    ensures x == y
  {
    assert x == (head + x)[|head|..] && y == (head + y)[|head|..];
  }

  lemma AtomRead(h: Hashing, x: Atom, y: Atom)
    requires AtomsReadable(h) && AtomEncoding(h, x) == AtomEncoding(h, y)
    ensures x == y
  {
    var (s, t) := (AtomEncoding(h, x), AtomEncoding(h, y));
    assert x.Rank() == s[1] == t[1] == y.Rank();
    assert h.atomBytes(x) == s[2..] && h.atomBytes(y) == t[2..];
    assert h.atomBytes(x) + [] == h.atomBytes(y) + [];
    AtomBytesRead(h, x, y, [], []);
  }

  lemma BoundRead(h: Hashing, x: Option<Atom>, y: Option<Atom>, p: seq<int>, q: seq<int>)
    requires AtomsReadable(h) && BoundCode(h, x) + p == BoundCode(h, y) + q
    requires x.Some? && y.Some? ==> KindOf(x.value) == KindOf(y.value)
    ensures x == y && p == q
  {
    var (s, t) := (BoundCode(h, x) + p, BoundCode(h, y) + q);
    assert s[0] == t[0];
    if x.Some? {
      assert s[1..] == h.atomBytes(x.value) + p && t[1..] == h.atomBytes(y.value) + q;
      AtomBytesRead(h, x.value, y.value, p, q);
    } else {
      assert s[1..] == p && t[1..] == q;
    }
  }

  // ----- constraints

  function IntBound(b: Option<int>): Option<Atom> {
    if b.None? then None else Some(IntAtom(b.value))
  }

  function RealBound(b: Option<Limit>): Option<Atom> {
    if b.None? then None else Some(RealAtom(b.value.v))
  }

  /** A section of an encoding: nothing, or its tag and more. */
  predicate Tagged(s: seq<int>, tag: int) {
    s == [] || s[0] == tag
  }

  /** What follows does not look like the section. */
  predicate Past(p: seq<int>, tag: int) {
    p == [] || p[0] != tag
  }

  /** Both encodings have the section, or neither has it. */
  lemma SectionsRead(tag: int, a: seq<int>, b: seq<int>, p: seq<int>, q: seq<int>)
    requires a + p == b + q && Tagged(a, tag) && Tagged(b, tag) && Past(p, tag) && Past(q, tag)
    ensures a == [] <==> b == []
    ensures a == [] ==> p == q
  {
    assert a == [] ==> a + p == p;
    assert b == [] ==> b + q == q;
    assert a != [] ==> (a + p)[0] == tag;
    assert b != [] ==> (b + q)[0] == tag;
  }

  lemma PastSection(a: seq<int>, own: int, p: seq<int>, tag: int)
    requires Tagged(a, own) && own != tag && Past(p, tag)
    ensures Past(a + p, tag)
  {
    if a == [] { assert a + p == p; }
  }

  /** Two bounds with flags that say which of them are there. */
  lemma BoundsRead(h: Hashing, head: seq<int>, xl: Option<Atom>, xr: Option<Atom>, yl: Option<Atom>, yr: Option<Atom>,
                   other: seq<int>, p: seq<int>, q: seq<int>)
    requires AtomsReadable(h) && |head| == |other|
    requires head + BoundCode(h, xl) + BoundCode(h, xr) + p == other + BoundCode(h, yl) + BoundCode(h, yr) + q
    requires xl.Some? && yl.Some? ==> KindOf(xl.value) == KindOf(yl.value)
    requires xr.Some? && yr.Some? ==> KindOf(xr.value) == KindOf(yr.value)
    ensures head == other && xl == yl && xr == yr && p == q
  {
    var (a, b, c, d) := (BoundCode(h, xl), BoundCode(h, xr), BoundCode(h, yl), BoundCode(h, yr));
    var (s, t) := (head + a + b + p, other + c + d + q);
    assert head == s[..|head|] && other == t[..|head|];
    assert s[|head|..] == a + (b + p) && t[|head|..] == c + (d + q);
    BoundRead(h, xl, yl, b + p, d + q);
    BoundRead(h, xr, yr, p, q);
  }

  lemma IntsRead(h: Hashing, x: IntBounds, y: IntBounds, p: seq<int>, q: seq<int>)
    requires AtomsReadable(h) && IntsCode(h, x) + p == IntsCode(h, y) + q && Past(p, 1) && Past(q, 1)
    ensures x == y && p == q
  {
    SectionsRead(1, IntsCode(h, x), IntsCode(h, y), p, q);
    if x != NO_INTS {
      BoundsRead(h, [1, Bit(x.min.Some?, 1) + Bit(x.max.Some?, 4)], IntBound(x.min), IntBound(x.max),
                 IntBound(y.min), IntBound(y.max), [1, Bit(y.min.Some?, 1) + Bit(y.max.Some?, 4)], p, q);
    }
  }

  function Flags(x: RealBounds): int {
    Bit(x.min.Some?, 1) + Bit(x.min.Some? && x.min.value.inclusive, 2)
    + Bit(x.max.Some?, 4) + Bit(x.max.Some? && x.max.value.inclusive, 8)
  }

  lemma RealsRead(h: Hashing, x: RealBounds, y: RealBounds, p: seq<int>, q: seq<int>)
    requires AtomsReadable(h) && RealsCode(h, x) + p == RealsCode(h, y) + q && Past(p, 16) && Past(q, 16)
    ensures x == y && p == q
  {
    SectionsRead(16, RealsCode(h, x), RealsCode(h, y), p, q);
    if x != NO_REALS {
      BoundsRead(h, [16, Flags(x)], RealBound(x.min), RealBound(x.max), RealBound(y.min), RealBound(y.max),
                 [16, Flags(y)], p, q);
      assert Flags(x) == [16, Flags(x)][1] == Flags(y);
    }
  }

  lemma FormatRead(x: FloatFormat, y: FloatFormat, p: seq<int>, q: seq<int>)
    requires FormatCode(x) + p == FormatCode(y) + q && Past(p, 32) && Past(q, 32)
    ensures x == y && p == q
  {
    SectionsRead(32, FormatCode(x), FormatCode(y), p, q);
    if x != NoFormat {
      var (s, t) := (FormatCode(x) + p, FormatCode(y) + q);
      assert s[1] == t[1];
      assert p == s[2..] && q == t[2..];
    }
  }

  lemma LengthRead(x: IntBounds, y: IntBounds, p: seq<int>, q: seq<int>)
    requires LengthCode(x) + p == LengthCode(y) + q && Past(p, 4) && Past(q, 4)
    ensures x == y && p == q
  {
    SectionsRead(4, LengthCode(x), LengthCode(y), p, q);
    if x != NO_INTS {
      var (s, t) := (LengthCode(x) + p, LengthCode(y) + q);
      assert s[1] == t[1] && s[2] == t[2] && s[3] == t[3];
      assert p == s[4..] && q == t[4..];
    }
  }

  function EnumCode(h: Hashing, e: Option<seq<Atom>>): seq<int> {
    if e.None? then [] else [8, |e.value|] + AtomFps(h, e.value)
  }

  lemma EnumRead(h: Hashing, x: Option<seq<Atom>>, y: Option<seq<Atom>>)
    requires Collisionless(h) && EnumCode(h, x) == EnumCode(h, y)
    ensures x == y
  {
    var (s, t) := (EnumCode(h, x), EnumCode(h, y));
    if x.Some? && y.Some? {
      assert |x.value| == s[1] == t[1] == |y.value|;
      forall i | 0 <= i < |x.value| ensures x.value[i] == y.value[i] {
        assert s[i + 2] == h.hash(AtomEncoding(h, x.value[i])) && t[i + 2] == h.hash(AtomEncoding(h, y.value[i]));
        HashRead(h, AtomEncoding(h, x.value[i]), AtomEncoding(h, y.value[i]));
        AtomRead(h, x.value[i], y.value[i]);
      }
      assert x.value == y.value;
    }
  }

  /** The sections after the integer bounds, after the real bounds and after the float format. */
  function AfterInts(h: Hashing, c: Constraint): (s: seq<int>)
    ensures Past(s, 1)
  {
    PastSection(RealsCode(h, c.reals), 16, AfterReals(h, c), 1);
    RealsCode(h, c.reals) + AfterReals(h, c)
  }

  function AfterReals(h: Hashing, c: Constraint): (s: seq<int>)
    ensures Past(s, 1) && Past(s, 16)
  {
    PastSection(FormatCode(c.format), 32, AfterFormat(h, c), 1);
    PastSection(FormatCode(c.format), 32, AfterFormat(h, c), 16);
    FormatCode(c.format) + AfterFormat(h, c)
  }

  function AfterFormat(h: Hashing, c: Constraint): (s: seq<int>)
    ensures Past(s, 1) && Past(s, 16) && Past(s, 32)
  {
    PastSection(LengthCode(c.length), 4, EnumCode(h, c.enum), 1);
    PastSection(LengthCode(c.length), 4, EnumCode(h, c.enum), 16);
    PastSection(LengthCode(c.length), 4, EnumCode(h, c.enum), 32);
    LengthCode(c.length) + EnumCode(h, c.enum)
  }

  lemma Joined(a: seq<int>, b: seq<int>, c: seq<int>, d: seq<int>, e: seq<int>, f: seq<int>)
    ensures a + b + c + d + e + f == a + (b + (c + (d + (e + f))))
  {
  }

  lemma ConstraintSections(h: Hashing, c: Constraint)
    ensures ConstraintEncoding(h, c) == [VERSION, 0xc1] + (IntsCode(h, c.ints) + AfterInts(h, c))
  {
    Joined([VERSION, 0xc1], IntsCode(h, c.ints), RealsCode(h, c.reals), FormatCode(c.format), LengthCode(c.length),
           EnumCode(h, c.enum));
  }

  /** The encoding determines the constraint. */
  lemma ConstraintRead(h: Hashing, x: Constraint, y: Constraint)
    requires Collisionless(h) && ConstraintEncoding(h, x) == ConstraintEncoding(h, y)
    ensures x == y
  {
    ConstraintSections(h, x);
    ConstraintSections(h, y);
    TailRead([VERSION, 0xc1], IntsCode(h, x.ints) + AfterInts(h, x), IntsCode(h, y.ints) + AfterInts(h, y));
    IntsRead(h, x.ints, y.ints, AfterInts(h, x), AfterInts(h, y));
    RealsRead(h, x.reals, y.reals, AfterReals(h, x), AfterReals(h, y));
    FormatRead(x.format, y.format, AfterFormat(h, x), AfterFormat(h, y));
    LengthRead(x.length, y.length, EnumCode(h, x.enum), EnumCode(h, y.enum));
    EnumRead(h, x.enum, y.enum);
  }

  lemma ConstraintFpRead(h: Hashing, x: Constraint, y: Constraint)
    requires Collisionless(h) && ConstraintFp(h, x) == ConstraintFp(h, y)
    ensures x == y
  {
    if x != UNCONSTRAINED && y != UNCONSTRAINED {
      HashRead(h, ConstraintEncoding(h, x), ConstraintEncoding(h, y));
      ConstraintRead(h, x, y);
    }
  }

  // ----- fields

  lemma FieldRead(h: Hashing, f: Field, g: Field, a: int, b: int, withMeta: bool, p: seq<int>, q: seq<int>)
    requires InjectiveHash(h)
    requires FieldCode(h, f.name, f.optional, a, f.meta, withMeta) + p == FieldCode(h, g.name, g.optional, b, g.meta, withMeta) + q
    ensures f.name == g.name && f.optional == g.optional && a == b && (withMeta ==> f.meta == g.meta) && p == q
  {
    var (m, n) := (if withMeta then [h.metaFp(f.meta)] else [], if withMeta then [h.metaFp(g.meta)] else []);
    var (x, y) := ([Bit(f.optional, 1), a] + m + p, [Bit(g.optional, 1), b] + n + q);
    assert FieldCode(h, f.name, f.optional, a, f.meta, withMeta) + p == StringCode(f.name) + x;
    assert FieldCode(h, g.name, g.optional, b, g.meta, withMeta) + q == StringCode(g.name) + y;
    StringRead(f.name, g.name, x, y);
    assert x[0] == y[0] && x[1] == y[1];
    if withMeta {
      assert x[2] == y[2];
      assert p == x[3..] && q == y[3..];
    } else {
      assert p == x[2..] && q == y[2..];
    }
  }

  lemma LastField(h: Hashing, fs: seq<Field>, withMeta: bool, p: seq<int>)
    requires fs != []
    ensures var f := fs[|fs| - 1];
      FieldsEncoding(h, fs, withMeta) + p ==
      FieldsEncoding(h, fs[..|fs| - 1], withMeta) + (FieldCode(h, f.name, f.optional, TreeFp(h, f.typ), f.meta, withMeta) + p)
  {
  }

  /** The fields of an object are read back one by one. */
  lemma {:induction false} FieldsRead(h: Hashing, fs: seq<Field>, gs: seq<Field>, withMeta: bool, p: seq<int>, q: seq<int>)
    requires InjectiveHash(h) && |fs| == |gs|
    requires FieldsEncoding(h, fs, withMeta) + p == FieldsEncoding(h, gs, withMeta) + q
    ensures p == q
    ensures forall i :: 0 <= i < |fs| ==>
      && fs[i].name == gs[i].name && fs[i].optional == gs[i].optional && (withMeta ==> fs[i].meta == gs[i].meta)
      && TreeFp(h, fs[i].typ) == TreeFp(h, gs[i].typ)
  {
    if fs == [] {
      assert p == FieldsEncoding(h, fs, withMeta) + p && q == FieldsEncoding(h, gs, withMeta) + q;
    } else {
      var (f, g) := (fs[|fs| - 1], gs[|gs| - 1]);
      var (a, b) := (TreeFp(h, f.typ), TreeFp(h, g.typ));
      var x := FieldCode(h, f.name, f.optional, a, f.meta, withMeta) + p;
      var y := FieldCode(h, g.name, g.optional, b, g.meta, withMeta) + q;
      LastField(h, fs, withMeta, p);
      LastField(h, gs, withMeta, q);
      FieldsRead(h, fs[..|fs| - 1], gs[..|gs| - 1], withMeta, x, y);
      FieldRead(h, f, g, a, b, withMeta, p, q);
    }
  }

  // ----- trees

  /** What the encoding can tell apart.  Without names and metadata, a type that has none.  With them, types whose
    * objects all have metadata on some field, or all have none: the encoding of an object does not say which. */
  predicate Readable(h: Hashing, t: Type, withMeta: bool) {
    match t
    case List(e) => Readable(h, e, withMeta)
    case Tuple(es) => forall i :: 0 <= i < |es| ==> Readable(h, es[i], withMeta)
    case Sum(ms) => forall i :: 0 <= i < |ms| ==> Readable(h, ms[i], withMeta)
    case Object(fs) =>
      && (if h.semantic then forall i :: 0 <= i < |fs| ==> fs[i].meta == 0 else fs != [] ==> AnyMeta(fs) == withMeta)
      && forall i :: 0 <= i < |fs| ==> Readable(h, fs[i].typ, withMeta)
    case Refined(b, c, m, n) => Readable(h, b, withMeta) && (h.semantic ==> c != UNCONSTRAINED && m == 0 && n == "")
    case _ => true
  }

  function Tag(t: Type): int {
    match t
    case Any => 1
    case Never => 2
    case Bool => 4
    case Int => 5
    case Real => 15
    case String => 6
    case Lit(a) => a.Rank()
    case List(_) => 10
    case Tuple(_) => 11
    case Object(_) => 12
    case Sum(_) => 13
    case Refined(_, _, _, _) => 14
  }

  lemma TagWritten(h: Hashing, t: Type)
    ensures |TreeEncoding(h, t)| >= 2 && TreeEncoding(h, t)[1] == Tag(t)
  {
  }

  lemma FpRead(h: Hashing, x: Type, y: Type, withMeta: bool)
    requires InjectiveHash(h) && Readable(h, x, withMeta) && Readable(h, y, withMeta) && TreeFp(h, x) == TreeFp(h, y)
    ensures TreeEncoding(h, x) == TreeEncoding(h, y) && Tag(x) == Tag(y)
  {
    HashRead(h, TreeEncoding(h, x), TreeEncoding(h, y));
    TagWritten(h, x);
    TagWritten(h, y);
  }

  lemma TupleRead(h: Hashing, xs: seq<Type>, ys: seq<Type>)
    requires TreeEncoding(h, Tuple(xs)) == TreeEncoding(h, Tuple(ys))
    ensures |xs| == |ys| && forall i :: 0 <= i < |xs| ==> TreeFp(h, xs[i]) == TreeFp(h, ys[i])
  {
    var (s, t) := (TreeEncoding(h, Tuple(xs)), TreeEncoding(h, Tuple(ys)));
    assert |xs| == s[2] == t[2] == |ys|;
    forall i | 0 <= i < |xs| ensures TreeFp(h, xs[i]) == TreeFp(h, ys[i]) {
      assert s[3 + i] == TreeFp(h, xs[i]) && t[3 + i] == TreeFp(h, ys[i]);
    }
  }

  lemma {:induction false} SortKeeps(s: seq<int>)
    ensures multiset(SortHashes(s)) == multiset(s)
  {
    if s != [] {
      SortKeeps(s[1..]);
      InsertKeeps(s[0], SortHashes(s[1..]));
      assert s == [s[0]] + s[1..];
    }
  }

  lemma {:induction false} InsertKeeps(x: int, s: seq<int>)
    ensures multiset(InsertHash(x, s)) == multiset(s) + multiset{x}
  {
    if s != [] && x > s[0] {
      InsertKeeps(x, s[1..]);
      assert s == [s[0]] + s[1..];
    }
  }

  lemma SumRead(h: Hashing, xs: seq<Type>, ys: seq<Type>)
    requires TreeEncoding(h, Sum(xs)) == TreeEncoding(h, Sum(ys))
    ensures multiset(TreeFps(h, xs)) == multiset(TreeFps(h, ys))
  {
    var (s, t) := (TreeEncoding(h, Sum(xs)), TreeEncoding(h, Sum(ys)));
    assert s[3..] == SortHashes(TreeFps(h, xs)) && t[3..] == SortHashes(TreeFps(h, ys));
    SortKeeps(TreeFps(h, xs));
    SortKeeps(TreeFps(h, ys));
  }

  lemma ObjectRead(h: Hashing, xs: seq<Field>, ys: seq<Field>, withMeta: bool)
    requires InjectiveHash(h) && Readable(h, Object(xs), withMeta) && Readable(h, Object(ys), withMeta)
    requires TreeEncoding(h, Object(xs)) == TreeEncoding(h, Object(ys))
    ensures |xs| == |ys|
    ensures forall i :: 0 <= i < |xs| ==>
      && xs[i].name == ys[i].name && xs[i].optional == ys[i].optional && xs[i].meta == ys[i].meta
      && TreeFp(h, xs[i].typ) == TreeFp(h, ys[i].typ)
  {
    var (s, t) := (TreeEncoding(h, Object(xs)), TreeEncoding(h, Object(ys)));
    assert |xs| == s[2] == t[2] == |ys|;
    var flag := !h.semantic && AnyMeta(xs);
    assert xs != [] ==> flag == (!h.semantic && AnyMeta(ys));
    assert s[3..] == FieldsEncoding(h, xs, flag) && t[3..] == FieldsEncoding(h, ys, !h.semantic && AnyMeta(ys));
    assert FieldsEncoding(h, xs, flag) + [] == FieldsEncoding(h, ys, flag) + [];
    FieldsRead(h, xs, ys, flag, [], []);
  }

  lemma RefinedRead(h: Hashing, x: Type, y: Type)
    requires Collisionless(h) && x.Refined? && y.Refined? && TreeEncoding(h, x) == TreeEncoding(h, y)
    requires h.semantic ==> x.meta == y.meta && x.name == y.name
    ensures TreeFp(h, x.base) == TreeFp(h, y.base) && x.con == y.con && x.meta == y.meta && x.name == y.name
  {
    RefinedTreeCode(h, x);
    RefinedTreeCode(h, y);
    RefinedCodeRead(h, TreeFp(h, x.base), ConstraintFp(h, x.con), x.meta, x.name,
                    TreeFp(h, y.base), ConstraintFp(h, y.con), y.meta, y.name);
    ConstraintFpRead(h, x.con, y.con);
  }

  lemma RefinedCodeRead(h: Hashing, a: int, c: int, m: nat, s: string, b: int, d: int, n: nat, t: string)
    requires InjectiveHash(h) && RefinedCode(h, a, c, m, s) == RefinedCode(h, b, d, n, t)
    ensures a == b && c == d && (!h.semantic ==> m == n && s == t)
  {
    var (x, y) := (RefinedCode(h, a, c, m, s), RefinedCode(h, b, d, n, t));
    assert x[2] == a && x[3] == c && y[2] == b && y[3] == d;
    if !h.semantic {
      assert x[4] == h.metaFp(m) && y[4] == h.metaFp(n);
      assert x[5..] == NameCode(s) && y[5..] == NameCode(t);
      NameRead(s, t);
    }
  }

  function NameCode(s: string): seq<int> {
    if s == "" then [] else StringCode(s)
  }

  lemma NameRead(s: string, t: string)
    requires NameCode(s) == NameCode(t)
    ensures s == t
  {
    assert s != "" ==> |NameCode(s)| > 0;
    assert t != "" ==> |NameCode(t)| > 0;
    if s != "" {
      assert StringCode(s) + [] == StringCode(t) + [];
      StringRead(s, t, [], []);
    }
  }

  /** Equal fingerprints: the same type, up to the order of union members. */
  lemma {:induction false} SameFromFp(h: Hashing, x: Type, y: Type, withMeta: bool)
    requires Collisionless(h) && Readable(h, x, withMeta) && Readable(h, y, withMeta) && TreeFp(h, x) == TreeFp(h, y)
    ensures Same(x, y)
    decreases x, 1
  {
    FpRead(h, x, y, withMeta);
    if x.Lit? {
      AtomRead(h, x.atom, y.atom);
    } else {
      SamePartsFromFp(h, x, y, withMeta);
    }
  }

  lemma {:induction false} SamePartsFromFp(h: Hashing, x: Type, y: Type, withMeta: bool)
    requires Collisionless(h) && Readable(h, x, withMeta) && Readable(h, y, withMeta)
    requires TreeEncoding(h, x) == TreeEncoding(h, y) && Tag(x) == Tag(y) && !x.Lit?
    ensures Same(x, y)
    decreases x, 0
  {
    match x
    case List(e) =>
      assert TreeEncoding(h, x)[2] == TreeEncoding(h, y)[2];
      SameFromFp(h, e, y.elem, withMeta);
    case Tuple(es) =>
      TupleRead(h, es, y.elems);
      SameListed(h, es, y.elems, withMeta);
    case Sum(ms) =>
      SumRead(h, ms, y.members);
      MatchesFromFps(h, ms, y.members, withMeta);
    case Object(fs) =>
      ObjectRead(h, fs, y.fields, withMeta);
      SameFieldTypes(h, fs, y.fields, withMeta);
    case Refined(b, _, _, _) =>
      RefinedRead(h, x, y);
      SameFromFp(h, b, y.base, withMeta);
    case _ =>
  }

  lemma {:induction false} SameListed(h: Hashing, xs: seq<Type>, ys: seq<Type>, withMeta: bool)
    requires Collisionless(h) && |xs| == |ys|
    requires forall i :: 0 <= i < |xs| ==>
      Readable(h, xs[i], withMeta) && Readable(h, ys[i], withMeta) && TreeFp(h, xs[i]) == TreeFp(h, ys[i])
    ensures forall i :: 0 <= i < |xs| ==> Same(xs[i], ys[i])
    decreases xs, 0
  {
    forall i | 0 <= i < |xs| ensures Same(xs[i], ys[i]) { SameFromFp(h, xs[i], ys[i], withMeta); }
  }

  lemma {:induction false} SameFieldTypes(h: Hashing, xs: seq<Field>, ys: seq<Field>, withMeta: bool)
    requires Collisionless(h) && |xs| == |ys|
    requires forall i :: 0 <= i < |xs| ==>
      && Readable(h, xs[i].typ, withMeta) && Readable(h, ys[i].typ, withMeta)
      && TreeFp(h, xs[i].typ) == TreeFp(h, ys[i].typ)
    ensures forall i :: 0 <= i < |xs| ==> Same(xs[i].typ, ys[i].typ)
    decreases xs, 0
  {
    forall i | 0 <= i < |xs| ensures Same(xs[i].typ, ys[i].typ) { SameFromFp(h, xs[i].typ, ys[i].typ, withMeta); }
  }

  lemma {:induction false} MatchesFromFps(h: Hashing, xs: seq<Type>, ys: seq<Type>, withMeta: bool)
    requires Collisionless(h)
    requires forall i :: 0 <= i < |xs| ==> Readable(h, xs[i], withMeta)
    requires forall i :: 0 <= i < |ys| ==> Readable(h, ys[i], withMeta)
    requires multiset(TreeFps(h, xs)) == multiset(TreeFps(h, ys))
    ensures Matches(xs, ys)
    decreases xs, 0
  {
    if xs == [] {
      assert |multiset(TreeFps(h, ys))| == |ys|;
    } else {
      var i := Counterpart(h, xs, ys);
      SameFromFp(h, xs[0], ys[i], withMeta);
      MatchesFromFps(h, xs[1..], ys[..i] + ys[i + 1..], withMeta);
    }
  }

  /** The first member has a counterpart, and without the two the fingerprints still agree. */
  lemma Counterpart(h: Hashing, xs: seq<Type>, ys: seq<Type>) returns (i: nat)
    requires xs != [] && multiset(TreeFps(h, xs)) == multiset(TreeFps(h, ys))
    ensures i < |ys| && TreeFp(h, xs[0]) == TreeFp(h, ys[i])
    ensures multiset(TreeFps(h, xs[1..])) == multiset(TreeFps(h, ys[..i] + ys[i + 1..]))
  {
    var fps := TreeFps(h, ys);
    assert TreeFps(h, xs)[0] in multiset(TreeFps(h, xs));
    i :| 0 <= i < |fps| && fps[i] == TreeFps(h, xs)[0];
    TreeFpsSplit(h, xs, 0);
    TreeFpsSplit(h, ys, i);
    assert xs[..0] + xs[1..] == xs[1..];
    Cancel(multiset(TreeFps(h, xs[1..])), multiset(TreeFps(h, ys[..i] + ys[i + 1..])), TreeFp(h, xs[0]));
  }

  lemma Cancel(m: multiset<int>, n: multiset<int>, a: int)
    requires m + multiset{a} == n + multiset{a}
    ensures m == n
  {
    assert m == (m + multiset{a}) - multiset{a} == (n + multiset{a}) - multiset{a} == n;
  }

  /** And the same type has the same fingerprint, whatever the hash. */
  lemma {:induction false} FpFromSame(h: Hashing, x: Type, y: Type)
    requires Same(x, y)
    ensures TreeFp(h, x) == TreeFp(h, y)
    decreases x, 1
  {
    match x
    case List(e) => FpFromSame(h, e, y.elem);
    case Tuple(es) =>
      forall i | 0 <= i < |es| ensures TreeFp(h, es[i]) == TreeFp(h, y.elems[i]) { FpFromSame(h, es[i], y.elems[i]); }
      assert TreeFps(h, es) == TreeFps(h, y.elems);
    case Sum(ms) =>
      FpsFromMatches(h, ms, y.members);
      SortHashesPermutation(TreeFps(h, ms), TreeFps(h, y.members));
      assert |TreeFps(h, ms)| == |multiset(TreeFps(h, ms))| == |TreeFps(h, y.members)|;
    case Object(fs) =>
      forall i | 0 <= i < |fs| ensures TreeFp(h, fs[i].typ) == TreeFp(h, y.fields[i].typ) {
        FpFromSame(h, fs[i].typ, y.fields[i].typ);
      }
      SameObjectFp(h, fs, y.fields);
    case Refined(b, _, _, _) =>
      FpFromSame(h, b, y.base);
      RefinedTreeCode(h, x);
      RefinedTreeCode(h, y);
    case _ =>
  }

  lemma {:induction false} FpsFromMatches(h: Hashing, xs: seq<Type>, ys: seq<Type>)
    requires Matches(xs, ys)
    ensures multiset(TreeFps(h, xs)) == multiset(TreeFps(h, ys))
    decreases xs, 0
  {
    if xs != [] {
      var i :| 0 <= i < |ys| && Same(xs[0], ys[i]) && Matches(xs[1..], ys[..i] + ys[i + 1..]);
      FpFromSame(h, xs[0], ys[i]);
      FpsFromMatches(h, xs[1..], ys[..i] + ys[i + 1..]);
      Rejoined(h, xs, ys, i);
    }
  }

  lemma Rejoined(h: Hashing, xs: seq<Type>, ys: seq<Type>, i: nat)
    requires xs != [] && i < |ys| && TreeFp(h, xs[0]) == TreeFp(h, ys[i])
    requires multiset(TreeFps(h, xs[1..])) == multiset(TreeFps(h, ys[..i] + ys[i + 1..]))
    ensures multiset(TreeFps(h, xs)) == multiset(TreeFps(h, ys))
  {
    TreeFpsSplit(h, xs, 0);
    TreeFpsSplit(h, ys, i);
    assert xs[..0] + xs[1..] == xs[1..];
  }

  lemma SameObjectFp(h: Hashing, fs: seq<Field>, gs: seq<Field>)
    requires |fs| == |gs| && forall i :: 0 <= i < |fs| ==>
      && fs[i].name == gs[i].name && fs[i].optional == gs[i].optional && fs[i].meta == gs[i].meta
      && TreeFp(h, fs[i].typ) == TreeFp(h, gs[i].typ)
    ensures TreeFp(h, Object(fs)) == TreeFp(h, Object(gs))
  {
    assert AnyMeta(fs) == AnyMeta(gs);
    SameFieldsEncoding(h, fs, gs, !h.semantic && AnyMeta(fs));
  }

  lemma {:induction false} SameFieldsEncoding(h: Hashing, fs: seq<Field>, gs: seq<Field>, withMeta: bool)
    requires |fs| == |gs| && forall i :: 0 <= i < |fs| ==>
      && fs[i].name == gs[i].name && fs[i].optional == gs[i].optional && fs[i].meta == gs[i].meta
      && TreeFp(h, fs[i].typ) == TreeFp(h, gs[i].typ)
    ensures FieldsEncoding(h, fs, withMeta) == FieldsEncoding(h, gs, withMeta)
  {
    if fs != [] { SameFieldsEncoding(h, fs[..|fs| - 1], gs[..|gs| - 1], withMeta); }
  }

  /** The complete fingerprint identifies the complete definition. */
  lemma CompleteExact(h: Hashing, x: Type, y: Type, withMeta: bool)
    requires Collisionless(h) && !h.semantic && Readable(h, x, withMeta) && Readable(h, y, withMeta)
    ensures TreeFp(h, x) == TreeFp(h, y) <==> Same(x, y)
  {
    if Same(x, y) { FpFromSame(h, x, y); } else if TreeFp(h, x) == TreeFp(h, y) { SameFromFp(h, x, y, withMeta); }
  }

  lemma {:induction false} BareReadable(h: Hashing, t: Type)
    requires h.semantic
    ensures Readable(h, Bare(t), false)
    decreases t
  {
    match t
    case List(e) => BareReadable(h, e);
    case Tuple(es) => forall i | 0 <= i < |es| ensures Readable(h, Bare(es[i]), false) { BareReadable(h, es[i]); }
    case Sum(ms) => forall i | 0 <= i < |ms| ensures Readable(h, Bare(ms[i]), false) { BareReadable(h, ms[i]); }
    case Object(fs) => forall i | 0 <= i < |fs| ensures Readable(h, Bare(fs[i].typ), false) { BareReadable(h, fs[i].typ); }
    case Refined(b, _, _, _) => BareReadable(h, b);
    case _ =>
  }

  /** The semantic fingerprint identifies what is left without names and metadata. */
  lemma SemanticExact(h: Hashing, x: Type, y: Type)
    requires Collisionless(h) && h.semantic
    ensures TreeFp(h, x) == TreeFp(h, y) <==> Same(Bare(x), Bare(y))
  {
    SemanticIsBare(h, x);
    SemanticIsBare(h, y);
    BareReadable(h, x);
    BareReadable(h, y);
    if Same(Bare(x), Bare(y)) {
      FpFromSame(h, Bare(x), Bare(y));
    } else if TreeFp(h, x) == TreeFp(h, y) {
      SameFromFp(h, Bare(x), Bare(y), false);
    }
  }

  /** Why all objects must have field metadata or none: where a metadata fingerprint happens to be the length of a name,
    * an object with metadata is encoded like another object without. */
  lemma FieldMetadataUnmarked(h: Hashing, t: Type, u: Type)
    requires !h.semantic && h.metaFp(1) == 3 && TreeFp(h, t) == 1 && TreeFp(h, u) == h.metaFp(2)
    ensures var (x, y) := (Object(MarkedFields(t)), Object(UnmarkedFields(t, u)));
      SortedFields(x.fields) && SortedFields(y.fields) && !Same(x, y) && TreeFp(h, x) == TreeFp(h, y)
  {
    var (fs, gs) := (MarkedFields(t), UnmarkedFields(t, u));
    assert fs[0].meta == 1 && AnyMeta(fs) && !AnyMeta(gs);
    MarkedCode(h, t);
    UnmarkedCode(h, t, u);
    assert TreeEncoding(h, Object(fs)) == TreeEncoding(h, Object(gs));
  }

  function MarkedFields(t: Type): seq<Field> {
    [Field("", t, false, 1), Field("b", t, false, 2)]
  }

  function UnmarkedFields(t: Type, u: Type): seq<Field> {
    [Field("", t, false, 0), Field([1 as char, 'b', 0 as char], u, true, 0)]
  }

  lemma MarkedCode(h: Hashing, t: Type)
    requires h.metaFp(1) == 3 && TreeFp(h, t) == 1
    ensures FieldsEncoding(h, MarkedFields(t), true) == [0, 0, 1, 3, 1, 98, 0, 1, h.metaFp(2)]
  {
    TwoFields(h, MarkedFields(t), true);
    assert StringCode("") == [0] && StringCode("b") == [1, 98];
  }

  lemma UnmarkedCode(h: Hashing, t: Type, u: Type)
    requires TreeFp(h, t) == 1 && TreeFp(h, u) == h.metaFp(2)
    ensures FieldsEncoding(h, UnmarkedFields(t, u), false) == [0, 0, 1, 3, 1, 98, 0, 1, h.metaFp(2)]
  {
    TwoFields(h, UnmarkedFields(t, u), false);
    assert StringCode("") == [0] && StringCode([1 as char, 'b', 0 as char]) == [3, 1, 98, 0];
  }

  lemma TwoFields(h: Hashing, fs: seq<Field>, withMeta: bool)
    requires |fs| == 2
    ensures FieldsEncoding(h, fs, withMeta) ==
      FieldCode(h, fs[0].name, fs[0].optional, TreeFp(h, fs[0].typ), fs[0].meta, withMeta) +
      FieldCode(h, fs[1].name, fs[1].optional, TreeFp(h, fs[1].typ), fs[1].meta, withMeta)
  {
    var init := fs[..1];
    assert init[..0] == [];
    assert FieldsEncoding(h, init[..0], withMeta) == [];
    assert FieldsEncoding(h, init, withMeta) ==
      FieldCode(h, fs[0].name, fs[0].optional, TreeFp(h, fs[0].typ), fs[0].meta, withMeta);
  }
}
