/** Validating a literal tree directly, and compiling it to a value first: the two agree
  * (internal/compiled/validate.go, validate_type.go, compile.go:111-256).  Literals hold no schema. */
module Validation {
  import opened Wrappers
  import opened Atoms
  import opened Constraints
  import opened Types
  import opened Syntax
  import opened Names
  import Clauses
  import Soundness
  import D = Decimals
  import DO = DecimalOrder
  import DL = DecimalLaws
  import opened MachineInts

  // ----- compiling literals

  function ScalarBase(e: Expr): Type {
    match e
    case NullLit => Lit(NullAtom)
    case BoolLit(_) => Bool
    case IntLit(_) => Int
    case DecimalLit(_) => Real
    case _ => String
  }

  predicate IsScalar(e: Expr) {
    e.NullLit? || e.BoolLit? || e.IntLit? || e.DecimalLit? || e.StringLit?
  }

  const FieldName: Field -> string := (f: Field) => f.name

  predicate DistinctKeys(fs: seq<Entry>) {
    forall i, j :: 0 <= i < j < |fs| ==> fs[i].key != fs[j].key
  }

  /** The compiled value of a literal, or nothing where compilation reports an error. */
  function CompileLiteral(e: Expr): Option<Type> {
    match e
    case ListLit(es) => if CompileAll(es).None? then None else Some(Tuple(CompileAll(es).value))
    case TupleLit(es) => if CompileAll(es).None? then None else Some(Tuple(CompileAll(es).value))
    case ObjectLit(fs) =>
      if !DistinctKeys(fs) || CompileFields(fs).None? then None
      else Some(Object(SortByName(CompileFields(fs).value, FieldName)))
    case _ =>
      if !IsScalar(e) || Clauses.LiteralAtom(e).None? then None
      else Some(EnumType(ScalarBase(e), [Clauses.LiteralAtom(e).value]))
  }

  function CompileAll(es: seq<Expr>): (r: Option<seq<Type>>)
    ensures r.Some? ==> |r.value| == |es| && forall i :: 0 <= i < |es| ==> CompileLiteral(es[i]) == Some(r.value[i])
    ensures r.None? ==> exists i :: 0 <= i < |es| && CompileLiteral(es[i]).None?
  {
    if es == [] then Some([])
    else if CompileLiteral(es[0]).None? then None
    else if CompileAll(es[1..]).None? then
      assert forall i :: 0 <= i < |es[1..]| ==> es[i + 1] == es[1..][i];
      None
    else Some([CompileLiteral(es[0]).value] + CompileAll(es[1..]).value)
  }

  function CompileFields(fs: seq<Entry>): (r: Option<seq<Field>>)
    ensures r.Some? ==> |r.value| == |fs| && forall i :: 0 <= i < |fs| ==>
      CompileLiteral(fs[i].value) == Some(r.value[i].typ) && r.value[i].name == fs[i].key && !r.value[i].optional
  {
    if fs == [] then Some([])
    else if CompileLiteral(fs[0].value).None? || CompileFields(fs[1..]).None? then None
    else Some([Field(fs[0].key, CompileLiteral(fs[0].value).value, false, 0)] + CompileFields(fs[1..]).value)
  }

  /** An optional sign and at least one digit. */
  ghost predicate IntegerText(raw: string) {
    exists sign: string, digits ::
      sign in {"", "-", "+"} && digits != [] && D.AllDigits(digits) && raw == sign + digits
  }

  /** A JSON number whose value has a canonical decimal with a 64-bit exponent. */
  ghost predicate NumberText(raw: string) {
    exists t :: D.ValidText(t) && D.Render(t) == raw && D.Representable(D.TextValue(t))
  }

  /** Literals all the way down, with numbers that can be read and no object key given twice. */
  ghost predicate WellWritten(e: Expr) {
    match e
    case NullLit => true
    case BoolLit(_) => true
    case StringLit(_) => true
    case IntLit(raw) => IntegerText(raw)
    case DecimalLit(raw) => NumberText(raw)
    case ListLit(es) => forall i :: 0 <= i < |es| ==> WellWritten(es[i])
    case TupleLit(es) => forall i :: 0 <= i < |es| ==> WellWritten(es[i])
    case ObjectLit(fs) => DistinctKeys(fs) && forall i :: 0 <= i < |fs| ==> WellWritten(fs[i].value)
    case _ => false
  }

  lemma IntTextExact(raw: string)
    ensures Clauses.IntText(raw).Some? <==> IntegerText(raw)
  {
    if Clauses.IntText(raw).Some? {
      var sign: string := if raw[0] == '-' then "-" else if raw[0] == '+' then "+" else "";
      var digits := raw[|sign|..];
      assert raw == sign + digits;
    }
    if IntegerText(raw) {
      var sign: string, digits :| sign in {"", "-", "+"} && digits != [] && D.AllDigits(digits) && raw == sign + digits;
      if sign != "" { assert raw[1..] == digits; } else { assert raw == digits; }
    }
  }

  lemma {:induction false} FieldsCompileExact(fs: seq<Entry>)
    ensures CompileFields(fs).Some? <==> forall i :: 0 <= i < |fs| ==> CompileLiteral(fs[i].value).Some?
  {
    if fs != [] {
      FieldsCompileExact(fs[1..]);
      assert forall i :: 0 < i < |fs| ==> fs[i] == fs[1..][i - 1];
    }
  }

  /** A literal compiles exactly when it is written well. */
  lemma {:induction false} CompilesExact(e: Expr)
    ensures CompileLiteral(e).Some? <==> WellWritten(e)
    decreases e
  {
    match e
    case IntLit(raw) => IntTextExact(raw);
    case DecimalLit(raw) => DL.ParseExact(raw);
    case ListLit(es) => AllCompileExact(es);
    case TupleLit(es) => AllCompileExact(es);
    case ObjectLit(fs) =>
      forall i | 0 <= i < |fs| ensures CompileLiteral(fs[i].value).Some? <==> WellWritten(fs[i].value) {
        CompilesExact(fs[i].value);
      }
      FieldsCompileExact(fs);
    case _ =>
  }

  lemma {:induction false} AllCompileExact(es: seq<Expr>)
    ensures CompileAll(es).Some? <==> forall i :: 0 <= i < |es| ==> WellWritten(es[i])
    decreases es
  {
    forall i | 0 <= i < |es| ensures CompileLiteral(es[i]).Some? <==> WellWritten(es[i]) { CompilesExact(es[i]); }
  }

  // ----- validating the literal itself

  function IntOf(e: Expr): Option<int> {
    if e.IntLit? then Clauses.IntText(e.raw) else None
  }

  /** The number a literal writes: integers of any size, decimals the parser accepts. */
  function NumberOf(e: Expr): Option<real> {
    match e
    case IntLit(raw) => if Clauses.IntText(raw).None? then None else Some(Clauses.IntText(raw).value as real)
    case DecimalLit(raw) => if D.ParseText(raw).None? then None else Some(D.Value(D.ParseText(raw).value))
    case _ => None
  }

  function LengthOfLiteral(e: Expr): Option<nat> {
    match e
    case StringLit(s) => Some(|s|)
    case ListLit(es) => Some(|es|)
    case TupleLit(es) => Some(|es|)
    case ObjectLit(fs) => Some(|fs|)
    case _ => None
  }

  predicate ValidAtom(want: Atom, e: Expr) {
    match want
    case NullAtom => e.NullLit?
    case BoolAtom(b) => e.BoolLit? && e.b == b
    case IntAtom(i) => IntOf(e) == Some(i)
    case RealAtom(r) => NumberOf(e) == Some(r)
    case StringAtom(s) => e.StringLit? && e.s == s
  }

  predicate ValidConstraint(c: Constraint, e: Expr) {
    && (c.ints != NO_INTS ==> IntOf(e).Some? && InInts(c.ints, IntOf(e).value))
    && (c.reals != NO_REALS ==> NumberOf(e).Some? && InReals(c.reals, NumberOf(e).value))
    && (c.format != NoFormat ==> NumberOf(e).Some? && CanBeFloat(NumberOf(e).value, c.format))
    && (c.length != NO_INTS ==> LengthOfLiteral(e).Some? && InInts(c.length, LengthOfLiteral(e).value))
    && (c.enum.Some? ==> exists i :: 0 <= i < |c.enum.value| && ValidAtom(c.enum.value[i], e))
  }

  predicate HasKey(fs: seq<Entry>, name: string) {
    exists j :: 0 <= j < |fs| && fs[j].key == name
  }

  /** The rule of objects over source fields: keys unique and known, required keys given. */
  predicate KeysValid(want: seq<Field>, got: seq<Entry>) {
    && DistinctKeys(got)
    && (forall j :: 0 <= j < |got| ==> IndexOf(want, got[j].key) >= 0)
    && (forall i :: 0 <= i < |want| && !want[i].optional ==> HasKey(got, want[i].name))
  }

  predicate ValidAny(e: Expr) {
    match e
    case NullLit => true
    case BoolLit(_) => true
    case StringLit(_) => true
    case IntLit(_) => IntOf(e).Some?
    case DecimalLit(_) => NumberOf(e).Some?
    case ListLit(es) => forall i :: 0 <= i < |es| ==> ValidAny(es[i])
    case TupleLit(es) => forall i :: 0 <= i < |es| ==> ValidAny(es[i])
    case ObjectLit(fs) => DistinctKeys(fs) && forall i :: 0 <= i < |fs| ==> ValidAny(fs[i].value)
    case _ => false
  }

  /** `validAST`, with the object rule stated outright. */
  predicate ValidAST(t: Type, e: Expr)
    decreases t
  {
    match t
    case Any => ValidAny(e)
    case Never => false
    case Bool => e.BoolLit?
    case Int => IntOf(e).Some?
    case Real => NumberOf(e).Some?
    case String => e.StringLit?
    case Lit(a) => ValidAtom(a, e)
    case List(elem) =>
      ElementsOf(e).Some? && forall i :: 0 <= i < |ElementsOf(e).value| ==> ValidAST(elem, ElementsOf(e).value[i])
    case Tuple(want) =>
      ElementsOf(e).Some? && |ElementsOf(e).value| == |want| &&
      forall i :: 0 <= i < |want| ==> ValidAST(want[i], ElementsOf(e).value[i])
    case Sum(ms) => exists i :: 0 <= i < |ms| && ValidAST(ms[i], e)
    case Object(want) =>
      e.ObjectLit? && KeysValid(want, e.entries) &&
      forall i, j :: 0 <= i < |want| && 0 <= j < |e.entries| && want[i].name == e.entries[j].key ==>
        ValidAST(want[i].typ, e.entries[j].value)
    case Refined(b, c, _, _) => ValidAST(b, e) && ValidConstraint(c, e)
  }

  // ----- compiled literals are values

  /** The compiled literal without the singleton refinement of a scalar. */
  function Bare(e: Expr): Type
    requires CompileLiteral(e).Some?
  {
    if IsScalar(e) then Lit(Clauses.LiteralAtom(e).value) else CompileLiteral(e).value
  }

  /** The scalar base that owns an atom. */
  function BaseOf(a: Atom): Type {
    match a
    case NullAtom => Lit(NullAtom)
    case BoolAtom(_) => Bool
    case IntAtom(_) => Int
    case RealAtom(_) => Real
    case StringAtom(_) => String
  }

  lemma SingletonIsValue(a: Atom)
    ensures var v := EnumType(BaseOf(a), [a]);
      WellFormed(v) && IsValue(v) && LiteralBase(v) == Lit(a)
  {
    CompareDecidesValue(a, a);
    assert InEnum([a], a) by { assert CompareAtoms(a, [a][0]) == 0; }
  }

  lemma ScalarBaseOf(e: Expr)
    requires IsScalar(e) && Clauses.LiteralAtom(e).Some?
    ensures ScalarBase(e) == BaseOf(Clauses.LiteralAtom(e).value)
  {
  }

  lemma ScalarCompiled(e: Expr)
    requires CompileLiteral(e).Some? && IsScalar(e)
    ensures var v := CompileLiteral(e).value;
      WellFormed(v) && IsValue(v) && LiteralBase(v) == Bare(e)
  {
    ScalarBaseOf(e);
    SingletonIsValue(Clauses.LiteralAtom(e).value);
  }

  lemma BareIsBase(e: Expr)
    requires CompileLiteral(e).Some?
    ensures LiteralBase(CompileLiteral(e).value) == Bare(e) && !Bare(e).Refined?
  {
    if IsScalar(e) { ScalarCompiled(e); }
  }

  /** The sorted fields of an object literal are its entries compiled. */
  lemma FieldsCompiled(e: Expr)
    requires e.ObjectLit? && CompileLiteral(e).Some?
    ensures var (rows, fs) := (CompileFields(e.entries).value, CompileLiteral(e).value.fields);
      SortedFields(fs) && |fs| == |rows| && multiset(fs) == multiset(rows)
  {
    var rows := CompileFields(e.entries).value;
    assert DistinctNames(rows, FieldName) by {
      forall i, j | 0 <= i < j < |rows| ensures FieldName(rows[i]) != FieldName(rows[j]) {
        assert e.entries[i].key != e.entries[j].key;
      }
    }
    SortSorts(rows, FieldName);
    var fs := SortByName(rows, FieldName);
    forall i, j | 0 <= i < j < |fs| ensures CompareStrings(fs[i].name, fs[j].name) < 0 {
      assert CompareStrings(FieldName(fs[i]), FieldName(fs[j])) < 0;
    }
  }

  /** Looking a source key up in the sorted fields finds its own value. */
  lemma KeyCompiled(e: Expr, j: nat)
    requires e.ObjectLit? && CompileLiteral(e).Some? && j < |e.entries|
    ensures var (rows, fs) := (CompileFields(e.entries).value, CompileLiteral(e).value.fields);
      var k := IndexOf(fs, e.entries[j].key);
      k >= 0 && fs[k] == rows[j]
  {
    FieldsCompiled(e);
    var (rows, fs) := (CompileFields(e.entries).value, CompileLiteral(e).value.fields);
    assert rows[j] in multiset(fs);
    var k :| 0 <= k < |fs| && fs[k] == rows[j];
    SortedNamesDistinct(fs, k, IndexOf(fs, e.entries[j].key));
  }

  /** Every sorted field comes from an entry. */
  lemma FieldFromEntry(e: Expr, k: nat) returns (j: nat)
    requires e.ObjectLit? && CompileLiteral(e).Some? && k < |CompileLiteral(e).value.fields|
    ensures j < |e.entries| && CompileFields(e.entries).value[j] == CompileLiteral(e).value.fields[k]
  {
    FieldsCompiled(e);
    var (rows, fs) := (CompileFields(e.entries).value, CompileLiteral(e).value.fields);
    assert fs[k] in multiset(rows);
    var i :| 0 <= i < |rows| && rows[i] == fs[k];
    j := i;
  }

  /** A literal that compiles is a well-formed concrete value, and valid for `any`. */
  lemma {:induction false} CompiledIsValue(e: Expr)
    requires CompileLiteral(e).Some?
    ensures var v := CompileLiteral(e).value; WellFormed(v) && IsValue(v) && !v.Never?
    ensures ValidAny(e)
    decreases e
  {
    match e
    case ListLit(es) => ElementsAreValues(es);
    case TupleLit(es) => ElementsAreValues(es);
    case ObjectLit(fs) => ObjectIsValue(e);
    case _ => ScalarCompiled(e);
  }

  lemma {:induction false} ElementsAreValues(es: seq<Expr>)
    requires CompileAll(es).Some?
    ensures forall i :: 0 <= i < |es| ==>
      var v := CompileAll(es).value[i]; WellFormed(v) && IsValue(v) && !v.Never? && ValidAny(es[i])
    decreases es
  {
    forall i | 0 <= i < |es|
      ensures var v := CompileAll(es).value[i]; WellFormed(v) && IsValue(v) && !v.Never? && ValidAny(es[i])
    {
      CompiledIsValue(es[i]);
    }
  }

  lemma {:induction false} ObjectIsValue(e: Expr)
    requires e.ObjectLit? && CompileLiteral(e).Some?
    ensures var v := CompileLiteral(e).value; WellFormed(v) && IsValue(v)
    ensures ValidAny(e)
    decreases e, 0
  {
    var (rows, fs) := (CompileFields(e.entries).value, CompileLiteral(e).value.fields);
    FieldsCompiled(e);
    forall j | 0 <= j < |rows| ensures WellFormed(rows[j].typ) && IsValue(rows[j].typ) && ValidAny(e.entries[j].value) {
      CompiledIsValue(e.entries[j].value);
    }
    forall k | 0 <= k < |fs| ensures WellFormed(fs[k].typ) && IsValue(fs[k].typ) && !fs[k].optional {
      var j := FieldFromEntry(e, k);
    }
  }

  // ----- the two validators agree

  lemma AtomAgrees(want: Atom, e: Expr)
    requires IsScalar(e) && Clauses.LiteralAtom(e).Some?
    requires want.IntAtom? ==> !Clauses.LiteralAtom(e).value.RealAtom?
    ensures ValidAtom(want, e) <==> CompareAtoms(Clauses.LiteralAtom(e).value, want) == 0
  {
    CompareDecidesValue(Clauses.LiteralAtom(e).value, want);
  }

  lemma EnumAgrees(enum: seq<Atom>, e: Expr)
    requires IsScalar(e) && Clauses.LiteralAtom(e).Some?
    requires forall i :: 0 <= i < |enum| && enum[i].IntAtom? ==> !Clauses.LiteralAtom(e).value.RealAtom?
    ensures (exists i :: 0 <= i < |enum| && ValidAtom(enum[i], e)) <==> InEnum(enum, Clauses.LiteralAtom(e).value)
  {
    forall i | 0 <= i < |enum|
      ensures ValidAtom(enum[i], e) <==> CompareAtoms(Clauses.LiteralAtom(e).value, enum[i]) == 0
    {
      AtomAgrees(enum[i], e);
    }
  }

  /** What a literal says about itself is what its compiled value says. */
  predicate SameSubject(e: Expr, s: Subject) {
    && IntOf(e) == (if s.Scalar? && s.a.IntAtom? then Some(s.a.i) else None)
    && NumberOf(e) == (if s.Scalar? && s.a.Numeric() then Some(NumVal(s.a)) else None)
    && LengthOfLiteral(e) == LengthOf(s)
  }

  lemma ScalarSubject(e: Expr)
    requires IsScalar(e) && Clauses.LiteralAtom(e).Some?
    ensures SameSubject(e, Scalar(Clauses.LiteralAtom(e).value))
  {
  }

  lemma LiteralSubject(e: Expr)
    requires CompileLiteral(e).Some?
    ensures SameSubject(e, SubjectOf(Bare(e)))
  {
    if IsScalar(e) { ScalarSubject(e); } else { ContainerSubject(e); }
  }

  lemma ContainerSubject(e: Expr)
    requires CompileLiteral(e).Some? && !IsScalar(e)
    ensures SameSubject(e, SubjectOf(CompileLiteral(e).value))
  {
    if e.ObjectLit? { ObjectSubject(e); } else { SequenceSubject(e); }
  }

  lemma ObjectSubject(e: Expr)
    requires CompileLiteral(e).Some? && e.ObjectLit?
    ensures SameSubject(e, SubjectOf(CompileLiteral(e).value))
  {
    ObjectLength(e);
  }

  lemma ObjectLength(e: Expr)
    requires CompileLiteral(e).Some? && e.ObjectLit?
    ensures SubjectOf(CompileLiteral(e).value) == Sized(|e.entries|)
  {
    var v := CompileLiteral(e).value;
    FieldsCompiled(e);
    assert v.Object? && |v.fields| == |e.entries|;
  }

  lemma SequenceSubject(e: Expr)
    requires CompileLiteral(e).Some? && ElementsOf(e).Some?
    ensures SameSubject(e, SubjectOf(CompileLiteral(e).value))
  {
    assert SubjectOf(CompileLiteral(e).value) == Sized(|ElementsOf(e).value|);
  }

  /** Without its enum a constraint sees the same in the literal and in its value. */
  lemma BoundsAgree(c: Constraint, e: Expr, s: Subject)
    requires SameSubject(e, s) && c.enum.None?
    ensures ValidConstraint(c, e) <==> Satisfies(c, s)
  {
  }

  lemma EnumKinds(t: Type, e: Expr)
    requires WellFormed(t) && t.Constrained() && t.con.enum.Some?
    requires IsScalar(e) && Clauses.LiteralAtom(e).Some? && ValidAST(t.base, e)
    ensures EnumOnly(t.con)
    ensures !t.base.Any? ==> forall i :: 0 <= i < |t.con.enum.value| && t.con.enum.value[i].IntAtom? ==>
      !Clauses.LiteralAtom(e).value.RealAtom?
  {
    var enum := t.con.enum.value;
    if !t.base.Any? {
      forall i | 0 <= i < |enum| && enum[i].IntAtom? ensures !Clauses.LiteralAtom(e).value.RealAtom? {
        assert KindOf(enum[i]) == IntKind;
        assert t.base.Int?;
      }
    }
  }

  /** Every integer atom stands beside the decimal atom of its value. */
  predicate IntegersPaired(enum: seq<Atom>) {
    forall i :: 0 <= i < |enum| && enum[i].IntAtom? ==> RealAtom(enum[i].i as real) in enum
  }

  /** The enums over `any` in the type pair their integers. */
  predicate AnyEnumsPaired(t: Type) {
    match t
    case List(elem) => AnyEnumsPaired(elem)
    case Tuple(es) => forall i :: 0 <= i < |es| ==> AnyEnumsPaired(es[i])
    case Object(fs) => forall i :: 0 <= i < |fs| ==> AnyEnumsPaired(fs[i].typ)
    case Sum(ms) => forall i :: 0 <= i < |ms| ==> AnyEnumsPaired(ms[i])
    case Refined(b, c, _, _) => AnyEnumsPaired(b) && (b.Any? && c.enum.Some? ==> IntegersPaired(c.enum.value))
    case _ => true
  }

  lemma PairedEnumAgrees(enum: seq<Atom>, e: Expr)
    requires IsScalar(e) && Clauses.LiteralAtom(e).Some? && IntegersPaired(enum)
    ensures (exists i :: 0 <= i < |enum| && ValidAtom(enum[i], e)) <==> InEnum(enum, Clauses.LiteralAtom(e).value)
  {
    if e.DecimalLit? {
      MixedDecimal(enum, e);
      var a := Clauses.LiteralAtom(e).value;
      if InEnum(enum, a) {
        var i :| 0 <= i < |enum| && SameValue(a, enum[i]);
        assert RealAtom(a.r) in enum;
      }
      if a in enum {
        var i :| 0 <= i < |enum| && enum[i] == a;
        assert SameValue(a, enum[i]);
      }
    } else {
      EnumAgrees(enum, e);
    }
  }

  lemma ConstraintAgrees(t: Type, e: Expr)
    requires WellFormed(t) && AnyEnumsPaired(t) && t.Constrained() && CompileLiteral(e).Some? && ValidAST(t.base, e)
    ensures ValidConstraint(t.con, e) <==> Satisfies(t.con, SubjectOf(Bare(e)))
  {
    if t.con.enum.None? {
      LiteralSubject(e);
      BoundsAgree(t.con, e, SubjectOf(Bare(e)));
    } else if IsScalar(e) {
      EnumKinds(t, e);
      if t.base.Any? { PairedEnumAgrees(t.con.enum.value, e); } else { EnumAgrees(t.con.enum.value, e); }
    } else {
      assert !Bare(e).Lit?;
    }
  }

  /** Validating a literal directly answers as validating its compiled value does. */
  lemma {:induction false} ValidationAgrees(t: Type, e: Expr)
    requires WellFormed(t) && AnyEnumsPaired(t) && CompileLiteral(e).Some?
    ensures ValidAST(t, e) <==> Accepts(t, CompileLiteral(e).value)
    decreases t, 1
  {
    BareIsBase(e);
    match t
    case Any => AnyAgrees(e);
    case Lit(a) => LiteralAgrees(a, e);
    case List(elem) => SequenceAgrees(t, e);
    case Tuple(_) => SequenceAgrees(t, e);
    case Sum(_) => SumAgrees(t, e);
    case Object(_) => ObjectAgrees(t, e);
    case Refined(_, _, _, _) => RefinedAgrees(t, e);
    case _ =>
  }

  lemma AnyAgrees(e: Expr)
    requires CompileLiteral(e).Some?
    ensures ValidAST(Any, e) && Accepts(Any, CompileLiteral(e).value)
  {
    CompiledIsValue(e);
  }

  lemma {:induction false} SumAgrees(t: Type, e: Expr)
    requires WellFormed(t) && AnyEnumsPaired(t) && t.Sum? && CompileLiteral(e).Some?
    ensures ValidAST(t, e) <==> Accepts(t, CompileLiteral(e).value)
    decreases t, 0
  {
    BareIsBase(e);
    forall i | 0 <= i < |t.members| ensures ValidAST(t.members[i], e) <==> Accepts(t.members[i], Bare(e)) {
      ValidationAgrees(t.members[i], e);
      Soundness.AcceptsLooksThroughRefinements(t.members[i], CompileLiteral(e).value);
    }
  }

  lemma {:induction false} RefinedAgrees(t: Type, e: Expr)
    requires WellFormed(t) && AnyEnumsPaired(t) && t.Refined? && CompileLiteral(e).Some?
    ensures ValidAST(t, e) <==> Accepts(t, CompileLiteral(e).value)
    decreases t, 0
  {
    BareIsBase(e);
    ValidationAgrees(t.base, e);
    Soundness.AcceptsLooksThroughRefinements(t.base, CompileLiteral(e).value);
    if t.Constrained() && ValidAST(t.base, e) { ConstraintAgrees(t, e); }
  }

  lemma LiteralAgrees(a: Atom, e: Expr)
    requires CompileLiteral(e).Some?
    ensures ValidAST(Lit(a), e) <==> Accepts(Lit(a), CompileLiteral(e).value)
  {
    BareIsBase(e);
    if IsScalar(e) { ScalarLiteralAgrees(a, e); }
  }

  lemma ScalarLiteralAgrees(a: Atom, e: Expr)
    requires IsScalar(e) && Clauses.LiteralAtom(e).Some?
    ensures ValidAtom(a, e) <==> AcceptsAtom(a, Clauses.LiteralAtom(e).value)
  {
    var got := Clauses.LiteralAtom(e).value;
    CompareDecidesValue(got, a);
  }

  lemma {:induction false} SequenceAgrees(t: Type, e: Expr)
    requires WellFormed(t) && AnyEnumsPaired(t) && CompileLiteral(e).Some? && (t.List? || t.Tuple?)
    ensures ValidAST(t, e) <==> Accepts(t, CompileLiteral(e).value)
    decreases t, 0
  {
    BareIsBase(e);
    if ElementsOf(e).Some? {
      var es := ElementsOf(e).value;
      forall i | 0 <= i < |es| && (t.Tuple? ==> i < |t.elems|)
        ensures var want := if t.List? then t.elem else t.elems[i];
          ValidAST(want, es[i]) <==> Accepts(want, CompileAll(es).value[i])
      {
        ValidationAgrees(if t.List? then t.elem else t.elems[i], es[i]);
      }
    }
  }

  lemma {:induction false} ObjectAgrees(t: Type, e: Expr)
    requires WellFormed(t) && AnyEnumsPaired(t) && t.Object? && CompileLiteral(e).Some?
    ensures ValidAST(t, e) <==> Accepts(t, CompileLiteral(e).value)
    decreases t, 0
  {
    var (want, v) := (t.fields, CompileLiteral(e).value);
    BareIsBase(e);
    if e.ObjectLit? {
      KeysAgree(want, e);
      forall i, j | 0 <= i < |want| && 0 <= j < |e.entries| && want[i].name == e.entries[j].key
        ensures IndexOf(v.fields, want[i].name) >= 0
        ensures ValidAST(want[i].typ, e.entries[j].value) <==>
                Accepts(want[i].typ, v.fields[IndexOf(v.fields, want[i].name)].typ)
      {
        KeyCompiled(e, j);
        ValidationAgrees(want[i].typ, e.entries[j].value);
      }
      ValuesAgree(want, e.entries, v.fields);
      ObjectUnfolds(want, e, v.fields);
    }
  }

  lemma ObjectUnfolds(want: seq<Field>, e: Expr, fs: seq<Field>)
    requires e.ObjectLit?
    ensures ValidAST(Object(want), e) <==> KeysValid(want, e.entries) && SourceValues(want, e.entries)
    ensures Accepts(Object(want), Object(fs)) <==> KeysFit(want, fs) && CompiledValues(want, fs)
  {
  }

  lemma KeysAgree(want: seq<Field>, e: Expr)
    requires e.ObjectLit? && CompileLiteral(e).Some?
    ensures KeysValid(want, e.entries) <==> KeysFit(want, CompileLiteral(e).value.fields)
    ensures forall i :: 0 <= i < |want| ==>
      (HasKey(e.entries, want[i].name) <==> IndexOf(CompileLiteral(e).value.fields, want[i].name) >= 0)
  {
    var (en, fs) := (e.entries, CompileLiteral(e).value.fields);
    forall j | 0 <= j < |en| ensures IndexOf(fs, en[j].key) >= 0 && fs[IndexOf(fs, en[j].key)].name == en[j].key {
      KeyCompiled(e, j);
    }
    forall k | 0 <= k < |fs| ensures HasKey(en, fs[k].name) {
      var j := FieldFromEntry(e, k);
    }
  }

  predicate SourceValues(want: seq<Field>, en: seq<Entry>) {
    forall i, j :: 0 <= i < |want| && 0 <= j < |en| && want[i].name == en[j].key ==>
      ValidAST(want[i].typ, en[j].value)
  }

  predicate CompiledValues(want: seq<Field>, fs: seq<Field>) {
    forall i :: 0 <= i < |want| && IndexOf(fs, want[i].name) >= 0 ==>
      Accepts(want[i].typ, fs[IndexOf(fs, want[i].name)].typ)
  }

  lemma ValuesAgree(want: seq<Field>, en: seq<Entry>, fs: seq<Field>)
    requires forall i :: 0 <= i < |want| ==> (HasKey(en, want[i].name) <==> IndexOf(fs, want[i].name) >= 0)
    requires forall i, j :: 0 <= i < |want| && 0 <= j < |en| && want[i].name == en[j].key ==>
      IndexOf(fs, want[i].name) >= 0 &&
      (ValidAST(want[i].typ, en[j].value) <==> Accepts(want[i].typ, fs[IndexOf(fs, want[i].name)].typ))
    ensures SourceValues(want, en) <==> CompiledValues(want, fs)
  {
    if SourceValues(want, en) {
      forall i | 0 <= i < |want| && IndexOf(fs, want[i].name) >= 0
        ensures Accepts(want[i].typ, fs[IndexOf(fs, want[i].name)].typ)
      {
        assert HasKey(en, want[i].name);
        var j :| 0 <= j < |en| && en[j].key == want[i].name;
        assert ValidAST(want[i].typ, en[j].value);
      }
    }
  }

  /** The same, with the value's own concreteness: what users of either entry point see. */
  lemma ValidatorsAgree(t: Type, e: Expr)
    requires WellFormed(t) && AnyEnumsPaired(t) && CompileLiteral(e).Some?
    ensures ValidAST(t, e) <==> ValidType(t, CompileLiteral(e).value)
  {
    ValidationAgrees(t, e);
    CompiledIsValue(e);
  }

  // ----- an enum over `any` that mixes the kinds of number

  lemma MixedEnumAccepts(enum: seq<Atom>, v: Type)
    ensures Accepts(EnumType(Any, enum), v) <==> LiteralBase(v).Lit? && InEnum(enum, LiteralBase(v).atom)
  {
  }

  lemma MixedEnumValid(enum: seq<Atom>, e: Expr)
    requires ValidAny(e)
    ensures ValidAST(EnumType(Any, enum), e) <==> exists i :: 0 <= i < |enum| && ValidAtom(enum[i], e)
  {
  }

  predicate AgreeOnEnum(enum: seq<Atom>, e: Expr)
    requires CompileLiteral(e).Some?
  {
    ValidAST(EnumType(Any, enum), e) <==> ValidType(EnumType(Any, enum), CompileLiteral(e).value)
  }

  lemma AgreementMeans(enum: seq<Atom>, e: Expr)
    requires CompileLiteral(e).Some?
    ensures AgreeOnEnum(enum, e) <==>
      ((exists i :: 0 <= i < |enum| && ValidAtom(enum[i], e)) <==> Bare(e).Lit? && InEnum(enum, Bare(e).atom))
  {
    CompiledIsValue(e);
    BareIsBase(e);
    MixedEnumValid(enum, e);
    MixedEnumAccepts(enum, CompileLiteral(e).value);
  }

  /** Without its decimal beside it an integer atom of an enum over `any` admits a decimal of its value once
    * compiled, but not as a literal.  The two differ on exactly these inputs. */
  lemma MixedEnumExact(enum: seq<Atom>, e: Expr)
    requires CompileLiteral(e).Some?
    ensures AgreeOnEnum(enum, e) <==> !(e.DecimalLit? && OnlyIntEqual(enum, NumberOf(e).value))
  {
    AgreementMeans(enum, e);
    if e.DecimalLit? {
      MixedDecimal(enum, e);
    } else if IsScalar(e) {
      EnumAgrees(enum, e);
    }
  }

  /** The decimal literal of an integer whose digits a length can count. */
  lemma DecimalLiteralOf(i: int) returns (e: Expr)
    requires |DO.NatText(if i < 0 then -i else i)| <= MAX_INT64
    ensures e.DecimalLit? && CompileLiteral(e).Some? && NumberOf(e) == Some(i as real)
  {
    var n := DO.RealFromInt(i);
    DO.RealFromIntValue(i);
    DO.IntNumberValue(i);
    DO.StringRoundTrip(n);
    e := DecimalLit(DO.NumberString(n));
  }

  lemma PairedMeansSame(enum: seq<Atom>, e: Expr)
    requires CompileLiteral(e).Some? && IntegersPaired(enum)
    ensures AgreeOnEnum(enum, e)
  {
    MixedEnumExact(enum, e);
  }

  /** Over all literals the two validators agree on an enum over `any` exactly when each of its integer atoms
    * stands beside the decimal of its value; the integers have as many digits as a length can count. */
  lemma EnumValidatorsExact(enum: seq<Atom>)
    requires forall i :: 0 <= i < |enum| && enum[i].IntAtom? ==>
      |DO.NatText(if enum[i].i < 0 then -enum[i].i else enum[i].i)| <= MAX_INT64
    ensures (forall e :: CompileLiteral(e).Some? ==> AgreeOnEnum(enum, e)) <==> IntegersPaired(enum)
  {
    if IntegersPaired(enum) {
      forall e | CompileLiteral(e).Some? ensures AgreeOnEnum(enum, e) { PairedMeansSame(enum, e); }
    } else {
      var i :| 0 <= i < |enum| && enum[i].IntAtom? && RealAtom(enum[i].i as real) !in enum;
      var e := DecimalLiteralOf(enum[i].i);
      MixedEnumExact(enum, e);
      assert OnlyIntEqual(enum, NumberOf(e).value);
      assert !AgreeOnEnum(enum, e);
    }
  }

  /** In a sorted enum without duplicates no integer stands beside its decimal, so there they agree exactly when it
    * holds no integer. */
  lemma PairedMeansNone(enum: seq<Atom>)
    requires Ascending(enum)
    ensures IntegersPaired(enum) <==> forall i :: 0 <= i < |enum| ==> !enum[i].IntAtom?
  {
    if i :| 0 <= i < |enum| && enum[i].IntAtom? && RealAtom(enum[i].i as real) in enum {
      var j :| 0 <= j < |enum| && enum[j] == RealAtom(enum[i].i as real);
      CompareDecidesValue(enum[i], enum[j]);
    }
  }

  /** Some integer atom has the value, and no decimal atom does. */
  predicate OnlyIntEqual(enum: seq<Atom>, r: real) {
    && (exists i :: 0 <= i < |enum| && enum[i].IntAtom? && NumVal(enum[i]) == r)
    && (forall i :: 0 <= i < |enum| ==> enum[i] != RealAtom(r))
  }

  lemma MixedDecimal(enum: seq<Atom>, e: Expr)
    requires e.DecimalLit? && Clauses.LiteralAtom(e).Some?
    ensures var a := Clauses.LiteralAtom(e).value;
      && a.RealAtom? && NumberOf(e) == Some(a.r)
      && (InEnum(enum, a) <==> exists i :: 0 <= i < |enum| && SameValue(a, enum[i]))
      && ((exists i :: 0 <= i < |enum| && ValidAtom(enum[i], e)) <==> RealAtom(a.r) in enum)
  {
    var a := Clauses.LiteralAtom(e).value;
    forall i | 0 <= i < |enum| ensures CompareAtoms(a, enum[i]) == 0 <==> SameValue(a, enum[i]) {
      CompareDecidesValue(a, enum[i]);
    }
    forall i | 0 <= i < |enum| ensures ValidAtom(enum[i], e) <==> enum[i] == RealAtom(a.r) { }
  }
}
