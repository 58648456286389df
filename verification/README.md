# Katschema: a verified model

Katschema compiles schemas into an arena of interned types and answers three questions about them: does a
type accept a value, is one type below another, and what is the normal form of a union or of a constraint.
This project models that core, and the parser and printer of its syntax, and proves what they promise.

Check it with `dafny verify dfyconfig.toml`.

## How it is laid out

* **The type lattice.** `Types` gives every type tree its concrete values by the reference validation
  semantics; `Order` is the subtype test. `OrderLaws`, `Transitivity` and `Soundness` prove that it is a
  sound preorder and that the identity shortcut is invisible. `Corners` shows where it stops being one.
  `ScalarCompleteness`, `Completeness` and `CompletenessLimits` prove the converse of soundness, that the order answers
  true wherever the values are included, and name the inclusions it misses.
* **Unions.** `Sums` proves what canonicalisation keeps, on candidate members; `Arena` runs it over interned
  rows.
* **Constraints.** `Normalizer` is the class that clauses tighten step by step, against the meaning of clauses
  in `Clauses`; `NormalForms`, `Refinements` and `NormalFormLaws` cover the last step, inheritance and
  uniqueness, `Emptiness` when a constraint without values is noticed; `Acceptance` says which clauses are taken;
  `AtomSets` and `EnumClauses` cover the sorted enums and `AnyClauses` their combination over `any`; `BorrowedEnum` is
  the in-place filter of a borrowed slice.
* **Numbers.** `Decimals` specifies JSON numbers (section 6 of RFC 8259) and canonical decimals,
  `DecimalLaws` and `DecimalOrder` prove it exact, `DecimalParser` is the in-place parser in 64-bit machine
  arithmetic. `HybridInts` is the two-form integer representation, `FixedWidths` checks the fixed-width constants.
* **The arena.** `HashTables` holds the append-only tables and chains, `Nodes` the rows and the trees they
  denote, `Fingerprints` the encoders, `SemanticFingerprints` what the semantic one forgets, `FingerprintLaws` what
  both tell apart, `Arena` the interning operations.
* **Syntax.** `Grammar` is the grammar as a function on tokens and `Parsers` the cursor-based parser;
  `Printing` is the output as a function and `Printers` the writing printer; `RoundTrip`, `Minimality`
  and `Formatting` connect them, `Spelling` shows that a tree spells its source, and `Precedences` fixes what
  unparenthesised chains mean.
* **Validation and views.** `Validation` proves the literal validator and the compiled-value validator equal,
  `TypeChecking` that reading a value under a schema keeps it and puts it in the schema's context,
  `ObjectWalks` the object checks as the loops run them; `Overlays` states what an overlay changes and `Views`
  builds it with a path copy and cached fingerprints.

A function or predicate is the specification; the class or method beside it is the code's own loop or state
change, proved against it. Loops that update a Go slice are sequences in a field or a local; the two places
where aliasing matters (`DecimalParser`, `BorrowedEnum`) and the presence words of `ObjectWalks` use arrays.

## What the types must satisfy

`Types.WellFormed` is the shape compilation builds: enums hold atoms of the base's own kind, no wrapper stands
around `any` or `never`, the base of a constrained refinement is not a union, is not refined and is not `never`,
fields are sorted by name, a tuple has no `never` component; over `any` an enum holds atoms of all kinds, but is
not a single integer. Where the code lets other shapes through, the project proves exactly when the promise still
holds:

* a single integer as an enum over `any` is the one enum for which the order is neither sound nor transitive
  (`Corners.AnyEnumSoundExact`, `Corners.AnyEnumTransitiveExact`);
* an integer in an enum over `any` without the decimal of its value, in a sorted one any integer at all, makes the
  two validators differ (`Validation.EnumValidatorsExact`, `Validation.PairedMeansNone`); inside a larger type another
  union member can hide the difference;
* integers, strings and decimals together are not ordered by the atom comparison (`Atoms.OrderOnKindsExact`), and two
  enums over `any` that mix all three can lose values when they are intersected (`AnyClauses.AnyClausesExact`);
* a wrapper around `any` is not below itself (`Corners.WrapperReflexiveExact`);
* refining an integer enum further drops the enum (`Refinements.InheritedExact`);
* refining a real enum further filters the arena's own slice in place
  (`BorrowedEnum.BorrowedEnumIntactExact`);
* bounds are not found inside an enum that lists all their integers, and an interval is not found inside another when
  only its float format keeps it there (`NormalFormLaws.IntSubsetExact`, `NormalFormLaws.RealSubsetExact`);
* `bool` and bounds are not found inside a list that has all their atoms, an enum not inside a refinement of another
  base, integers not inside bounds over `real`, strings not inside a least length of zero
  (`ScalarCompleteness.ScalarsExact` names every inclusion between scalar types that the order misses);
* a container whose lengths leave it one shape is compared without its lengths (`CompletenessLimits.TightExact`), and
  a union on the right member by member (`CompletenessLimits.SplitUnionMissed`);
* beyond the range of a float format, records that hold the same numbers can stay different
  (`NormalFormLaws.RealNormalFormsUnique`);
* bounds outside a float format, and lengths that the base has no value of, are not noticed as empty
  (`Emptiness.RealEmptinessExact`, `Emptiness.UnnoticedExact`);
* merging `true` and `false` makes unions depend on nesting where another member hides one of them
  (`Sums.NestingExact`);
* the printer adds parentheses to what it parsed in two places (`Formatting.ReprintExact`).

One shape is outside all of this: a literal read under a float format becomes an enum around FLOAT32 or FLOAT64,
which are constrained already. `TypeChecking.TypeCheckSound` covers what it accepts; the theorems on the order, and
`TypeChecking.TypeCheckBelow`, do not reach it.

## Model

| member | source | states |
|---|---|---|
| `OrderLaws.BelowReflexive` | internal/compiled/order.go:20-122 | every well-formed type is below itself without the identity shortcut, so also across arenas |
| `OrderLaws.BelowWrapper` | internal/compiled/order.go:48-53 | a metadata wrapper on the right changes no answer |
| `OrderLaws.BelowMember` | internal/compiled/order.go:54-62 | below a member of a union is below the union |
| `OrderLaws.ContainerLengthMonotone` | internal/compiled/order.go:63-70 | a container below a container has a narrower range of lengths, which is what makes the length shortcut transitive |
| `OrderLaws.ContainerOnlyBelowContainer` | internal/compiled/order.go:96-117 | only a container type is below a container type |
| `Transitivity.SubsetTransitive` | internal/compiled/order.go:302-340 | inclusion of finished constraints over one base is transitive |
| `Transitivity.SubsetSound` | internal/compiled/order.go:302-340 | a constraint inside another admits no atom of the base that the other rejects |
| `Transitivity.ShapeTransitive` | internal/compiled/order.go:85-121 | transitivity through the structural cases, tuple below list and object below object included |
| `Transitivity.RefinedTransitive` | internal/compiled/order.go:63-84 | transitivity when a side is refined, through literals, enums, intervals and lengths |
| `Transitivity.BelowTransitive` | internal/compiled/order.go:20-122 | the order is transitive on all well-formed types, through unions, wrappers, literals, lengths, intervals and enums |
| `Soundness.ValueBelowIffAccepted` | internal/compiled/validate_type.go:46-122 | a concrete value is below a type exactly when validation accepts it |
| `Soundness.SubtypeSound` | internal/compiled/order.go:20-122 | if one type is below another, every concrete value the first admits the second admits |
| `Soundness.IdentityInvisible` | internal/compiled/order.go:34-36 | the pointer-equality shortcut changes no answer, so one arena and two arenas agree |
| `ScalarCompleteness.ValueComplete` | internal/compiled/order.go:20-121 | with a concrete value on the left the order is inclusion of the concrete values, without exception |
| `ScalarCompleteness.IntsExact` | internal/compiled/order.go:85-90 | integers, bounded or not: the order is inclusion of the atoms except inside a list that has them all, or inside bounds over real |
| `ScalarCompleteness.RealsExact` | internal/compiled/order.go:85-92 | reals: except a single point that is listed, and the exceptions of the subset test over real |
| `ScalarCompleteness.StringsExact` | internal/compiled/order.go:85-94 | strings: except inside a list that has them all, and inside a least length that says nothing |
| `ScalarCompleteness.EnumExact` | internal/compiled/order.go:71-84 | enums of several atoms: except inside a refinement of another base, and, over any, inside any base that admits all their atoms |
| `ScalarCompleteness.ScalarsExact` | internal/compiled/order.go:63-95 | between scalar types, literals and their refinements that have values, the order answers true exactly where every concrete value of the left is one of the right, apart from exactly the exceptions above and bool inside a list of both literals |
| `Completeness.AnyIncluded` | internal/compiled/order.go:37-39 | only any admits all that any admits |
| `Completeness.ListElementsIncluded` | internal/compiled/order.go:96-97 | if all lists of the left are lists of the right, all elements of the left are elements of the right |
| `Completeness.FieldIncluded` | internal/compiled/order.go:172-179 | if all objects of the left are objects of the right, each field of the left is declared there, takes no other value there, and is optional there if it is on the left |
| `Completeness.RequiredIncluded` | internal/compiled/order.go:180-190 | and what the right requires the left requires |
| `Completeness.LengthsIncluded` | internal/compiled/order.go:63-70 | if all containers of the left have the lengths of the right, the bounds read off the left shape are inside those of the right |
| `Completeness.WithinExact` | internal/compiled/order.go:20-158 | for types all of whose parts have values and are in use, with unions on the left, intervals, enums, lengths, elements and optional fields, inclusion of the concrete values is inclusion part by part down to the scalar types; of a union on the right at most one member has values of a sort of the left |
| `Completeness.BelowExact` | internal/compiled/order.go:20-158 | completeness: there the order answers true exactly where every concrete value of the left is one of the right, except exactly the inclusions that lead through a pair of scalar parts that the order misses or put a list of one length inside a tuple |
| `Completeness.WithinSeen` | internal/compiled/order.go:20-121 | an inclusion part by part is found by the order exactly if neither of these two is met on the way |
| `Completeness.BelowIsInclusion` | internal/compiled/order.go:20-158 | in particular the order is inclusion of the concrete values wherever neither is met |
| `CompletenessLimits.BasicExact` | internal/compiled/order.go:20-158 | between types without unions and constraints the order is inclusion of the concrete values, with no exception |
| `CompletenessLimits.HasAtomsExact` | internal/compiled/constraint.go:663-680 | a constrained scalar type has a value exactly when its bounds do not cross, for reals within the float format |
| `CompletenessLimits.RefitSameValues` | internal/compiled/order.go:123-158 | a list of one length has the values of a tuple, and an object whose lengths give no or every optional field has those of the object of its required or of all its fields as required ones |
| `CompletenessLimits.TightExact` | internal/compiled/order.go:63-70 | such a container is included exactly where that tuple or object is included part by part, while the order compares it without its bounds |
| `CompletenessLimits.SplitUnionMissed` | internal/compiled/order.go:54-62 | a tuple of a union is included in the union of the tuples but not below it |
| `Corners.AnyEnumSoundExact` | internal/compiled/order.go:276-280 | for every non-empty enum over any: what is above it admits all its values exactly when it is not a single integer |
| `Corners.AnyEnumNotTransitive` | internal/compiled/order.go:20-122 | a chain that breaks, for every integer: (any, x == 1.0), (any, x == 1), int |
| `Corners.AnyEnumTransitiveExact` | internal/compiled/order.go:20-122 | transitivity through an enum over any, in the middle of the chain, holds exactly when the enum is not a single integer |
| `Corners.AnyEnumLeftTransitive` | internal/compiled/order.go:20-122 | at the left end of a chain every enum over any keeps transitivity, a single integer too |
| `Corners.AnyEnumRightTransitive` | internal/compiled/order.go:20-122 | and at the right end |
| `Corners.WrapperReflexiveExact` | internal/compiled/order.go:34-53 | a wrapper type is below itself exactly when it does not wrap any |
| `Atoms.CompareDecidesValue` | internal/compiled/order.go:363-422 | the atom comparison is zero exactly on equal values, and antisymmetric |
| `Atoms.CompareTransitive` | internal/compiled/order.go:363-422 | on three atoms whose kinds leave out integers, strings or decimals the comparison is transitive |
| `Atoms.OrderOnKindsExact` | internal/compiled/order.go:363-422 | on all atoms of a set of kinds the comparison is transitive, and respects value, exactly when the set leaves out integers, strings or decimals |
| `Atoms.MixedKindsCycle` | internal/compiled/constraint.go:853-889 | with integers, strings and decimals together the comparison has a cycle |
| `Sums.KeptAbove` | internal/compiled/arena.go:553-575 | each dropped member has a kept one above it, so the redundancy loop never empties the list |
| `Sums.KeptExactly` | internal/compiled/arena.go:514-577 | a candidate is kept exactly when no other one is above it, where of two that are above each other the one with the smaller fingerprint, then the smaller ID, stands |
| `Sums.KeptIncomparable` | internal/compiled/arena.go:553-577 | of two different kept members neither is below the other |
| `Sums.DominatesTransitive` | internal/compiled/arena.go:561-571 | being made redundant is transitive, by transitivity of the order and the fingerprint and ID tie-break |
| `Sums.MaximalKeepsValues` | internal/compiled/arena.go:553-577 | dropping redundant members loses no concrete value and adds none |
| `Sums.MergeBoolsKeepsValues` | internal/compiled/arena.go:514-538 | replacing true and false by bool keeps the values |
| `Sums.UnionKeepsValues` | internal/compiled/arena.go:514-577 | the kept members admit exactly what the candidates admit |
| `Sums.MaximalAbsorbs` | internal/compiled/arena.go:553-577 | reducing a part of the candidates first changes no kept member |
| `Sums.UnionAssociative` | internal/compiled/arena.go:463-577 | the kept members are the same for every order and nesting, wherever no boolean literal is hidden from its opposite |
| `Sums.NestingExact` | internal/compiled/arena.go:463-577 | every way of forming a part first gives the flat union exactly when not both literals occur with one of them below candidates none of which is bool or makes bool redundant |
| `Sums.NothingHidden` | internal/compiled/arena.go:514-577 | in particular where whatever makes a boolean literal redundant, other than a literal, is bool or makes bool redundant |
| `Sums.UnionIdempotent` | internal/compiled/arena.go:464-476 | a union with itself keeps its members |
| `Sums.BoolMergingNotAssociative` | internal/compiled/arena.go:514-538 | first family where nesting matters, with an enum over any: both results given |
| `Sums.OwnEnumHidesBools` | internal/compiled/arena.go:514-538 | second family, with an enum of both literals over bool: one nesting keeps the enum, the other bool |
| `Sums.AnyWins` | internal/compiled/arena.go:481-489 | any absorbs all other members |
| `Sums.SortUniqueIds` | internal/compiled/arena.go:540-551 | the in-place sort and run removal give the ascending list of the same members |
| `Sums.MergeBoolLiterals` | internal/compiled/arena.go:514-538 | the two scans compute the boolean merge |
| `Sums.IsRedundant` | internal/compiled/arena.go:556-571 | the inner loop decides whether some other member is above this one, strictly or with a smaller fingerprint or ID |
| `Sums.DropRedundant` | internal/compiled/arena.go:553-577 | the redundancy loop keeps exactly the members that no other makes redundant, in ascending order |
| `Sums.CanonicalMembers` | internal/compiled/arena.go:514-585 | boolean merge, sort and redundancy loop together: exactly the kept members of Sums.KeptExactly, never an empty list, same values |
| `Sums.SortedListUnique` | internal/compiled/arena.go:540-551 | two ascending lists of the same members are equal |
| `HashTables.HashTable.Find` | internal/compiled/arena.go:232-240 | walking a chain finds the key if it is interned under the fingerprint and otherwise proves it absent |
| `HashTables.HashTable.Append` | internal/compiled/arena.go:212-231 | appending keeps chains descending and complete, under any hash |
| `HashTables.HashTable.Intern` | internal/compiled/arena.go:241-254 | a key gets its old ID or the next one; keys stay distinct |
| `HashTables.AppendChained` | internal/compiled/arena.go:212-231 | a new entry linked in front of its chain keeps every chain exact |
| `Nodes.TreeStable` | internal/compiled/arena.go:212-231 | appending rows changes the tree of no old ID |
| `Nodes.TreeUnique` | internal/compiled/arena.go:212-240 | two IDs with the same tree are the same ID |
| `Arenas.Arena.constructor` | internal/compiled/arena.go:94-152 | a new arena is valid for every hash function, constant ones included, and its built-in IDs denote the built-in types with their ranges and formats |
| `Arenas.Arena.InternBoundedInt` | internal/compiled/arena.go:288-291 | the ID of a bounded integer denotes int with these two bounds, and old types stay |
| `FixedWidths.RangesExact` | internal/compiled/arena.go:143-150 | the built-in integer types have the ranges of i8 to i64 in two's complement and of u8 to u64 |
| `FixedWidths.FloatLimitsExact` | internal/compiled/float.go:33-51 | the float limits are the least magnitudes that overflow binary32 and binary64: the largest finite number and half a unit in its last place |
| `Arenas.Arena.Canonical` | internal/compiled/arena.go:232-240 | at every moment two IDs are equal exactly when they denote the same tree |
| `Arenas.Arena.FingerprintOfTree` | internal/compiled/arena.go:212-230 | both stored fingerprints, complete and semantic, are functions of the tree |
| `Arenas.Arena.Intern` | internal/compiled/arena.go:212-254 | interning a row returns its one ID; old rows, fingerprints and trees stay |
| `Arenas.Arena.InternConstraint` | internal/compiled/constraint.go:699-758 | the same for constraints |
| `Arenas.Arena.BaseKind` | internal/compiled/constraint.go:890-896 | the loop reaches the type under all refinements |
| `Arenas.Arena.InternTuple` | internal/compiled/arena.go:382-417 | a tuple with an empty component is never; otherwise the tree is the tuple of the component trees |
| `Arenas.Arena.InternObject` | internal/compiled/arena.go:418-462 | fields are stored sorted by name with nothing lost |
| `Arenas.Arena.ObjectOrderIrrelevant` | internal/compiled/arena.go:412-425 | two source orders of the same fields intern to one ID |
| `Arenas.Arena.InternRefined` | internal/compiled/arena.go:629-658 | a refinement that says nothing is its base; otherwise the tree is the refinement |
| `Arenas.Arena.AddMember` | internal/compiled/arena.go:477-505 | flattening: unions contribute their members, never nothing, any replaces all |
| `Arenas.Arena.InternSum` | internal/compiled/arena.go:463-611 | the union of two interned types admits exactly what either admits; its members are exactly the candidates that no other makes redundant, and none is below another; it is well-formed and changes no old type |
| `Arenas.Arena.UnionIdUnique` | internal/compiled/arena.go:587-611 | unions with the same kept members have the same ID |
| `Arenas.Arena.SumFound` | internal/compiled/arena.go:463-611 | the ID returned by a union is the union of its arguments in the grown arena |
| `Arenas.Arena.SumStays` | internal/compiled/arena.go:463-611 | an ID that is the union of two others stays so as the arena grows |
| `Arenas.Arena.SumCommutes` | internal/compiled/arena.go:464-476 | the ID of a union does not depend on the order of its arguments |
| `Arenas.Arena.SumIdempotent` | internal/compiled/arena.go:464-476 | the union of a union with itself is the same ID |
| `Arenas.Arena.SumAssociates` | internal/compiled/arena.go:463-611 | the ID does not depend on grouping, wherever no boolean literal is hidden from its opposite |
| `Names.SortSorts` | internal/compiled/arena.go:418-425 | sorting by distinct names is a strictly ascending permutation |
| `Names.SortedUnique` | internal/compiled/arena.go:412-425 | a sorted list is determined by its elements |
| `Fingerprints.SumFingerprintUnordered` | internal/compiled/fingerprint.go:94-107 | the fingerprint of a union does not depend on member order |
| `Fingerprints.NodeEncodingAgrees` | internal/compiled/fingerprint.go:51-126 | the encoders used when interning write what the second encoder writes for the same tree |
| `Fingerprints.RowEncodingAgrees` | internal/compiled/constraint.go:699-728 | the constraint encoder over rows agrees with the one over constraint values |
| `Fingerprints.StoredFingerprint` | internal/compiled/fingerprint.go:43-126 | the fingerprint stored for an ID, complete or semantic, is that of its tree, so it is the same in every arena |
| `SemanticFingerprints.SemanticIsBare` | internal/compiled/fingerprint.go:43-126 | the semantic fingerprint of a type is that of the type without names, metadata and wrappers |
| `SemanticFingerprints.SameSemantics` | internal/compiled/fingerprint.go:43-126 | types that differ only in these have one semantic fingerprint |
| `SemanticFingerprints.BareAccepts` | internal/compiled/fingerprint.go:43-50 | and what is left out does not matter to the accepted values |
| `FingerprintLaws.ConstraintRead` | internal/compiled/constraint.go:699-728 | with atom bytes that end by themselves the encoding determines the constraint |
| `FingerprintLaws.FieldsRead` | internal/compiled/fingerprint.go:82-93 | the encoded fields of an object are read back one by one: name, optional flag, type and, where written, metadata |
| `FingerprintLaws.CompleteExact` | internal/compiled/fingerprint.go:43-126 | with a hash that never collides two types have one complete fingerprint exactly when they are the same up to the order of union members; their objects all have field metadata or none has |
| `FingerprintLaws.SemanticExact` | internal/compiled/fingerprint.go:43-126 | and one semantic fingerprint exactly when they are the same, up to that order, once names, metadata and wrappers are taken off |
| `FingerprintLaws.FieldMetadataUnmarked` | internal/compiled/fingerprint.go:82-93 | the encoding of an object does not say whether metadata follow, so an object with field metadata can be encoded like one without |
| `AtomSets.SortUnique` | internal/compiled/constraint.go:839-852 | sort and run removal keep the values, of any kinds, and leave no equal neighbours; where the comparison orders the kinds the list ascends |
| `AtomSets.Intersect` | internal/compiled/constraint.go:569-600 | the two-index walk over ascending lists gives exactly the common values, ascending, where the comparison orders the kinds of both |
| `AtomSets.CommonExact` | internal/compiled/constraint.go:569-600 | on such lists the walk meets at every common value |
| `AtomSets.IntersectExactKinds` | internal/compiled/constraint.go:569-600 | the walk is exact on all rising lists over a set of kinds exactly when the set leaves out integers, strings or decimals |
| `AtomSets.MixedKindsLost` | internal/compiled/constraint.go:569-600 | with all three kinds the walk loses a common atom: a concrete pair of lists |
| `Normalizer.Normalizer.ApplyInt` | internal/compiled/constraint.go:466-496 | one comparison tightens the integer interval to exactly the values it allows, by discreteness |
| `Normalizer.Normalizer.ApplyReal` | internal/compiled/constraint.go:497-534 | the same for real intervals, a strict bound winning at an equal value |
| `Normalizer.Normalizer.ApplyLen` | internal/compiled/constraint.go:535-568 | the same for lengths in machine integers; above the largest length the refinement is impossible |
| `Normalizer.Normalizer.ValueBound` | internal/compiled/constraint.go:406-445 | over int exactly integer literals bound a value, over real integer and decimal ones, and the record is narrowed by exactly what they allow |
| `Normalizer.Normalizer.LengthBound` | internal/compiled/constraint.go:446-465 | over strings and containers exactly the integer literals from zero to the largest 64-bit number bound a length |
| `Normalizer.Normalizer.ConsumeEnum` | internal/compiled/constraint.go:171-207 | an equality, a membership or a disjunction of them is taken exactly when it lists literals that a value of the base can be equal to |
| `Acceptance.CompatibleExact` | internal/compiled/constraint.go:897-917 | a literal is compatible with a scalar base exactly when the base admits it |
| `Acceptance.ListedExact` | internal/compiled/constraint.go:171-207 | the atoms of an enum clause can be listed exactly when all its literals fit the base |
| `Normalizer.Normalizer.AddEnum` | internal/compiled/constraint.go:569-600 | for values of any kinds the new enum is the sorted list or the walk over the old one and it; it is the intersection by value for a first enum and wherever the kinds are ordered; integers turn into decimals under real |
| `Normalizer.Normalizer.Compare` | internal/compiled/constraint.go:261-281 | a comparison is taken exactly when x or len(x) stands on one side and on the other a literal that the base compares with; it narrows the record by exactly its meaning |
| `Normalizer.Normalizer.EqualityValues` | internal/compiled/constraint.go:292-326 | an equality lists exactly the values it allows |
| `Normalizer.Normalizer.InValues` | internal/compiled/constraint.go:327-364 | a membership test lists exactly the values it allows, of any kinds |
| `Normalizer.Normalizer.ConsumeEnumOr` | internal/compiled/constraint.go:171-207 | a disjunction of equalities and memberships lists exactly the values it allows, of any kinds |
| `Normalizer.Normalizer.ConsumeChain` | internal/compiled/constraint.go:121-170 | a chain of comparisons is taken exactly when every neighbouring pair is, and narrows the record by all of them |
| `Normalizer.Normalizer.Consume` | internal/compiled/constraint.go:121-170 | a clause is taken exactly when it is a conjunction of comparisons that the base takes and of equalities and memberships that list literals of its kinds; it narrows the record by exactly its meaning; over any, what enum it leaves is stated for all literals, and the meaning where the kinds are ordered or the enum is the first |
| `Normalizer.ChainMeaning` | internal/compiled/constraint.go:249-260 | a flattened chain means what the nested comparison means |
| `Normalizer.Normalizer.Finish` | internal/compiled/constraint.go:601-655 | the in-place finish computes the finished constraint |
| `NormalForms.FinishMeaning` | internal/compiled/constraint.go:601-655 | finishing keeps the meaning, and a refinement is called impossible only when no value is left |
| `NormalForms.FinishFits` | internal/compiled/constraint.go:601-655 | what finishing returns is a constraint the base can carry, or a single integer over any |
| `NormalForms.FilterMeaning` | internal/compiled/constraint.go:631-650 | filtering the enum by the other bounds and dropping them keeps the meaning |
| `EnumClauses.ListedMeaning` | internal/compiled/constraint.go:171-364 | an equality, a membership test or a disjunction lists exactly the values that satisfy it, over every base |
| `EnumClauses.CombinedMeaning` | internal/compiled/constraint.go:569-600 | combining two enums intersects them by value, over every base and for ordered kinds over any |
| `EnumClauses.ConsumeAnyMeaning` | internal/compiled/constraint.go:121-170 | over any a clause leaves the values of the old enum that satisfy it, for ordered kinds |
| `AnyClauses.AnyClausesExact` | internal/compiled/constraint.go:93-170 | over any the normaliser is exact on all clauses with literals of a set of kinds exactly when the set leaves out integers, strings or decimals |
| `AnyClauses.ThreeKindsInexact` | internal/compiled/constraint.go:93-170 | with all three, two accepted clauses that leave only one of two values satisfying both |
| `Refinements.ExtendNormalize` | internal/compiled/constraint.go:101-111 | a clause list is taken exactly when each clause is; a base value satisfies the finished constraint exactly when it satisfies the inherited one and every clause; over any the result is stated for all clauses as the walk over their enums, which means the clauses where the kinds of the literals are ordered or one enum is listed |
| `Refinements.CompileSchema` | internal/compiled/compile.go:296-362 | compilation fails exactly when the reference is a constrained one that has no numeric base, when clauses constrain a union, or when a clause is not taken; a compiled schema accepts exactly the values that its reference hands on and that satisfy the clauses, over any, for all clauses, those in the enum they leave; it carries the metadata and the name; it is well-formed unless it only adds metadata or one integer to any |
| `Refinements.IntInheritance` | internal/compiled/constraint.go:969-976 | an integer refinement is inherited faithfully exactly when it has no enum |
| `Refinements.InheritedExact` | internal/compiled/compile.go:308-340 | a refinement of a reference starts from all that the reference accepts exactly when that is not an integer enum |
| `Refinements.InheritMeaning` | internal/compiled/compile.go:308-340 | the base and the inherited constraint together mean what the reference hands on: everything, or all integers if it is an integer enum |
| `BorrowedEnum.FilterInPlace` | internal/compiled/constraint.go:631-645 | the in-place filter of a slice gives the filtered list and leaves the rest of the table alone |
| `BorrowedEnum.BorrowedEnumIntactExact` | internal/compiled/constraint.go:978-991 | the borrowed enum is unchanged exactly when none of its atoms is in bounds or the least one is |
| `NormalFormLaws.IntSubsetExact` | internal/compiled/order.go:302-361 | on non-empty integer constraints the subset test is set inclusion, except exactly for bounds on both ends against an enum that lists every integer between them |
| `NormalFormLaws.RealSubsetExact` | internal/compiled/order.go:302-361 | for all real constraints the subset test is inclusion except exactly for: an unfinished point against an enum that lists it; intervals kept inside only by a float format that the right side asks for and the left lacks, or whose range lies within the right side's limits; and an empty interval outside the enum, format or limits |
| `NormalFormLaws.OneFormatSubsetExact` | internal/compiled/order.go:323-361 | for one float format, or none, and limits that it has, the test on intervals is inclusion |
| `NormalFormLaws.EnumSubsetExact` | internal/compiled/order.go:302-340 | for an enum on the left the test is inclusion against every right side |
| `NormalFormLaws.BoundsBelowEnumInexact` | internal/compiled/order.go:318-322 | bounds inside an enum of all their integers are not recognised: the least pair |
| `NormalFormLaws.FormatBelowBoundsInexact` | internal/compiled/order.go:323-361 | the least case of a float format whose range lies within the limits: not recognised |
| `NormalFormLaws.IntNormalFormsUnique` | internal/compiled/constraint.go:601-655 | two integer interval records finish alike exactly when they hold the same integers |
| `NormalFormLaws.RealNormalFormsUnique` | internal/compiled/constraint.go:601-655 | for all interval records and float formats: two finish alike exactly when they hold the same numbers of the format, except exactly for different records that agree once limits beyond the format are cut off, or are empty and not both seen to be |
| `NormalFormLaws.WithinUnique` | internal/compiled/constraint.go:601-655 | no two records are such an exception when the format has their limits, or there is no format |
| `NormalFormLaws.FormatRecordsKeptApart` | internal/compiled/constraint.go:601-655 | two records beyond binary32 that hold the same numbers and finish differently |
| `NormalFormLaws.EquivalentIntClauses` | internal/compiled/constraint.go:101-111 | two accepted lists of comparisons over an integer type, bounded or not, finish to the same constraint exactly when the same of its integers satisfy them |
| `NormalFormLaws.EquivalentRealClauses` | internal/compiled/constraint.go:101-111 | the same for real types with limits and float formats, with the exact exception of records kept apart |
| `NormalFormLaws.ImpossibleIntsExact` | internal/compiled/constraint.go:656-662 | an integer interval is called impossible exactly when it is empty |
| `NormalFormLaws.ImpossibleRealsExact` | internal/compiled/constraint.go:663-673 | the same for real intervals |
| `Emptiness.LengthEmptinessExact` | internal/compiled/constraint.go:601-680 | a length constraint on strings, lists, tuples or objects has no value exactly when it crosses the lengths the base has values of |
| `Emptiness.UnnoticedExact` | internal/compiled/constraint.go:601-680 | finishing sees that there is no value exactly unless the bounds cross only the lengths of the base: below zero, beyond the fields of an object, elements of a type without values |
| `Emptiness.StringEmptinessExact` | internal/compiled/constraint.go:674-680 | a length constraint on strings has no value exactly when its bounds cross or the largest is negative |
| `Emptiness.RealEmptinessExact` | internal/compiled/constraint.go:663-673 | an empty real refinement goes unnoticed exactly when more than one point is left and none of them has the float format |
| `DecimalLaws.RecognizeExact` | math/decimal/decimal.go:70-186 | the scanner accepts exactly the numbers of section 6 of RFC 8259 |
| `DecimalLaws.CanonizeExact` | math/decimal/decimal.go:130-186 | the canonical number has the exact value of the text and no leading or trailing zero digit |
| `DecimalLaws.CanonicalUnique` | math/decimal/decimal.go:49-56 | canonical numbers of equal value are identical |
| `DecimalLaws.OverflowExact` | math/decimal/decimal.go:189-294 | where canonising fails no canonical number has the value |
| `DecimalLaws.ParseExact` | math/decimal/decimal.go:78-186 | parsing succeeds exactly on numbers whose canonical exponent fits 64 bits, any exponent for zero, with the exact value |
| `DecimalParser.AbsExp` | math/decimal/decimal.go:295-300 | the magnitude of every 64-bit exponent, the least one included, without overflow |
| `DecimalParser.ExpLimit` | math/decimal/decimal.go:245-260 | a written exponent is within the limit exactly when the adjusted one fits 64 bits |
| `DecimalParser.ApplyExp` | math/decimal/decimal.go:261-294 | the adjusted exponent is the exact sum, computed without overflow |
| `DecimalParser.ReadMagnitude` | math/decimal/decimal.go:189-219 | the digit loop reports overflow exactly when the exponent exceeds the limit |
| `DecimalParser.ParseExp` | math/decimal/decimal.go:189-219 | the written exponent is accepted exactly when the sum fits |
| `DecimalParser.ScanExp` | math/decimal/decimal.go:220-244 | for zero the exponent is only scanned |
| `DecimalParser.CanonizeBuffer` | math/decimal/decimal.go:130-185 | the in-place trimming of zeros computes the canonical digits |
| `DecimalParser.CanonizeUnderText` | math/decimal/decimal.go:130-185 | when the buffer is the text, trimming touches no unread exponent character |
| `DecimalParser.Parse` | math/decimal/decimal.go:78-186 | the in-place parser returns what the specification returns for the original text, also when the buffer is the text itself |
| `DecimalOrder.CompareMagnitude` | internal/compiled/real.go:173-204 | the digit loop computes the comparison of magnitudes |
| `DecimalOrder.CompareExact` | internal/compiled/real.go:141-204 | comparison without expansion has the sign of the exact difference, for all exponents |
| `DecimalOrder.StringRoundTrip` | math/decimal/decimal.go:31-48 | parsing the text of a canonical number gives it back |
| `DecimalOrder.IntNumberValue` | internal/compiled/real.go:107-119 | an integer atom read as a decimal has its value |
| `DecimalOrder.RealFromIntExact` | internal/compiled/real.go:48-95 | an integer turned into a real atom is the one canonical decimal of its value |
| `HybridInts.CompareMagnitudeExact` | internal/compiled/integer.go:139-149 | length, then bytes, compare minimal big-endian magnitudes as numbers |
| `HybridInts.CompareIntsExact` | internal/compiled/integer.go:95-138 | the order over both forms is integer order |
| `HybridInts.CanonicalUnique` | internal/compiled/arena.go:293-317 | an integer has one representation, so equal integers intern to one atom |
| `HybridInts.FromInt` | internal/compiled/arena.go:312-318 | every integer has a canonical form, big only outside 64 bits |
| `HybridInts.Add64` | internal/compiled/integer.go:158-186 | adding a 64-bit number gives the canonical form of the true sum, without machine overflow |
| `HybridInts.AddInverse` | internal/compiled/integer.go:150-186 | adding and then subtracting a number by the 64-bit addition gives the same representation back, across the edge of the range too |
| `HybridInts.RawIntWithinBounds` | internal/compiled/arena.go:677-750 | a literal of any size is within stored bounds exactly when its integer is |
| `Precedences.StrongerRight` | parser/expr.go:11-36 | a stronger operator on the right takes the operand between |
| `Precedences.TighterBindsFirst` | parser/token/token.go:171-196 | for every pair of operators by name: multiplication binds tighter than addition, addition than a comparison, a comparison than an equality, in or match, these than and, and than or, on whichever side they stand |
| `Precedences.SameLevelJoinsLeft` | parser/token/token.go:171-196 | operators of one level, equalities apart, join to the left |
| `Precedences.TwoEqualitiesFail` | parser/token/token.go:171-196 | two of ==, !=, in and ~ in a row are an error |
| `Precedences.OthersEnd` | parser/token/token.go:171-196 | no other token continues an expression |
| `Precedences.LeftAssociative` | parser/expr.go:11-36 | operators of falling or equal precedence join to the left, equalities apart |
| `Precedences.EqualitiesDoNotChain` | parser/expr.go:31-34 | two operators of the equality level in a row are an error |
| `Precedences.SumsOfProducts` | parser/token/token.go:171-196 | a product inside a sum reads as documented |
| `Precedences.ComparisonsOfSums` | parser/token/token.go:171-196 | a comparison of sums inside a conjunction or disjunction reads as documented |
| `Parsers.Parser.Next` | parser/parser.go:54-67 | the cursor advances by one token, lookahead or not |
| `Parsers.Parser.Peek` | parser/parser.go:68-79 | one token of lookahead consumes nothing |
| `Parsers.Parser.Expr` | parser/expr.go:11-36 | the climbing loop returns what the grammar returns and stops where it stops |
| `Parsers.Parser.Unary` | parser/expr.go:37-68 | a minus sign before a number is folded into it |
| `Parsers.Parser.Call` | parser/expr.go:102-131 | a call reads its arguments up to the closing parenthesis, a trailing comma allowed |
| `Parsers.Parser.Ref` | parser/parser.go:351-405 | a dotted name becomes a path, a type name, a call or an identifier |
| `Parsers.Parser.Sequence` | parser/parser.go:227-261 | lists and tuples of values |
| `Parsers.Parser.Object` | parser/parser.go:187-226 | objects of values |
| `Parsers.Parser.SchemaForm` | parser/parser.go:281-315 | a schema: a type and its clauses |
| `Parsers.Parser.TypeSum` | parser/parser.go:316-337 | a union of types; a lone parenthesised schema is an error |
| `Parsers.Parser.Clause` | parser/parser.go:406-426 | one token of lookahead tells metadata from a constraint |
| `Parsers.ParseSource` | parser/parser.go:26-40 | the parser accepts exactly the token lists of the grammar, with the same tree |
| `Printers.Printer.Expr` | parser/ast/print.go:160-210 | an operand is written as its tokens, in parentheses exactly when its operator is weaker than the position asks, or an unknown operator is reported |
| `Printers.Printer.Node` | parser/ast/print.go:25-140 | every other node is written as its tokens |
| `Printers.PrintTree` | parser/ast/print.go:13-24 | printing writes the tokens of the tree, and fails exactly on an unknown operator |
| `Printing.RegroupOnlyAddsGroups` | parser/ast/print.go:160-210 | the tree the output stands for differs from the input only in parentheses |
| `RoundTrip.OperandReads` | parser/expr.go:11-36 | an operand printed at a precedence is read back up to the loop that follows it, for left-associative and non-associative operators |
| `RoundTrip.UnaryReads` | parser/expr.go:37-68 | a printed unary operand is read back whole, negative literals included |
| `RoundTrip.NotMetadata` | parser/parser.go:406-415 | of printed constraints only a bare name would look like metadata, which is the one the printer parenthesises |
| `RoundTrip.PrintThenParse` | parser/ast/print.go:13-24 | printing a value or schema and parsing the tokens uses all of them and returns the tree, up to added parentheses |
| `RoundTrip.PrintThenParseExpr` | parser/ast/print.go:160-210 | the same for an expression |
| `Formatting.FormattingKeepsMeaning` | parser/parser.go:26-40 | whatever parses is printed to tokens that parse to the same tree up to parentheses |
| `Formatting.ParsedPrints` | parser/ast/print.go:13-24 | the printer neither panics nor fails on a parsed tree |
| `Spelling.ParsedSpells` | parser/parser.go:26-40 | a tree that the parser returns spells its source up to trailing commas: no token is skipped, read as another or made up |
| `Spelling.TrailingComma` | parser/parser.go:227-262 | a comma behind the last element of a list or tuple changes nothing |
| `Spelling.TrailingEntry` | parser/parser.go:187-226 | nor behind the last field of an object |
| `Spelling.TrailingArgument` | parser/expr.go:102-131 | nor behind the last argument of a call |
| `Spelling.TrailingClause` | parser/parser.go:281-317 | nor behind the last clause of a schema |
| `Formatting.PrintingUnambiguous` | parser/ast/print.go:13-24 | trees that print alike differ only in parentheses |
| `Formatting.ReprintExact` | parser/ast/print.go:13-24 | a parsed tree is printed and read back unchanged, parentheses included, exactly when no minus sign stands before a number literal and no constraint is a bare name |
| `Formatting.DoubleMinusReprinted` | parser/ast/print.go:166-182 | the first of the two: minus signs before a signed number are reprinted with parentheses |
| `Formatting.DottedConstraintReprinted` | parser/parser.go:406-415 | the second: a dotted name parses as a constraint and is reprinted with parentheses |
| `Minimality.RegroupExact` | parser/ast/print.go:80-210 | on a tree without missing parentheses the printer adds none exactly in the other cases |
| `Minimality.PrintIdempotent` | parser/ast/print.go:80-210 | the tree of the output prints as the tree itself: formatting twice is formatting once |
| `Validation.CompiledIsValue` | internal/compiled/compile.go:111-256 | a literal that compiles is a well-formed concrete value |
| `Validation.CompilesExact` | internal/compiled/compile.go:111-256 | a literal compiles exactly when its integers are an optional sign and digits, its decimals are JSON numbers with a 64-bit exponent, no object gives a key twice, and nothing in it is not a literal |
| `Validation.KeyCompiled` | internal/compiled/compile.go:230-256 | each source key finds its own value among the sorted fields |
| `Validation.ValidationAgrees` | internal/compiled/validate.go:22-127 | validating a literal directly answers as validating its compiled value, through lists, objects, unions and constraints, when enums over any hold no integer without the decimal of its value |
| `Validation.ConstraintAgrees` | internal/compiled/validate.go:235-293 | a constraint holds of a literal exactly when it holds of its compiled value, under the same condition |
| `Validation.ValidatorsAgree` | internal/compiled/validate.go:13-127 | both public validators agree on every well-formed type and compiling literal, under the same condition |
| `Validation.MixedEnumExact` | internal/compiled/validate.go:283-291 | for enums over any the two validators differ exactly on a decimal that equals an integer atom and no decimal atom |
| `Validation.EnumValidatorsExact` | internal/compiled/validate.go:283-291 | for an enum over any they agree on all literals exactly when each integer atom stands beside the decimal of its value |
| `Validation.PairedMeansNone` | internal/compiled/validate.go:283-291 | in a sorted enum without duplicates that means exactly that it holds no integer |
| `ObjectWalks.SearchField` | internal/compiled/view.go:296-310 | binary search returns the position of the name, or none |
| `ObjectWalks.Pigeonhole` | internal/compiled/validate.go:214-217 | distinct known keys are at most as many as the fields, and as many only if every field is given |
| `ObjectWalks.WordBits` | internal/compiled/validate.go:200-206 | setting a bit of a word sets that bit and no other |
| `ObjectWalks.ValidObject` | internal/compiled/validate.go:175-233 | presence bits, length test and early return decide the map rule: keys unique and known, required keys present, values accepted |
| `ObjectWalks.ValidAnyFields` | internal/compiled/validate.go:155-170 | duplicate keys are found by the set of seen names |
| `ObjectWalks.StripRefinements` | internal/compiled/validate_type.go:35-45 | the loop computes the value without its refinements |
| `ObjectWalks.AcceptsObject` | internal/compiled/validate_type.go:105-122 | the walk over two sorted field lists decides the map rule |
| `TypeChecking.TypeCheckSound` | internal/compiled/typecheck.go:13-131 | reading a concrete value under a schema gives a concrete value of the same content that the schema accepts, well-formed when the schema has no float formats and no refinement of a refinement, a union or any |
| `TypeChecking.TypeCheckInContext` | internal/compiled/typecheck.go:13-131 | what is read stands in the context of the schema: a literal becomes a literal over the base of the schema or over its float format, with an atom of that base's kind; lists, tuples and objects part by part; under a union by its one member above the value; otherwise it stays |
| `TypeChecking.TenUnderReal` | internal/compiled/typecheck.go:36-46 | the integer 10 under real is the decimal 10 over real |
| `TypeChecking.RealAcceptsDecimal` | internal/compiled/typecheck.go:109-117 | turning an integer into a decimal under a real base leaves it accepted |
| `TypeChecking.InterpretExact` | internal/compiled/typecheck.go:5-11 | a concrete value is read exactly when it is valid for the schema, what is read is valid and stands in the context of the schema |
| `TypeChecking.TypeCheckBelow` | internal/compiled/typecheck.go:13-131 | reading any type below such a schema gives a well-formed type below it |
| `TypeChecking.InterpretBelow` | internal/compiled/typecheck.go:5-11 | any type is read exactly when it is below the schema, and under such a schema what is read is below it and stands in its context |
| `TypeChecking.TuplesFinishSettled` | internal/compiled/constraint.go:607-615 | finishing leaves no length on a tuple, which reading relies on |
| `Overlays.MergeExact` | internal/compiled/view.go:235-257 | the merge is sorted, duplicate-free and right-biased for every name |
| `Overlays.FieldsUnique` | internal/compiled/view.go:269-310 | a sorted field list is determined by what looking up names finds |
| `Overlays.MergeLaws` | internal/compiled/view.go:235-257 | merging is idempotent and associative, with neutral empty sides |
| `Overlays.OverlaySucceeds` | internal/compiled/view.go:200-264 | an overlay succeeds exactly where its path leads to an object |
| `Overlays.OverlayHits` | internal/compiled/view.go:200-264 | at the path stands the merged object under the same wrappers |
| `Overlays.OverlayField` | internal/compiled/view.go:200-264 | below the path a field is the patch field if there is one and otherwise the old one |
| `Overlays.OverlayMisses` | internal/compiled/view.go:113-144 | traversal off the path is unchanged |
| `Overlays.OverlayTwice` | internal/compiled/view.go:200-264 | overlaying the same patch twice equals overlaying it once |
| `Overlays.OverlayWellFormed` | internal/compiled/view.go:200-264 | an overlay of well-formed types is well-formed |
| `Views.MergeViews` | internal/compiled/view.go:235-257 | the two-index loop computes the merge |
| `Views.NewObjectView` | internal/compiled/fingerprint.go:43-92 | both fingerprints computed from cached field fingerprints are those of the tree |
| `Views.OverlayView` | internal/compiled/view.go:200-264 | the path copy denotes the updated tree, shares the rest, and caches both fingerprints an interned type of that tree has |
| `Views.OverlayViewAt` | internal/compiled/view.go:183-198 | a patch is stripped of lists and metadata wrappers; a constrained wrapper or a missing object is an error |
| `Views.TraverseView` | internal/compiled/view.go:113-144 | the nested loops follow the path through lists and refinements |

## Left out

- Refinements.ExtendNormalize: over an `any` base with two or more enums whose literals are integers, strings and decimals at once, it states the enum that results but not that this is the clauses' meaning, which is false (`AnyClauses.ThreeKindsInexact`).
- Refinements.CompileSchema: under the same condition, and for an integer enum it promises the meaning without that enum, which the code drops (`Refinements.InheritedExact`). It does not promise a well-formed result over `never`, nor when clauses constrain a reference with two layers of metadata.
- Completeness.BelowExact: leaves out a union on the right of which several members have values of one sort of the left, where the order can miss an inclusion (`CompletenessLimits.SplitUnionMissed`), and types with a part without values. Containers whose bounds leave a part unused are in `CompletenessLimits.TightExact`.
- FingerprintLaws.CompleteExact: leaves out pairs of which one has field metadata and the other not, where it is false (`FingerprintLaws.FieldMetadataUnmarked`); the hash is assumed not to collide.
- Sums.UnionAssociative: leaves out candidates of which one hides a boolean literal, where it is false (`Sums.NestingExact`).
- Validation.ValidatorsAgree: leaves out enums over `any` with an unpaired integer, where it is false (`Validation.EnumValidatorsExact`).
- Arenas.Arena.constructor: interns `bool` before `null`; no promise rests on which ID a built-in type has.
- DecimalParser.Parse: assumes that the text's length fits 64 bits, as every Go slice's does; the capacity of a Go slice is the array's length.
- DecimalOrder.RealFromIntExact: assumes that the number of decimal digits of the integer fits 64 bits.
- Arenas.Arena.InternSum: promises this for well-formed arguments, on which the subtype test is transitive.
- Parsers.Parser.Number: tokens carry no positions, so the rule that a number follows its minus sign without a space inside a JSON value is not modelled.
- Conversion of decimals to IEEE formats: f32 and f64 acceptance is a threshold on the magnitude (section 4.3.1 of IEEE 754-2019); underflow is not rejected by the code either.
- The float bounds of a constraint: declared by the code, set by no compile path.
- Fingerprints of single fields (`FieldFingerprint`, `FieldSemanticFingerprint`).
- The hash function, the bytes of an atom and the fingerprint of a metadata set: arbitrary functions.
- Metadata values, their inheritance, and field optionality clauses: a metadata set is a number.
- Node payloads are stored in their rows, not in separate tables with 32-bit offsets; IDs are unbounded.
- `math/big` and the decimal text of a big integer: mathematical integers with minimal big-endian bytes.
- Lexing, string escapes, Unicode, spans, comments, error texts and the nesting limit; the syntax tree is a value, not a table of node IDs.
- Writer errors of the printer.
- Schema expressions used as values, and lists that hold one schema: compiling and validating literals covers literals without schemas.
- Named type references, the resolver, its cache and its cycle check (internal/compiled/compile.go:416-526): external code decides the types.
- TypeChecking.TypeCheckBelow: for a type that is not a value it promises a well-formed type below the schema, not how its values correspond. Interning is left to `Arena`, so the result is a tree.
- JSON output, the schema-building library and the public wrappers.
