# SubstitutionMap: a verified model

This project models the bookkeeping and decision logic of the Swift
compiler's `SubstitutionMap` (`lib/AST/SubstitutionMap.cpp`). A substitution map
is an immutable value. It is either empty, or it holds:

- a generic signature: an ordered list of generic parameters
  `(depth, index, isPack)` and an ordered list of requirements;
- one replacement type per generic parameter;
- one conformance per conformance requirement.

The model covers several pieces of the file:

- the storage invariant;
- the two construction loops, `get(sig, IFS)` and `subst(IFS)`;
- `lookupSubstitution`;
- `lookupConformance`, with its exact-match scan and its conformance-path walk;
- `getCanonical` and `isCanonical`;
- the override-substitution callbacks;
- both callbacks of `combineSubstitutionMaps`;
- `isIdentity`.

Modules, one file each:

- `Types` (`types.dfy`): generic parameters, the type shapes the map
  inspects, the four-way conformance reference
  (Invalid / Abstract / Concrete / Pack), requirements and signatures, and
  the numbering of conformance requirements.
- `SubstMap` (`substmap.dfy`): the map value, the in-flight substitution
  driver, the compiler services used (`World`), and the operations
  `MakeMap`, `InnermostReplacementTypes`, `LookupSubstitution`, `Get`, `Subst`,
  `GetCanonical` and `IsCanonical`.
- `ConformanceLookup` (`lookup.dfy`): `SignatureConformance` and
  `LookupConformance`.
- `Combinators` (`combinators.dfy`): `QueryOverrideSubs`,
  `LookUpConformanceInOverrideSubs`, `ReplaceGenericParameter`, the
  `transformRec` re-basing and `CombineSubstitutionMaps`.
- `Identity` (`identity.dfy`): `IsIdentity`, and the lemmas about identity maps
  and the empty map.

Where the source fills a vector in a loop, or carries a counter or an
accumulator, the model has a `method` with that loop. Each such method is
proved equal to a specification function, and the lemmas are stated about
those functions.

The compiler services the file calls are fields of the `World` datatype,
each an uninterpreted total function:

- `Type::subst` on non-parameter types and through a map;
- canonicalisation;
- `requiresProtocol`, `getConformancePath` and the invertible-protocol test;
- the global `lookupConformance`;
- associated conformances of pack and concrete conformances;
- `getRootNormalConformance`;
- `hasComputedAssociatedConformances`;
- the `hasActiveRequest(ResolveTypeWitnessesRequest)` cycle guard;
- the canonical flag that `forEachParam` passes.

The queries about the shape of a type or a signature are given structural
definitions over the modelled shapes instead:

- `isTypeParameter` (`Type.IsTypeParameter`): a parameter, or a member type
  rooted in one;
- `hasError` (`Type.HasError`): an error type anywhere inside;
- `getRootGenericParam` (`Type.RootGenericParam`);
- `ArchetypeType::isRoot` (`Type.IsRootArchetype`): the interface type is a
  bare parameter;
- `isExistentialType` (`Type.IsExistential`);
- `getInnermostGenericParams().size()` (`InnermostParamCount`): the trailing
  run of parameters at the last depth;
- `getNumConformanceRequirements` (`NumConformanceRequirements`), through
  the numbering `ConformanceRequirements`;
- `PackType::getSingletonPackExpansion` (`WrappedParam`);
- `transformRec` with `replaceGenericParameter` (`RebaseType`). A generic
  parameter is re-based, or fails the whole transform when it is below the
  splice point. Member types, nominal arguments, pack elements and pack
  expansions are rebuilt. Archetypes, existentials and error types are left
  unchanged.

`HasError` and `IsTypeParameter` decide branches of the abstract step of the
path walk, of the invertible-protocol branch, of both `combineSubstitutionMaps`
fallbacks and of the pack-ness check `PackShapeOk`.

Two behaviours of the code are worth stating:

- In `combineSubstitutionMaps`, a subject type goes to the first map as soon
  as any parameter in it is below the splice point, because `transformRec`
  then fails. `RebaseTypeSucceeds` and `CombineConformance` state this.
- The path walk re-enters its first-step branch whenever the accumulator is
  Invalid (lines 314-323), so a stored Invalid conformance makes the next
  step read the signature again. `WalkPath` does the same.

## Model

| member | source | states |
|---|---|---|
| `Types.ConformanceRequirementsExact` | lib/AST/SubstitutionMap.cpp:201-203 | The numbering holds exactly the conformance requirements. Every numbered key is `(subject, protocol)` of a conformance requirement, and every conformance requirement has a key (the loops skip the other kinds). |
| `SubstMap.SubstitutionMap.GetConformances` | lib/AST/SubstitutionMap.cpp:72-75 | No conformances for the empty map. Otherwise one per conformance requirement: the stored array. |
| `SubstMap.SubstitutionMap.GetReplacementTypes` | lib/AST/SubstitutionMap.cpp:77-81 | No replacements for the empty map. Otherwise one per generic parameter: the stored array. |
| `SubstMap.SubstitutionMap.GetGenericSignature` | lib/AST/SubstitutionMap.cpp:90-92 | No signature exactly for the empty map. Otherwise the stored signature. |
| `SubstMap.ApplyInFlight` | lib/AST/SubstitutionMap.cpp:191 | `t.subst(IFS)`: a bare generic parameter is handed to the driver substitution function, and any other type goes through type substitution with the driver. |
| `SubstMap.MakeMap` | lib/AST/SubstitutionMap.cpp:45-59 | A map is formed only when there is one replacement per parameter and one conformance per conformance requirement (the asserted lengths). It stores exactly the arrays it is given. |
| `SubstMap.InnermostReplacementTypes` | lib/AST/SubstitutionMap.cpp:83-88 | Empty for the empty map. Otherwise a suffix of the replacements with one entry per innermost parameter. Each entry is the replacement of the parameter at the same position, and that parameter is at the innermost depth. |
| `SubstMap.ParamOfSubstitutable` | lib/AST/SubstitutionMap.cpp:220-233 | A parameter stands for itself. An archetype stands for a parameter exactly when it is a root archetype and is primary or pack, and that parameter is its interface type's. |
| `SubstMap.LookupSubstitution` | lib/AST/SubstitutionMap.cpp:216-249 | No type for the empty map, or for a non-root archetype, or for one that is neither primary nor pack. Otherwise no type exactly when no parameter of the signature has the same depth and index. When there is one, the result is the replacement at the position of the first such parameter. |
| `SubstMap.LookupSubstitutionPackness` | lib/AST/SubstitutionMap.cpp:189-249 | In a map whose replacements passed `get`'s pack assertion, a parameter's replacement is found, and it is a pack exactly when the parameter is a pack (unless it has an error). |
| `SubstMap.GetSpec` | lib/AST/SubstitutionMap.cpp:179-214 | `get` on a null signature is the empty map. Otherwise the map is over that signature and satisfies the storage invariant. |
| `SubstMap.ConformanceForRequirement` | lib/AST/SubstitutionMap.cpp:205-209 | When canonicalisation keeps type parameters as they are, the conformance stored for a requirement on a type parameter is the driver's lookup for that subject and its substitution. For a bare parameter, the substitution is the driver's own replacement. |
| `SubstMap.Get` | lib/AST/SubstitutionMap.cpp:179-214 | The two loops build a valid map over the signature. Replacement i is the driver's image of parameter i. Conformance k resolves the k-th conformance requirement's canonical subject and its substitution through the driver. Every replacement keeps its parameter's pack-ness. |
| `SubstMap.GetThenLookup` | lib/AST/SubstitutionMap.cpp:186-248 | Looking up a parameter in the map `get` built returns the driver's replacement for it (when no earlier parameter has the same depth and index). |
| `SubstMap.SubstConformanceAt` | lib/AST/SubstitutionMap.cpp:419-432 | A concrete conformance, with opaque archetypes left alone, becomes the substituted concrete conformance. Any other conformance is substituted against the requirement's subject substituted through this map. |
| `SubstMap.SubstConcreteSkipsSubjectType` | lib/AST/SubstitutionMap.cpp:419-427 | The fast path never computes the substituted subject. Its result stays concrete and is the same under any type substitution, as long as concrete conformances are substituted the same way. |
| `SubstMap.SubstSpec` | lib/AST/SubstitutionMap.cpp:402-439 | `subst` keeps the signature, keeps the storage invariant, and maps empty to empty. |
| `SubstMap.Subst` | lib/AST/SubstitutionMap.cpp:402-439 | The loop that consumes the old conformances one conformance requirement at a time uses them all (the source asserts the slice ends empty). The result is the specified map, and every replacement keeps its pack-ness. |
| `SubstMap.SubstIdentityDriver` | lib/AST/SubstitutionMap.cpp:402-439 | Substituting with a driver that changes no type and no conformance gives back the same map. |
| `SubstMap.CanonicalSpec` | lib/AST/SubstitutionMap.cpp:130-149 | `getCanonical` keeps the storage invariant and maps empty to empty. |
| `SubstMap.GetCanonical` | lib/AST/SubstitutionMap.cpp:130-149 | The loops canonicalise every replacement and every conformance, and the signature when asked to. |
| `SubstMap.IsCanonical` | lib/AST/SubstitutionMap.cpp:112-128 | True exactly when the map is empty, or when its signature, every replacement and every conformance are canonical. |
| `SubstMap.CanonicalIdempotent` | lib/AST/SubstitutionMap.cpp:130-149 | `getCanonical` applied twice equals applying it once, given that the compiler's canonicalisations are idempotent. |
| `SubstMap.CanonicalIsCanonical` | lib/AST/SubstitutionMap.cpp:112-149 | The result of `getCanonical(true)` passes `isCanonical`, given that the compiler's canonicalisations produce canonical values. |
| `ConformanceLookup.SignatureConformanceSpec` | lib/AST/SubstitutionMap.cpp:271-286 | No result exactly when no conformance requirement is `(type, proto)`. Otherwise the result is the conformance stored at the position of the first such requirement, counting conformance requirements only. |
| `ConformanceLookup.SignatureConformance` | lib/AST/SubstitutionMap.cpp:271-286 | The scan with a running index that skips other requirement kinds returns exactly that conformance. |
| `ConformanceLookup.MapOutOfContext` | lib/AST/SubstitutionMap.cpp:256-262 | A non-opaque archetype is replaced by its interface type. Only such an archetype is changed. |
| `ConformanceLookup.WalkPath` | lib/AST/SubstitutionMap.cpp:311-379 | The walk along the rest of a path: an exhausted path gives the accumulator. An abstract accumulator with a step left ends the walk as Abstract(P) or as the global lookup of the substituted type. |
| `ConformanceLookup.AbstractStep` | lib/AST/SubstitutionMap.cpp:328-343 | From an abstract accumulator: a substituted type with an error gives Abstract(P). A concrete substituted type (not a type parameter, not existential, not an archetype without a superclass) gives the global lookup. A type parameter, an existential or an archetype without a superclass gives Abstract(P). |
| `ConformanceLookup.LookupConformanceSpec` | lib/AST/SubstitutionMap.cpp:251-380 | The empty map, and any type that is not a type parameter once mapped out of its environment, give Invalid. |
| `ConformanceLookup.LookupConformance` | lib/AST/SubstitutionMap.cpp:251-380 | The implementation, with the path walk as a loop over an accumulator, returns exactly the specified conformance. |
| `ConformanceLookup.ExactMatchPrecedence` | lib/AST/SubstitutionMap.cpp:288-291 | If the k-th conformance requirement is the first to state `T : P`, the lookup returns the k-th stored conformance, whatever the path, the requirement machine or the global table would say. |
| `ConformanceLookup.ArchetypeLooksUpAsInterfaceType` | lib/AST/SubstitutionMap.cpp:256-262 | A non-opaque archetype is looked up as its interface type. |
| `ConformanceLookup.MissingConformance` | lib/AST/SubstitutionMap.cpp:293-298 | When the signature neither states `T : P` nor requires it, the result is the missing-or-invalid value for the substituted type. |
| `ConformanceLookup.FirstStepMustBeDirect` | lib/AST/SubstitutionMap.cpp:314-323 | A path whose first step is not stated by the signature gives Invalid. |
| `ConformanceLookup.AbstractAtAnyStep` | lib/AST/SubstitutionMap.cpp:325-343 | Whenever the accumulator is abstract and a step is left, at any position, the result is the abstract rule: abstract, or the global lookup of a concrete substituted type. |
| `ConformanceLookup.AbstractAssociatedDecides` | lib/AST/SubstitutionMap.cpp:325-376 | A concrete step whose associated conformance comes back abstract, with the cycle guard not firing, hands the result to the abstract rule at the next step. |
| `ConformanceLookup.AbstractFirstStep` | lib/AST/SubstitutionMap.cpp:314-343 | An abstract conformance stored for the first step hands the result to the abstract rule at the second step. |
| `ConformanceLookup.CycleGuardGivesInvalid` | lib/AST/SubstitutionMap.cpp:357-371 | A concrete accumulator whose root conformance has not computed its associated conformances, while its type-witness request is active, gives Invalid. |
| `ConformanceLookup.InvalidStepEndsWalk` | lib/AST/SubstitutionMap.cpp:345-376 | An Invalid associated conformance at a pack or concrete step ends the walk with Invalid. |
| `ConformanceLookup.AbstractMapWalk` | lib/AST/SubstitutionMap.cpp:311-379 | If every stored conformance is abstract, a walk from an Invalid or abstract accumulator ends Invalid, abstract, or with the global lookup of the substituted type. |
| `ConformanceLookup.AbstractMapLookup` | lib/AST/SubstitutionMap.cpp:251-380 | The same holds for the whole lookup of a type parameter whose conformance the signature requires. |
| `Combinators.QueryOverrideSubs` | lib/AST/SubstitutionMap.cpp:513-530 | A parameter at depth >= BaseDepth maps to the derived list's entry at its index when that list exists. Otherwise it maps to a parameter at the same offset above OrigDepth, with the same index and pack-ness. Anything else goes through BaseSubMap. |
| `Combinators.LookUpConformanceInOverrideSubs` | lib/AST/SubstitutionMap.cpp:532-546 | A subject rooted at depth >= BaseDepth is Abstract(P). Otherwise the result is BaseSubMap's conformance when valid, else Abstract(P) for a type-parameter substituted type, else the global lookup. It is never Invalid unless the global lookup is. |
| `Combinators.OverrideWithoutBaseSubstitutions` | lib/AST/SubstitutionMap.cpp:532-546 | With an empty BaseSubMap every conformance is Abstract(P) or the global lookup. |
| `Combinators.OverrideIsDepthSplice` | lib/AST/SubstitutionMap.cpp:513-530 | Without a derived parameter list, override re-basing of a member-owned parameter equals the AtDepth splice from BaseDepth to OrigDepth. |
| `Combinators.ReplaceGenericParameter` | lib/AST/SubstitutionMap.cpp:572-592 | Not a parameter exactly for non-parameters. In AtDepth mode a parameter is below the splice exactly when depth < firstDepth; otherwise it is re-based to the same offset above secondDepth, with index and pack-ness kept. AtIndex mode is the same with the index. |
| `Combinators.RebaseRoundTrip` | lib/AST/SubstitutionMap.cpp:572-592 | Re-basing back with the two offsets swapped returns the original parameter. |
| `Combinators.RebaseType` | lib/AST/SubstitutionMap.cpp:572-603 | `transformRec` on a bare parameter succeeds exactly when `replaceGenericParameter` re-bases it. |
| `Combinators.RebaseTypeSucceeds` | lib/AST/SubstitutionMap.cpp:572-605 | `transformRec` succeeds exactly when no parameter anywhere in the type is below the splice point. So a single such parameter sends the subject to the first map. |
| `Combinators.RebaseTypeRoundTrip` | lib/AST/SubstitutionMap.cpp:572-605 | Re-basing a whole type with `transformRec` and then re-basing the result back with the offsets swapped gives back the original type. |
| `Combinators.RebaseTypeParameter` | lib/AST/SubstitutionMap.cpp:603-605 | `transformRec` over a type parameter succeeds exactly when its root parameter is at or above the splice, and the result is rooted at the re-based root. |
| `Combinators.CombineReplacement` | lib/AST/SubstitutionMap.cpp:594-601 | A non-parameter, or a parameter below the splice point (depth < first for AtDepth, index < first for AtIndex), is substituted through the first map. Any other parameter is moved to depth + second - first (AtDepth) or index + second - first (AtIndex), keeping the rest, and substituted through the second map. |
| `Combinators.CombineConformance` | lib/AST/SubstitutionMap.cpp:602-645 | A type parameter rooted at or above the splice point is looked up in the second map, as the moved dependent type, whose root parameter is at depth + second - first (AtDepth) or index + second - first (AtIndex). Any subject with no parameter below the splice point goes to the second map. A subject with one goes to the first map when it has a valid conformance, else gives Abstract(P) for a type-parameter substituted type, else the global lookup. |
| `Combinators.CombineConformanceSplit` | lib/AST/SubstitutionMap.cpp:602-608 | A subject rooted below the splice point gets the first map's (valid) conformance. |
| `Combinators.CombineDriver` | lib/AST/SubstitutionMap.cpp:164-169 | The driver `get` receives from `combineSubstitutionMaps` (an `InFlightSubstitution` with default options): the replacement callback, the conformance callback, and no substitution of opaque archetypes. |
| `Combinators.CombineSubstitutionMaps` | lib/AST/SubstitutionMap.cpp:563-646 | The combined map is what `get` builds with the combine driver. It is valid and over the target signature. Parameter i below the threshold is replaced through the first map. Otherwise it is rebuilt at depth + second - first (AtDepth) or index + second - first (AtIndex), with the rest kept, and replaced through the second map. Conformance k comes from the combined conformance callback. |
| `Combinators.CombinedConformanceBelowSplice` | lib/AST/SubstitutionMap.cpp:594-608 | In the combined map, a requirement on a type parameter rooted below the splice point keeps the first map's valid conformance (canonicalisation keeping type parameters as they are). |
| `Combinators.CombinedConformanceAboveSplice` | lib/AST/SubstitutionMap.cpp:594-605 | In the combined map, a requirement on a type parameter rooted at or above the splice point is answered by the second map for the moved type parameter, whose root is the re-based root. |
| `Identity.IsIdentity` | lib/AST/SubstitutionMap.cpp:726-762 | True exactly when the map is empty, or when two things hold. Every conformance is abstract or a one-element pack of an abstract one. Every canonical parameter's replacement is the parameter itself, wrapped as a singleton pack expansion when it is a pack. |
| `Identity.IdentityMapIsIdentity` | lib/AST/SubstitutionMap.cpp:726-762 | The map of parameters to themselves with abstract conformances is an identity map. |
| `Identity.GetWithIdentityDriverIsIdentity` | lib/AST/SubstitutionMap.cpp:179-214 | `get` with a driver that maps each parameter to itself and answers abstractly builds exactly that identity map. |
| `Identity.IdentityLookupSubstitution` | lib/AST/SubstitutionMap.cpp:743-757 | In an identity map, looking up a canonical parameter gives the parameter itself (its singleton pack for a pack). |
| `Identity.IdentityDirectConformance` | lib/AST/SubstitutionMap.cpp:730-741 | In an identity map, a directly stated conformance comes back abstract or as a singleton pack of an abstract conformance. |
| `Identity.EmptyMapIsInert` | lib/AST/SubstitutionMap.cpp:216-254 | The empty map gives no substitution and an Invalid conformance (lines 217 and 253). `subst` and `getCanonical` give back the empty map (lines 403 and 131). It is an identity map (line 727). Its innermost replacements are empty (line 84). |

## Left out

- Storage interning (`Storage::get`), `profile`, and the thread safety of the uniquing table. Maps are plain values here.
- `verify()` (lines 648-720). It is a debug-only checker against concrete conformance types that are not modelled.
- `getOverrideSubstitutions` for declarations (lines 450-475), the `OverrideSubsInfo` constructor (lines 477-511) and the nominal overload (lines 548-561). The model takes `BaseDepth`, `OrigDepth`, the derived parameter list and `BaseSubMap` as inputs to the two callbacks. The composite call to `get` is not formed, because indexing the derived parameter list is only defined for in-range indices.
- The convenience overloads `get(sig, SubstitutionMap)`, `get(sig, types, lookup)`, `subst(SubstitutionMap)` and `subst(fn, fn)`, and also `getProtocolSubstitutions`, `mapReplacementTypesOutOfContext`, `mapIntoTypeExpansionContext`, `getRecursiveProperties` and `hasAnySubstitutableParams`. These are thin wrappers over the modelled operations or over external type properties. The wrapper `get(sig, subs, lookup)` (lines 164-169) is modelled only where `combineSubstitutionMaps` uses it, as `CombineDriver`.
- `Type::subst`, `getCanonicalType`, `getConformancePath`, `requiresProtocol`, the global conformance lookup, `forMissingOrInvalid`, and pack and concrete associated conformances. These are uninterpreted functions in `World`. So properties that depend on their results, such as associativity of composition or the pack and override scenarios with concrete witnesses, are not stated.
- `SubstOptions` passed to `origType.subst(*this, options)` inside `subst`. The model's substitution through a map takes no options.
- A null `Type()` replacement is not representable. The `get` assertion's allowance for a null replacement is therefore not modelled.
- `Get`: the pack-ness assertion in `get` and the one in `subst` are modelled as preconditions on the driver, since release builds do not check them.
- `QueryOverrideSubs`: the debug assertion `depth == BaseDepth` is not a requirement of the model.
- `LookupSubstitution`: `GenericParamKey::findIndexIn` is not part of this model. It is modelled as the first position with the same depth and index, which agrees with a search over the signature's sorted, duplicate-free parameter list.
- The interface type of an archetype is taken to be canonical already, so `getCanonicalType()` on it is not applied.
- `CombinedConformanceBelowSplice`, `CombinedConformanceAboveSplice`, `ConformanceForRequirement`: the facts about stored conformances hold when canonicalisation leaves type parameters as they are (`CanonicalKeepsTypeParameters`). The model has no type sugar, so that is what canonicalisation does to them, but `World` does not force it.
- Depths and indices are unbounded naturals. The 32-bit `unsigned` offset arithmetic in the re-basing cannot underflow on the branches taken, and overflow is not modelled.
- `CanonicalIdempotent` and `CanonicalIsCanonical` hold under hypotheses about the compiler's canonicalisation, which is not modelled.
