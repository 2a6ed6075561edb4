/** The substitution map value, the compiler services it consumes, and the
    operations that build a map from a signature or from another map. */
module SubstMap {
  import opened Types

  /** A substitution map: either the empty map (no signature), or a
      signature with one replacement type per generic parameter and one
      conformance per conformance requirement, in signature order. */
  datatype SubstitutionMap =
    | EmptyMap
    | Map(sig: GenericSignature, replacementTypes: seq<Type>, conformances: seq<Conformance>)
  {
    /** The storage invariant asserted when a map is formed. */
    predicate Valid() {
      Map? ==> |replacementTypes| == |sig.params| && |conformances| == NumConformanceRequirements(sig)
    }

    predicate Empty() { EmptyMap? }

    /** No signature exactly for the empty map. */
    function GetGenericSignature(): (r: Option<GenericSignature>)
      ensures r.None? <==> Empty()
      ensures Map? ==> r == Some(sig)
    {
      if EmptyMap? then None else Some(sig)
    }

    /** One replacement per generic parameter; none for the empty map. */
    function GetReplacementTypes(): (r: seq<Type>)
      ensures Empty() ==> r == []
      ensures Valid() && Map? ==> |r| == |sig.params| && r == replacementTypes
    {
      if EmptyMap? then [] else replacementTypes
    }

    /** One conformance per conformance requirement; none for the empty map. */
    function GetConformances(): (r: seq<Conformance>)
      ensures Empty() ==> r == []
      ensures Valid() && Map? ==> |r| == NumConformanceRequirements(sig) && r == conformances
    {
      if EmptyMap? then [] else conformances
    }
  }

  /** The in-flight substitution driver: how a substitutable type is replaced,
      how a conformance of a substituted type is found, and whether opaque
      result types are substituted too. */
  datatype InFlight = InFlight(
    substFn: Type -> Type,
    lookupFn: (Type, Type, Protocol) -> Conformance,
    substituteOpaque: bool)

  /** The compiler services this file calls but does not define. */
  datatype World = World(
    // Type::subst(IFS) on a type that is not a bare generic parameter.
    substThrough: (Type, InFlight) -> Type,
    // Type::subst(SubstitutionMap).
    substInMap: (SubstitutionMap, Type) -> Type,
    // ProtocolConformance::subst(IFS) on a concrete conformance.
    substConcrete: (Witness, InFlight) -> Witness,
    // ProtocolConformanceRef::subst(substType, IFS).
    substConformance: (Conformance, Type, InFlight) -> Conformance,
    canonicalType: Type -> Type,
    canonicalConformance: Conformance -> Conformance,
    canonicalSignature: GenericSignature -> GenericSignature,
    isCanonicalType: Type -> bool,
    isCanonicalConformance: Conformance -> bool,
    isCanonicalSignature: GenericSignature -> bool,
    // The flag forEachParam passes: the parameter is not fixed by a same-type requirement.
    isCanonicalParam: (GenericSignature, GenericParam) -> bool,
    // swift::lookupConformance, the global nominal conformance table.
    globalLookup: (Type, Protocol) -> Conformance,
    // ProtocolConformanceRef::forMissingOrInvalid.
    missingOrInvalid: (Type, Protocol) -> Conformance,
    requiresProtocol: (GenericSignature, Type, Protocol) -> bool,
    isInvertible: Protocol -> bool,
    conformancePath: (GenericSignature, Type, Protocol) -> seq<ConformanceKey>,
    // PackConformance::getAssociatedConformance, over the pattern conformances.
    packAssociated: (seq<Conformance>, Type, Protocol) -> Conformance,
    // ProtocolConformance::getAssociatedConformance.
    concreteAssociated: (Witness, Type, Protocol) -> Conformance,
    rootNormal: Witness -> Witness,
    hasComputedAssociatedConformances: Witness -> bool,
    // evaluator.hasActiveRequest(ResolveTypeWitnessesRequest{normal}).
    typeWitnessRequestActive: Witness -> bool)

  /** `t.subst(IFS)`: a bare generic parameter goes to the driver's substitution
      function; any other type goes through the type substitution machinery. */
  function ApplyInFlight(w: World, t: Type, ifs: InFlight): (r: Type)
    ensures t.Param? ==> r == ifs.substFn(t)
    ensures !t.Param? ==> r == w.substThrough(t, ifs)
  {
    if t.Param? then ifs.substFn(t) else w.substThrough(t, ifs)
  }

  /** The storage constructor: the arrays must match the signature's counts. */
  function MakeMap(sig: GenericSignature, replacementTypes: seq<Type>, conformances: seq<Conformance>): (m: SubstitutionMap)
    requires |replacementTypes| == |sig.params|
    requires |conformances| == NumConformanceRequirements(sig)
    ensures m.Valid() && !m.Empty()
    ensures m.GetGenericSignature() == Some(sig)
    ensures m.GetReplacementTypes() == replacementTypes && m.GetConformances() == conformances
  {
    Map(sig, replacementTypes, conformances)
  }

  /** The replacement types of the innermost generic parameters (those at the
      greatest depth), which are the trailing ones. */
  function InnermostReplacementTypes(m: SubstitutionMap): (r: seq<Type>)
    requires m.Valid()
    ensures m.Empty() ==> r == []
    ensures m.Map? ==> |r| == InnermostParamCount(m.sig.params)
    ensures m.Map? ==> r <= m.replacementTypes[|m.replacementTypes| - |r|..]
    ensures m.Map? ==> forall j :: 0 <= j < |r| ==>
              var i := |m.sig.params| - |r| + j;
              r[j] == m.replacementTypes[i] && m.sig.params[i].depth == m.sig.params[|m.sig.params| - 1].depth
  {
    if m.Empty() then []
    else
      var n := InnermostParamCount(m.sig.params);
      m.replacementTypes[|m.replacementTypes| - n..]
  }

  /** The generic parameter a substitutable type stands for: the parameter
      itself, or the interface type of a root primary or pack archetype. */
  function ParamOfSubstitutable(t: Type): (r: Option<GenericParam>)
    requires t.Param? || t.Archetype?
    ensures t.Param? ==> r == Some(t.gp)
    ensures t.Archetype? ==> (r.Some? <==> t.IsRootArchetype() && (t.kind == Primary || t.kind == PackArchetype))
    ensures t.Archetype? && r.Some? ==> r.value == t.interfaceType.gp
  {
    if t.Param? then Some(t.gp)
    else if !t.IsRootArchetype() then None
    else if t.kind != Primary && t.kind != PackArchetype then None
    else Some(t.interfaceType.gp)
  }

  /** lookupSubstitution: the replacement stored at the parameter's position. */
  function LookupSubstitution(m: SubstitutionMap, t: Type): (r: Option<Type>)
    requires m.Valid()
    requires t.Param? || t.Archetype?
    ensures m.Empty() ==> r == None
    ensures ParamOfSubstitutable(t).None? ==> r == None
    ensures m.Map? && ParamOfSubstitutable(t).Some? ==>
              var gp := ParamOfSubstitutable(t).value;
              && (r.None? <==> forall i :: 0 <= i < |m.sig.params| ==> !SameKey(m.sig.params[i], gp))
              && (r.Some? ==> exists i :: 0 <= i < |m.sig.params| && SameKey(m.sig.params[i], gp)
                                        && (forall j :: 0 <= j < i ==> !SameKey(m.sig.params[j], gp))
                                        && r.value == m.replacementTypes[i])
  {
    if m.Empty() then None
    else match ParamOfSubstitutable(t)
      case None => None
      case Some(gp) =>
        var i := FindParamIndex(m.sig.params, gp);
        if i == |m.sig.params| then None else Some(m.replacementTypes[i])
  }

  /** The pack-ness assertion of `get`: a pack parameter is replaced by a pack
      type and any other by a non-pack, unless the replacement has an error. */
  predicate PackShapeOk(gp: GenericParam, t: Type) {
    t.HasError() || (gp.isPack <==> t.Pack?)
  }

  predicate ReplacementsMatchPackness(m: SubstitutionMap)
    requires m.Valid()
  {
    m.Map? ==> forall i :: 0 <= i < |m.sig.params| ==> PackShapeOk(m.sig.params[i], m.replacementTypes[i])
  }

  /** A replacement found for a parameter of a well-formed map has its pack-ness. */
  lemma LookupSubstitutionPackness(m: SubstitutionMap, gp: GenericParam)
    requires m.Valid() && m.Map? && ReplacementsMatchPackness(m)
    requires exists i :: 0 <= i < |m.sig.params| && m.sig.params[i] == gp
    requires forall i, j :: 0 <= i < j < |m.sig.params| ==> !SameKey(m.sig.params[i], m.sig.params[j])
    ensures LookupSubstitution(m, Param(gp)).Some?
    ensures var t := LookupSubstitution(m, Param(gp)).value; t.HasError() || (gp.isPack <==> t.Pack?)
  {
    var i :| 0 <= i < |m.sig.params| && m.sig.params[i] == gp;
    assert FindParamIndex(m.sig.params, gp) == i;
  }

  // ----- get(GenericSignature, InFlightSubstitution&) -----

  /** Canonicalisation leaves a type parameter as it is: the modelled types
      carry no sugar, so a type parameter is already canonical. */
  ghost predicate CanonicalKeepsTypeParameters(w: World) {
    forall t: Type :: t.IsTypeParameter() ==> w.canonicalType(t) == t
  }

  /** The conformance `get` stores for one conformance requirement: the
      driver's lookup for the canonical subject and its substitution. */
  function ConformanceForRequirement(w: World, ifs: InFlight, req: ConformanceKey): (r: Conformance)
    ensures CanonicalKeepsTypeParameters(w) && req.subject.IsTypeParameter() ==>
              r == ifs.lookupFn(req.subject, ApplyInFlight(w, req.subject, ifs), req.proto)
    ensures CanonicalKeepsTypeParameters(w) && req.subject.Param? ==>
              r == ifs.lookupFn(req.subject, ifs.substFn(req.subject), req.proto)
  {
    var depTy := w.canonicalType(req.subject);
    ifs.lookupFn(depTy, ApplyInFlight(w, depTy, ifs), req.proto)
  }

  /** What `get(sig, IFS)` builds. */
  function GetSpec(w: World, sig: Option<GenericSignature>, ifs: InFlight): (m: SubstitutionMap)
    ensures m.Valid()
    ensures m.Empty() <==> sig.None?
    ensures sig.Some? ==> m.sig == sig.value
  {
    match sig
    case None => EmptyMap
    case Some(s) =>
      var keys := ConformanceRequirements(s.requirements);
      Map(s,
          seq(|s.params|, i requires 0 <= i < |s.params| => ifs.substFn(Param(s.params[i]))),
          seq(|keys|, k requires 0 <= k < |keys| => ConformanceForRequirement(w, ifs, keys[k])))
  }

  /** get(sig, IFS): substitute every parameter, then resolve every conformance
      requirement, in signature order. */
  method Get(w: World, sig: Option<GenericSignature>, ifs: InFlight) returns (m: SubstitutionMap)
    requires sig.Some? ==> forall i :: 0 <= i < |sig.value.params| ==>
               PackShapeOk(sig.value.params[i], ifs.substFn(Param(sig.value.params[i])))
    ensures m == GetSpec(w, sig, ifs)
    ensures m.Valid() && ReplacementsMatchPackness(m)
    ensures sig.Some? ==> forall i :: 0 <= i < |sig.value.params| ==>
              m.replacementTypes[i] == ifs.substFn(Param(sig.value.params[i]))
    ensures sig.Some? ==> forall k :: 0 <= k < |m.conformances| ==>
              m.conformances[k] == ConformanceForRequirement(w, ifs, ConformanceRequirements(sig.value.requirements)[k])
  {
    if sig.None? {
      return EmptyMap;
    }
    var s := sig.value;
    var replacementTypes: seq<Type> := [];
    for i := 0 to |s.params|
      invariant |replacementTypes| == i
      invariant forall j :: 0 <= j < i ==> replacementTypes[j] == ifs.substFn(Param(s.params[j]))
    {
      var replacement := ifs.substFn(Param(s.params[i]));
      assert PackShapeOk(s.params[i], replacement);
      replacementTypes := replacementTypes + [replacement];
    }
    var conformances: seq<Conformance> := [];
    for j := 0 to |s.requirements|
      invariant var done := ConformanceRequirements(s.requirements[..j]);
        |conformances| == |done| &&
        forall k :: 0 <= k < |done| ==> conformances[k] == ConformanceForRequirement(w, ifs, done[k])
    {
      ConformanceRequirementsStep(s.requirements, j);
      var req := s.requirements[j];
      if !req.IsConformance() {
        continue;
      }
      var depTy := w.canonicalType(req.subject);
      var replacement := ApplyInFlight(w, depTy, ifs);
      var conformance := ifs.lookupFn(depTy, replacement, req.proto);
      conformances := conformances + [conformance];
    }
    assert s.requirements[..|s.requirements|] == s.requirements;
    m := MakeMap(s, replacementTypes, conformances);
  }

  /** Looking a parameter up in the map `get` built returns what the driver
      gave for it, when no earlier parameter has the same depth and index. */
  lemma GetThenLookup(w: World, sig: GenericSignature, ifs: InFlight, i: nat)
    requires i < |sig.params|
    requires forall j :: 0 <= j < i ==> !SameKey(sig.params[j], sig.params[i])
    ensures LookupSubstitution(GetSpec(w, Some(sig), ifs), Param(sig.params[i])) == Some(ifs.substFn(Param(sig.params[i])))
  {
    assert FindParamIndex(sig.params, sig.params[i]) == i;
  }

  // ----- subst(InFlightSubstitution&) -----

  /** The new conformance `subst` forms for the k-th conformance requirement:
      a concrete conformance is substituted directly unless opaque result
      types are being substituted; otherwise the requirement's subject is
      substituted through this map and the old conformance through the driver. */
  function SubstConformanceAt(w: World, m: SubstitutionMap, ifs: InFlight, k: nat): (c: Conformance)
    requires m.Valid() && m.Map? && k < |m.conformances|
    ensures m.conformances[k].Concrete? && !ifs.substituteOpaque ==>
              c == Concrete(w.substConcrete(m.conformances[k].concrete, ifs))
    ensures !(m.conformances[k].Concrete? && !ifs.substituteOpaque) ==>
              c == w.substConformance(m.conformances[k],
                     w.substInMap(m, ConformanceRequirements(m.sig.requirements)[k].subject), ifs)
  {
    var conformance := m.conformances[k];
    if conformance.Concrete? && !ifs.substituteOpaque then
      Concrete(w.substConcrete(conformance.concrete, ifs))
    else
      var origType := ConformanceRequirements(m.sig.requirements)[k].subject;
      w.substConformance(conformance, w.substInMap(m, origType), ifs)
  }

  /** The fast path never looks at the requirement's subject: a concrete
      conformance substituted without opaque archetypes depends only on how
      concrete conformances are substituted, not on type substitution. */
  lemma SubstConcreteSkipsSubjectType(w: World, w': World, m: SubstitutionMap, ifs: InFlight, k: nat)
    requires m.Valid() && m.Map? && k < |m.conformances|
    requires m.conformances[k].Concrete? && !ifs.substituteOpaque
    requires w'.substConcrete == w.substConcrete
    ensures SubstConformanceAt(w, m, ifs, k) == SubstConformanceAt(w', m, ifs, k)
    ensures SubstConformanceAt(w, m, ifs, k).Concrete?
  {
  }

  /** What `subst(IFS)` builds. */
  function SubstSpec(w: World, m: SubstitutionMap, ifs: InFlight): (r: SubstitutionMap)
    requires m.Valid()
    ensures r.Valid()
    ensures r.Empty() <==> m.Empty()
    ensures m.Map? ==> r.sig == m.sig
  {
    if m.Empty() then EmptyMap
    else
      Map(m.sig,
          seq(|m.replacementTypes|, i requires 0 <= i < |m.replacementTypes| => ApplyInFlight(w, m.replacementTypes[i], ifs)),
          seq(|m.conformances|, k requires 0 <= k < |m.conformances| => SubstConformanceAt(w, m, ifs, k)))
  }

  /** subst(IFS): substitute every replacement type, then walk the conformance
      requirements while consuming the old conformances one at a time. */
  method Subst(w: World, m: SubstitutionMap, ifs: InFlight) returns (r: SubstitutionMap)
    requires m.Valid()
    requires m.Map? ==> forall i :: 0 <= i < |m.replacementTypes| ==>
               m.replacementTypes[i].Pack? == ApplyInFlight(w, m.replacementTypes[i], ifs).Pack?
    ensures r == SubstSpec(w, m, ifs)
    ensures m.Map? ==> forall i :: 0 <= i < |m.replacementTypes| ==>
              r.replacementTypes[i].Pack? == m.replacementTypes[i].Pack?
  {
    if m.Empty() {
      return EmptyMap;
    }
    var newSubs: seq<Type> := [];
    for i := 0 to |m.replacementTypes|
      invariant |newSubs| == i
      invariant forall j :: 0 <= j < i ==> newSubs[j] == ApplyInFlight(w, m.replacementTypes[j], ifs)
    {
      newSubs := newSubs + [ApplyInFlight(w, m.replacementTypes[i], ifs)];
    }
    var newConformances: seq<Conformance> := [];
    var oldConformances := m.conformances;
    var reqs := m.sig.requirements;
    ConformanceRequirementsPrefix(reqs, 0);
    for j := 0 to |reqs|
      invariant var done := ConformanceRequirements(reqs[..j]);
        |newConformances| == |done| && |done| <= |m.conformances| &&
        oldConformances == m.conformances[|done|..] &&
        forall k :: 0 <= k < |done| ==> newConformances[k] == SubstConformanceAt(w, m, ifs, k)
    {
      ConformanceRequirementsStep(reqs, j);
      ConformanceRequirementsPrefix(reqs, j + 1);
      var req := reqs[j];
      if !req.IsConformance() {
        continue;
      }
      var conformance := oldConformances[0];
      var newConformance;
      if conformance.Concrete? && !ifs.substituteOpaque {
        newConformance := Concrete(w.substConcrete(conformance.concrete, ifs));
      } else {
        var substType := w.substInMap(m, req.subject);
        newConformance := w.substConformance(conformance, substType, ifs);
      }
      newConformances := newConformances + [newConformance];
      oldConformances := oldConformances[1..];
    }
    assert reqs[..|reqs|] == reqs;
    assert |oldConformances| == 0;
    r := MakeMap(m.sig, newSubs, newConformances);
  }

  /** Substituting with a driver that changes nothing gives back the same map. */
  lemma SubstIdentityDriver(w: World, m: SubstitutionMap, ifs: InFlight)
    requires m.Valid()
    requires forall t :: ApplyInFlight(w, t, ifs) == t
    requires forall c :: w.substConcrete(c, ifs) == c
    requires forall c, t :: w.substConformance(c, t, ifs) == c
    ensures SubstSpec(w, m, ifs) == m
  {
    if m.Map? {
      var r := SubstSpec(w, m, ifs);
      assert r.replacementTypes == m.replacementTypes;
      assert forall k :: 0 <= k < |m.conformances| ==> SubstConformanceAt(w, m, ifs, k) == m.conformances[k];
      assert r.conformances == m.conformances;
    }
  }

  // ----- getCanonical / isCanonical -----

  /** The canonical signature keeps the parameter and conformance-requirement counts. */
  predicate CanonicalSignatureFits(w: World, m: SubstitutionMap) {
    m.Map? ==>
      var cs := w.canonicalSignature(m.sig);
      |cs.params| == |m.sig.params| && NumConformanceRequirements(cs) == NumConformanceRequirements(m.sig)
  }

  /** What getCanonical(canonicalizeSignature) builds. */
  function CanonicalSpec(w: World, m: SubstitutionMap, canonicalizeSignature: bool): (r: SubstitutionMap)
    requires m.Valid()
    requires canonicalizeSignature ==> CanonicalSignatureFits(w, m)
    ensures r.Valid()
    ensures r.Empty() <==> m.Empty()
  {
    if m.Empty() then m
    else
      Map(if canonicalizeSignature then w.canonicalSignature(m.sig) else m.sig,
          seq(|m.replacementTypes|, i requires 0 <= i < |m.replacementTypes| => w.canonicalType(m.replacementTypes[i])),
          seq(|m.conformances|, k requires 0 <= k < |m.conformances| => w.canonicalConformance(m.conformances[k])))
  }

  method GetCanonical(w: World, m: SubstitutionMap, canonicalizeSignature: bool) returns (r: SubstitutionMap)
    requires m.Valid()
    requires canonicalizeSignature ==> CanonicalSignatureFits(w, m)
    ensures r == CanonicalSpec(w, m, canonicalizeSignature)
  {
    if m.Empty() {
      return m;
    }
    var sig := m.sig;
    if canonicalizeSignature {
      sig := w.canonicalSignature(sig);
    }
    var replacementTypes: seq<Type> := [];
    for i := 0 to |m.replacementTypes|
      invariant |replacementTypes| == i
      invariant forall j :: 0 <= j < i ==> replacementTypes[j] == w.canonicalType(m.replacementTypes[j])
    {
      replacementTypes := replacementTypes + [w.canonicalType(m.replacementTypes[i])];
    }
    var conformances: seq<Conformance> := [];
    for k := 0 to |m.conformances|
      invariant |conformances| == k
      invariant forall j :: 0 <= j < k ==> conformances[j] == w.canonicalConformance(m.conformances[j])
    {
      conformances := conformances + [w.canonicalConformance(m.conformances[k])];
    }
    r := MakeMap(sig, replacementTypes, conformances);
  }

  /** isCanonical: the signature, every replacement and every conformance are canonical. */
  ghost predicate IsCanonicalSpec(w: World, m: SubstitutionMap) {
    m.Map? ==>
      && w.isCanonicalSignature(m.sig)
      && (forall i :: 0 <= i < |m.replacementTypes| ==> w.isCanonicalType(m.replacementTypes[i]))
      && (forall k :: 0 <= k < |m.conformances| ==> w.isCanonicalConformance(m.conformances[k]))
  }

  method IsCanonical(w: World, m: SubstitutionMap) returns (b: bool)
    ensures b == IsCanonicalSpec(w, m)
  {
    if m.Empty() {
      return true;
    }
    if !w.isCanonicalSignature(m.sig) {
      return false;
    }
    for i := 0 to |m.replacementTypes|
      invariant forall j :: 0 <= j < i ==> w.isCanonicalType(m.replacementTypes[j])
    {
      if !w.isCanonicalType(m.replacementTypes[i]) {
        return false;
      }
    }
    for k := 0 to |m.conformances|
      invariant forall j :: 0 <= j < k ==> w.isCanonicalConformance(m.conformances[j])
    {
      if !w.isCanonicalConformance(m.conformances[k]) {
        return false;
      }
    }
    return true;
  }

  /** getCanonical is idempotent when the compiler's canonicalisations are. */
  lemma CanonicalIdempotent(w: World, m: SubstitutionMap, canonicalizeSignature: bool)
    requires m.Valid()
    requires canonicalizeSignature ==> CanonicalSignatureFits(w, m)
    requires forall t :: w.canonicalType(w.canonicalType(t)) == w.canonicalType(t)
    requires forall c :: w.canonicalConformance(w.canonicalConformance(c)) == w.canonicalConformance(c)
    requires forall s :: w.canonicalSignature(w.canonicalSignature(s)) == w.canonicalSignature(s)
    ensures var once := CanonicalSpec(w, m, canonicalizeSignature);
      (canonicalizeSignature ==> CanonicalSignatureFits(w, once)) &&
      CanonicalSpec(w, once, canonicalizeSignature) == once
  {
    var once := CanonicalSpec(w, m, canonicalizeSignature);
    if m.Map? {
      var twice := CanonicalSpec(w, once, canonicalizeSignature);
      assert twice.replacementTypes == once.replacementTypes;
      assert twice.conformances == once.conformances;
    }
  }

  /** The result of getCanonical(true) is canonical when the compiler's
      canonicalisations produce canonical results. */
  lemma CanonicalIsCanonical(w: World, m: SubstitutionMap)
    requires m.Valid() && CanonicalSignatureFits(w, m)
    requires forall t :: w.isCanonicalType(w.canonicalType(t))
    requires forall c :: w.isCanonicalConformance(w.canonicalConformance(c))
    requires forall s :: w.isCanonicalSignature(w.canonicalSignature(s))
    ensures IsCanonicalSpec(w, CanonicalSpec(w, m, true))
  {
  }
}
