/** isIdentity, and what the empty map does under every operation. */
module Identity {
  import opened Types
  import opened SubstMap
  import opened ConformanceLookup

  /** A conformance an identity map may hold: abstract, or a pack whose one
      pattern conformance is abstract. */
  predicate IsIdentityConformance(c: Conformance) {
    c.Abstract? || (c.PackConformance? && |c.patterns| == 1 && c.patterns[0].Abstract?)
  }

  /** What isIdentity() answers. */
  ghost predicate IsIdentitySpec(w: World, m: SubstitutionMap)
    requires m.Valid()
  {
    m.Map? ==>
      && (forall k :: 0 <= k < |m.conformances| ==> IsIdentityConformance(m.conformances[k]))
      && (forall i :: 0 <= i < |m.sig.params| ==>
            w.isCanonicalParam(m.sig, m.sig.params[i]) ==> m.replacementTypes[i] == WrappedParam(m.sig.params[i]))
  }

  /** isIdentity: reject any non-abstract conformance, then walk the
      parameters alongside the replacements, flagging a canonical parameter
      whose replacement is not the parameter itself. */
  method IsIdentity(w: World, m: SubstitutionMap) returns (b: bool)
    requires m.Valid()
    ensures b == IsIdentitySpec(w, m)
  {
    if m.Empty() {
      return true;
    }
    for k := 0 to |m.conformances|
      invariant forall j :: 0 <= j < k ==> IsIdentityConformance(m.conformances[j])
    {
      var conf := m.conformances[k];
      if conf.Abstract? {
        continue;
      }
      if conf.PackConformance? {
        var patternConfs := conf.patterns;
        if |patternConfs| == 1 && patternConfs[0].Abstract? {
          continue;
        }
      }
      return false;
    }
    var sig := m.sig;
    var hasNonIdentityReplacement := false;
    var replacements := m.replacementTypes;
    for i := 0 to |sig.params|
      invariant replacements == m.replacementTypes[i..]
      invariant hasNonIdentityReplacement <==>
        exists j :: 0 <= j < i && w.isCanonicalParam(sig, sig.params[j]) && m.replacementTypes[j] != WrappedParam(sig.params[j])
    {
      var paramTy := sig.params[i];
      if w.isCanonicalParam(sig, paramTy) {
        var wrappedParamTy := Param(paramTy);
        if paramTy.isPack {
          wrappedParamTy := Pack([PackExpansion(Param(paramTy))]);
        }
        if wrappedParamTy != replacements[0] {
          hasNonIdentityReplacement := true;
        }
      }
      replacements := replacements[1..];
    }
    assert |replacements| == 0;
    return !hasNonIdentityReplacement;
  }

  /** The identity map of a signature: each parameter replaced by itself and
      each conformance requirement satisfied abstractly. */
  function IdentityMap(sig: GenericSignature): (m: SubstitutionMap)
    ensures m.Valid() && m.Map? && m.sig == sig
  {
    var keys := ConformanceRequirements(sig.requirements);
    Map(sig,
        seq(|sig.params|, i requires 0 <= i < |sig.params| => WrappedParam(sig.params[i])),
        seq(|keys|, k requires 0 <= k < |keys| => Abstract(keys[k].proto)))
  }

  lemma IdentityMapIsIdentity(w: World, sig: GenericSignature)
    ensures IsIdentitySpec(w, IdentityMap(sig))
  {
  }

  /** A map built by get() from a driver that replaces every parameter by
      itself and answers every conformance abstractly is an identity map. */
  lemma GetWithIdentityDriverIsIdentity(w: World, sig: GenericSignature, ifs: InFlight)
    requires forall gp :: ifs.substFn(Param(gp)) == WrappedParam(gp)
    requires forall ty, st, p :: ifs.lookupFn(ty, st, p) == Abstract(p)
    ensures IsIdentitySpec(w, GetSpec(w, Some(sig), ifs))
    ensures GetSpec(w, Some(sig), ifs) == IdentityMap(sig)
  {
    var m := GetSpec(w, Some(sig), ifs);
    var keys := ConformanceRequirements(sig.requirements);
    assert forall k :: 0 <= k < |keys| ==> ConformanceForRequirement(w, ifs, keys[k]) == Abstract(keys[k].proto);
    assert m.conformances == IdentityMap(sig).conformances;
  }

  /** In an identity map, looking up a canonical parameter gives the
      parameter itself (or its singleton pack). */
  lemma IdentityLookupSubstitution(w: World, m: SubstitutionMap, i: nat)
    requires m.Valid() && m.Map? && IsIdentitySpec(w, m)
    requires i < |m.sig.params|
    requires w.isCanonicalParam(m.sig, m.sig.params[i])
    requires forall j :: 0 <= j < i ==> !SameKey(m.sig.params[j], m.sig.params[i])
    ensures LookupSubstitution(m, Param(m.sig.params[i])) == Some(WrappedParam(m.sig.params[i]))
  {
    assert FindParamIndex(m.sig.params, m.sig.params[i]) == i;
  }

  /** In an identity map, a conformance the signature states directly comes
      back abstract or as a singleton pack of an abstract conformance. */
  lemma IdentityDirectConformance(w: World, m: SubstitutionMap, ty: Type, proto: Protocol)
    requires m.Valid() && m.Map? && IsIdentitySpec(w, m)
    requires ty.IsTypeParameter()
    requires ConformanceKey(ty, proto) in ConformanceRequirements(m.sig.requirements)
    ensures IsIdentityConformance(LookupConformanceSpec(w, m, ty, proto))
  {
    var keys := ConformanceRequirements(m.sig.requirements);
    var k := FindConformance(keys, ConformanceKey(ty, proto));
    assert k < |keys|;
  }

  /** The empty map is inert: no replacement, no conformance, and every
      operation gives back the empty map. */
  lemma EmptyMapIsInert(w: World, ifs: InFlight, t: Type, proto: Protocol, canonicalizeSignature: bool)
    requires t.Param? || t.Archetype?
    ensures LookupSubstitution(EmptyMap, t) == None
    ensures LookupConformanceSpec(w, EmptyMap, t, proto) == Invalid
    ensures SubstSpec(w, EmptyMap, ifs) == EmptyMap
    ensures CanonicalSpec(w, EmptyMap, canonicalizeSignature) == EmptyMap
    ensures IsIdentitySpec(w, EmptyMap)
    ensures InnermostReplacementTypes(EmptyMap) == []
  {
  }
}
