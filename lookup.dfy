/** lookupConformance: the exact-match scan over the signature's conformance
    requirements, and the walk along a conformance path. */
module ConformanceLookup {
  import opened Types
  import opened SubstMap

  // ----- getSignatureConformance -----

  /** The stored conformance of the first conformance requirement whose
      subject and protocol are exactly `type` and `proto`. */
  function SignatureConformanceSpec(m: SubstitutionMap, ty: Type, proto: Protocol): (r: Option<Conformance>)
    requires m.Valid() && m.Map?
    ensures r.None? <==> ConformanceKey(ty, proto) !in ConformanceRequirements(m.sig.requirements)
    ensures r.Some? ==>
              var keys := ConformanceRequirements(m.sig.requirements);
              exists k :: 0 <= k < |keys| && keys[k] == ConformanceKey(ty, proto)
                       && (forall j :: 0 <= j < k ==> keys[j] != ConformanceKey(ty, proto))
                       && r.value == m.conformances[k]
  {
    var keys := ConformanceRequirements(m.sig.requirements);
    var k := FindConformance(keys, ConformanceKey(ty, proto));
    if k < |keys| then Some(m.conformances[k]) else None
  }

  /** The scan with a running index that counts conformance requirements only. */
  method SignatureConformance(m: SubstitutionMap, ty: Type, proto: Protocol) returns (r: Option<Conformance>)
    requires m.Valid() && m.Map?
    ensures r == SignatureConformanceSpec(m, ty, proto)
  {
    var reqs := m.sig.requirements;
    ghost var keys := ConformanceRequirements(reqs);
    ghost var key := ConformanceKey(ty, proto);
    var index := 0;
    for j := 0 to |reqs|
      invariant var done := ConformanceRequirements(reqs[..j]);
        index == |done| && done <= keys && key !in done
    {
      ConformanceRequirementsStep(reqs, j);
      ConformanceRequirementsPrefix(reqs, j + 1);
      var reqt := reqs[j];
      if reqt.IsConformance() {
        if reqt.subject == ty && reqt.proto == proto {
          assert keys[index] == key;
          assert FindConformance(keys, key) == index;
          return Some(m.conformances[index]);
        }
        index := index + 1;
      }
    }
    assert reqs[..|reqs|] == reqs;
    return None;
  }

  // ----- the conformance path walk -----

  /** Once the accumulator is abstract: stay abstract, unless the substituted
      type is concrete (not a type parameter, not existential, and not an
      archetype without a superclass), in which case ask the global table; a
      substituted type with an error stays abstract. */
  function AbstractStep(w: World, m: SubstitutionMap, ty: Type, proto: Protocol): (r: Conformance)
    ensures w.substInMap(m, ty).HasError() ==> r == Abstract(proto)
    ensures r == Abstract(proto) || r == w.globalLookup(w.substInMap(m, ty), proto)
    ensures var st := w.substInMap(m, ty);
      (!st.HasError() && (!st.Archetype? || st.hasSuperclass) && !st.IsTypeParameter() && !st.IsExistential())
        ==> r == w.globalLookup(st, proto)
    ensures var st := w.substInMap(m, ty);
      (st.IsTypeParameter() || st.IsExistential() || (st.Archetype? && !st.hasSuperclass)) ==> r == Abstract(proto)
  {
    var substType := w.substInMap(m, ty);
    if substType.HasError() then Abstract(proto)
    else if (!substType.Archetype? || substType.hasSuperclass)
         && !substType.IsTypeParameter() && !substType.IsExistential()
    then w.globalLookup(substType, proto)
    else Abstract(proto)
  }

  /** The remaining walk from accumulator `acc` along `steps`: an exhausted
      path gives the accumulator, and an abstract accumulator with a step left
      ends the walk as abstract or with the global lookup. */
  function WalkPath(w: World, m: SubstitutionMap, ty: Type, proto: Protocol,
                    acc: Conformance, steps: seq<ConformanceKey>): (r: Conformance)
    requires m.Valid() && m.Map?
    ensures |steps| == 0 ==> r == acc
    ensures acc.Abstract? && |steps| > 0 ==>
              r == Abstract(proto) || r == w.globalLookup(w.substInMap(m, ty), proto)
    decreases |steps|
  {
    if |steps| == 0 then acc
    else
      var step := steps[0];
      match acc
      case Invalid =>
        (match SignatureConformanceSpec(m, step.subject, step.proto)
         case Some(initial) => WalkPath(w, m, ty, proto, initial, steps[1..])
         case None => Invalid)
      case Abstract(_) => AbstractStep(w, m, ty, proto)
      case PackConformance(patterns) =>
        var next := w.packAssociated(patterns, step.subject, step.proto);
        if next.Invalid? then Invalid else WalkPath(w, m, ty, proto, next, steps[1..])
      case Concrete(concrete) =>
        var normal := w.rootNormal(concrete);
        if !w.hasComputedAssociatedConformances(normal) && w.typeWitnessRequestActive(normal) then Invalid
        else
          var next := w.concreteAssociated(concrete, step.subject, step.proto);
          if next.Invalid? then Invalid else WalkPath(w, m, ty, proto, next, steps[1..])
  }

  /** The type the lookup works on: a non-opaque archetype is mapped out of
      its environment to its interface type; any other type is left alone. */
  function MapOutOfContext(ty: Type): (r: Type)
    ensures ty.Archetype? && ty.kind != OpaqueResult ==> r == ty.interfaceType
    ensures r != ty ==> ty.Archetype? && ty.kind != OpaqueResult
  {
    if ty.Archetype? && ty.kind != OpaqueResult then ty.interfaceType else ty
  }

  /** What lookupConformance(type, proto) returns. */
  function LookupConformanceSpec(w: World, m: SubstitutionMap, ty: Type, proto: Protocol): (r: Conformance)
    requires m.Valid()
    ensures m.Empty() ==> r == Invalid
    ensures !MapOutOfContext(ty).IsTypeParameter() ==> r == Invalid
  {
    if m.Empty() then Invalid
    else
      var t := MapOutOfContext(ty);
      if !t.IsTypeParameter() then Invalid
      else match SignatureConformanceSpec(m, t, proto)
        case Some(direct) => direct
        case None =>
          if !w.requiresProtocol(m.sig, t, proto) then
            w.missingOrInvalid(w.substInMap(m, t), proto)
          else if w.isInvertible(proto) then
            var substType := w.substInMap(m, t);
            if !substType.IsTypeParameter() then w.globalLookup(substType, proto) else Abstract(proto)
          else
            WalkPath(w, m, t, proto, Invalid, w.conformancePath(m.sig, t, proto))
  }

  /** lookupConformance, with the path walk as a loop over an accumulator. */
  method LookupConformance(w: World, m: SubstitutionMap, ty: Type, proto: Protocol) returns (r: Conformance)
    requires m.Valid()
    ensures r == LookupConformanceSpec(w, m, ty, proto)
  {
    if m.Empty() {
      return Invalid;
    }
    var t := MapOutOfContext(ty);
    if !t.IsTypeParameter() {
      return Invalid;
    }
    var direct := SignatureConformance(m, t, proto);
    if direct.Some? {
      return direct.value;
    }
    if !w.requiresProtocol(m.sig, t, proto) {
      var substType := w.substInMap(m, t);
      return w.missingOrInvalid(substType, proto);
    }
    if w.isInvertible(proto) {
      var substType := w.substInMap(m, t);
      if !substType.IsTypeParameter() {
        return w.globalLookup(substType, proto);
      }
      return Abstract(proto);
    }
    var path := w.conformancePath(m.sig, t, proto);
    var conformance := Invalid;
    for i := 0 to |path|
      invariant LookupConformanceSpec(w, m, ty, proto) == WalkPath(w, m, t, proto, conformance, path[i..])
    {
      var step := path[i];
      assert path[i..][0] == step && path[i..][1..] == path[i + 1..];
      if conformance.Invalid? {
        var initial := SignatureConformance(m, step.subject, step.proto);
        if initial.Some? {
          conformance := initial.value;
          continue;
        }
        return Invalid;
      }
      if conformance.Abstract? {
        var substType := w.substInMap(m, t);
        if substType.HasError() {
          return Abstract(proto);
        }
        if (!substType.Archetype? || substType.hasSuperclass)
           && !substType.IsTypeParameter() && !substType.IsExistential() {
          return w.globalLookup(substType, proto);
        }
        return Abstract(proto);
      }
      if conformance.PackConformance? {
        conformance := w.packAssociated(conformance.patterns, step.subject, step.proto);
        if conformance.Invalid? {
          return conformance;
        }
        continue;
      }
      var concrete := conformance.concrete;
      var normal := w.rootNormal(concrete);
      if !w.hasComputedAssociatedConformances(normal) {
        if w.typeWitnessRequestActive(normal) {
          return Invalid;
        }
      }
      conformance := w.concreteAssociated(concrete, step.subject, step.proto);
      if conformance.Invalid? {
        return conformance;
      }
    }
    assert path[|path|..] == [];
    return conformance;
  }

  // ----- properties -----

  /** Exact-match precedence: when the k-th conformance requirement is the
      first one stating `ty : proto`, the k-th stored conformance is returned,
      whatever the path, the requirement machine or the global table say. */
  lemma ExactMatchPrecedence(w: World, m: SubstitutionMap, ty: Type, proto: Protocol, k: nat)
    requires m.Valid() && m.Map?
    requires ty.IsTypeParameter()
    requires k < |ConformanceRequirements(m.sig.requirements)|
    requires ConformanceRequirements(m.sig.requirements)[k] == ConformanceKey(ty, proto)
    requires forall j :: 0 <= j < k ==> ConformanceRequirements(m.sig.requirements)[j] != ConformanceKey(ty, proto)
    ensures LookupConformanceSpec(w, m, ty, proto) == m.conformances[k]
  {
    var keys := ConformanceRequirements(m.sig.requirements);
    assert FindConformance(keys, ConformanceKey(ty, proto)) == k;
  }

  /** A non-opaque archetype whose interface type is a type parameter looks
      up like that interface type. */
  lemma ArchetypeLooksUpAsInterfaceType(w: World, m: SubstitutionMap, ty: Type, proto: Protocol)
    requires m.Valid()
    requires ty.Archetype? && ty.kind != OpaqueResult
    requires ty.interfaceType.IsTypeParameter()
    ensures LookupConformanceSpec(w, m, ty, proto) == LookupConformanceSpec(w, m, ty.interfaceType, proto)
  {
    assert MapOutOfContext(ty) == ty.interfaceType;
  }

  /** A signature that neither states nor implies `ty : proto` yields the
      missing-or-invalid value formed from the substituted type. */
  lemma MissingConformance(w: World, m: SubstitutionMap, ty: Type, proto: Protocol)
    requires m.Valid() && m.Map?
    requires ty.IsTypeParameter()
    requires ConformanceKey(ty, proto) !in ConformanceRequirements(m.sig.requirements)
    requires !w.requiresProtocol(m.sig, ty, proto)
    ensures LookupConformanceSpec(w, m, ty, proto) == w.missingOrInvalid(w.substInMap(m, ty), proto)
  {
    assert SignatureConformanceSpec(m, ty, proto).None?;
  }

  /** The first step of a path must be stated directly by the signature;
      otherwise the walk fails. */
  lemma FirstStepMustBeDirect(w: World, m: SubstitutionMap, ty: Type, proto: Protocol, steps: seq<ConformanceKey>)
    requires m.Valid() && m.Map?
    requires |steps| > 0
    requires ConformanceKey(steps[0].subject, steps[0].proto) !in ConformanceRequirements(m.sig.requirements)
    ensures WalkPath(w, m, ty, proto, Invalid, steps) == Invalid
  {
  }

  /** Whenever the accumulator is abstract and a step is left, whichever step
      it is, the abstract rule decides the result. */
  lemma AbstractAtAnyStep(w: World, m: SubstitutionMap, ty: Type, proto: Protocol,
                          q: Protocol, steps: seq<ConformanceKey>)
    requires m.Valid() && m.Map?
    requires |steps| > 0
    ensures WalkPath(w, m, ty, proto, Abstract(q), steps) == AbstractStep(w, m, ty, proto)
  {
  }

  /** An associated conformance that comes back abstract at a concrete step
      hands the rest of the walk to the abstract rule at the next step. */
  lemma AbstractAssociatedDecides(w: World, m: SubstitutionMap, ty: Type, proto: Protocol,
                                  wit: Witness, q: Protocol, steps: seq<ConformanceKey>)
    requires m.Valid() && m.Map?
    requires |steps| >= 2
    requires w.hasComputedAssociatedConformances(w.rootNormal(wit)) || !w.typeWitnessRequestActive(w.rootNormal(wit))
    requires w.concreteAssociated(wit, steps[0].subject, steps[0].proto) == Abstract(q)
    ensures WalkPath(w, m, ty, proto, Concrete(wit), steps) == AbstractStep(w, m, ty, proto)
  {
    var rest := steps[1..];
    assert rest[0] == steps[1];
  }

  /** An abstract conformance stored for the first step hands the walk to the
      abstract rule at the second step. */
  lemma AbstractFirstStep(w: World, m: SubstitutionMap, ty: Type, proto: Protocol, steps: seq<ConformanceKey>)
    requires m.Valid() && m.Map?
    requires |steps| >= 2
    requires SignatureConformanceSpec(m, steps[0].subject, steps[0].proto).Some?
    requires SignatureConformanceSpec(m, steps[0].subject, steps[0].proto).value.Abstract?
    ensures WalkPath(w, m, ty, proto, Invalid, steps) == AbstractStep(w, m, ty, proto)
  {
    var rest := steps[1..];
    assert rest[0] == steps[1];
  }

  /** Cycle guard: a concrete accumulator whose root conformance has not yet
      computed its associated conformances while that computation is under
      way gives Invalid instead of recursing. */
  lemma CycleGuardGivesInvalid(w: World, m: SubstitutionMap, ty: Type, proto: Protocol,
                               wit: Witness, steps: seq<ConformanceKey>)
    requires m.Valid() && m.Map?
    requires |steps| > 0
    requires !w.hasComputedAssociatedConformances(w.rootNormal(wit))
    requires w.typeWitnessRequestActive(w.rootNormal(wit))
    ensures WalkPath(w, m, ty, proto, Concrete(wit), steps) == Invalid
  {
  }

  /** An Invalid associated conformance at a pack or concrete step ends the walk. */
  lemma InvalidStepEndsWalk(w: World, m: SubstitutionMap, ty: Type, proto: Protocol,
                            acc: Conformance, steps: seq<ConformanceKey>)
    requires m.Valid() && m.Map?
    requires |steps| > 0
    requires acc.PackConformance? ==> w.packAssociated(acc.patterns, steps[0].subject, steps[0].proto) == Invalid
    requires acc.Concrete? ==> w.concreteAssociated(acc.concrete, steps[0].subject, steps[0].proto) == Invalid
    requires acc.PackConformance? || acc.Concrete?
    ensures WalkPath(w, m, ty, proto, acc, steps) == Invalid
  {
  }

  /** When every stored conformance is abstract, no walk can produce a
      concrete or pack conformance other than through the global table. */
  lemma {:induction false} AbstractMapWalk(w: World, m: SubstitutionMap, ty: Type, proto: Protocol,
                                           acc: Conformance, steps: seq<ConformanceKey>)
    requires m.Valid() && m.Map?
    requires forall k :: 0 <= k < |m.conformances| ==> m.conformances[k].Abstract?
    requires acc.Invalid? || acc.Abstract?
    ensures var r := WalkPath(w, m, ty, proto, acc, steps);
      r.Invalid? || r.Abstract? || r == w.globalLookup(w.substInMap(m, ty), proto)
    decreases |steps|
  {
    if |steps| > 0 && acc.Invalid? {
      var step := steps[0];
      var initial := SignatureConformanceSpec(m, step.subject, step.proto);
      if initial.Some? {
        AbstractMapWalk(w, m, ty, proto, initial.value, steps[1..]);
      }
    }
  }

  /** Hence a lookup in a map of abstract conformances that is not invertible
      and not stated directly yields Invalid, an abstract conformance, or the
      global lookup of the substituted type. */
  lemma AbstractMapLookup(w: World, m: SubstitutionMap, ty: Type, proto: Protocol)
    requires m.Valid() && m.Map?
    requires forall k :: 0 <= k < |m.conformances| ==> m.conformances[k].Abstract?
    requires ty.IsTypeParameter()
    requires w.requiresProtocol(m.sig, ty, proto)
    ensures var r := LookupConformanceSpec(w, m, ty, proto);
      r.Invalid? || r.Abstract? || r == w.globalLookup(w.substInMap(m, ty), proto)
  {
    AbstractMapWalk(w, m, ty, proto, Invalid, w.conformancePath(m.sig, ty, proto));
  }
}
