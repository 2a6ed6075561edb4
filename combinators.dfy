/** The map builders that re-base generic parameters: the override
    substitution callbacks (base class member to derived class member) and
    combineSubstitutionMaps (splicing two maps at a depth or an index). */
module Combinators {
  import opened Types
  import opened SubstMap
  import opened ConformanceLookup

  // ----- override substitutions -----

  /** The part of OverrideSubsInfo the callbacks read: the first depth owned
      by the overriding member in the base and in the derived class, the
      derived member's own generic parameters (if it declares a list), and
      how the derived class specialises the base class. */
  datatype OverrideSubsInfo = OverrideSubsInfo(
    baseDepth: nat,
    origDepth: nat,
    derivedParams: Option<seq<Type>>,
    baseSubMap: SubstitutionMap)

  /** The derived parameter list is long enough for every member-owned parameter asked for. */
  predicate DerivedParamInRange(info: OverrideSubsInfo, t: Type) {
    t.Param? && t.gp.depth >= info.baseDepth && info.derivedParams.Some? ==> t.gp.index < |info.derivedParams.value|
  }

  /** QueryOverrideSubs: a member-owned parameter is renamed into the derived
      member, everything else goes through BaseSubMap. */
  function QueryOverrideSubs(w: World, info: OverrideSubsInfo, t: Type): (r: Type)
    requires DerivedParamInRange(info, t)
    ensures !(t.Param? && t.gp.depth >= info.baseDepth) ==> r == w.substInMap(info.baseSubMap, t)
    ensures t.Param? && t.gp.depth >= info.baseDepth && info.derivedParams.Some? ==>
              r == info.derivedParams.value[t.gp.index]
    ensures t.Param? && t.gp.depth >= info.baseDepth && info.derivedParams.None? ==>
              && r.Param?
              && r.gp.index == t.gp.index && r.gp.isPack == t.gp.isPack
              && r.gp.depth >= info.origDepth
              && r.gp.depth - info.origDepth == t.gp.depth - info.baseDepth
  {
    if t.Param? && t.gp.depth >= info.baseDepth then
      if info.derivedParams.Some? then info.derivedParams.value[t.gp.index]
      else Param(GenericParam(t.gp.depth + info.origDepth - info.baseDepth, t.gp.index, t.gp.isPack))
    else w.substInMap(info.baseSubMap, t)
  }

  /** LookUpConformanceInOverrideSubs: a member-owned subject is abstract;
      otherwise BaseSubMap's conformance, then abstract for a type parameter,
      then the global table. */
  function LookUpConformanceInOverrideSubs(w: World, info: OverrideSubsInfo, ty: Type, substType: Type, proto: Protocol): (r: Conformance)
    requires info.baseSubMap.Valid()
    requires ty.IsTypeParameter()
    ensures ty.RootGenericParam().depth >= info.baseDepth ==> r == Abstract(proto)
    ensures ty.RootGenericParam().depth < info.baseDepth ==>
              var fromBase := LookupConformanceSpec(w, info.baseSubMap, ty, proto);
              && (!fromBase.Invalid? ==> r == fromBase)
              && (fromBase.Invalid? && substType.IsTypeParameter() ==> r == Abstract(proto))
              && (fromBase.Invalid? && !substType.IsTypeParameter() ==> r == w.globalLookup(substType, proto))
    ensures r.Invalid? ==> r == w.globalLookup(substType, proto)
  {
    if ty.RootGenericParam().depth >= info.baseDepth then Abstract(proto)
    else
      var conformance := LookupConformanceSpec(w, info.baseSubMap, ty, proto);
      if !conformance.Invalid? then conformance
      else if substType.IsTypeParameter() then Abstract(proto)
      else w.globalLookup(substType, proto)
  }

  /** With an empty BaseSubMap (a non-generic base class) every conformance
      is abstract or comes from the global table. */
  lemma OverrideWithoutBaseSubstitutions(w: World, info: OverrideSubsInfo, ty: Type, substType: Type, proto: Protocol)
    requires info.baseSubMap.Empty()
    requires ty.IsTypeParameter()
    ensures var r := LookUpConformanceInOverrideSubs(w, info, ty, substType, proto);
      r == Abstract(proto) || r == w.globalLookup(substType, proto)
  {
  }

  // ----- combineSubstitutionMaps -----

  datatype CombineHow = AtDepth | AtIndex

  /** The result of the replaceGenericParameter callback: not a generic
      parameter (keep looking inside), below the splice point (no
      replacement: handled by the first map), or re-based into the second map. */
  datatype Replacement = NotGenericParam | BelowSplice | Rebased(gp: GenericParam)

  function ReplaceGenericParameter(how: CombineHow, firstDepthOrIndex: nat, secondDepthOrIndex: nat, t: Type): (r: Replacement)
    ensures r.NotGenericParam? <==> !t.Param?
    ensures t.Param? && how == AtDepth ==> (r.BelowSplice? <==> t.gp.depth < firstDepthOrIndex)
    ensures t.Param? && how == AtIndex ==> (r.BelowSplice? <==> t.gp.index < firstDepthOrIndex)
    ensures r.Rebased? ==> r.gp.isPack == t.gp.isPack
    ensures r.Rebased? && how == AtDepth ==>
              r.gp.index == t.gp.index && r.gp.depth >= secondDepthOrIndex
              && r.gp.depth - secondDepthOrIndex == t.gp.depth - firstDepthOrIndex
    ensures r.Rebased? && how == AtIndex ==>
              r.gp.depth == t.gp.depth && r.gp.index >= secondDepthOrIndex
              && r.gp.index - secondDepthOrIndex == t.gp.index - firstDepthOrIndex
  {
    if !t.Param? then NotGenericParam
    else
      var gp := t.gp;
      match how
      case AtDepth =>
        if gp.depth < firstDepthOrIndex then BelowSplice
        else Rebased(GenericParam(gp.depth + secondDepthOrIndex - firstDepthOrIndex, gp.index, gp.isPack))
      case AtIndex =>
        if gp.index < firstDepthOrIndex then BelowSplice
        else Rebased(GenericParam(gp.depth, gp.index + secondDepthOrIndex - firstDepthOrIndex, gp.isPack))
  }

  /** Re-basing from the second map's numbering back to the first's undoes it. */
  lemma RebaseRoundTrip(how: CombineHow, first: nat, second: nat, gp: GenericParam)
    requires ReplaceGenericParameter(how, first, second, Param(gp)).Rebased?
    ensures var back := ReplaceGenericParameter(how, first, second, Param(gp)).gp;
      ReplaceGenericParameter(how, second, first, Param(back)) == Rebased(gp)
  {
  }

  /** No generic parameter occurring in `t` lies below the splice point. */
  predicate NoParamBelowSplice(how: CombineHow, first: nat, t: Type)
    decreases t
  {
    match t
    case Param(gp) => if how == AtDepth then gp.depth >= first else gp.index >= first
    case Member(base, _) => NoParamBelowSplice(how, first, base)
    case Nominal(_, args) => forall i :: 0 <= i < |args| ==> NoParamBelowSplice(how, first, args[i])
    case Pack(elems) => forall i :: 0 <= i < |elems| ==> NoParamBelowSplice(how, first, elems[i])
    case PackExpansion(pattern) => NoParamBelowSplice(how, first, pattern)
    case _ => true
  }

  /** type.transformRec(replaceGenericParameter): every generic parameter in
      the type is re-based; any parameter below the splice point makes the
      whole transform fail. Archetypes, existentials and error types are leaves. */
  function RebaseType(how: CombineHow, first: nat, second: nat, t: Type): (r: Option<Type>)
    // a bare parameter is transformed exactly when the callback re-bases it
    ensures t.Param? ==> (r.Some? <==> ReplaceGenericParameter(how, first, second, t).Rebased?)
    decreases t
  {
    match t
    case Param(_) =>
      (match ReplaceGenericParameter(how, first, second, t)
       case Rebased(gp) => Some(Param(gp))
       case _ => None)
    case Member(base, name) =>
      (match RebaseType(how, first, second, base)
       case Some(b) => Some(Member(b, name))
       case None => None)
    case Nominal(decl, args) =>
      if forall i :: 0 <= i < |args| ==> RebaseType(how, first, second, args[i]).Some? then
        Some(Nominal(decl, seq(|args|, i requires 0 <= i < |args| => RebaseType(how, first, second, args[i]).value)))
      else None
    case Pack(elems) =>
      if forall i :: 0 <= i < |elems| ==> RebaseType(how, first, second, elems[i]).Some? then
        Some(Pack(seq(|elems|, i requires 0 <= i < |elems| => RebaseType(how, first, second, elems[i]).value)))
      else None
    case PackExpansion(pattern) =>
      (match RebaseType(how, first, second, pattern)
       case Some(p) => Some(PackExpansion(p))
       case None => None)
    case _ => Some(t)
  }

  /** The transform fails exactly when some parameter in the type is below
      the splice point, however deep inside the type it occurs. */
  lemma {:induction false} RebaseTypeSucceeds(how: CombineHow, first: nat, second: nat, t: Type)
    ensures RebaseType(how, first, second, t).Some? <==> NoParamBelowSplice(how, first, t)
    decreases t
  {
    match t
    case Param(_) =>
    case Member(base, _) =>
      RebaseTypeSucceeds(how, first, second, base);
    case Nominal(_, args) =>
      forall i | 0 <= i < |args| {
        RebaseTypeSucceeds(how, first, second, args[i]);
      }
    case Pack(elems) =>
      forall i | 0 <= i < |elems| {
        RebaseTypeSucceeds(how, first, second, elems[i]);
      }
    case PackExpansion(pattern) =>
      RebaseTypeSucceeds(how, first, second, pattern);
    case _ =>
  }

  /** Re-basing a whole type and then re-basing it back, with the offsets
      swapped, gives back the original type. */
  lemma {:induction false} RebaseTypeRoundTrip(how: CombineHow, first: nat, second: nat, t: Type)
    requires RebaseType(how, first, second, t).Some?
    ensures RebaseType(how, second, first, RebaseType(how, first, second, t).value) == Some(t)
    decreases t
  {
    var r := RebaseType(how, first, second, t).value;
    match t
    case Param(gp) =>
      RebaseRoundTrip(how, first, second, gp);
    case Member(base, _) =>
      RebaseTypeRoundTrip(how, first, second, base);
    case Nominal(decl, args) =>
      forall i | 0 <= i < |args|
        ensures RebaseType(how, second, first, r.args[i]) == Some(args[i])
      {
        RebaseTypeRoundTrip(how, first, second, args[i]);
      }
      assert seq(|r.args|, i requires 0 <= i < |r.args| => RebaseType(how, second, first, r.args[i]).value) == args;
    case Pack(elems) =>
      forall i | 0 <= i < |elems|
        ensures RebaseType(how, second, first, r.elements[i]) == Some(elems[i])
      {
        RebaseTypeRoundTrip(how, first, second, elems[i]);
      }
      assert seq(|r.elements|, i requires 0 <= i < |r.elements| => RebaseType(how, second, first, r.elements[i]).value) == elems;
    case PackExpansion(pattern) =>
      RebaseTypeRoundTrip(how, first, second, pattern);
    case _ =>
  }

  /** A type parameter is re-based exactly when its root parameter is at or
      above the splice point, and then its root is the re-based root. */
  lemma {:induction false} RebaseTypeParameter(how: CombineHow, first: nat, second: nat, t: Type)
    ensures t.IsTypeParameter() ==>
              (RebaseType(how, first, second, t).Some? <==>
                 ReplaceGenericParameter(how, first, second, Param(t.RootGenericParam())).Rebased?)
    ensures t.IsTypeParameter() && RebaseType(how, first, second, t).Some? ==>
              var r := RebaseType(how, first, second, t).value;
              r.IsTypeParameter() &&
              r.RootGenericParam() == ReplaceGenericParameter(how, first, second, Param(t.RootGenericParam())).gp
  {
    match t
    case Member(base, _) =>
      RebaseTypeParameter(how, first, second, base);
    case _ =>
  }

  /** The substitution callback of combineSubstitutionMaps: a parameter below
      the splice point, and anything that is not a parameter, is substituted
      through the first map; any other parameter moves by the offset and is
      substituted through the second map. */
  function CombineReplacement(w: World, firstSubMap: SubstitutionMap, secondSubMap: SubstitutionMap,
                              how: CombineHow, first: nat, second: nat, t: Type): (r: Type)
    ensures !t.Param? ==> r == w.substInMap(firstSubMap, t)
    ensures t.Param? && how == AtDepth && t.gp.depth < first ==> r == w.substInMap(firstSubMap, t)
    ensures t.Param? && how == AtDepth && t.gp.depth >= first ==>
              r == w.substInMap(secondSubMap, Param(GenericParam(t.gp.depth + second - first, t.gp.index, t.gp.isPack)))
    ensures t.Param? && how == AtIndex && t.gp.index < first ==> r == w.substInMap(firstSubMap, t)
    ensures t.Param? && how == AtIndex && t.gp.index >= first ==>
              r == w.substInMap(secondSubMap, Param(GenericParam(t.gp.depth, t.gp.index + second - first, t.gp.isPack)))
  {
    match ReplaceGenericParameter(how, first, second, t)
    case Rebased(gp) => w.substInMap(secondSubMap, Param(gp))
    case _ => w.substInMap(firstSubMap, t)
  }

  /** The conformance callback of combineSubstitutionMaps. */
  function CombineConformance(w: World, firstSubMap: SubstitutionMap, secondSubMap: SubstitutionMap,
                              how: CombineHow, first: nat, second: nat,
                              ty: Type, substType: Type, proto: Protocol): (r: Conformance)
    requires firstSubMap.Valid() && secondSubMap.Valid()
    // A type parameter rooted at or above the splice point is looked up in the
    // second map, as the same dependent type rooted at the moved parameter.
    ensures ty.IsTypeParameter() && how == AtDepth && ty.RootGenericParam().depth >= first ==>
              var root := ty.RootGenericParam();
              && RebaseType(how, first, second, ty).Some?
              && RebaseType(how, first, second, ty).value.IsTypeParameter()
              && RebaseType(how, first, second, ty).value.RootGenericParam() == GenericParam(root.depth + second - first, root.index, root.isPack)
              && r == LookupConformanceSpec(w, secondSubMap, w.canonicalType(RebaseType(how, first, second, ty).value), proto)
    ensures ty.IsTypeParameter() && how == AtIndex && ty.RootGenericParam().index >= first ==>
              var root := ty.RootGenericParam();
              && RebaseType(how, first, second, ty).Some?
              && RebaseType(how, first, second, ty).value.IsTypeParameter()
              && RebaseType(how, first, second, ty).value.RootGenericParam() == GenericParam(root.depth, root.index + second - first, root.isPack)
              && r == LookupConformanceSpec(w, secondSubMap, w.canonicalType(RebaseType(how, first, second, ty).value), proto)
    // Any subject free of parameters below the splice point goes to the second map.
    ensures NoParamBelowSplice(how, first, ty) ==>
              RebaseType(how, first, second, ty).Some? &&
              r == LookupConformanceSpec(w, secondSubMap, w.canonicalType(RebaseType(how, first, second, ty).value), proto)
    // As soon as one parameter is below it: the first map, then the fallbacks.
    ensures !NoParamBelowSplice(how, first, ty) ==>
              var fromFirst := LookupConformanceSpec(w, firstSubMap, ty, proto);
              && (!fromFirst.Invalid? ==> r == fromFirst)
              && (fromFirst.Invalid? && substType.IsTypeParameter() ==> r == Abstract(proto))
              && (fromFirst.Invalid? && !substType.IsTypeParameter() ==> r == w.globalLookup(substType, proto))
  {
    RebaseTypeSucceeds(how, first, second, ty);
    RebaseTypeParameter(how, first, second, ty);
    match RebaseType(how, first, second, ty)
    case Some(replacement) => LookupConformanceSpec(w, secondSubMap, w.canonicalType(replacement), proto)
    case None =>
      var conformance := LookupConformanceSpec(w, firstSubMap, ty, proto);
      if !conformance.Invalid? then conformance
      else if substType.IsTypeParameter() then Abstract(proto)
      else w.globalLookup(substType, proto)
  }

  /** A type-parameter subject whose root parameter lies below the splice
      point gets the first map's conformance when that one is valid. */
  lemma CombineConformanceSplit(w: World, firstSubMap: SubstitutionMap, secondSubMap: SubstitutionMap,
                                how: CombineHow, first: nat, second: nat,
                                ty: Type, substType: Type, proto: Protocol)
    requires firstSubMap.Valid() && secondSubMap.Valid()
    requires ty.IsTypeParameter()
    requires !LookupConformanceSpec(w, firstSubMap, ty, proto).Invalid?
    ensures ReplaceGenericParameter(how, first, second, Param(ty.RootGenericParam())).BelowSplice? ==>
              CombineConformance(w, firstSubMap, secondSubMap, how, first, second, ty, substType, proto)
                == LookupConformanceSpec(w, firstSubMap, ty, proto)
  {
    RebaseTypeParameter(how, first, second, ty);
  }

  /** The driver combineSubstitutionMaps hands to get(): the two callbacks,
      wrapped with default options, so opaque archetypes are not substituted. */
  function CombineDriver(w: World, firstSubMap: SubstitutionMap, secondSubMap: SubstitutionMap,
                         how: CombineHow, first: nat, second: nat): (ifs: InFlight)
    requires firstSubMap.Valid() && secondSubMap.Valid()
    ensures forall t :: ifs.substFn(t) == CombineReplacement(w, firstSubMap, secondSubMap, how, first, second, t)
    ensures forall ty, substType, proto :: ifs.lookupFn(ty, substType, proto)
              == CombineConformance(w, firstSubMap, secondSubMap, how, first, second, ty, substType, proto)
    ensures !ifs.substituteOpaque
  {
    InFlight(
      t => CombineReplacement(w, firstSubMap, secondSubMap, how, first, second, t),
      (ty, substType, proto) => CombineConformance(w, firstSubMap, secondSubMap, how, first, second, ty, substType, proto),
      false)
  }

  /** combineSubstitutionMaps: a map over `sig` whose parameters below the
      splice point come from the first map and the others, re-based, from
      the second. */
  method CombineSubstitutionMaps(w: World, firstSubMap: SubstitutionMap, secondSubMap: SubstitutionMap,
                                 how: CombineHow, first: nat, second: nat,
                                 sig: GenericSignature) returns (m: SubstitutionMap)
    requires firstSubMap.Valid() && secondSubMap.Valid()
    requires forall i :: 0 <= i < |sig.params| ==>
               PackShapeOk(sig.params[i], CombineReplacement(w, firstSubMap, secondSubMap, how, first, second, Param(sig.params[i])))
    ensures m == GetSpec(w, Some(sig), CombineDriver(w, firstSubMap, secondSubMap, how, first, second))
    ensures m.Valid() && m.Map? && m.sig == sig
    ensures forall i :: 0 <= i < |sig.params| ==>
              var gp := sig.params[i];
              (how == AtDepth && gp.depth < first ==> m.replacementTypes[i] == w.substInMap(firstSubMap, Param(gp)))
              && (how == AtDepth && gp.depth >= first ==>
                    m.replacementTypes[i] == w.substInMap(secondSubMap, Param(GenericParam(gp.depth + second - first, gp.index, gp.isPack))))
              && (how == AtIndex && gp.index < first ==> m.replacementTypes[i] == w.substInMap(firstSubMap, Param(gp)))
              && (how == AtIndex && gp.index >= first ==>
                    m.replacementTypes[i] == w.substInMap(secondSubMap, Param(GenericParam(gp.depth, gp.index + second - first, gp.isPack))))
    ensures forall k :: 0 <= k < |m.conformances| ==>
              var req := ConformanceRequirements(sig.requirements)[k];
              var depTy := w.canonicalType(req.subject);
              m.conformances[k] == CombineConformance(w, firstSubMap, secondSubMap, how, first, second,
                                     depTy, ApplyInFlight(w, depTy, CombineDriver(w, firstSubMap, secondSubMap, how, first, second)),
                                     req.proto)
  {
    var ifs := CombineDriver(w, firstSubMap, secondSubMap, how, first, second);
    m := Get(w, Some(sig), ifs);
  }

  /** In the combined map, a conformance requirement on a type parameter
      rooted below the splice point keeps the first map's conformance, when
      the first map has one. */
  lemma CombinedConformanceBelowSplice(w: World, firstSubMap: SubstitutionMap, secondSubMap: SubstitutionMap,
                                       how: CombineHow, first: nat, second: nat, sig: GenericSignature, k: nat)
    requires firstSubMap.Valid() && secondSubMap.Valid()
    requires CanonicalKeepsTypeParameters(w)
    requires k < |ConformanceRequirements(sig.requirements)|
    requires ConformanceRequirements(sig.requirements)[k].subject.IsTypeParameter()
    requires ReplaceGenericParameter(how, first, second,
               Param(ConformanceRequirements(sig.requirements)[k].subject.RootGenericParam())).BelowSplice?
    requires !LookupConformanceSpec(w, firstSubMap, ConformanceRequirements(sig.requirements)[k].subject,
                                    ConformanceRequirements(sig.requirements)[k].proto).Invalid?
    ensures var req := ConformanceRequirements(sig.requirements)[k];
      GetSpec(w, Some(sig), CombineDriver(w, firstSubMap, secondSubMap, how, first, second)).conformances[k]
        == LookupConformanceSpec(w, firstSubMap, req.subject, req.proto)
  {
    var req := ConformanceRequirements(sig.requirements)[k];
    var ifs := CombineDriver(w, firstSubMap, secondSubMap, how, first, second);
    assert ConformanceForRequirement(w, ifs, req)
        == CombineConformance(w, firstSubMap, secondSubMap, how, first, second, req.subject, ApplyInFlight(w, req.subject, ifs), req.proto);
    CombineConformanceSplit(w, firstSubMap, secondSubMap, how, first, second, req.subject, ApplyInFlight(w, req.subject, ifs), req.proto);
  }

  /** In the combined map, a conformance requirement on a type parameter
      rooted at or above the splice point is answered by the second map for
      the moved type parameter. */
  lemma CombinedConformanceAboveSplice(w: World, firstSubMap: SubstitutionMap, secondSubMap: SubstitutionMap,
                                       how: CombineHow, first: nat, second: nat, sig: GenericSignature, k: nat)
    requires firstSubMap.Valid() && secondSubMap.Valid()
    requires CanonicalKeepsTypeParameters(w)
    requires k < |ConformanceRequirements(sig.requirements)|
    requires ConformanceRequirements(sig.requirements)[k].subject.IsTypeParameter()
    requires ReplaceGenericParameter(how, first, second,
               Param(ConformanceRequirements(sig.requirements)[k].subject.RootGenericParam())).Rebased?
    ensures var req := ConformanceRequirements(sig.requirements)[k];
      var moved := RebaseType(how, first, second, req.subject);
      && moved.Some? && moved.value.IsTypeParameter()
      && moved.value.RootGenericParam()
           == ReplaceGenericParameter(how, first, second, Param(req.subject.RootGenericParam())).gp
      && GetSpec(w, Some(sig), CombineDriver(w, firstSubMap, secondSubMap, how, first, second)).conformances[k]
           == LookupConformanceSpec(w, secondSubMap, moved.value, req.proto)
  {
    var req := ConformanceRequirements(sig.requirements)[k];
    var ifs := CombineDriver(w, firstSubMap, secondSubMap, how, first, second);
    assert ConformanceForRequirement(w, ifs, req)
        == CombineConformance(w, firstSubMap, secondSubMap, how, first, second, req.subject, ApplyInFlight(w, req.subject, ifs), req.proto);
  }

  /** Without a derived parameter list, override re-basing of a member-owned
      parameter is the AtDepth splice from BaseDepth to OrigDepth. */
  lemma OverrideIsDepthSplice(w: World, info: OverrideSubsInfo, gp: GenericParam)
    requires info.derivedParams.None?
    requires gp.depth >= info.baseDepth
    ensures ReplaceGenericParameter(AtDepth, info.baseDepth, info.origDepth, Param(gp)).Rebased?
    ensures QueryOverrideSubs(w, info, Param(gp))
         == Param(ReplaceGenericParameter(AtDepth, info.baseDepth, info.origDepth, Param(gp)).gp)
  {
  }
}
