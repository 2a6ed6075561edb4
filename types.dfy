/** The vocabulary shared by every part of the model: generic parameters,
    types, conformance references and generic signatures.  Only the shape of
    a type that the substitution map inspects is modelled, with the shape
    queries (type parameter, error, root parameter) defined on it; what the
    surrounding compiler computes beyond the shape is an oracle (module SubstMap). */
module Types {

  datatype Option<+T> = None | Some(value: T)

  /** A canonical generic type parameter `τ_depth_index`, possibly a pack. */
  datatype GenericParam = GenericParam(depth: nat, index: nat, isPack: bool)

  /** Two parameters name the same slot of a signature when depth and index agree. */
  predicate SameKey(a: GenericParam, b: GenericParam) {
    a.depth == b.depth && a.index == b.index
  }

  datatype Protocol = Protocol(name: nat)

  /** Identity of a concrete (normal, specialized, builtin...) conformance object. */
  datatype Witness = Witness(id: nat)

  datatype ArchetypeKind = Primary | PackArchetype | OpaqueResult | Opened | Element

  datatype Type =
    | Param(gp: GenericParam)
    | Member(base: Type, name: nat)
    | Archetype(kind: ArchetypeKind, interfaceType: Type, hasSuperclass: bool)
    | Nominal(decl: nat, args: seq<Type>)
    | Existential(proto: Protocol)
    | Pack(elements: seq<Type>)
    | PackExpansion(pattern: Type)
    | ErrorType
  {
    /** A generic parameter, or a dependent member type rooted in one. */
    predicate IsTypeParameter() {
      match this
      case Param(_) => true
      case Member(base, _) => base.IsTypeParameter()
      case _ => false
    }

    /** A root archetype stands directly for a generic parameter. */
    predicate IsRootArchetype() {
      Archetype? && interfaceType.Param?
    }

    predicate IsExistential() {
      Existential?
    }

    predicate HasError() {
      match this
      case ErrorType => true
      case Member(base, _) => base.HasError()
      case Archetype(_, iface, _) => iface.HasError()
      case Nominal(_, args) => exists i :: 0 <= i < |args| && args[i].HasError()
      case Pack(elems) => exists i :: 0 <= i < |elems| && elems[i].HasError()
      case PackExpansion(p) => p.HasError()
      case _ => false
    }

    /** The generic parameter at the root of a type parameter. */
    function RootGenericParam(): (gp: GenericParam)
      requires IsTypeParameter()
      ensures Param? ==> gp == this.gp
      ensures Member? ==> gp == base.RootGenericParam()
    {
      match this
      case Param(g) => g
      case Member(base, _) => base.RootGenericParam()
    }
  }

  /** The replacement a parameter has in an identity map: the parameter itself,
      or, for a pack parameter, the singleton pack `Pack{repeat each T}`. */
  function WrappedParam(gp: GenericParam): (t: Type)
    ensures t.Pack? <==> gp.isPack
    ensures gp.isPack ==> t.elements == [PackExpansion(Param(gp))]
    ensures !gp.isPack ==> t == Param(gp)
  {
    if gp.isPack then Pack([PackExpansion(Param(gp))]) else Param(gp)
  }

  /** ProtocolConformanceRef: Invalid / Abstract / Concrete / Pack. */
  datatype Conformance =
    | Invalid
    | Abstract(proto: Protocol)
    | Concrete(concrete: Witness)
    | PackConformance(patterns: seq<Conformance>)

  /** A (subject type, protocol) pair: a conformance requirement or a path step. */
  datatype ConformanceKey = ConformanceKey(subject: Type, proto: Protocol)

  datatype RequirementKind = Conformance | Superclass | SameType | Layout | SameShape

  datatype Requirement =
    | ConformanceRequirement(subject: Type, proto: Protocol)
    | OtherRequirement(kind: RequirementKind, first: Type, second: Type)
  {
    /** getKind() == RequirementKind::Conformance */
    predicate IsConformance() { ConformanceRequirement? }
  }

  datatype GenericSignature = GenericSignature(params: seq<GenericParam>, requirements: seq<Requirement>)

  /** The conformance requirements of `reqs` in order, other kinds skipped;
      position k of this sequence is the index of the k-th stored conformance. */
  function ConformanceRequirements(reqs: seq<Requirement>): (keys: seq<ConformanceKey>)
    ensures |keys| <= |reqs|
  {
    if |reqs| == 0 then []
    else
      var last := reqs[|reqs| - 1];
      ConformanceRequirements(reqs[..|reqs| - 1])
        + (if last.IsConformance() then [ConformanceKey(last.subject, last.proto)] else [])
  }

  /** `key` is stated by a conformance requirement of `reqs`. */
  ghost predicate StatedBy(reqs: seq<Requirement>, key: ConformanceKey) {
    exists i :: 0 <= i < |reqs| && reqs[i].IsConformance() && key == ConformanceKey(reqs[i].subject, reqs[i].proto)
  }

  /** The numbering holds exactly the conformance requirements: every key is
      one of them, and each of them has a key. */
  lemma {:induction false} ConformanceRequirementsExact(reqs: seq<Requirement>)
    ensures forall k :: 0 <= k < |ConformanceRequirements(reqs)| ==> StatedBy(reqs, ConformanceRequirements(reqs)[k])
    ensures forall i :: 0 <= i < |reqs| && reqs[i].IsConformance() ==>
              ConformanceKey(reqs[i].subject, reqs[i].proto) in ConformanceRequirements(reqs)
    decreases |reqs|
  {
    var keys := ConformanceRequirements(reqs);
    if |reqs| > 0 {
      var front, last := reqs[..|reqs| - 1], reqs[|reqs| - 1];
      ConformanceRequirementsExact(front);
      var frontKeys := ConformanceRequirements(front);
      forall k | 0 <= k < |keys|
        ensures StatedBy(reqs, keys[k])
      {
        if k < |frontKeys| {
          assert keys[k] == frontKeys[k];
          assert StatedBy(front, frontKeys[k]);
          var i :| 0 <= i < |front| && front[i].IsConformance() && frontKeys[k] == ConformanceKey(front[i].subject, front[i].proto);
          assert reqs[i] == front[i];
        } else {
          assert reqs[|reqs| - 1] == last;
        }
      }
      forall i | 0 <= i < |reqs| && reqs[i].IsConformance()
        ensures ConformanceKey(reqs[i].subject, reqs[i].proto) in keys
      {
        if i < |front| {
          assert front[i] == reqs[i];
        } else {
          assert keys[|keys| - 1] == ConformanceKey(reqs[i].subject, reqs[i].proto);
        }
      }
    } else {
      assert keys == [];
    }
  }

  /** Numbering conformance requirements is compositional: the requirements of
      a concatenation are those of the first part followed by those of the second. */
  lemma {:induction false} ConformanceRequirementsAppend(a: seq<Requirement>, b: seq<Requirement>)
    ensures ConformanceRequirements(a + b) == ConformanceRequirements(a) + ConformanceRequirements(b)
    decreases |b|
  {
    if |b| == 0 {
      assert a + b == a;
    } else {
      var b' := b[..|b| - 1];
      assert (a + b)[..|a + b| - 1] == a + b';
      assert (a + b)[|a + b| - 1] == b[|b| - 1];
      ConformanceRequirementsAppend(a, b');
    }
  }

  /** One more requirement extends the numbering by at most one entry. */
  lemma ConformanceRequirementsStep(reqs: seq<Requirement>, j: nat)
    requires j < |reqs|
    ensures ConformanceRequirements(reqs[..j + 1])
         == ConformanceRequirements(reqs[..j])
          + (if reqs[j].IsConformance() then [ConformanceKey(reqs[j].subject, reqs[j].proto)] else [])
  {
    assert reqs[..j + 1][..j] == reqs[..j];
  }

  /** The numbering of a prefix is a prefix of the numbering. */
  lemma ConformanceRequirementsPrefix(reqs: seq<Requirement>, j: nat)
    requires j <= |reqs|
    ensures ConformanceRequirements(reqs[..j]) <= ConformanceRequirements(reqs)
  {
    var front, back := reqs[..j], reqs[j..];
    assert reqs == front + back;
    ConformanceRequirementsAppend(front, back);
    var whole := ConformanceRequirements(front) + ConformanceRequirements(back);
    assert ConformanceRequirements(front) == whole[..|ConformanceRequirements(front)|];
  }

  function NumConformanceRequirements(sig: GenericSignature): nat {
    |ConformanceRequirements(sig.requirements)|
  }

  /** Position of the first conformance requirement equal to `key`, or the
      number of conformance requirements when there is none. */
  function FindConformance(keys: seq<ConformanceKey>, key: ConformanceKey): (k: nat)
    ensures k <= |keys|
    ensures k < |keys| ==> keys[k] == key
    ensures forall j :: 0 <= j < k ==> keys[j] != key
  {
    if |keys| == 0 then 0
    else if keys[0] == key then 0
    else 1 + FindConformance(keys[1..], key)
  }

  /** Position of the first parameter with the same depth and index as `gp`,
      or the number of parameters when it is not represented. */
  function FindParamIndex(params: seq<GenericParam>, gp: GenericParam): (i: nat)
    ensures i <= |params|
    ensures i < |params| ==> SameKey(params[i], gp)
    ensures forall j :: 0 <= j < i ==> !SameKey(params[j], gp)
  {
    if |params| == 0 then 0
    else if SameKey(params[0], gp) then 0
    else 1 + FindParamIndex(params[1..], gp)
  }

  /** The innermost generic parameters are the trailing run at the greatest depth. */
  function InnermostParamCount(params: seq<GenericParam>): (n: nat)
    ensures n <= |params|
    ensures |params| > 0 ==> n > 0
    ensures forall i :: |params| - n <= i < |params| ==> params[i].depth == params[|params| - 1].depth
    ensures n < |params| ==> params[|params| - 1 - n].depth != params[|params| - 1].depth
  {
    if |params| == 0 then 0
    else CountTrailingDepth(params[..|params| - 1], params[|params| - 1].depth) + 1
  }

  function CountTrailingDepth(params: seq<GenericParam>, depth: nat): (n: nat)
    ensures n <= |params|
    ensures forall i :: |params| - n <= i < |params| ==> params[i].depth == depth
    ensures n < |params| ==> params[|params| - 1 - n].depth != depth
  {
    if |params| == 0 || params[|params| - 1].depth != depth then 0
    else CountTrailingDepth(params[..|params| - 1], depth) + 1
  }
}
