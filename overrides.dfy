/** The override rule: how one declared constructor parameter of a requesting
    type is replaced by the caller-supplied override for it. */
module Overrides {
  import opened Definitions

  /** The effective dependency of `requester` for one declared parameter `dep`. */
  function Substitute(overrides: map<TypeId, TypeId>, requester: TypeId, dep: TypeId): TypeId {
    if dep in overrides && overrides[dep] != requester then overrides[dep] else dep
  }

  /** The declared parameter list mapped through `Substitute`, in order: each
      position holds the override of the declared type, unless there is none
      or the override is the requesting type itself. So an override never
      makes a type depend on itself unless it declares itself. */
  function EffectiveDeps(overrides: map<TypeId, TypeId>, requester: TypeId, declared: seq<TypeId>): (r: seq<TypeId>)
    ensures |r| == |declared|
    ensures forall i :: 0 <= i < |r| && declared[i] !in overrides ==> r[i] == declared[i]
    ensures forall i :: 0 <= i < |r| && declared[i] in overrides && overrides[declared[i]] != requester ==>
      r[i] == overrides[declared[i]]
    ensures forall i :: 0 <= i < |r| && declared[i] in overrides && overrides[declared[i]] == requester ==>
      r[i] == declared[i]
    ensures forall i :: 0 <= i < |r| && r[i] == requester ==> declared[i] == requester
  {
    seq(|declared|, i requires 0 <= i < |declared| => Substitute(overrides, requester, declared[i]))
  }

  /** The dependency list the injector computes for a type: one per
      declared parameter (none when no parameter types were recorded), each
      the declared type or its override, and never the type itself unless
      it declared itself. */
  function Dependencies(reg: Registry, overrides: map<TypeId, TypeId>, t: TypeId): (r: seq<TypeId>)
    ensures t !in reg.paramTypes ==> r == []
    ensures t in reg.paramTypes ==> |r| == |reg.paramTypes[t]|
    ensures forall i :: 0 <= i < |r| && r[i] != reg.Params(t)[i] ==>
      reg.Params(t)[i] in overrides && r[i] == overrides[reg.Params(t)[i]]
    ensures forall i :: 0 <= i < |r| && r[i] == t ==> reg.Params(t)[i] == t
  {
    EffectiveDeps(overrides, t, reg.Params(t))
  }

  /** The dependency lists as a function of the type, as discovery uses them. */
  function DependencyFn(reg: Registry, overrides: map<TypeId, TypeId>): TypeId -> seq<TypeId> {
    t => Dependencies(reg, overrides, t)
  }

  /** Without overrides the declared list is used unchanged. */
  lemma NoOverridesIsIdentity(requester: TypeId, declared: seq<TypeId>)
    ensures EffectiveDeps(map[], requester, declared) == declared
  {
  }
}
