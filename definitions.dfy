/** The values the injector works on: type identities, the metadata store it
    reads, the entries of the discovered map and the errors it throws. */
module Definitions {

  /** A type identity: the constructor object the injector uses as a map key. */
  type TypeId = nat

  /** The injection metadata `@Injectable` attaches to a class. */
  datatype InjectionMetadata = InjectionMetadata(isSingleton: bool)

  /** The metadata store the injector reads: the injection metadata of every
      decorated class, and the constructor parameter types emitted for a class. */
  datatype Registry = Registry(
    metadata: map<TypeId, InjectionMetadata>,
    paramTypes: map<TypeId, seq<TypeId>>)
  {
    /** A type is injectable exactly when it carries injection metadata. */
    predicate IsInjectable(t: TypeId) {
      t in metadata
    }

    /** Declared constructor parameter types; a class without any has none. */
    function Params(t: TypeId): seq<TypeId> {
      if t in paramTypes then paramTypes[t] else []
    }
  }

  /** One entry of the discovered map: a type, its lifecycle and its
      override-adjusted dependency list. */
  datatype Entry = Entry(typeId: TypeId, isSingleton: bool, dependencies: seq<TypeId>)

  /** The three failures the injector raises. */
  datatype Error =
    | NotInjectable(typeId: TypeId)
    | DependencyNotInjectable(dependency: TypeId, requester: TypeId)
    | DependencyCycle(unresolved: seq<Entry>)

  datatype Option<+T> = None | Some(value: T)

  datatype Result<+T> = Success(value: T) | Failure(error: Error)

  predicate Distinct<T(==)>(s: seq<T>) {
    forall i, j :: 0 <= i < j < |s| ==> s[i] != s[j]
  }

  /** The position of the first occurrence of `x` in `s`, or `|s|` when `x`
      does not occur. */
  function IndexOf<T(==)>(s: seq<T>, x: T): (k: nat)
    ensures k <= |s| && (k < |s| <==> x in s)
    ensures k < |s| ==> s[k] == x
    ensures forall j :: 0 <= j < k ==> s[j] != x
    decreases |s|
  {
    if s == [] then 0
    else if s[0] == x then 0
    else 1 + IndexOf(s[1..], x)
  }

  /** The keys of a map kept as a sequence of entries in insertion order. */
  function KeySet(es: seq<Entry>): set<TypeId> {
    set e | e in es :: e.typeId
  }

  /** No type occurs twice among the keys. */
  predicate DistinctKeys(es: seq<Entry>) {
    forall i, j :: 0 <= i < j < |es| ==> es[i].typeId != es[j].typeId
  }

  lemma KeySetAppend(es: seq<Entry>, e: Entry)
    ensures KeySet(es + [e]) == KeySet(es) + {e.typeId}
  {
    assert forall x :: x in es + [e] <==> x in es || x == e;
  }

  lemma KeySetCons(e: Entry, es: seq<Entry>)
    ensures KeySet([e] + es) == {e.typeId} + KeySet(es)
  {
    assert forall x :: x in [e] + es <==> x == e || x in es;
  }
}
