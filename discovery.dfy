/** Discovery: the worklist walk that collects every type reachable from the
    requested ones, with its override-adjusted dependency list. The walk is
    stated over any dependency function `depsOf`; the injector instantiates it
    with `Overrides.DependencyFn`. The frontier is
    an insertion-ordered set (oldest first) and the discovered map keeps
    insertion order, so both are sequences here. */
module Discovery {
  import opened Definitions
  import opened Overrides

  /** The insertion-ordered set built from a list: first occurrences, in order. */
  function Dedup(s: seq<TypeId>): (r: seq<TypeId>)
    ensures Distinct(r)
    ensures forall x :: x in r <==> x in s
    ensures forall i, j :: 0 <= i < j < |r| ==> IndexOf(s, r[i]) < IndexOf(s, r[j])
  {
    DedupInto([], s)
  }

  function DedupInto(acc: seq<TypeId>, s: seq<TypeId>): (r: seq<TypeId>)
    requires Distinct(acc)
    ensures Distinct(r)
    ensures forall x :: x in r <==> x in acc || x in s
    ensures acc <= r
    ensures forall i, j :: |acc| <= i < j < |r| ==> IndexOf(s, r[i]) < IndexOf(s, r[j])
    decreases |s|
  {
    if s == [] then acc
    else DedupInto(if s[0] in acc then acc else acc + [s[0]], s[1..])
  }

  /** One step's scan of the dependencies of `next`: each one not yet
      discovered must be injectable and is added to the end of the frontier,
      in declaration order (adding a member again leaves the set as it is).
      The first non-injectable one, in declaration order, is reported
      together with `next`. */
  function Enqueue(reg: Registry, seen: set<TypeId>, next: TypeId, deps: seq<TypeId>, frontier: seq<TypeId>): (r: Result<seq<TypeId>>)
    requires Distinct(frontier)
    ensures r.Success? <==> forall d :: d in deps && d !in seen ==> reg.IsInjectable(d)
    ensures r.Success? ==>
      && Distinct(r.value)
      && frontier <= r.value
      && (forall d :: d in deps && d !in seen ==> d in r.value)
      && (forall x :: x in r.value ==> x in frontier || (x in deps && x !in seen && reg.IsInjectable(x)))
      && (forall i, j :: |frontier| <= i < j < |r.value| ==> IndexOf(deps, r.value[i]) < IndexOf(deps, r.value[j]))
    ensures r.Failure? ==>
      && r.error.DependencyNotInjectable?
      && r.error.requester == next
      && (exists k :: && 0 <= k < |deps| && deps[k] == r.error.dependency
                     && deps[k] !in seen && !reg.IsInjectable(deps[k])
                     && (forall j :: 0 <= j < k && deps[j] !in seen ==> reg.IsInjectable(deps[j])))
    decreases |deps|
  {
    if deps == [] then Success(frontier)
    else if deps[0] in seen then Enqueue(reg, seen, next, deps[1..], frontier)
    else if !reg.IsInjectable(deps[0]) then Failure(DependencyNotInjectable(deps[0], next))
    else
      var frontier' := if deps[0] in frontier then frontier else frontier + [deps[0]];
      assert deps[0] in frontier';
      Enqueue(reg, seen, next, deps[1..], frontier')
  }

  /** The scan from the `i`-th dependency on, one dependency at a time. */
  lemma EnqueueNext(reg: Registry, seen: set<TypeId>, next: TypeId, deps: seq<TypeId>, i: nat, frontier: seq<TypeId>)
    requires i < |deps| && Distinct(frontier)
    ensures var d := deps[i];
      Enqueue(reg, seen, next, deps[i..], frontier)
        == if d in seen then Enqueue(reg, seen, next, deps[i + 1..], frontier)
           else if !reg.IsInjectable(d) then Failure(DependencyNotInjectable(d, next))
           else Enqueue(reg, seen, next, deps[i + 1..], if d in frontier then frontier else frontier + [d])
  {
    assert deps[i..][0] == deps[i] && deps[i..][1..] == deps[i + 1..];
  }

  /** What holds of the walk's state between steps. */
  predicate Frontier(reg: Registry, discovered: seq<Entry>, frontier: seq<TypeId>) {
    && Distinct(frontier)
    && (forall x :: x in frontier ==> x !in KeySet(discovered))
    && KeySet(discovered) <= reg.metadata.Keys
  }

  /** The walk: take the oldest frontier member, fail if it has no metadata,
      scan its dependencies, then move it from the frontier to the
      discovered map. */
  function Discover(reg: Registry, depsOf: TypeId -> seq<TypeId>, discovered: seq<Entry>, frontier: seq<TypeId>): (r: Result<seq<Entry>>)
    requires Frontier(reg, discovered, frontier)
    ensures r.Success? ==> discovered <= r.value
    ensures r.Failure? ==> r.error.NotInjectable? || r.error.DependencyNotInjectable?
    decreases |reg.metadata.Keys - KeySet(discovered)|
  {
    if frontier == [] then Success(discovered)
    else
      var next := frontier[0];
      var deps := depsOf(next);
      if !reg.IsInjectable(next) then Failure(NotInjectable(next))
      else match Enqueue(reg, KeySet(discovered), next, deps, frontier)
        case Failure(e) => Failure(e)
        case Success(f) =>
          var discovered' := discovered + [Entry(next, reg.metadata[next].isSingleton, deps)];
          StepFrontier(reg, depsOf, discovered, frontier, f);
          Shrink(reg.metadata.Keys, KeySet(discovered), next);
          Discover(reg, depsOf, discovered', f[1..])
  }

  lemma Shrink(a: set<TypeId>, k: set<TypeId>, n: TypeId)
    requires n in a && n !in k
    ensures |a - (k + {n})| < |a - k|
  {
    assert a - k == (a - (k + {n})) + {n};
  }

  /** The discovered map for a list of requested types. */
  function Discovered(reg: Registry, depsOf: TypeId -> seq<TypeId>, roots: seq<TypeId>): (r: Result<seq<Entry>>)
    ensures roots == [] ==> r == Success([])
    ensures r.Failure? ==> r.error.NotInjectable? || r.error.DependencyNotInjectable?
  {
    Discover(reg, depsOf, [], Dedup(roots))
  }

  /** An entry records the metadata and the effective dependencies of its type. */
  predicate EntryOf(reg: Registry, depsOf: TypeId -> seq<TypeId>, e: Entry) {
    && reg.IsInjectable(e.typeId)
    && e.isSingleton == reg.metadata[e.typeId].isSingleton
    && e.dependencies == depsOf(e.typeId)
  }

  /** Every dependency of every entry is itself a key. */
  predicate DepsClosed(es: seq<Entry>) {
    forall e, d :: e in es && d in e.dependencies ==> d in KeySet(es)
  }

  /** A set of types that contains the dependencies of each of its injectable members. */
  ghost predicate Closed(reg: Registry, depsOf: TypeId -> seq<TypeId>, s: set<TypeId>) {
    forall t, d :: t in s && reg.IsInjectable(t) && d in depsOf(t) ==> d in s
  }

  /** A closed set of injectable types holding every requested type. */
  ghost predicate InjectableClosure(reg: Registry, depsOf: TypeId -> seq<TypeId>, roots: seq<TypeId>, s: set<TypeId>) {
    && (forall r :: r in roots ==> r in s)
    && s <= reg.metadata.Keys
    && Closed(reg, depsOf, s)
  }

  /** One step of the walk keeps the state well formed: the new oldest member
      is gone, everything else of the old frontier stays, and every dependency
      of the moved type is now discovered or waiting. */
  lemma StepFrontier(reg: Registry, depsOf: TypeId -> seq<TypeId>, discovered: seq<Entry>, frontier: seq<TypeId>, f: seq<TypeId>)
    requires Frontier(reg, discovered, frontier) && frontier != [] && reg.IsInjectable(frontier[0])
    requires Enqueue(reg, KeySet(discovered), frontier[0], depsOf(frontier[0]), frontier) == Success(f)
    ensures f != [] && f[0] == frontier[0]
    ensures var e := Entry(frontier[0], reg.metadata[frontier[0]].isSingleton, depsOf(frontier[0]));
      && KeySet(discovered + [e]) == KeySet(discovered) + {frontier[0]}
      && Frontier(reg, discovered + [e], f[1..])
      && (forall x :: x in frontier ==> x == frontier[0] || x in f[1..])
      && (forall d :: d in e.dependencies ==> d in KeySet(discovered + [e]) || d in f[1..])
  {
    var next := frontier[0];
    var e := Entry(next, reg.metadata[next].isSingleton, depsOf(next));
    KeySetAppend(discovered, e);
    assert f[0] == next;
    forall x | x in f ensures x == next || x in f[1..] {
      var k :| 0 <= k < |f| && f[k] == x;
      if k > 0 { assert f[1..][k - 1] == x; }
    }
  }

  lemma AppendDistinctKeys(discovered: seq<Entry>, e: Entry)
    requires DistinctKeys(discovered) && e.typeId !in KeySet(discovered)
    ensures DistinctKeys(discovered + [e])
  {
    var d' := discovered + [e];
    forall i, j | 0 <= i < j < |d'| ensures d'[i].typeId != d'[j].typeId {
      if j == |discovered| {
        assert d'[i] in discovered;
      }
    }
  }

  /** A successful walk only appends to the discovered map, with well-formed
      entries, each type once. */
  lemma {:induction false} DiscoverExtends(reg: Registry, depsOf: TypeId -> seq<TypeId>, discovered: seq<Entry>, frontier: seq<TypeId>)
    requires Frontier(reg, discovered, frontier)
    requires DistinctKeys(discovered)
    requires forall e :: e in discovered ==> EntryOf(reg, depsOf, e)
    ensures Discover(reg, depsOf, discovered, frontier).Success? ==>
      var es := Discover(reg, depsOf, discovered, frontier).value;
      && discovered <= es
      && DistinctKeys(es)
      && (forall e :: e in es ==> EntryOf(reg, depsOf, e))
    decreases |reg.metadata.Keys - KeySet(discovered)|
  {
    if frontier != [] && reg.IsInjectable(frontier[0]) {
      var next := frontier[0];
      var deps := depsOf(next);
      var q := Enqueue(reg, KeySet(discovered), next, deps, frontier);
      if q.Success? {
        var f := q.value;
        var e := Entry(next, reg.metadata[next].isSingleton, deps);
        var discovered' := discovered + [e];
        StepFrontier(reg, depsOf, discovered, frontier, f);
        AppendDistinctKeys(discovered, e);
        Shrink(reg.metadata.Keys, KeySet(discovered), next);
        assert forall e' :: e' in discovered' ==> e' in discovered || e' == e;
        assert Discover(reg, depsOf, discovered, frontier) == Discover(reg, depsOf, discovered', f[1..]);
        DiscoverExtends(reg, depsOf, discovered', f[1..]);
        if Discover(reg, depsOf, discovered', f[1..]).Success? {
          var es := Discover(reg, depsOf, discovered', f[1..]).value;
          assert discovered <= es by {
            forall i | 0 <= i < |discovered| ensures discovered[i] == es[i] {
              assert discovered'[i] == discovered[i];
            }
          }
        }
      }
    }
  }

  /** A successful walk discovers every frontier member and leaves the
      discovered map closed under dependencies. */
  lemma {:induction false} DiscoverCloses(reg: Registry, depsOf: TypeId -> seq<TypeId>, discovered: seq<Entry>, frontier: seq<TypeId>)
    requires Frontier(reg, discovered, frontier)
    requires forall e, d :: e in discovered && d in e.dependencies ==> d in KeySet(discovered) || d in frontier
    ensures Discover(reg, depsOf, discovered, frontier).Success? ==>
      var es := Discover(reg, depsOf, discovered, frontier).value;
      && KeySet(discovered) <= KeySet(es)
      && (forall x :: x in frontier ==> x in KeySet(es))
      && DepsClosed(es)
    decreases |reg.metadata.Keys - KeySet(discovered)|
  {
    if frontier != [] && reg.IsInjectable(frontier[0]) {
      var next := frontier[0];
      var deps := depsOf(next);
      var q := Enqueue(reg, KeySet(discovered), next, deps, frontier);
      if q.Success? {
        var f := q.value;
        var e := Entry(next, reg.metadata[next].isSingleton, deps);
        var discovered' := discovered + [e];
        StepFrontier(reg, depsOf, discovered, frontier, f);
        Shrink(reg.metadata.Keys, KeySet(discovered), next);
        assert forall e' :: e' in discovered' ==> e' in discovered || e' == e;
        assert Discover(reg, depsOf, discovered, frontier) == Discover(reg, depsOf, discovered', f[1..]);
        DiscoverCloses(reg, depsOf, discovered', f[1..]);
      }
    }
  }

  /** The failures discovery can report: a requested type without metadata, or
      a non-injectable dependency of an injectable type. */
  predicate FailureKind(reg: Registry, depsOf: TypeId -> seq<TypeId>, roots: seq<TypeId>, e: Error) {
    match e
    case NotInjectable(t) => t in roots && !reg.IsInjectable(t)
    case DependencyNotInjectable(d, t) => reg.IsInjectable(t) && d in depsOf(t) && !reg.IsInjectable(d)
    case DependencyCycle(_) => false
  }

  /** The types a failure names, as members of `s`. */
  ghost predicate FailureWithin(e: Error, s: set<TypeId>) {
    match e
    case NotInjectable(t) => t in s
    case DependencyNotInjectable(d, t) => t in s && d in s
    case DependencyCycle(_) => false
  }

  lemma {:induction false} DiscoverFailureKind(reg: Registry, depsOf: TypeId -> seq<TypeId>, discovered: seq<Entry>, frontier: seq<TypeId>, roots: seq<TypeId>)
    requires Frontier(reg, discovered, frontier)
    requires forall x :: x in frontier ==> reg.IsInjectable(x) || x in roots
    ensures Discover(reg, depsOf, discovered, frontier).Failure? ==>
      FailureKind(reg, depsOf, roots, Discover(reg, depsOf, discovered, frontier).error)
    decreases |reg.metadata.Keys - KeySet(discovered)|
  {
    if frontier != [] && reg.IsInjectable(frontier[0]) {
      var next := frontier[0];
      var q := Enqueue(reg, KeySet(discovered), next, depsOf(next), frontier);
      if q.Success? {
        var f := q.value;
        var e := Entry(next, reg.metadata[next].isSingleton, depsOf(next));
        StepFrontier(reg, depsOf, discovered, frontier, f);
        Shrink(reg.metadata.Keys, KeySet(discovered), next);
        DiscoverFailureKind(reg, depsOf, discovered + [e], f[1..], roots);
      }
    }
  }

  /** Whatever the walk touches lies in every closed set holding the frontier
      and the discovered types: on success all discovered types, on failure the
      types the error names. */
  lemma {:induction false} DiscoverWithin(reg: Registry, depsOf: TypeId -> seq<TypeId>, discovered: seq<Entry>, frontier: seq<TypeId>, s: set<TypeId>)
    requires Frontier(reg, discovered, frontier)
    requires KeySet(discovered) <= s && (forall x :: x in frontier ==> x in s)
    requires Closed(reg, depsOf, s)
    ensures var r := Discover(reg, depsOf, discovered, frontier);
      && (r.Success? ==> KeySet(r.value) <= s)
      && (r.Failure? ==> FailureWithin(r.error, s))
    decreases |reg.metadata.Keys - KeySet(discovered)|
  {
    if frontier != [] && reg.IsInjectable(frontier[0]) {
      var next := frontier[0];
      var q := Enqueue(reg, KeySet(discovered), next, depsOf(next), frontier);
      if q.Success? {
        var f := q.value;
        var e := Entry(next, reg.metadata[next].isSingleton, depsOf(next));
        StepFrontier(reg, depsOf, discovered, frontier, f);
        Shrink(reg.metadata.Keys, KeySet(discovered), next);
        assert forall x :: x in f[1..] ==> x in f;
        DiscoverWithin(reg, depsOf, discovered + [e], f[1..], s);
      }
    }
  }

  /** On success the discovered map holds every requested type, records each
      type once with its metadata and effective dependencies, has every
      dependency of every entry as a key, and is the least set with these
      properties: it lies inside every closed set holding the requested types. */
  lemma DiscoveredIsLeastClosure(reg: Registry, depsOf: TypeId -> seq<TypeId>, roots: seq<TypeId>)
    ensures Discovered(reg, depsOf, roots).Success? ==>
      var es := Discovered(reg, depsOf, roots).value;
      && DistinctKeys(es)
      && (forall e :: e in es ==> EntryOf(reg, depsOf, e))
      && (forall r :: r in roots ==> r in KeySet(es))
      && DepsClosed(es)
      && (forall s :: Closed(reg, depsOf, s) && (forall r :: r in roots ==> r in s) ==> KeySet(es) <= s)
  {
    var frontier := Dedup(roots);
    assert KeySet([]) == {};
    DiscoverExtends(reg, depsOf, [], frontier);
    DiscoverCloses(reg, depsOf, [], frontier);
    forall s | Closed(reg, depsOf, s) && (forall r :: r in roots ==> r in s)
      ensures Discovered(reg, depsOf, roots).Success? ==> KeySet(Discovered(reg, depsOf, roots).value) <= s
    {
      DiscoverWithin(reg, depsOf, [], frontier, s);
    }
  }

  /** Discovery fails only on a requested type without metadata or on a
      non-injectable dependency of an injectable type, and the types it names
      lie in every closed set holding the requested types (they are reachable). */
  lemma DiscoveredFailure(reg: Registry, depsOf: TypeId -> seq<TypeId>, roots: seq<TypeId>)
    ensures Discovered(reg, depsOf, roots).Failure? ==>
      var e := Discovered(reg, depsOf, roots).error;
      && FailureKind(reg, depsOf, roots, e)
      && (forall s :: Closed(reg, depsOf, s) && (forall r :: r in roots ==> r in s) ==> FailureWithin(e, s))
  {
    var frontier := Dedup(roots);
    assert KeySet([]) == {};
    DiscoverFailureKind(reg, depsOf, [], frontier, roots);
    forall s | Closed(reg, depsOf, s) && (forall r :: r in roots ==> r in s)
      ensures Discovered(reg, depsOf, roots).Failure? ==> FailureWithin(Discovered(reg, depsOf, roots).error, s)
    {
      DiscoverWithin(reg, depsOf, [], frontier, s);
    }
  }

  /** Discovery succeeds exactly when the requested types lie in a closed set
      of injectable types. */
  lemma DiscoveredSucceedsIff(reg: Registry, depsOf: TypeId -> seq<TypeId>, roots: seq<TypeId>)
    ensures Discovered(reg, depsOf, roots).Success? <==> exists s :: InjectableClosure(reg, depsOf, roots, s)
  {
    DiscoveredIsLeastClosure(reg, depsOf, roots);
    DiscoveredFailure(reg, depsOf, roots);
    if Discovered(reg, depsOf, roots).Success? {
      var es := Discovered(reg, depsOf, roots).value;
      assert InjectableClosure(reg, depsOf, roots, KeySet(es));
    }
  }
}
