/** The injector: its cache of factories, the discovery walk and the
    resolve loop as methods with loop invariants, and the bootstrap facade. */
module Injection {
  import opened Definitions
  import opened Overrides
  import opened Discovery
  import opened Scheduling

  /** An object the injector built: the class it is an instance of and the
      arguments its constructor received, in parameter order. Object identity
      is JavaScript's `===`. */
  class Instance {
    const typeId: TypeId
    const args: seq<Instance>

    constructor (typeId: TypeId, args: seq<Instance>)
      ensures this.typeId == typeId && this.args == args
    {
      this.typeId := typeId;
      this.args := args;
    }
  }

  /** The factory `#resolved` holds for a type: a singleton's returns the
      instance built at resolve time; a transient one's builds a new instance
      of `typeId` from `dependencies` on every call. */
  datatype Factory =
    | Cached(instance: Instance)
    | Construct(typeId: TypeId, dependencies: seq<TypeId>)

  /** Every cached type is injectable, its factory matches its lifecycle,
      and a transient factory builds the type from its dependencies. */
  ghost predicate Registered(reg: Registry, cache: map<TypeId, Factory>, depsOf: TypeId -> seq<TypeId>) {
    forall t :: t in cache ==>
      && reg.IsInjectable(t)
      && (cache[t].Cached? <==> reg.metadata[t].isSingleton)
      && (cache[t].Construct? ==> cache[t] == Construct(t, depsOf(t)))
  }

  /** Every dependency of a cached type is cached. */
  ghost predicate DepsCached(cache: map<TypeId, Factory>, depsOf: TypeId -> seq<TypeId>) {
    forall t, d :: t in cache && d in depsOf(t) ==> d in cache
  }

  /** Installation order: every type was installed after its dependencies. */
  ghost predicate Ranked(cache: map<TypeId, Factory>, depsOf: TypeId -> seq<TypeId>, rank: TypeId -> nat, installs: nat) {
    && (forall t :: t in cache ==> rank(t) < installs)
    && (forall t, d :: t in cache && d in depsOf(t) ==> rank(d) < rank(t))
  }

  /** Every cached instance is of its type. */
  ghost predicate Typed(cache: map<TypeId, Factory>) {
    forall t :: t in cache && cache[t].Cached? ==> cache[t].instance.typeId == t
  }

  /** What calling a cached factory relies on. */
  ghost predicate Invocable(reg: Registry, cache: map<TypeId, Factory>, depsOf: TypeId -> seq<TypeId>,
                            rank: TypeId -> nat, installs: nat) {
    Registered(reg, cache, depsOf) && DepsCached(cache, depsOf) && Ranked(cache, depsOf, rank, installs) && Typed(cache)
  }

  /** `rank` with `n` moved to `v`. */
  ghost function Bump(rank: TypeId -> nat, n: TypeId, v: nat): TypeId -> nat {
    t => if t == n then v else rank(t)
  }

  /** Installing the factory of a pending entry whose dependencies are all
      cached, ranked above everything installed so far. */
  lemma InvocableInstall(reg: Registry, cache: map<TypeId, Factory>, depsOf: TypeId -> seq<TypeId>,
                         rank: TypeId -> nat, installs: nat, e: Entry, f: Factory)
    requires Invocable(reg, cache, depsOf, rank, installs)
    requires EntryOf(reg, depsOf, e) && e.typeId !in cache && Ready(e, cache.Keys)
    requires e.isSingleton ==> f.Cached? && f.instance.typeId == e.typeId
    requires !e.isSingleton ==> f == Construct(e.typeId, e.dependencies)
    ensures Invocable(reg, cache[e.typeId := f], depsOf, Bump(rank, e.typeId, installs), installs + 1)
  {
    var n := e.typeId;
    var cache', rank' := cache[n := f], Bump(rank, n, installs);
    forall t, d | t in cache' && d in depsOf(t) ensures d in cache' {
      if t == n {
        var k :| 0 <= k < |e.dependencies| && e.dependencies[k] == d;
      }
    }
    forall t, d | t in cache' && d in depsOf(t) ensures rank'(d) < rank'(t) {
      if t == n {
        var k :| 0 <= k < |e.dependencies| && e.dependencies[k] == d;
      }
    }
  }

  /** `t` has a transient factory in `cache`. */
  predicate IsTransient(cache: map<TypeId, Factory>, t: TypeId) {
    t in cache && cache[t].Construct?
  }

  /** `args` holds one value per dependency in `deps`: of the right type, the
      cached instance for a singleton, and a value of its own for a transient
      one (no other argument is the same object). */
  ghost predicate Arguments(cache: map<TypeId, Factory>, args: seq<Instance>, deps: seq<TypeId>) {
    && |args| == |deps|
    && (forall i :: 0 <= i < |deps| ==>
          && args[i].typeId == deps[i]
          && deps[i] in cache
          && (cache[deps[i]].Cached? ==> args[i] == cache[deps[i]].instance))
    && (forall i, j :: 0 <= i < j < |deps| && (IsTransient(cache, deps[i]) || IsTransient(cache, deps[j])) ==>
          args[i] != args[j])
  }

  /** Prepending the value of one more dependency to an argument list: a
      transient value `o` is new, so it is none of the cached instances and
      none of the values built after it. */
  lemma ArgumentsCons(cache: map<TypeId, Factory>, o: Instance, d: TypeId, args: seq<Instance>, deps: seq<TypeId>,
                      made: set<Instance>)
    requires Arguments(cache, args, deps)
    requires forall i :: 0 <= i < |args| && IsTransient(cache, deps[i]) ==> args[i] in made
    requires d in cache && o.typeId == d && (cache[d].Cached? ==> o == cache[d].instance)
    requires o !in made
    requires IsTransient(cache, d) ==> forall t :: t in cache && cache[t].Cached? ==> cache[t].instance != o
    ensures Arguments(cache, [o] + args, [d] + deps)
    ensures forall i :: 0 <= i <= |args| && IsTransient(cache, ([d] + deps)[i]) ==>
      ([o] + args)[i] in (if IsTransient(cache, d) then {o} + made else made)
  {
    var args', deps' := [o] + args, [d] + deps;
    forall i, j | 0 <= i < j < |deps'| && (IsTransient(cache, deps'[i]) || IsTransient(cache, deps'[j]))
      ensures args'[i] != args'[j]
    {
      if i == 0 {
        assert args'[j] == args[j - 1] && deps'[j] == deps[j - 1];
      } else {
        assert args'[i] == args[i - 1] && deps'[i] == deps[i - 1];
        assert args'[j] == args[j - 1] && deps'[j] == deps[j - 1];
      }
    }
    forall i | 1 <= i <= |args| ensures args'[i] == args[i - 1] && deps'[i] == deps[i - 1] { }
  }

  /** Every cached instance was built from its dependencies. */
  ghost predicate Wiring(cache: map<TypeId, Factory>, depsOf: TypeId -> seq<TypeId>) {
    forall t :: t in cache && cache[t].Cached? ==> Arguments(cache, cache[t].instance.args, depsOf(t))
  }

  /** Slot `i` of the cached instance of `t` holds a transient value. */
  ghost predicate TransientSlot(cache: map<TypeId, Factory>, depsOf: TypeId -> seq<TypeId>, t: TypeId, i: int) {
    && t in cache && cache[t].Cached?
    && 0 <= i < |cache[t].instance.args|
    && i < |depsOf(t)| && IsTransient(cache, depsOf(t)[i])
  }

  ghost function Arg(cache: map<TypeId, Factory>, t: TypeId, i: int): Instance
    requires t in cache && cache[t].Cached? && 0 <= i < |cache[t].instance.args|
  {
    cache[t].instance.args[i]
  }

  /** A transient value one cached instance received is no argument of
      another cached instance and is itself no cached instance. */
  ghost predicate Unshared(cache: map<TypeId, Factory>, depsOf: TypeId -> seq<TypeId>) {
    && (forall t, i, u, j ::
          (TransientSlot(cache, depsOf, t, i) && u in cache && cache[u].Cached? && u != t
           && 0 <= j < |cache[u].instance.args|) ==> Arg(cache, t, i) != Arg(cache, u, j))
    && (forall t, i, u :: TransientSlot(cache, depsOf, t, i) && u in cache && cache[u].Cached? ==>
          Arg(cache, t, i) != cache[u].instance)
  }

  /** The cached instances and their arguments. */
  ghost function Objects(cache: map<TypeId, Factory>): set<Instance> {
    (set t | t in cache && cache[t].Cached? :: cache[t].instance)
    + (set t, i | t in cache && cache[t].Cached? && 0 <= i < |cache[t].instance.args| :: cache[t].instance.args[i])
  }

  /** In a well-formed argument list, two arguments are one object exactly
      when they are for the same singleton type. */
  lemma ArgumentsShared(reg: Registry, cache: map<TypeId, Factory>, depsOf: TypeId -> seq<TypeId>,
                        args: seq<Instance>, deps: seq<TypeId>)
    requires Registered(reg, cache, depsOf) && Arguments(cache, args, deps)
    ensures forall i :: 0 <= i < |deps| ==> reg.IsInjectable(deps[i])
    ensures forall i, j :: 0 <= i < j < |args| ==>
      (args[i] == args[j] <==> deps[i] == deps[j] && reg.metadata[deps[i]].isSingleton)
  {
  }

  /** An argument list stays well formed when a type none of its
      dependencies is gets installed. */
  lemma ArgumentsExtend(cache: map<TypeId, Factory>, n: TypeId, f: Factory, args: seq<Instance>, deps: seq<TypeId>)
    requires Arguments(cache, args, deps) && n !in cache
    ensures Arguments(cache[n := f], args, deps)
  {
    var cache' := cache[n := f];
    assert forall i :: 0 <= i < |deps| ==> deps[i] != n && cache'[deps[i]] == cache[deps[i]];
  }

  /** Installing a factory for a new type keeps every cached instance wired. */
  lemma WiringInstall(cache: map<TypeId, Factory>, depsOf: TypeId -> seq<TypeId>, n: TypeId, f: Factory)
    requires Wiring(cache, depsOf) && n !in cache
    requires f.Cached? ==> Arguments(cache, f.instance.args, depsOf(n))
    ensures Wiring(cache[n := f], depsOf)
  {
    var cache' := cache[n := f];
    forall t | t in cache' && cache'[t].Cached?
      ensures Arguments(cache', cache'[t].instance.args, depsOf(t))
    {
      ArgumentsExtend(cache, n, f, cache'[t].instance.args, depsOf(t));
    }
  }

  /** Installing a singleton built from new transient values (`made`) keeps
      transient values unshared, provided the instance itself is new too. */
  lemma UnsharedInstall(cache: map<TypeId, Factory>, depsOf: TypeId -> seq<TypeId>, n: TypeId, inst: Instance, made: set<Instance>)
    requires Unshared(cache, depsOf) && n !in cache
    requires Arguments(cache, inst.args, depsOf(n))
    requires forall i :: 0 <= i < |inst.args| && IsTransient(cache, depsOf(n)[i]) ==> inst.args[i] in made
    requires made !! Objects(cache) && inst !in made && inst !in Objects(cache)
    ensures Unshared(cache[n := Cached(inst)], depsOf)
  {
    var cache' := cache[n := Cached(inst)];
    forall t, i, u, j |
      && TransientSlot(cache', depsOf, t, i) && u in cache' && cache'[u].Cached? && u != t
      && 0 <= j < |cache'[u].instance.args|
      ensures Arg(cache', t, i) != Arg(cache', u, j)
    {
      if t == n {
        assert depsOf(n)[i] in cache && IsTransient(cache, depsOf(n)[i]);
        assert Arg(cache', t, i) in made;
        assert Arg(cache', u, j) == Arg(cache, u, j) && Arg(cache, u, j) in Objects(cache);
      } else if u == n {
        assert Arg(cache', t, i) == Arg(cache, t, i) && Arg(cache, t, i) in Objects(cache);
        assert TransientSlot(cache, depsOf, t, i);
        var d := depsOf(n)[j];
        assert Arg(cache', u, j) == inst.args[j] && d in cache;
        if IsTransient(cache, d) {
          assert inst.args[j] in made;
        } else {
          assert cache[d].Cached? && inst.args[j] == cache[d].instance;
          assert Arg(cache, t, i) != cache[d].instance;
        }
      } else {
        assert TransientSlot(cache, depsOf, t, i);
        assert Arg(cache', t, i) == Arg(cache, t, i) && Arg(cache', u, j) == Arg(cache, u, j);
      }
    }
    forall t, i, u | TransientSlot(cache', depsOf, t, i) && u in cache' && cache'[u].Cached?
      ensures Arg(cache', t, i) != cache'[u].instance
    {
      if t == n {
        assert depsOf(n)[i] in cache && IsTransient(cache, depsOf(n)[i]);
        if u != n {
          assert cache[u].instance in Objects(cache);
        }
      } else {
        assert Arg(cache', t, i) == Arg(cache, t, i) && Arg(cache, t, i) in Objects(cache);
        assert TransientSlot(cache, depsOf, t, i);
      }
    }
  }

  /** Installing a transient factory for a new type changes no cached
      instance and no slot's lifecycle. */
  lemma UnsharedInstallTransient(cache: map<TypeId, Factory>, depsOf: TypeId -> seq<TypeId>, n: TypeId, f: Factory)
    requires Unshared(cache, depsOf) && Wiring(cache, depsOf) && n !in cache && f.Construct?
    ensures Unshared(cache[n := f], depsOf)
  {
    var cache' := cache[n := f];
    forall t, i | TransientSlot(cache', depsOf, t, i)
      ensures TransientSlot(cache, depsOf, t, i) && Arg(cache', t, i) == Arg(cache, t, i)
    {
      assert depsOf(t)[i] in cache;
    }
  }

  /** Installing the first ready entry: the schedule so far, followed by that
      entry and the schedule of the remaining entries, is still the whole
      schedule. */
  lemma ScheduleSuffix(keys0: set<TypeId>, pending: seq<Entry>, done: seq<Entry>, keys: set<TypeId>,
                       unresolved: seq<Entry>, i: nat)
    requires i == FirstReady(unresolved, keys) && i < |unresolved|
    requires var rest := Schedule(keys, unresolved);
      Schedule(keys0, pending) == Run(done + rest.installed, rest.failure)
    ensures var rest := Schedule(keys + {unresolved[i].typeId}, RemoveAt(unresolved, i));
      Schedule(keys0, pending) == Run((done + [unresolved[i]]) + rest.installed, rest.failure)
  {
    var rest := Schedule(keys + {unresolved[i].typeId}, RemoveAt(unresolved, i));
    assert done + ([unresolved[i]] + rest.installed) == (done + [unresolved[i]]) + rest.installed;
  }

  /** The entries that remain pending after installing one still satisfy the
      loop's facts. */
  lemma PendingStep(reg: Registry, depsOf: TypeId -> seq<TypeId>, keys: set<TypeId>, pending: seq<Entry>, i: nat)
    requires DistinctKeys(pending) && i < |pending|
    requires forall e :: e in pending ==> EntryOf(reg, depsOf, e) && e.typeId !in keys
    ensures DistinctKeys(RemoveAt(pending, i))
    ensures forall e :: e in RemoveAt(pending, i) ==>
      EntryOf(reg, depsOf, e) && e.typeId !in keys + {pending[i].typeId}
  {
    RemoveAtMembers(pending, i);
    RemoveAtDistinct(pending, i);
  }

  /** What the resolve loop keeps, on values: `done` was installed, in this
      order, starting from the keys `keys0`; the entries still pending are
      distinct, uncached entries of the registry; and the rest of the
      schedule from here completes the whole schedule. */
  ghost predicate Building(reg: Registry, depsOf: TypeId -> seq<TypeId>, keys0: set<TypeId>, pending: seq<Entry>,
                           done: seq<Entry>, keys: set<TypeId>, unresolved: seq<Entry>)
  {
    && Settled(keys0, pending) == Settled(keys, unresolved)
    && DistinctKeys(unresolved)
    && (forall e :: e in unresolved ==> EntryOf(reg, depsOf, e) && e.typeId !in keys)
    && var rest := Schedule(keys, unresolved);
       Schedule(keys0, pending) == Run(done + rest.installed, rest.failure)
  }

  /** One round of the resolve loop, on values: installing the first ready
      entry keeps the remaining schedule a suffix of the whole schedule. */
  lemma BuildStep(reg: Registry, depsOf: TypeId -> seq<TypeId>, keys0: set<TypeId>, pending: seq<Entry>,
                  done: seq<Entry>, keys: set<TypeId>, unresolved: seq<Entry>, i: nat)
    requires Building(reg, depsOf, keys0, pending, done, keys, unresolved)
    requires i == FirstReady(unresolved, keys) && i < |unresolved|
    ensures EntryOf(reg, depsOf, unresolved[i]) && unresolved[i].typeId !in keys
    ensures Building(reg, depsOf, keys0, pending, done + [unresolved[i]], keys + {unresolved[i].typeId},
                     RemoveAt(unresolved, i))
  {
    PendingStep(reg, depsOf, keys, unresolved, i);
    ScheduleSuffix(keys0, pending, done, keys, unresolved, i);
  }

  /** When no pending entry is ready the whole schedule stops with the cycle
      error listing them; when none is pending it has succeeded. */
  lemma BuildEnd(reg: Registry, depsOf: TypeId -> seq<TypeId>, keys0: set<TypeId>, pending: seq<Entry>,
                 done: seq<Entry>, keys: set<TypeId>, unresolved: seq<Entry>)
    requires Building(reg, depsOf, keys0, pending, done, keys, unresolved)
    requires unresolved == [] || FirstReady(unresolved, keys) == |unresolved|
    ensures var run := Schedule(keys0, pending);
      && run.failure == (if unresolved == [] then None else Some(DependencyCycle(unresolved)))
      && keys == keys0 + KeySet(run.installed)
  {
    assert done + [] == done;
    SettledKeys(keys0, pending);
  }

  /** The types of a list of constructor arguments. */
  function ArgTypes(args: seq<Instance>): seq<TypeId> {
    seq(|args|, i requires 0 <= i < |args| => args[i].typeId)
  }

  /** Arguments built for `deps` are of the types `deps` lists, in order. */
  lemma ArgumentsTyped(cache: map<TypeId, Factory>, args: seq<Instance>, deps: seq<TypeId>)
    requires Arguments(cache, args, deps)
    ensures ArgTypes(args) == deps
  {
  }

  /** `cache` keeps every factory of `cache0`, and each singleton it adds
      was built from `made`. */
  ghost predicate Extends(cache0: map<TypeId, Factory>, cache: map<TypeId, Factory>, made: set<Instance>) {
    && (forall t :: t in cache0 ==> t in cache && cache[t] == cache0[t])
    && (forall t :: t in cache && t !in cache0 && cache[t].Cached? ==> cache[t].instance in made)
  }

  /** Installing a factory for an uncached type extends the cache. */
  lemma ExtendsInstall(cache0: map<TypeId, Factory>, cache: map<TypeId, Factory>, made: set<Instance>, t: TypeId, f: Factory)
    requires Extends(cache0, cache, made) && t !in cache
    ensures Extends(cache0, cache[t := f], made + if f.Cached? then {f.instance} else {})
  {
  }

  class Injector {
    /** The metadata store (global in the program, fixed for one injector). */
    const registry: Registry
    const overrides: map<TypeId, TypeId>
    var resolved: map<TypeId, Factory>

    /** Proof bookkeeping: the order in which the types were installed. Every
        type is installed after its dependencies, so invoking a factory ends. */
    ghost var rank: TypeId -> nat
    ghost var installs: nat

    /** `#getDependencies`: the override-adjusted dependencies of each type
        under this injector's overrides. */
    ghost const depsOf: TypeId -> seq<TypeId>

    /** `o` was built from one value per dependency in `deps`: of the right
        type, the cached instance for a singleton, and a value of its own for
        a transient one (no other argument is the same object). */
    ghost predicate Wired(o: Instance, deps: seq<TypeId>)
      reads this
    {
      Arguments(resolved, o.args, deps)
    }

    ghost predicate Valid()
      reads this
    {
      && depsOf == DependencyFn(registry, overrides)
      && Invocable(registry, resolved, depsOf, rank, installs)
      && Wiring(resolved, depsOf)
      && Unshared(resolved, depsOf)
    }

    constructor (registry: Registry, overrides: map<TypeId, TypeId>)
      ensures this.registry == registry && this.overrides == overrides
      ensures depsOf == DependencyFn(registry, overrides)
      ensures resolved == map[] && Valid()
    {
      this.registry := registry;
      this.overrides := overrides;
      depsOf := DependencyFn(registry, overrides);
      resolved := map[];
      rank := t => 0;
      installs := 0;
    }

    /** The scan of one type's dependencies during discovery: each one not
        discovered yet must be injectable, and joins the end of the frontier
        unless it is there already. */
    method ScanDependencies(seen: set<TypeId>, next: TypeId, dependencies: seq<TypeId>, frontier: seq<TypeId>)
      returns (r: Result<seq<TypeId>>)
      requires Distinct(frontier)
      ensures r == Enqueue(registry, seen, next, dependencies, frontier)
    {
      var undiscovered := frontier;
      var i := 0;
      while i < |dependencies|
        invariant 0 <= i <= |dependencies|
        invariant Distinct(undiscovered)
        invariant Enqueue(registry, seen, next, dependencies, frontier)
               == Enqueue(registry, seen, next, dependencies[i..], undiscovered)
      {
        var dep := dependencies[i];
        EnqueueNext(registry, seen, next, dependencies, i, undiscovered);
        if dep !in seen {
          if !registry.IsInjectable(dep) {
            return Failure(DependencyNotInjectable(dep, next));
          }
          if dep !in undiscovered {
            undiscovered := undiscovered + [dep];
          }
        }
        i := i + 1;
      }
      assert dependencies[i..] == [];
      return Success(undiscovered);
    }

    /** The discovery walk, with the frontier as an insertion-ordered set and
        the discovered map as a list of entries in insertion order. */
    method DiscoverDependencies(types: seq<TypeId>) returns (r: Result<seq<Entry>>)
      ensures r == Discovered(registry, DependencyFn(registry, overrides), types)
    {
      ghost var depsOf := DependencyFn(registry, overrides);
      var discovered: seq<Entry> := [];
      var undiscovered := Dedup(types);
      assert KeySet(discovered) == {};
      while undiscovered != []
        invariant Frontier(registry, discovered, undiscovered)
        invariant Discover(registry, depsOf, discovered, undiscovered) == Discovered(registry, depsOf, types)
        decreases |registry.metadata.Keys - KeySet(discovered)|
      {
        var next := undiscovered[0];
        var dependencies := Dependencies(registry, overrides, next);
        assert depsOf(next) == dependencies;
        if !registry.IsInjectable(next) {
          return Failure(NotInjectable(next));
        }
        var seen := KeySet(discovered);
        var scanned := ScanDependencies(seen, next, dependencies, undiscovered);
        if scanned.Failure? {
          return Failure(scanned.error);
        }
        var entry := Entry(next, registry.metadata[next].isSingleton, dependencies);
        StepFrontier(registry, depsOf, discovered, undiscovered, scanned.value);
        Shrink(registry.metadata.Keys, KeySet(discovered), next);
        undiscovered := scanned.value[1..];
        discovered := discovered + [entry];
      }
      return Success(discovered);
    }
  
    /** Calls the factory cached for `t`: a singleton's returns its instance,
        a transient one's builds a new instance from its dependencies. */
    method Invoke(t: TypeId) returns (o: Instance)
      requires Invocable(registry, resolved, depsOf, rank, installs) && t in resolved
      ensures o.typeId == t
      ensures resolved[t].Cached? ==> o == resolved[t].instance
      ensures resolved[t].Construct? ==>
        && fresh(o) && Wired(o, depsOf(t))
        && forall i :: 0 <= i < |o.args| && IsTransient(resolved, depsOf(t)[i]) ==> fresh(o.args[i])
      decreases rank(t), |depsOf(t)| + 1
    {
      match resolved[t]
      case Cached(instance) =>
        o := instance;
      case Construct(typeId, dependencies) =>
        var args, made := InvokeAll(dependencies, rank(t));
        o := new Instance(typeId, args);
    }

    /** `dependencies.map((Dep) => this.#resolved.get(Dep)!())`: one call of
        each dependency's factory, in order. `bound` is above the rank of
        every dependency. */
    method InvokeAll(dependencies: seq<TypeId>, ghost bound: nat) returns (args: seq<Instance>, ghost made: set<Instance>)
      requires Invocable(registry, resolved, depsOf, rank, installs)
      requires forall d :: d in dependencies ==> d in resolved && rank(d) < bound
      ensures Arguments(resolved, args, dependencies)
      ensures fresh(made)
      ensures forall i :: 0 <= i < |args| && IsTransient(resolved, dependencies[i]) ==> args[i] in made
      decreases bound, |dependencies|
    {
      if dependencies == [] {
        return [], {};
      }
      var d := dependencies[0];
      var o := Invoke(d);
      var rest;
      ghost var madeRest;
      rest, madeRest := InvokeAll(dependencies[1..], bound);
      ArgumentsCons(resolved, o, d, rest, dependencies[1..], madeRest);
      assert [d] + dependencies[1..] == dependencies;
      args := [o] + rest;
      made := if IsTransient(resolved, d) then {o} + madeRest else madeRest;
    }

    /** One step of the resolve loop: install the factory for a pending
        entry whose dependencies are all cached. A singleton is built now,
        from one call of each dependency's factory. */
    method Install(e: Entry)
      requires Valid() && EntryOf(registry, depsOf, e) && e.typeId !in resolved && Ready(e, resolved.Keys)
      modifies this
      ensures Valid()
      ensures e.typeId in resolved && resolved == old(resolved)[e.typeId := resolved[e.typeId]]
      ensures e.isSingleton ==> resolved[e.typeId].Cached? && fresh(resolved[e.typeId].instance)
      ensures !e.isSingleton ==> resolved[e.typeId] == Construct(e.typeId, e.dependencies)
    {
      ghost var cache := resolved;
      var f;
      if e.isSingleton {
        var args, made := InvokeAll(e.dependencies, installs);
        var instance := new Instance(e.typeId, args);
        assert made !! Objects(cache) && instance !in made && instance !in Objects(cache);
        UnsharedInstall(cache, depsOf, e.typeId, instance, made);
        f := Cached(instance);
      } else {
        f := Construct(e.typeId, e.dependencies);
        UnsharedInstallTransient(cache, depsOf, e.typeId, f);
      }
      WiringInstall(cache, depsOf, e.typeId, f);
      InvocableInstall(registry, cache, depsOf, rank, installs, e, f);
      resolved := resolved[e.typeId := f];
      rank := Bump(rank, e.typeId, installs);
      installs := installs + 1;
    }

    /** `bootstrap`: an injectable type is resolved and its factory called;
        any other type is built directly from its resolved dependencies and
        is never cached. */
    method Bootstrap(root: TypeId) returns (r: Result<Instance>)
      requires Valid()
      modifies this
      ensures Valid()
      ensures var plan := BootstrapPlan(registry, overrides, old(resolved).Keys, root);
        && (r.Failure? <==> plan.failure.Some?)
        && (r.Failure? ==> r.error == plan.failure.value)
        && resolved.Keys == old(resolved).Keys + KeySet(plan.installed)
      ensures forall t :: t in old(resolved) ==> resolved[t] == old(resolved)[t]
      ensures forall t :: t in resolved && t !in old(resolved) && resolved[t].Cached? ==> fresh(resolved[t].instance)
      ensures r.Success? ==> r.value.typeId == root && Wired(r.value, depsOf(root))
      ensures r.Success? && registry.IsInjectable(root) && registry.metadata[root].isSingleton ==>
        root in resolved && resolved[root] == Cached(r.value)
      ensures r.Success? && !(registry.IsInjectable(root) && registry.metadata[root].isSingleton) ==>
        && fresh(r.value)
        && forall i :: 0 <= i < |r.value.args| && IsTransient(resolved, depsOf(root)[i]) ==> fresh(r.value.args[i])
      ensures !registry.IsInjectable(root) ==> root !in resolved
      ensures r.Success? && old(resolved) == map[] ==>
        forall i :: 0 <= i < |r.value.args| && !IsTransient(resolved, depsOf(root)[i]) ==> fresh(r.value.args[i])
    {
      if registry.IsInjectable(root) {
        var failure := Resolve([root]);
        if failure.Some? {
          return Failure(failure.value);
        }
        var o := Invoke(root);
        return Success(o);
      } else {
        var dependencies := Dependencies(registry, overrides, root);
        var failure := Resolve(dependencies);
        if failure.Some? {
          return Failure(failure.value);
        }
        var args, made := InvokeAll(dependencies, installs);
        var o := new Instance(root, args);
        return Success(o);
      }
    }

    /** `#resolve`: discover from `types`, drop what is cached already, then
        build the rest. Factories installed before an error stay installed. */
    method Resolve(types: seq<TypeId>) returns (failure: Option<Error>)
      requires Valid()
      modifies this
      ensures Valid()
      ensures var plan := ResolvePlan(registry, overrides, old(resolved).Keys, types);
        && failure == plan.failure
        && resolved.Keys == old(resolved).Keys + KeySet(plan.installed)
      ensures forall t :: t in old(resolved) ==> resolved[t] == old(resolved)[t]
      ensures forall t :: t in resolved && t !in old(resolved) && resolved[t].Cached? ==> fresh(resolved[t].instance)
      ensures failure.None? ==> forall t :: t in types ==> t in resolved
    {
      var discovered := DiscoverDependencies(types);
      ResolvePlanOutcome(registry, overrides, resolved.Keys, types);
      if discovered.Failure? {
        return Some(discovered.error);
      }
      DiscoveredIsLeastClosure(registry, depsOf, types);
      PendingFacts(registry, depsOf, resolved.Keys, discovered.value);
      var unresolved := Unresolved(discovered.value, resolved.Keys);
      failure := Build(unresolved);
    }

    /** The resolve loop: repeatedly install the first pending entry, in
        discovery order, whose dependencies are all cached, until none is
        pending, or stop with the cycle error when none is ready. */
    method Build(pending: seq<Entry>) returns (failure: Option<Error>)
      requires Valid() && DistinctKeys(pending)
      requires forall e :: e in pending ==> EntryOf(registry, depsOf, e) && e.typeId !in resolved
      modifies this
      ensures Valid()
      ensures var run := Schedule(old(resolved).Keys, pending);
        && failure == run.failure
        && resolved.Keys == old(resolved).Keys + KeySet(run.installed)
      ensures forall t :: t in old(resolved) ==> resolved[t] == old(resolved)[t]
      ensures forall t :: t in resolved && t !in old(resolved) && resolved[t].Cached? ==> fresh(resolved[t].instance)
    {
      ghost var keys0 := resolved.Keys;
      var unresolved := pending;
      ghost var done: seq<Entry> := [];
      ghost var cache0, made := resolved, {};
      while unresolved != []
        invariant Valid()
        invariant Extends(cache0, resolved, made) && fresh(made)
        invariant Building(registry, depsOf, keys0, pending, done, resolved.Keys, unresolved)
        decreases |unresolved|
      {
        var i := FirstReady(unresolved, resolved.Keys);
        if i == |unresolved| {
          BuildEnd(registry, depsOf, keys0, pending, done, resolved.Keys, unresolved);
          return Some(DependencyCycle(unresolved));
        }
        ghost var added := InstallNext(unresolved, i, keys0, pending, done, cache0, made);
        made := made + added;
        done := done + [unresolved[i]];
        unresolved := RemoveAt(unresolved, i);
      }
      BuildEnd(registry, depsOf, keys0, pending, done, resolved.Keys, unresolved);
      return None;
    }

    /** One round of the resolve loop: install the first ready entry. */
    method InstallNext(unresolved: seq<Entry>, i: nat, ghost keys0: set<TypeId>, ghost pending: seq<Entry>,
                       ghost done: seq<Entry>, ghost cache0: map<TypeId, Factory>, ghost made: set<Instance>)
      returns (ghost added: set<Instance>)
      requires Valid() && Building(registry, depsOf, keys0, pending, done, resolved.Keys, unresolved)
      requires i == FirstReady(unresolved, resolved.Keys) && i < |unresolved|
      requires Extends(cache0, resolved, made)
      modifies this
      ensures Valid()
      ensures Building(registry, depsOf, keys0, pending, done + [unresolved[i]], resolved.Keys, RemoveAt(unresolved, i))
      ensures |RemoveAt(unresolved, i)| < |unresolved|
      ensures Extends(cache0, resolved, made + added) && fresh(added)
    {
      var next := unresolved[i];
      ghost var before := resolved;
      BuildStep(registry, depsOf, keys0, pending, done, before.Keys, unresolved, i);
      Install(next);
      assert resolved.Keys == before.Keys + {next.typeId};
      ghost var f := resolved[next.typeId];
      ExtendsInstall(cache0, before, made, next.typeId, f);
      added := if f.Cached? then {f.instance} else {};
    }
  }

  /** What the exported `bootstrap` learns about the arguments of its result
      from the injector it used. */
  lemma BootstrapArguments(reg: Registry, overrides: map<TypeId, TypeId>, cache: map<TypeId, Factory>,
                           depsOf: TypeId -> seq<TypeId>, root: TypeId, args: seq<Instance>)
    requires depsOf == DependencyFn(reg, overrides)
    requires Registered(reg, cache, depsOf) && Arguments(cache, args, depsOf(root))
    ensures var deps := Dependencies(reg, overrides, root);
      && ArgTypes(args) == deps
      && (forall i :: 0 <= i < |deps| ==> reg.IsInjectable(deps[i]))
      && (forall i, j :: 0 <= i < j < |args| ==>
            (args[i] == args[j] <==> deps[i] == deps[j] && reg.metadata[deps[i]].isSingleton))
      && (forall i :: 0 <= i < |args| && !IsTransient(cache, deps[i]) ==>
            deps[i] in cache && cache[deps[i]].Cached? && args[i] == cache[deps[i]].instance)
      && (forall i :: 0 <= i < |args| && reg.metadata[deps[i]].isSingleton ==> !IsTransient(cache, deps[i]))
  {
    ArgumentsTyped(cache, args, depsOf(root));
    ArgumentsShared(reg, cache, depsOf, args, depsOf(root));
  }

  /** The exported `bootstrap`: a fresh injector with the given overrides
      bootstraps `root`. Every object it returns is new, of type `root`,
      built from arguments of the types its constructor declares (after
      overriding). Every argument of a singleton type is new, and so is every
      argument when `root` is not a singleton: the result and, except for the
      transient arguments of a singleton root, its direct arguments are never
      shared with another call's. */
  method Bootstrap(registry: Registry, root: TypeId, overrides: map<TypeId, TypeId>) returns (r: Result<Instance>)
    ensures var plan := BootstrapPlan(registry, overrides, {}, root);
      && (r.Failure? <==> plan.failure.Some?)
      && (r.Failure? ==> r.error == plan.failure.value)
    ensures r.Success? ==>
      && fresh(r.value) && r.value.typeId == root
      && ArgTypes(r.value.args) == Dependencies(registry, overrides, root)
    ensures r.Success? ==>
      var deps := Dependencies(registry, overrides, root);
      forall i :: 0 <= i < |r.value.args| && registry.IsInjectable(deps[i]) && registry.metadata[deps[i]].isSingleton ==>
        fresh(r.value.args[i])
    ensures r.Success? && !(registry.IsInjectable(root) && registry.metadata[root].isSingleton) ==>
      forall i :: 0 <= i < |r.value.args| ==> fresh(r.value.args[i])
    ensures r.Success? ==>
      var deps := Dependencies(registry, overrides, root);
      && (forall i :: 0 <= i < |deps| ==> registry.IsInjectable(deps[i]))
      && forall i, j :: 0 <= i < j < |r.value.args| ==>
        (r.value.args[i] == r.value.args[j] <==> deps[i] == deps[j] && registry.metadata[deps[i]].isSingleton)
  {
    var injector := new Injector(registry, overrides);
    assert injector.resolved.Keys == {};
    r := injector.Bootstrap(root);
    if r.Success? {
      var o := r.value;
      assert injector.Wired(o, injector.depsOf(root));
      BootstrapArguments(registry, overrides, injector.resolved, injector.depsOf, root, o.args);
      if registry.IsInjectable(root) && registry.metadata[root].isSingleton {
        assert root in injector.resolved && injector.resolved[root] == Cached(o);
      }
    }
  }
}
