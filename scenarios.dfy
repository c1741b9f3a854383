/** The classes of the repository's test suite, as a metadata store, and the
    behaviour its tests expect of the injector, stated about the model. */
module Scenarios {
  import opened Definitions
  import opened Overrides
  import opened Discovery
  import opened Scheduling
  import opened Messages
  import opened Injection

  const TestA: TypeId := 1
  const TestB: TypeId := 2
  const TestC: TypeId := 3
  const Main: TypeId := 4
  const TestAOverride: TypeId := 5
  const TestAInstancedOverride: TypeId := 6
  const TestCOverride: TypeId := 7
  const NonInjectableMain: TypeId := 8
  const NonInjectableTest: TypeId := 9
  const NonInjectableDependency: TypeId := 10
  const CycleDummy: TypeId := 11
  const CycleA: TypeId := 12
  const CycleB: TypeId := 13
  const CycleMain: TypeId := 14
  const StringType: TypeId := 15
  const NumberType: TypeId := 16

  /** `@Injectable()` marks a singleton, `@Injectable({ isSingleton: false })`
      a transient type; `@Bootstrapped()` leaves no metadata, so `Main`,
      `NonInjectableMain`, `NonInjectableDependency` and `CycleMain` are not
      injectable, and neither are the built-in `String` and `Number`. */
  function TestRegistry(): Registry {
    Registry(
      map[
        TestA := InjectionMetadata(true),
        TestB := InjectionMetadata(true),
        TestC := InjectionMetadata(true),
        TestAOverride := InjectionMetadata(true),
        TestAInstancedOverride := InjectionMetadata(false),
        TestCOverride := InjectionMetadata(true),
        NonInjectableTest := InjectionMetadata(true),
        CycleDummy := InjectionMetadata(true),
        CycleA := InjectionMetadata(true),
        CycleB := InjectionMetadata(true)],
      map[
        TestB := [TestA],
        TestC := [TestA, TestB],
        Main := [TestC],
        TestCOverride := [TestA, TestC],
        NonInjectableMain := [StringType],
        NonInjectableTest := [NumberType],
        NonInjectableDependency := [NonInjectableTest],
        CycleA := [CycleDummy],
        CycleB := [CycleA],
        CycleMain := [CycleB]])
  }

  /** The `name` property of each class. */
  function Name(t: TypeId): string {
    if t == TestA then "TestA"
    else if t == TestB then "TestB"
    else if t == TestC then "TestC"
    else if t == Main then "Main"
    else if t == NonInjectableTest then "NonInjectableTest"
    else if t == CycleA then "CycleA"
    else if t == CycleB then "CycleB"
    else if t == StringType then "String"
    else if t == NumberType then "Number"
    else "Other"
  }

  // Single steps of the walk and the builder, for concrete runs.

  lemma DedupOne(t: TypeId)
    ensures Dedup([t]) == [t]
  {
    assert [t][1..] == [] && [] + [t] == [t];
    assert DedupInto([], [t]) == DedupInto([t], []);
  }

  lemma EnqueueOne(reg: Registry, seen: set<TypeId>, next: TypeId, d: TypeId, frontier: seq<TypeId>)
    requires Distinct(frontier)
    ensures Enqueue(reg, seen, next, [d], frontier)
         == if d in seen then Success(frontier)
            else if !reg.IsInjectable(d) then Failure(DependencyNotInjectable(d, next))
            else Success(if d in frontier then frontier else frontier + [d])
  {
    assert [d][1..] == [];
  }

  lemma DiscoverStep(reg: Registry, depsOf: TypeId -> seq<TypeId>, discovered: seq<Entry>, frontier: seq<TypeId>, f: seq<TypeId>)
    requires Frontier(reg, discovered, frontier) && frontier != [] && reg.IsInjectable(frontier[0])
    requires Enqueue(reg, KeySet(discovered), frontier[0], depsOf(frontier[0]), frontier) == Success(f)
    ensures f != []
    ensures var e := Entry(frontier[0], reg.metadata[frontier[0]].isSingleton, depsOf(frontier[0]));
      && KeySet(discovered + [e]) == KeySet(discovered) + {frontier[0]}
      && Frontier(reg, discovered + [e], f[1..])
      && Discover(reg, depsOf, discovered, frontier) == Discover(reg, depsOf, discovered + [e], f[1..])
  {
    StepFrontier(reg, depsOf, discovered, frontier, f);
  }

  lemma ScheduleStuck(resolved: set<TypeId>, pending: seq<Entry>)
    requires pending != [] && forall i :: 0 <= i < |pending| ==> !Ready(pending[i], resolved)
    ensures Schedule(resolved, pending) == Run([], Some(DependencyCycle(pending)))
  {
  }

  /** A class whose constructor takes a `string` cannot be bootstrapped: the
      parameter type has no metadata. */
  lemma NonInjectableMainFails()
    ensures BootstrapPlan(TestRegistry(), map[], {}, NonInjectableMain).failure == Some(NotInjectable(StringType))
  {
    var reg := TestRegistry();
    NoOverridesIsIdentity(NonInjectableMain, [StringType]);
    assert !reg.IsInjectable(NonInjectableMain) && !reg.IsInjectable(StringType);
    assert BootstrapRoots(reg, map[], NonInjectableMain) == [StringType];
    DedupOne(StringType);
    assert KeySet([]) == {};
  }

  lemma NonInjectableMainMessage()
    ensures Message(Name, NotInjectable(StringType)) == "Type String is not injectable"
  {
  }

  /** A dependency whose own constructor takes a `number` is reported with
      the type that asked for it. */
  lemma NonInjectableDependencyFails()
    ensures BootstrapPlan(TestRegistry(), map[], {}, NonInjectableDependency).failure
         == Some(DependencyNotInjectable(NumberType, NonInjectableTest))
  {
    var reg := TestRegistry();
    var depsOf := DependencyFn(reg, map[]);
    NoOverridesIsIdentity(NonInjectableDependency, [NonInjectableTest]);
    NoOverridesIsIdentity(NonInjectableTest, [NumberType]);
    assert depsOf(NonInjectableTest) == [NumberType];
    assert !reg.IsInjectable(NonInjectableDependency) && reg.IsInjectable(NonInjectableTest);
    assert !reg.IsInjectable(NumberType);
    assert BootstrapRoots(reg, map[], NonInjectableDependency) == [NonInjectableTest];
    DedupOne(NonInjectableTest);
    assert KeySet([]) == {};
    EnqueueOne(reg, {}, NonInjectableTest, NumberType, [NonInjectableTest]);
  }

  lemma NonInjectableDependencyMessage()
    ensures Message(Name, DependencyNotInjectable(NumberType, NonInjectableTest))
         == "Dependency Number of NonInjectableTest is not injectable"
  {
    assert Name(NumberType) == "Number" && Name(NonInjectableTest) == "NonInjectableTest";
    assert "Dependency " + "Number" == "Dependency Number";
    assert "Dependency Number" + " of " == "Dependency Number of ";
    assert "Dependency Number of " + "NonInjectableTest" == "Dependency Number of NonInjectableTest";
    assert "Dependency Number of NonInjectableTest" + " is not injectable"
        == "Dependency Number of NonInjectableTest is not injectable";
  }

  const CycleOverrides: map<TypeId, TypeId> := map[CycleDummy := CycleB]

  /** Under the override `CycleA` depends on `CycleB`, and `CycleB` on `CycleA`;
      both are injectable singletons, and `CycleMain` is not injectable. */
  lemma CycleDependencies()
    ensures var reg := TestRegistry();
      && reg.IsInjectable(CycleA) && reg.metadata[CycleA].isSingleton
      && reg.IsInjectable(CycleB) && reg.metadata[CycleB].isSingleton
      && !reg.IsInjectable(CycleMain)
    ensures Dependencies(TestRegistry(), CycleOverrides, CycleMain) == [CycleB]
    ensures Dependencies(TestRegistry(), CycleOverrides, CycleB) == [CycleA]
    ensures Dependencies(TestRegistry(), CycleOverrides, CycleA) == [CycleB]
  {
  }

  /** Two injectable singletons that depend on each other are both
      discovered, the requested one first. */
  lemma CycleDiscovery(reg: Registry, ov: map<TypeId, TypeId>)
    requires reg.IsInjectable(CycleA) && reg.metadata[CycleA].isSingleton
    requires reg.IsInjectable(CycleB) && reg.metadata[CycleB].isSingleton
    requires Dependencies(reg, ov, CycleB) == [CycleA] && Dependencies(reg, ov, CycleA) == [CycleB]
    ensures Discovered(reg, DependencyFn(reg, ov), [CycleB])
         == Success([Entry(CycleB, true, [CycleA]), Entry(CycleA, true, [CycleB])])
  {
    var depsOf := DependencyFn(reg, ov);
    var eB, eA := Entry(CycleB, true, [CycleA]), Entry(CycleA, true, [CycleB]);
    assert depsOf(CycleB) == [CycleA] && depsOf(CycleA) == [CycleB];
    DedupOne(CycleB);
    // CycleB is taken first; CycleA joins the frontier.
    assert KeySet([]) == {};
    EnqueueOne(reg, {}, CycleB, CycleA, [CycleB]);
    assert [CycleB] + [CycleA] == [CycleB, CycleA];
    DiscoverStep(reg, depsOf, [], [CycleB], [CycleB, CycleA]);
    assert [CycleB, CycleA][1..] == [CycleA] && [] + [eB] == [eB];
    // CycleA is taken next; its dependency CycleB is discovered already.
    assert [CycleA][1..] == [] && [eB] + [eA] == [eB, eA];
    EnqueueOne(reg, {CycleB}, CycleA, CycleB, [CycleA]);
    DiscoverStep(reg, depsOf, [eB], [CycleA], [CycleA]);
  }

  /** Bootstrapping a non-injectable type whose one dependency is `CycleB`
      stops with both types of the cycle pending. */
  lemma CycleStops(reg: Registry, ov: map<TypeId, TypeId>)
    requires reg.IsInjectable(CycleA) && reg.metadata[CycleA].isSingleton
    requires reg.IsInjectable(CycleB) && reg.metadata[CycleB].isSingleton
    requires !reg.IsInjectable(CycleMain) && Dependencies(reg, ov, CycleMain) == [CycleB]
    requires Dependencies(reg, ov, CycleB) == [CycleA] && Dependencies(reg, ov, CycleA) == [CycleB]
    ensures BootstrapPlan(reg, ov, {}, CycleMain).failure
         == Some(DependencyCycle([Entry(CycleB, true, [CycleA]), Entry(CycleA, true, [CycleB])]))
  {
    var es := [Entry(CycleB, true, [CycleA]), Entry(CycleA, true, [CycleB])];
    assert BootstrapRoots(reg, ov, CycleMain) == [CycleB];
    CycleDiscovery(reg, ov);
    UnresolvedNone(es);
    assert !Ready(es[0], {}) && !Ready(es[1], {});
    ScheduleStuck({}, es);
    assert BootstrapPlan(reg, ov, {}, CycleMain) == Schedule({}, es);
  }

  /** Overriding `CycleDummy` with `CycleB` closes the cycle CycleB -> CycleA
      -> CycleB: both are discovered, neither can be built, and the error
      lists them in discovery order. */
  lemma OverrideCycleFails()
    ensures BootstrapPlan(TestRegistry(), CycleOverrides, {}, CycleMain).failure
         == Some(DependencyCycle([Entry(CycleB, true, [CycleA]), Entry(CycleA, true, [CycleB])]))
  {
    CycleDependencies();
    CycleStops(TestRegistry(), CycleOverrides);
  }

  /** The cycle error names each pending type with its dependencies, in
      discovery order. */
  lemma OverrideCycleMessage()
    ensures Message(Name, DependencyCycle([Entry(CycleB, true, [CycleA]), Entry(CycleA, true, [CycleB])]))
         == "Dependency cycle detected: Failed to resolve CycleB (-> CycleA), CycleA (-> CycleB)"
  {
    var eB, eA := Entry(CycleB, true, [CycleA]), Entry(CycleA, true, [CycleB]);
    assert Names(Name, [CycleA])[0] == Name(CycleA);
    assert Names(Name, [CycleA]) == ["CycleA"];
    assert Names(Name, [CycleB])[0] == Name(CycleB);
    assert Names(Name, [CycleB]) == ["CycleB"];
    var parts := EntryTexts(Name, [eB, eA]);
    assert parts == [EntryText(Name, eB), EntryText(Name, eA)];
    assert parts[1..] == [EntryText(Name, eA)];
    assert Join(parts, ", ") == EntryText(Name, eB) + ", " + EntryText(Name, eA);
    Regroup(CyclePrefix, EntryText(Name, eB) + ", ", EntryText(Name, eA));
    Regroup(CyclePrefix, EntryText(Name, eB), ", ");
    assert EntryText(Name, eB) == "CycleB" + " (-> " + "CycleA" + ")";
    assert EntryText(Name, eA) == "CycleA" + " (-> " + "CycleB" + ")";
    CycleEntryTexts();
    CycleTextLiteral();
  }

  /** The two entries' texts, glued piece by piece. */
  lemma CycleEntryTexts()
    ensures ("CycleB" + " (-> " + "CycleA" + ")") + ", " == "CycleB (-> CycleA), "
    ensures "CycleA" + " (-> " + "CycleB" + ")" == "CycleA (-> CycleB)"
  {
    assert "CycleB" + " (-> " + "CycleA" + ")" == "CycleB (-> CycleA)";
  }

  lemma CycleTextLiteral()
    ensures CyclePrefix + "CycleB (-> CycleA), " + "CycleA (-> CycleB)"
         == "Dependency cycle detected: Failed to resolve CycleB (-> CycleA), CycleA (-> CycleB)"
  {
    CycleFirstEntryLiteral();
  }

  lemma CycleFirstEntryLiteral()
    ensures CyclePrefix + "CycleB (-> CycleA), " == "Dependency cycle detected: Failed to resolve CycleB (-> CycleA), "
  {
    CyclePrefixLiteral();
  }

  lemma CyclePrefixLiteral()
    ensures CyclePrefix == "Dependency cycle detected: Failed to resolve "
  {
  }

  // The sharing tests: `Main` bootstrapped with `TestA` and `TestC` each
  // either kept or overridden.

  /** `a` stands in for `TestA`: itself or one of its two replacements. */
  predicate IsTestA(a: TypeId) {
    a == TestA || a == TestAOverride || a == TestAInstancedOverride
  }

  /** `c` stands in for `TestC`: itself or its replacement. */
  predicate IsTestC(c: TypeId) {
    c == TestC || c == TestCOverride
  }

  /** The override map replacing `TestA` by `a` and `TestC` by `c`, each only
      where it differs. */
  function TestOverrides(a: TypeId, c: TypeId): map<TypeId, TypeId> {
    if a == TestA && c == TestC then map[]
    else if a == TestA then map[TestC := c]
    else if c == TestC then map[TestA := a]
    else map[TestA := a, TestC := c]
  }

  /** Under those overrides, everything that asked for `TestA` gets `a`, and
      `Main` gets `c`; `TestCOverride` itself still gets `TestC`, because an
      override never replaces a type's dependency by the type itself. */
  lemma TestDependencies(a: TypeId, c: TypeId)
    requires IsTestA(a) && IsTestC(c)
    ensures var reg, ov := TestRegistry(), TestOverrides(a, c);
      && Dependencies(reg, ov, a) == []
      && Dependencies(reg, ov, TestB) == [a]
      && Dependencies(reg, ov, TestC) == [a, TestB]
      && Dependencies(reg, ov, TestCOverride) == [a, TestC]
      && Dependencies(reg, ov, Main) == [c]
  {
  }

  lemma TestInjectable(t: TypeId)
    requires IsTestA(t) || t == TestB || IsTestC(t)
    ensures TestRegistry().IsInjectable(t)
  {
  }

  /** The types below `Main` with `a` for `TestA` and `c` for `TestC`, and
      a rank that grows along every dependency: `a`, `TestB`, `TestC`, `c`. */
  function MainGraph(a: TypeId, c: TypeId): set<TypeId> {
    {a, TestB, TestC, c}
  }

  function MainRank(a: TypeId, c: TypeId): map<TypeId, nat> {
    map t | t in MainGraph(a, c) :: Level(t)
  }

  function Level(t: TypeId): nat {
    if t == TestB then 1 else if t == TestC then 2 else if t == TestCOverride then 3 else 0
  }

  lemma MainGraphRanked(reg: Registry, ov: map<TypeId, TypeId>, a: TypeId, c: TypeId)
    requires IsTestA(a) && IsTestC(c)
    requires Dependencies(reg, ov, a) == [] && Dependencies(reg, ov, TestB) == [a]
    requires Dependencies(reg, ov, TestC) == [a, TestB] && Dependencies(reg, ov, TestCOverride) == [a, TestC]
    ensures forall t :: t in MainGraph(a, c) ==> t in MainRank(a, c)
    ensures forall t, d :: t in MainGraph(a, c) && d in Dependencies(reg, ov, t) ==>
      d in MainGraph(a, c) && MainRank(a, c)[d] < MainRank(a, c)[t]
  {
    var s, rank := MainGraph(a, c), MainRank(a, c);
    assert Level(a) == 0;
    forall t, d | t in s && d in Dependencies(reg, ov, t) ensures d in s && rank[d] < rank[t] {
      if t == TestB {
        assert d == a;
      } else if t == TestC {
        assert d == a || d == TestB;
      } else if t == TestCOverride {
        assert d == a || d == TestC;
      }
    }
  }

  lemma MainGraphClosed(reg: Registry, ov: map<TypeId, TypeId>, a: TypeId, c: TypeId, root: TypeId)
    requires reg.IsInjectable(a) && reg.IsInjectable(TestB) && reg.IsInjectable(TestC) && reg.IsInjectable(c)
    requires forall t, d :: t in MainGraph(a, c) && d in Dependencies(reg, ov, t) ==> d in MainGraph(a, c)
    requires root in MainGraph(a, c)
    ensures InjectableClosure(reg, DependencyFn(reg, ov), [root], MainGraph(a, c))
  {
    var s, depsOf := MainGraph(a, c), DependencyFn(reg, ov);
    assert s <= reg.metadata.Keys;
    forall t, d | t in s && reg.IsInjectable(t) && d in depsOf(t) ensures d in s {
      assert depsOf(t) == Dependencies(reg, ov, t);
    }
  }

  /** With `a` for `TestA` and `c` for `TestC`, the graph below `Main` is
      `c -> TestC -> TestB -> a` plus `TestC -> a` (and `c -> a` when `c` is
      the replacement): every type in it is injectable and the graph is
      acyclic, so bootstrapping `Main`, `TestB` or `TestC` raises nothing. */
  lemma AcyclicTests(reg: Registry, ov: map<TypeId, TypeId>, a: TypeId, c: TypeId, root: TypeId, resolved: set<TypeId>)
    requires IsTestA(a) && IsTestC(c) && (root == Main || root == TestB || root == TestC)
    requires reg.IsInjectable(a) && reg.IsInjectable(TestB) && reg.IsInjectable(TestC) && reg.IsInjectable(c)
    requires !reg.IsInjectable(Main)
    requires Dependencies(reg, ov, a) == [] && Dependencies(reg, ov, TestB) == [a]
    requires Dependencies(reg, ov, TestC) == [a, TestB] && Dependencies(reg, ov, TestCOverride) == [a, TestC]
    requires Dependencies(reg, ov, Main) == [c]
    ensures BootstrapPlan(reg, ov, resolved, root).failure.None?
  {
    var r := if root == Main then c else root;
    assert BootstrapRoots(reg, ov, root) == [r];
    MainGraphRanked(reg, ov, a, c);
    MainGraphClosed(reg, ov, a, c, r);
    AcyclicPlanSucceeds(reg, ov, resolved, [r], MainGraph(a, c), MainRank(a, c));
  }

  /** Bootstrapping `Main`, `TestB` or `TestC` under those overrides raises
      nothing, whatever is cached already. */
  lemma TestPlanSucceeds(a: TypeId, c: TypeId, root: TypeId, resolved: set<TypeId>)
    requires IsTestA(a) && IsTestC(c) && (root == Main || root == TestB || root == TestC)
    ensures BootstrapPlan(TestRegistry(), TestOverrides(a, c), resolved, root).failure.None?
  {
    TestInjectable(a);
    TestInjectable(TestB);
    TestInjectable(TestC);
    TestInjectable(c);
    TestDependencies(a, c);
    AcyclicTests(TestRegistry(), TestOverrides(a, c), a, c, root, resolved);
  }

  /** In the tests' metadata store only `TestAInstancedOverride` is transient,
      so a cache of registered factories holds an instance for every other type. */
  lemma TestLifecycles(cache: map<TypeId, Factory>, depsOf: TypeId -> seq<TypeId>)
    requires Registered(TestRegistry(), cache, depsOf)
    ensures forall t :: t in cache ==> (cache[t].Cached? <==> t != TestAInstancedOverride)
  {
    var reg := TestRegistry();
    forall t | t in cache ensures cache[t].Cached? <==> t != TestAInstancedOverride {
      assert t in reg.metadata;
    }
  }

  /** The `TestC` instance a wired cache holds, built with `a` for `TestA`:
      its own `TestA` and the one inside its `TestB` are the same object
      exactly when `a` is not transient. */
  lemma TestCWiring(cache: map<TypeId, Factory>, depsOf: TypeId -> seq<TypeId>, a: TypeId, c: Instance)
    requires Wiring(cache, depsOf) && Unshared(cache, depsOf)
    requires forall t :: t in cache ==> (cache[t].Cached? <==> t != TestAInstancedOverride)
    requires depsOf(TestC) == [a, TestB] && depsOf(TestB) == [a]
    requires TestC in cache && cache[TestC] == Cached(c)
    ensures |c.args| == 2 && c.args[0].typeId == a && c.args[1].typeId == TestB
    ensures TestB in cache && c.args[1] == cache[TestB].instance
    ensures |c.args[1].args| == 1 && c.args[1].args[0].typeId == a
    ensures c.args[0] == c.args[1].args[0] <==> a != TestAInstancedOverride
  {
    assert Arguments(cache, c.args, [a, TestB]);
    var b := c.args[1];
    assert Arguments(cache, b.args, [a]);
    if a == TestAInstancedOverride {
      assert TransientSlot(cache, depsOf, TestC, 0);
      assert Arg(cache, TestC, 0) != Arg(cache, TestB, 0);
    }
  }

  /** `bootstrap(Main, overrides)` with `TestA` kept or replaced by `a`: the
      `TestC` of `main` and the `TestB` inside it receive the same `TestA`
      exactly when `a` is a singleton. */
  method BootstrapMain(a: TypeId) returns (main: Instance)
    requires IsTestA(a)
    ensures main.typeId == Main && |main.args| == 1
    ensures var c := main.args[0];
      && c.typeId == TestC && |c.args| == 2
      && c.args[0].typeId == a && c.args[1].typeId == TestB
      && |c.args[1].args| == 1 && c.args[1].args[0].typeId == a
    ensures var c := main.args[0];
      c.args[0] == c.args[1].args[0] <==> a != TestAInstancedOverride
  {
    var reg, ov := TestRegistry(), TestOverrides(a, TestC);
    TestPlanSucceeds(a, TestC, Main, {});
    var injector := new Injector(reg, ov);
    assert injector.resolved.Keys == {};
    var r := injector.Bootstrap(Main);
    assert r.Success?;
    main := r.value;
    MainWiring(injector.resolved, injector.depsOf, a, TestC, main);
  }

  /** The `Main` object a registered, wired cache yields under the tests'
      overrides with `a` for `TestA` and `c` for `TestC`: its argument is the
      cached `c` instance. */
  lemma MainWiring(cache: map<TypeId, Factory>, depsOf: TypeId -> seq<TypeId>, a: TypeId, c: TypeId, main: Instance)
    requires IsTestA(a) && IsTestC(c)
    requires Registered(TestRegistry(), cache, depsOf) && Wiring(cache, depsOf) && Unshared(cache, depsOf)
    requires depsOf == DependencyFn(TestRegistry(), TestOverrides(a, c))
    requires Arguments(cache, main.args, depsOf(Main))
    ensures |main.args| == 1 && main.args[0].typeId == c
    ensures c in cache && cache[c] == Cached(main.args[0])
    ensures forall t :: t in cache ==> (cache[t].Cached? <==> t != TestAInstancedOverride)
    ensures depsOf(TestCOverride) == [a, TestC] && depsOf(TestC) == [a, TestB] && depsOf(TestB) == [a]
    ensures c == TestC ==>
      var o := main.args[0];
      && |o.args| == 2 && o.args[0].typeId == a && o.args[1].typeId == TestB
      && |o.args[1].args| == 1 && o.args[1].args[0].typeId == a
      && (o.args[0] == o.args[1].args[0] <==> a != TestAInstancedOverride)
  {
    TestDependencies(a, c);
    TestLifecycles(cache, depsOf);
    assert Arguments(cache, main.args, [c]);
    if c == TestC {
      TestCWiring(cache, depsOf, a, main.args[0]);
    }
  }

  /** The `TestCOverride` instance a wired cache holds, built with `a` for
      `TestA`: its `TestA`, the one of the `TestC` it holds and the one inside
      that `TestC`'s `TestB` are one object when `a` is a singleton, and three
      different objects when `a` is transient. */
  lemma TestCOverrideWiring(cache: map<TypeId, Factory>, depsOf: TypeId -> seq<TypeId>, a: TypeId, o: Instance)
    requires Wiring(cache, depsOf) && Unshared(cache, depsOf)
    requires forall t :: t in cache ==> (cache[t].Cached? <==> t != TestAInstancedOverride)
    requires depsOf(TestCOverride) == [a, TestC] && depsOf(TestC) == [a, TestB] && depsOf(TestB) == [a]
    requires TestCOverride in cache && cache[TestCOverride] == Cached(o)
    ensures |o.args| == 2 && o.args[0].typeId == a && o.args[1].typeId == TestC
    ensures var c := o.args[1];
      && |c.args| == 2 && c.args[0].typeId == a && c.args[1].typeId == TestB
      && |c.args[1].args| == 1 && c.args[1].args[0].typeId == a
    ensures var c := o.args[1];
      a != TestAInstancedOverride ==> o.args[0] == c.args[0] && o.args[0] == c.args[1].args[0]
    ensures var c := o.args[1];
      a == TestAInstancedOverride ==>
        && o.args[0] != c.args[0] && o.args[0] != c.args[1].args[0]
        && c.args[0] != c.args[1].args[0]
  {
    assert Arguments(cache, o.args, [a, TestC]);
    var c := o.args[1];
    assert TestC in cache && c == cache[TestC].instance;
    TestCWiring(cache, depsOf, a, c);
    var b := c.args[1];
    assert Arguments(cache, c.args, [a, TestB]) && Arguments(cache, b.args, [a]);
    if a == TestAInstancedOverride {
      assert TransientSlot(cache, depsOf, TestCOverride, 0);
      assert Arg(cache, TestCOverride, 0) != Arg(cache, TestC, 0);
      assert Arg(cache, TestCOverride, 0) != Arg(cache, TestB, 0);
    }
  }

  /** `bootstrap(Main, overrides)` with `TestC` replaced by `TestCOverride`
      and `TestA` kept or replaced by `a`. */
  method BootstrapMainWithTestCOverride(a: TypeId) returns (main: Instance)
    requires IsTestA(a)
    ensures main.typeId == Main && |main.args| == 1
    ensures var o := main.args[0];
      && o.typeId == TestCOverride && |o.args| == 2
      && o.args[0].typeId == a && o.args[1].typeId == TestC
    ensures var c := main.args[0].args[1];
      && |c.args| == 2 && c.args[0].typeId == a && c.args[1].typeId == TestB
      && |c.args[1].args| == 1 && c.args[1].args[0].typeId == a
    ensures var o := main.args[0]; var c := o.args[1];
      a != TestAInstancedOverride ==> o.args[0] == c.args[0] && o.args[0] == c.args[1].args[0]
    ensures var o := main.args[0]; var c := o.args[1];
      a == TestAInstancedOverride ==>
        && o.args[0] != c.args[0] && o.args[0] != c.args[1].args[0]
        && c.args[0] != c.args[1].args[0]
  {
    var reg, ov := TestRegistry(), TestOverrides(a, TestCOverride);
    TestPlanSucceeds(a, TestCOverride, Main, {});
    var injector := new Injector(reg, ov);
    assert injector.resolved.Keys == {};
    var r := injector.Bootstrap(Main);
    assert r.Success?;
    main := r.value;
    MainWiring(injector.resolved, injector.depsOf, a, TestCOverride, main);
    TestCOverrideWiring(injector.resolved, injector.depsOf, a, main.args[0]);
  }

  /** `bootstrap(TestB, overrides)` with `TestA` replaced by `TestAOverride`:
      the class under test is built with the replacement. */
  method BootstrapClassUnderTest() returns (b: Instance)
    ensures b.typeId == TestB && |b.args| == 1 && b.args[0].typeId == TestAOverride
  {
    var reg, ov := TestRegistry(), TestOverrides(TestAOverride, TestC);
    TestPlanSucceeds(TestAOverride, TestC, TestB, {});
    var injector := new Injector(reg, ov);
    assert injector.resolved.Keys == {};
    var r := injector.Bootstrap(TestB);
    assert r.Success?;
    b := r.value;
    TestDependencies(TestAOverride, TestC);
    assert injector.depsOf(TestB) == [TestAOverride];
    assert Arguments(injector.resolved, b.args, [TestAOverride]);
  }

  /** One injector bootstraps `TestB`, then `TestC`, then `Main`: each later
      object is built from the earlier ones, which the injector keeps. */
  method SharedInjector() returns (b: Instance, c: Instance, main: Instance)
    ensures b.typeId == TestB && c.typeId == TestC && main.typeId == Main
    ensures |b.args| == 1 && |c.args| == 2 && |main.args| == 1
    ensures b.args[0] == c.args[0]
    ensures c.args[1] == b
    ensures main.args[0] == c
  {
    var reg := TestRegistry();
    assert TestOverrides(TestA, TestC) == map[];
    TestInjectable(TestB);
    TestInjectable(TestC);
    assert reg.metadata[TestB].isSingleton && reg.metadata[TestC].isSingleton;
    var injector := new Injector(reg, map[]);
    TestPlanSucceeds(TestA, TestC, TestB, injector.resolved.Keys);
    var r := injector.Bootstrap(TestB);
    assert r.Success?;
    b := r.value;
    assert injector.resolved[TestB] == Cached(b);
    TestPlanSucceeds(TestA, TestC, TestC, injector.resolved.Keys);
    r := injector.Bootstrap(TestC);
    assert r.Success?;
    c := r.value;
    assert injector.resolved[TestB] == Cached(b) && injector.resolved[TestC] == Cached(c);
    TestPlanSucceeds(TestA, TestC, Main, injector.resolved.Keys);
    r := injector.Bootstrap(Main);
    assert r.Success?;
    main := r.value;
    ghost var cache, depsOf := injector.resolved, injector.depsOf;
    assert cache[TestB] == Cached(b) && cache[TestC] == Cached(c);
    TestDependencies(TestA, TestC);
    assert depsOf(Main) == [TestC] && depsOf(TestC) == [TestA, TestB] && depsOf(TestB) == [TestA];
    assert Arguments(cache, main.args, [TestC]);
    TestLifecycles(cache, depsOf);
    TestCWiring(cache, depsOf, TestA, c);
    assert Arguments(cache, c.args, [TestA, TestB]) && Arguments(cache, b.args, [TestA]);
  }
}
