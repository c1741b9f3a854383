# Dependency injector resolution engine, in Dafny

This project models the resolution engine of a small TypeScript dependency
injector for Deno. It covers the `Injector` class and the exported
`bootstrap` function in `injector.ts`. Given a requested class, the injector:

1. replaces each declared constructor parameter type by its override, unless
   the override is the requesting class itself (`#getDependencies`);
2. walks the dependency graph from the requested types with an
   insertion-ordered worklist. It records each reachable type with its
   lifecycle and effective dependencies. It fails on a type without
   injection metadata (`#discoverDependencies`, `#getInjectionMetadata`);
3. drops the types it has already resolved. It then repeatedly installs a
   factory for the first pending type, in discovery order, whose
   dependencies are all resolved. When no pending type qualifies, it fails
   with a dependency-cycle error listing what is left (`#resolve`);
4. returns the instance from the requested type's factory. A singleton's
   factory returns the one instance built at install time; a transient
   type's factory builds a new instance on every call. A class without
   injection metadata is built directly from its resolved dependencies and
   is never cached (`bootstrap`).

Modules:

- `Definitions`: type identities, the metadata store, discovered entries,
  the three errors.
- `Overrides`: the override rule.
- `Discovery`: the discovery walk as a function, with its closure,
  minimality and failure lemmas.
- `Scheduling`: the resolve loop as a function of the resolved keys and the
  pending entries, and the plan of a whole resolve or bootstrap call.
- `Messages`: the exact error texts.
- `Injection`: the `Injector` class itself. Its `resolved` map is a field
  the methods update. Discovery and the resolve loop are `while` loops
  proved against the functions above. Constructed objects are Dafny
  objects, so JavaScript's `===` is reference equality.
- `Scenarios`: the classes of the repository's test suite as a metadata
  store, and each test's assertions as a lemma or method.

The reflection library's metadata store is a parameter, a `Registry`. It
holds the injection metadata written by `@Injectable` and the emitted
constructor parameter types. A class's `name` is a given function from type
to string.

Discovery walks every reachable type, including types already resolved,
and the resolved ones are filtered out only afterwards (injector.ts:41).
The model does the same. Because the metadata store and the override map
are fixed for an injector's life, walking resolved types again can never
fail here.

## Model

| member | source | states |
|---|---|---|
| Overrides.EffectiveDeps | injector.ts:80-90 | Same length and order as the declared list. Each position is the override of the declared type when one exists and differs from the requester, otherwise the declared type. The requester appears only where it was itself declared. |
| Overrides.Dependencies | injector.ts:80-90 | `#getDependencies`: one dependency per declared parameter, none when no parameter types were recorded. Each is the declared type or its override, and the type itself appears only where it declared itself. |
| Overrides.NoOverridesIsIdentity | injector.ts:83-89 | With an empty override map the declared parameter list is used unchanged. |
| Discovery.Dedup | injector.ts:94 | The initial frontier `new Set(types)` is duplicate-free, has exactly the requested types as members, and lists them in the order of their first occurrence in the request. |
| Discovery.Enqueue | injector.ts:101-109 | The scan of one type's dependencies succeeds iff every dependency not yet discovered is injectable. On success the frontier only grows: the old frontier is a prefix, every undiscovered dependency is a member, and nothing else is added. The added members follow the order of their first occurrence among the dependencies. On failure the error names the first non-injectable undiscovered dependency, in declaration order, together with the type being processed. |
| Discovery.Discover | injector.ts:96-116 | The discovery `while` loop as a recursive function over the discovered list and the frontier. A success only extends the discovered list; a failure is one of the two discovery errors. Its full properties are the Discover* and Discovered* lemma rows. |
| Discovery.Discovered | injector.ts:92-119 | `#discoverDependencies` from the deduplicated request and an empty map. No request discovers nothing, and a failure is one of the two discovery errors. The lemma rows below state closure, minimality and when it succeeds. |
| Discovery.DiscoveredIsLeastClosure | injector.ts:92-119 | On success the discovered map holds every requested type and each type once. Each entry carries that type's metadata and effective dependencies, and every dependency of every entry is a key. It is the least such set: it lies inside every dependency-closed set that holds the requested types. |
| Discovery.DiscoveredFailure | injector.ts:96-109 | Discovery fails only in two ways. Either a requested type has no metadata ("Type X is not injectable"), or an injectable type has a non-injectable dependency ("Dependency D of T is not injectable"). The types named lie in every closed set holding the requested types. |
| Discovery.DiscoveredSucceedsIff | injector.ts:92-119 | Discovery succeeds iff the requested types lie in some dependency-closed set of injectable types. |
| Discovery.DiscoverExtends | injector.ts:111-115 | A successful walk only appends to the discovered map, each type once, with well-formed entries. |
| Discovery.DiscoverCloses | injector.ts:96-116 | A successful walk discovers every frontier member and leaves the discovered map closed under dependencies. |
| Discovery.DiscoverFailureKind | injector.ts:97-106 | A failing walk reports a frontier type without metadata that was requested, or a non-injectable dependency of an injectable type. |
| Discovery.DiscoverWithin | injector.ts:96-116 | Everything the walk discovers or names in an error stays within any closed set holding its start. Discovery never leaves the reachable graph. |
| Discovery.StepFrontier | injector.ts:108-112 | One step keeps the walk's state well formed. The processed type leaves the frontier, which stays duplicate-free and disjoint from the discovered keys, and all its dependencies are discovered or waiting. |
| Scheduling.FirstReady | injector.ts:44 | `find`: the index of the first pending entry whose dependencies are all resolved, or the length when none is. Every earlier entry is not ready. |
| Scheduling.Unresolved | injector.ts:41 | The filter of already-resolved types never lengthens the list. Scheduling.UnresolvedMembers states which entries it keeps and Scheduling.UnresolvedSplit their order. |
| Scheduling.UnresolvedConcat | injector.ts:41 | Filtering a concatenation filters each part, so the survivors of an earlier part come first. |
| Scheduling.UnresolvedSplit | injector.ts:41 | The filter keeps discovery order: a surviving entry stands after the survivors discovered before it and before the survivors discovered after it. |
| Scheduling.UnresolvedMembers | injector.ts:41 | An entry survives the filter iff it was discovered and its type is not yet resolved. |
| Scheduling.Schedule | injector.ts:43-64 | The resolve `while` loop as a recursive function over the resolved keys and the pending list. It installs at most the pending entries, and its only error is a cycle error naming a non-empty list. Its full properties are the Schedule* lemma rows. |
| Scheduling.SettledKeys | injector.ts:43-64 | When the loop stops, the resolved keys are the old ones plus the installed ones. |
| Scheduling.ScheduleInstallsReady | injector.ts:44-61 | Every installed entry comes from the pending list, and each is installed only when all its dependencies are already resolved. |
| Scheduling.ScheduleInstallsOnce | injector.ts:58-63 | No type is installed twice, and no already-resolved type is installed again. |
| Scheduling.ScheduleConserves | injector.ts:43-63 | The installed entries and what is left pending together make up the pending list (as a multiset). |
| Scheduling.ScheduleOutcome | injector.ts:43-51 | The loop ends without error iff nothing is left pending. Otherwise it ends with the cycle error naming exactly the leftover entries in discovery order, none of which is ready. |
| Scheduling.ScheduleStuckIsCycle | injector.ts:45-51 | In a dependency-closed pending set, the cycle error names a non-empty set of entries, each of which waits for a named entry, possibly itself. |
| Scheduling.AcyclicScheduleCompletes | injector.ts:43-64 | If the pending entries' dependencies are ranked (acyclic), the loop raises no error. |
| Scheduling.ResolvePlan | injector.ts:40-65 | `#resolve` as a function of the resolved keys: discovery, the filter, then the loop. An empty request does nothing; a discovery error installs nothing; a cycle error names a non-empty list. The ResolvePlan* rows state the rest. |
| Scheduling.BootstrapPlan | injector.ts:27-38 | What one `bootstrap` resolves: the root if injectable, otherwise its dependencies. A non-injectable root without parameters needs nothing; a discovery error installs nothing. |
| Scheduling.ResolvePlanInstalls | injector.ts:40-65 | A resolve call installs well-formed entries for types not yet resolved, each once and each after all its dependencies. |
| Scheduling.ResolvePlanOutcome | injector.ts:40-65 | A resolve call without error resolves every requested type. A discovery error installs nothing and is one of the two discovery errors. A cycle error names a non-empty set in which every entry waits for a named entry, possibly itself. |
| Scheduling.AcyclicPlanSucceeds | injector.ts:40-65 | If the requested types lie in a closed, acyclic set of injectable types, the resolve call raises nothing. |
| Messages.JoinSplit | injector.ts:48 | `join(sep)` yields every part in order, with the separator between neighbours. |
| Messages.JoinConcat | injector.ts:47-48 | Joining two non-empty lists is joining each, with one separator between. |
| Messages.Message | injector.ts:50 | Renders the three thrown texts: the cycle error (injector.ts:50), the missing-metadata error (injector.ts:70) and the non-injectable dependency error (injector.ts:105). Only the missing-metadata error begins with "Type ". The cycle error begins with "Dependency cycle detected: Failed to resolve ". Both discovery errors end with " is not injectable". |
| Messages.CycleMessageLists | injector.ts:46-50 | The cycle message is the fixed prefix followed by the entries' `Name (-> Dep1,Dep2)` texts joined by ", ", in discovery order. The k-th text stands between the earlier and the later ones. |
| Injection.Instance.constructor | injector.ts:54 | `new Next(...args)`: a new object of the type, holding its arguments. |
| Injection.Injector.constructor | injector.ts:23-25 | A new injector holds the given overrides and an empty `#resolved` map. |
| Injection.Injector.ScanDependencies | injector.ts:101-109 | The loop over a type's dependencies computes exactly Discovery.Enqueue. |
| Injection.Injector.DiscoverDependencies | injector.ts:92-119 | The worklist loop computes exactly Discovery.Discovered, so it inherits its closure, minimality and failure lemmas. |
| Injection.Injector.Invoke | injector.ts:54-60 | Calling a cached factory gives an object of that type. A singleton's call gives its cached instance. A transient type's call gives a new object wired from its dependencies, whose transient arguments are new too. |
| Injection.Injector.InvokeAll | injector.ts:54 | `dependencies.map(dep => resolved.get(dep)())`: one value per dependency, of that type. Singletons give their cached instance; transient dependencies give new objects, pairwise distinct. |
| Injection.Injector.Install | injector.ts:54-61 | Installs a factory for one ready type and changes no other entry. A singleton gets a new cached instance; a transient type gets a constructing factory over its dependencies. The injector invariant is kept. |
| Injection.Injector.Build | injector.ts:43-64 | The `while` loop computes exactly Scheduling.Schedule: the same error and the same installed keys. It never changes an existing entry, and every new singleton instance is new. |
| Injection.Injector.InstallNext | injector.ts:52-63 | One round of the loop installs the first ready entry, removes it from the pending list (which shrinks), and keeps the loop invariant. |
| Injection.Injector.Resolve | injector.ts:40-65 | Resolving follows Scheduling.ResolvePlan: same error, same installed keys. Entries present before the call are unchanged, including on error. On success every requested type is resolved. |
| Injection.Injector.Bootstrap | injector.ts:27-38 | Fails exactly when the bootstrap plan fails, with its error. Keeps existing factories. Returns an object of the requested type wired from its dependencies. A singleton root's result is its cached instance. Any other result is a new object, and so is each of its transient arguments. A non-injectable root is never cached. Started from an empty cache, every argument that is not transient is new. |
| Injection.Bootstrap | injector.ts:13-17 | The exported `bootstrap` uses a fresh injector. It fails exactly when the plan from an empty cache fails. Otherwise it returns a new object of the requested type whose arguments have the override-adjusted parameter types. Every argument of a singleton type is new, and when the root is not an injectable singleton every argument is new. So the result and, except for the transient arguments of a singleton root, its direct arguments are never shared with another call's. Every dependency is injectable, and two arguments are the same object exactly when they are for the same singleton type: a singleton is shared by all its consumers, and each transient argument is an object of its own. |
| Injection.InvocableInstall | injector.ts:55-61 | Installing a ready entry keeps every factory callable: registered, dependencies cached, installed after them. |
| Injection.ArgumentsCons | injector.ts:54 | Prepending one dependency's value keeps an argument list well formed, with transient values pairwise distinct. |
| Injection.WiringInstall | injector.ts:58 | Installing a factory keeps every cached instance wired from its dependencies. |
| Injection.UnsharedInstall | injector.ts:56-58 | A singleton built from new transient values keeps transient arguments unshared between cached objects. |
| Injection.ArgumentsShared | injector.ts:54-61 | In a well-formed argument list every dependency is injectable, and two arguments are one object exactly when they are for the same singleton type. |
| Injection.ArgumentsTyped | injector.ts:54 | A well-formed argument list has exactly the dependency types, in order. |
| Scenarios.TestDependencies | injector.test.ts:11-64 | Under the tests' overrides, every type asking for `TestA` gets its replacement and `Main` gets the `TestC` replacement. `TestCOverride` still gets the real `TestC`, because an override never replaces a dependency by the requester itself. |
| Scenarios.NonInjectableMainFails | injector.test.ts:195-199 | Bootstrapping a class whose constructor takes a `string` fails because `String` has no metadata. |
| Scenarios.NonInjectableMainMessage | injector.test.ts:198 | That error's text is "Type String is not injectable". |
| Scenarios.NonInjectableDependencyFails | injector.test.ts:201-205 | A dependency whose constructor takes a `number` fails as a non-injectable dependency `Number` of `NonInjectableTest`. |
| Scenarios.NonInjectableDependencyMessage | injector.test.ts:204 | That error's text is "Dependency Number of NonInjectableTest is not injectable". |
| Scenarios.CycleDependencies | injector.test.ts:82-99 | With `CycleDummy` overridden by `CycleB`, `CycleA` and `CycleB` depend on each other. |
| Scenarios.OverrideCycleFails | injector.test.ts:207-211 | That bootstrap fails with the cycle error over `CycleB` then `CycleA`, in discovery order. |
| Scenarios.OverrideCycleMessage | injector.test.ts:210 | That error's text is "Dependency cycle detected: Failed to resolve CycleB (-> CycleA), CycleA (-> CycleB)". |
| Scenarios.TestPlanSucceeds | injector.test.ts:101-232 | With any of the tests' overrides, bootstrapping `Main`, `TestB` or `TestC` raises nothing, whatever is already resolved. |
| Scenarios.BootstrapMain | injector.test.ts:101-137 | `bootstrap(Main)` with `TestA` kept or replaced: every argument has the expected type. The `TestA` of `main.c` and of `main.c.b` are the same object iff the replacement is a singleton. |
| Scenarios.BootstrapMainWithTestCOverride | injector.test.ts:139-193 | With `TestC` replaced by `TestCOverride`: the three `TestA` values in the graph are one object for a singleton `TestA`, and pairwise distinct for the transient replacement. |
| Scenarios.BootstrapClassUnderTest | injector.test.ts:213-219 | `bootstrap(TestB)` with `TestA` replaced by `TestAOverride` builds `TestB` from a `TestAOverride`. |
| Scenarios.SharedInjector | injector.test.ts:221-232 | On one injector, `TestB`, `TestC` and `Main` share singletons across `bootstrap` calls: `b.a === c.a`, `c.b === b`, `main.c === c`. |

## Left out

- The reflection library (`@dx/reflect`) and the compiler-emitted parameter types are not modelled. Both become the `Registry` value: a metadata map and a parameter-type map, where a missing entry means no parameters (the `|| []` at injector.ts:81). The decorators are not modelled either. `@Injectable` only writes `isSingleton: options.isSingleton !== false` (decorators.ts:25), which the tests' registry follows, and `@Bootstrapped` (decorators.ts:38-40) writes nothing.
- Classes are type identities (`nat`) and `Type.name` is a given function. JavaScript's spread-argument construction becomes a constructor that records the type and the argument list. Class bodies, `whoami` texts and `instanceof` are not modelled. The tests' `whoami` assertion (injector.test.ts:218) is stated through the argument types.
- The exceptions are values: `TypeError` and `Error` are both the `Error` datatype, and a throw is a `Failure` result.
- The metadata store and the override map are fixed for an injector's life. In the program both can change underneath an injector: the store is global, and the injector keeps the caller's override `Map` by reference (injector.ts:24). The model does not capture such changes. So it cannot show a walk over an already-resolved type failing, or a cached factory built under an older override.
- Injection.Bootstrap: states that the result and its direct arguments are new, except the transient arguments of a singleton root, and it states nothing below the direct arguments. Those transient arguments were built while their root was installed, and no contract of the injector carries that along; the objects below a transient argument are covered by no contract.
- Messages.Message: states the prefixes and suffixes that tell the three errors apart. For all inputs only the cycle text is stated in full, by Messages.CycleMessageLists. The two "not injectable" texts are stated in full only for the test suite's types, by the scenario lemmas.
- Overrides.EffectiveDeps: a cycle inside the override map itself (`A -> B`, `B -> A`) is not given any meaning beyond the one-step substitution the code performs.
- The ghost installation rank on the `Injector` exists only to prove that calling a factory terminates; the program has no such field.
- injector.test.ts imports a `resolved` map from injector.ts (line 5) that the module does not export. The tests' `resolved.clear()` calls are therefore not modelled; each test starts from a fresh injector.
- The repository's example programs are console demos and are not modelled.
- types.ts and mod.ts only hold type aliases and re-exports and are not part of this model.
