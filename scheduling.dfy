/** The topological builder as a function of the resolved keys and the
    pending entries: it repeatedly installs the first pending entry, in
    discovery order, whose dependencies are all resolved, and stops with a
    cycle error when none is. Also the plan of a whole resolve call. */
module Scheduling {
  import opened Definitions
  import opened Overrides
  import opened Discovery

  /** All dependencies of `e` are resolved. */
  predicate Ready(e: Entry, resolved: set<TypeId>) {
    forall i :: 0 <= i < |e.dependencies| ==> e.dependencies[i] in resolved
  }

  /** The index of the first ready entry, or |pending| when there is none. */
  function FirstReady(pending: seq<Entry>, resolved: set<TypeId>): (i: nat)
    ensures i <= |pending|
    ensures i < |pending| ==> Ready(pending[i], resolved)
    ensures forall j :: 0 <= j < i ==> !Ready(pending[j], resolved)
    decreases |pending|
  {
    if pending == [] then 0
    else if Ready(pending[0], resolved) then 0
    else 1 + FirstReady(pending[1..], resolved)
  }

  /** The entries whose type is not resolved yet, in their original order. */
  function Unresolved(es: seq<Entry>, resolved: set<TypeId>): (r: seq<Entry>)
    ensures |r| <= |es|
    decreases |es|
  {
    if es == [] then []
    else (if es[0].typeId in resolved then [] else [es[0]]) + Unresolved(es[1..], resolved)
  }

  function RemoveAt(s: seq<Entry>, i: nat): seq<Entry>
    requires i < |s|
  {
    s[..i] + s[i + 1..]
  }

  /** What one resolve loop does: the entries it installs, in order, and the
      error it stops with, if any. */
  datatype Run = Run(installed: seq<Entry>, failure: Option<Error>)

  /** The resolve loop: install the first ready entry until none is left,
      or stop with the cycle error over what is still pending. */
  function Schedule(resolved: set<TypeId>, pending: seq<Entry>): (r: Run)
    ensures |r.installed| <= |pending|
    ensures r.failure.Some? ==> r.failure.value.DependencyCycle? && r.failure.value.unresolved != []
    decreases |pending|
  {
    if pending == [] then Run([], None)
    else
      var i := FirstReady(pending, resolved);
      if i == |pending| then Run([], Some(DependencyCycle(pending)))
      else
        var rest := Schedule(resolved + {pending[i].typeId}, RemoveAt(pending, i));
        Run([pending[i]] + rest.installed, rest.failure)
  }

  /** The resolved keys once the run has stopped, step by step. */
  ghost function Settled(resolved: set<TypeId>, pending: seq<Entry>): set<TypeId>
    decreases |pending|
  {
    if pending == [] then resolved
    else
      var i := FirstReady(pending, resolved);
      if i == |pending| then resolved
      else Settled(resolved + {pending[i].typeId}, RemoveAt(pending, i))
  }

  /** Once the run has stopped, the resolved keys are the ones before it and
      the installed ones. */
  lemma {:induction false} SettledKeys(resolved: set<TypeId>, pending: seq<Entry>)
    ensures Settled(resolved, pending) == resolved + KeySet(Schedule(resolved, pending).installed)
    decreases |pending|
  {
    if pending == [] {
      assert KeySet([]) == {};
    } else {
      var i := FirstReady(pending, resolved);
      if i == |pending| {
        assert KeySet([]) == {};
      } else {
        var rest := Schedule(resolved + {pending[i].typeId}, RemoveAt(pending, i));
        SettledKeys(resolved + {pending[i].typeId}, RemoveAt(pending, i));
        KeySetCons(pending[i], rest.installed);
      }
    }
  }

  /** A whole resolve call: discover from `types`, drop what is resolved
      already, then build. A discovery failure installs nothing. */
  function ResolvePlan(reg: Registry, overrides: map<TypeId, TypeId>, resolved: set<TypeId>, types: seq<TypeId>): (r: Run)
    ensures types == [] ==> r == Run([], None)
    ensures r.failure.Some? && !r.failure.value.DependencyCycle? ==> r.installed == []
    ensures r.failure.Some? && r.failure.value.DependencyCycle? ==> r.failure.value.unresolved != []
  {
    match Discovered(reg, DependencyFn(reg, overrides), types)
    case Failure(e) => Run([], Some(e))
    case Success(es) => Schedule(resolved, Unresolved(es, resolved))
  }

  /** The types a bootstrap call resolves: the requested type when it is
      injectable, otherwise its own dependencies. */
  function BootstrapRoots(reg: Registry, overrides: map<TypeId, TypeId>, root: TypeId): seq<TypeId> {
    if reg.IsInjectable(root) then [root] else Dependencies(reg, overrides, root)
  }

  /** A bootstrap call's plan: a non-injectable root without parameters
      needs nothing, and only a cycle error can come after installs. */
  function BootstrapPlan(reg: Registry, overrides: map<TypeId, TypeId>, resolved: set<TypeId>, root: TypeId): (r: Run)
    ensures !reg.IsInjectable(root) && root !in reg.paramTypes ==> r == Run([], None)
    ensures r.failure.Some? && !r.failure.value.DependencyCycle? ==> r.installed == []
  {
    ResolvePlan(reg, overrides, resolved, BootstrapRoots(reg, overrides, root))
  }

  // Sequence facts about `Unresolved`.

  lemma {:induction false} UnresolvedMembers(es: seq<Entry>, x: set<TypeId>)
    ensures forall e :: e in Unresolved(es, x) <==> e in es && e.typeId !in x
    decreases |es|
  {
    if es != [] {
      UnresolvedMembers(es[1..], x);
      assert es == [es[0]] + es[1..];
    }
  }

  /** Filtering a concatenation filters each part: the survivors of an
      earlier part come before those of a later one. */
  lemma {:induction false} UnresolvedConcat(a: seq<Entry>, b: seq<Entry>, x: set<TypeId>)
    ensures Unresolved(a + b, x) == Unresolved(a, x) + Unresolved(b, x)
    decreases |a|
  {
    if a != [] {
      assert (a + b)[0] == a[0] && (a + b)[1..] == a[1..] + b;
      UnresolvedConcat(a[1..], b, x);
    } else {
      assert a + b == b;
    }
  }

  /** The filter keeps discovery order: an unresolved entry stands after
      the surviving entries discovered before it and before those
      discovered after it. */
  lemma UnresolvedSplit(es: seq<Entry>, x: set<TypeId>, k: nat)
    requires k < |es| && es[k].typeId !in x
    ensures Unresolved(es, x) == Unresolved(es[..k], x) + [es[k]] + Unresolved(es[k + 1..], x)
  {
    assert es == es[..k] + ([es[k]] + es[k + 1..]);
    UnresolvedConcat(es[..k], [es[k]] + es[k + 1..], x);
    assert ([es[k]] + es[k + 1..])[1..] == es[k + 1..];
  }

  lemma {:induction false} UnresolvedIgnores(a: seq<Entry>, x: set<TypeId>, k: TypeId)
    requires forall e :: e in a ==> e.typeId != k
    ensures Unresolved(a, x + {k}) == Unresolved(a, x)
    decreases |a|
  {
    if a != [] {
      UnresolvedIgnores(a[1..], x, k);
    }
  }

  lemma {:induction false} UnresolvedNone(a: seq<Entry>)
    ensures Unresolved(a, {}) == a
    decreases |a|
  {
    if a != [] {
      UnresolvedNone(a[1..]);
    }
  }

  lemma TailDistinct(p: seq<Entry>)
    requires p != [] && DistinctKeys(p)
    ensures DistinctKeys(p[1..])
    ensures forall e :: e in p[1..] ==> e.typeId != p[0].typeId
  {
    var tail := p[1..];
    forall a, b | 0 <= a < b < |tail| ensures tail[a].typeId != tail[b].typeId {
      assert tail[a] == p[a + 1] && tail[b] == p[b + 1];
    }
    forall e | e in tail ensures e.typeId != p[0].typeId {
      var j :| 0 <= j < |tail| && tail[j] == e;
      assert tail[j] == p[j + 1];
    }
  }

  /** Removing the installed entry and filtering by the rest of the installed
      types is filtering by all of them. */
  lemma {:induction false} UnresolvedRemoveAt(p: seq<Entry>, i: nat, x: set<TypeId>)
    requires i < |p| && DistinctKeys(p)
    ensures Unresolved(RemoveAt(p, i), x) == Unresolved(p, {p[i].typeId} + x)
    decreases i
  {
    TailDistinct(p);
    if i == 0 {
      assert RemoveAt(p, 0) == p[1..];
      UnresolvedIgnores(p[1..], x, p[0].typeId);
      assert x + {p[0].typeId} == {p[0].typeId} + x;
    } else {
      UnresolvedRemoveLater(p, i, x);
    }
  }

  lemma {:induction false} UnresolvedRemoveLater(p: seq<Entry>, i: nat, x: set<TypeId>)
    requires 0 < i < |p| && DistinctKeys(p)
    ensures Unresolved(RemoveAt(p, i), x) == Unresolved(p, {p[i].typeId} + x)
    decreases i, 0
  {
    var tail := p[1..];
    TailDistinct(p);
    assert RemoveAt(p, i) == [p[0]] + RemoveAt(tail, i - 1) by {
      assert p[..i] == [p[0]] + tail[..i - 1];
      assert p[i + 1..] == tail[i..];
    }
    assert tail[i - 1] == p[i];
    var rest := RemoveAt(tail, i - 1);
    UnresolvedRemoveAt(tail, i - 1, x);
    var y := {p[i].typeId} + x;
    assert p[0].typeId != p[i].typeId;
    var head := if p[0].typeId in x then [] else [p[0]];
    assert ([p[0]] + rest)[0] == p[0] && ([p[0]] + rest)[1..] == rest;
    assert Unresolved(RemoveAt(p, i), x) == head + Unresolved(rest, x);
    assert Unresolved(p, y) == head + Unresolved(tail, y);
  }

  lemma RemoveAtMultiset(p: seq<Entry>, i: nat)
    requires i < |p|
    ensures multiset(RemoveAt(p, i)) + multiset{p[i]} == multiset(p)
  {
    assert p == p[..i] + [p[i]] + p[i + 1..];
  }

  lemma RemoveAtMembers(p: seq<Entry>, i: nat)
    requires i < |p|
    ensures forall e :: e in RemoveAt(p, i) ==> e in p
  {
    assert p == p[..i] + [p[i]] + p[i + 1..];
  }

  lemma RemoveAtKeeps(p: seq<Entry>, i: nat, j: nat)
    requires i < |p| && j < |p| && j != i
    ensures p[j] in RemoveAt(p, i)
  {
    if j < i { assert RemoveAt(p, i)[j] == p[j]; } else { assert RemoveAt(p, i)[j - 1] == p[j]; }
  }

  lemma RemoveAtDistinct(p: seq<Entry>, i: nat)
    requires i < |p| && DistinctKeys(p)
    ensures DistinctKeys(RemoveAt(p, i))
    ensures forall e :: e in RemoveAt(p, i) ==> e.typeId != p[i].typeId
  {
    var r := RemoveAt(p, i);
    forall a, b | 0 <= a < b < |r| ensures r[a].typeId != r[b].typeId {
      var a' := if a < i then a else a + 1;
      var b' := if b < i then b else b + 1;
      assert r[a] == p[a'] && r[b] == p[b'];
    }
    forall e | e in r ensures e.typeId != p[i].typeId {
      var j :| 0 <= j < |r| && r[j] == e;
      var j' := if j < i then j else j + 1;
      assert r[j] == p[j'];
    }
  }

  /** Each entry of `inst` was ready when installed, after the resolved types
      and the entries before it, and comes from `pending`. */
  ghost predicate InstalledInOrder(resolved: set<TypeId>, inst: seq<Entry>, pending: seq<Entry>) {
    forall k :: 0 <= k < |inst| ==> Ready(inst[k], resolved + KeySet(inst[..k])) && inst[k] in pending
  }

  /** An entry ready after `e` and the ones before it in `sub` is ready at
      its place in `[e] + sub`. */
  lemma ReadyAfter(resolved: set<TypeId>, e: Entry, sub: seq<Entry>, k: nat)
    requires 0 < k <= |sub|
    requires Ready(sub[k - 1], (resolved + {e.typeId}) + KeySet(sub[..k - 1]))
    ensures ([e] + sub)[k] == sub[k - 1]
    ensures Ready(([e] + sub)[k], resolved + KeySet(([e] + sub)[..k]))
  {
    assert ([e] + sub)[..k] == [e] + sub[..k - 1];
    KeySetCons(e, sub[..k - 1]);
    assert resolved + KeySet(([e] + sub)[..k]) == (resolved + {e.typeId}) + KeySet(sub[..k - 1]);
  }

  /** Each installed entry was ready when it was installed: all its
      dependencies were resolved before, or installed earlier in this run.
      Every installed entry comes from the pending list. */
  lemma {:induction false} ScheduleInstallsReady(resolved: set<TypeId>, pending: seq<Entry>)
    ensures InstalledInOrder(resolved, Schedule(resolved, pending).installed, pending)
    decreases |pending|
  {
    if pending != [] {
      var i := FirstReady(pending, resolved);
      if i < |pending| {
        var e := pending[i];
        var p' := RemoveAt(pending, i);
        var rest := Schedule(resolved + {e.typeId}, p');
        ScheduleInstallsReady(resolved + {e.typeId}, p');
        RemoveAtMembers(pending, i);
        var inst := [e] + rest.installed;
        assert Schedule(resolved, pending).installed == inst;
        assert KeySet(inst[..0]) == {};
        forall k | 0 <= k < |inst|
          ensures Ready(inst[k], resolved + KeySet(inst[..k])) && inst[k] in pending
        {
          if k > 0 {
            assert rest.installed[k - 1] in p';
            ReadyAfter(resolved, e, rest.installed, k);
          }
        }
      }
    }
  }

  /** The run installs each pending type at most once and never a resolved one. */
  lemma {:induction false} ScheduleInstallsOnce(resolved: set<TypeId>, pending: seq<Entry>)
    requires DistinctKeys(pending)
    requires forall e :: e in pending ==> e.typeId !in resolved
    ensures DistinctKeys(Schedule(resolved, pending).installed)
    ensures forall e :: e in Schedule(resolved, pending).installed ==> e.typeId !in resolved
    decreases |pending|
  {
    if pending != [] {
      var i := FirstReady(pending, resolved);
      if i < |pending| {
        var e := pending[i];
        var p' := RemoveAt(pending, i);
        RemoveAtDistinct(pending, i);
        RemoveAtMembers(pending, i);
        ScheduleInstallsOnce(resolved + {e.typeId}, p');
        var sub := Schedule(resolved + {e.typeId}, p').installed;
        var inst := [e] + sub;
        assert Schedule(resolved, pending).installed == inst;
        forall a, b | 0 <= a < b < |inst| ensures inst[a].typeId != inst[b].typeId {
          assert inst[b] == sub[b - 1];
          if a > 0 {
            assert inst[a] == sub[a - 1];
          } else {
            assert inst[b] in sub;
          }
        }
      }
    }
  }

  /** Together with what the run leaves, the installed entries are the
      pending list. */
  ghost predicate Conserves(pending: seq<Entry>, r: Run) {
    multiset(r.installed) + multiset(Unresolved(pending, KeySet(r.installed))) == multiset(pending)
  }

  /** The run stops without error exactly when nothing is left, and otherwise
      with the cycle error naming what is left, in discovery order, none of
      which is ready. */
  ghost predicate StopsWhenStuck(resolved: set<TypeId>, pending: seq<Entry>, r: Run) {
    var rest := Unresolved(pending, KeySet(r.installed));
    && (r.failure.None? <==> rest == [])
    && (r.failure.Some? ==>
          && r.failure.value == DependencyCycle(rest)
          && forall e :: e in rest ==> !Ready(e, resolved + KeySet(r.installed)))
  }

  /** Every pending entry is either installed or left over, never lost. */
  lemma {:induction false} ScheduleConserves(resolved: set<TypeId>, pending: seq<Entry>)
    requires DistinctKeys(pending)
    ensures Conserves(pending, Schedule(resolved, pending))
    decreases |pending|
  {
    var r := Schedule(resolved, pending);
    assert KeySet([]) == {};
    if pending != [] {
      var i := FirstReady(pending, resolved);
      if i == |pending| {
        UnresolvedNone(pending);
      } else {
        var e := pending[i];
        var p' := RemoveAt(pending, i);
        RemoveAtMultiset(pending, i);
        RemoveAtDistinct(pending, i);
        ScheduleConserves(resolved + {e.typeId}, p');
        var sub := Schedule(resolved + {e.typeId}, p');
        assert r.installed == [e] + sub.installed;
        KeySetCons(e, sub.installed);
        UnresolvedRemoveAt(pending, i, KeySet(sub.installed));
        assert Unresolved(pending, KeySet(r.installed)) == Unresolved(p', KeySet(sub.installed));
        assert multiset(r.installed) == multiset{e} + multiset(sub.installed);
      }
    }
  }

  /** The run stops with the cycle error exactly when no pending entry is
      ready, and names the remaining entries in discovery order. */
  lemma {:induction false} ScheduleOutcome(resolved: set<TypeId>, pending: seq<Entry>)
    requires DistinctKeys(pending)
    ensures StopsWhenStuck(resolved, pending, Schedule(resolved, pending))
    decreases |pending|
  {
    var r := Schedule(resolved, pending);
    assert KeySet([]) == {};
    if pending != [] {
      var i := FirstReady(pending, resolved);
      if i == |pending| {
        UnresolvedNone(pending);
      } else {
        var e := pending[i];
        var p' := RemoveAt(pending, i);
        RemoveAtDistinct(pending, i);
        ScheduleOutcome(resolved + {e.typeId}, p');
        var sub := Schedule(resolved + {e.typeId}, p');
        assert r.installed == [e] + sub.installed;
        assert r.failure == sub.failure;
        KeySetCons(e, sub.installed);
        UnresolvedRemoveAt(pending, i, KeySet(sub.installed));
        assert Unresolved(pending, KeySet(r.installed)) == Unresolved(p', KeySet(sub.installed));
        assert resolved + KeySet(r.installed) == (resolved + {e.typeId}) + KeySet(sub.installed);
      }
    }
  }

  lemma {:induction false} UnresolvedDistinct(es: seq<Entry>, x: set<TypeId>)
    requires DistinctKeys(es)
    ensures DistinctKeys(Unresolved(es, x))
    decreases |es|
  {
    if es != [] {
      TailDistinct(es);
      UnresolvedDistinct(es[1..], x);
      UnresolvedMembers(es[1..], x);
      var r := Unresolved(es, x);
      var t := Unresolved(es[1..], x);
      if es[0].typeId !in x {
        assert r == [es[0]] + t;
        forall a, b | 0 <= a < b < |r| ensures r[a].typeId != r[b].typeId {
          assert r[b] == t[b - 1] && r[b] in t;
          if a > 0 { assert r[a] == t[a - 1]; }
        }
      }
    }
  }

  /** Ranks that strictly decrease along every dependency between pending
      entries: the pending sub-graph is acyclic. */
  ghost predicate RankedBelow(resolved: set<TypeId>, pending: seq<Entry>, rank: map<TypeId, nat>) {
    forall e, d :: e in pending && d in e.dependencies ==>
      e.typeId in rank && (d in resolved || (d in KeySet(pending) && d in rank && rank[d] < rank[e.typeId]))
  }

  lemma {:induction false} MinRank(pending: seq<Entry>, rank: map<TypeId, nat>) returns (k: nat)
    requires pending != [] && forall e :: e in pending ==> e.typeId in rank
    ensures k < |pending|
    ensures forall j :: 0 <= j < |pending| ==> rank[pending[k].typeId] <= rank[pending[j].typeId]
    decreases |pending|
  {
    if |pending| == 1 {
      k := 0;
    } else {
      var k' := MinRank(pending[1..], rank);
      k := if rank[pending[0].typeId] <= rank[pending[k' + 1].typeId] then 0 else k' + 1;
      forall j | 0 <= j < |pending| ensures rank[pending[k].typeId] <= rank[pending[j].typeId] {
        if j > 0 { assert pending[j] == pending[1..][j - 1]; }
      }
    }
  }

  /** The pending entry of least rank is ready. */
  lemma MinRankReady(resolved: set<TypeId>, pending: seq<Entry>, rank: map<TypeId, nat>, k: nat)
    requires RankedBelow(resolved, pending, rank)
    requires k < |pending| && forall j :: 0 <= j < |pending| ==> pending[j].typeId in rank
    requires forall j :: 0 <= j < |pending| ==> rank[pending[k].typeId] <= rank[pending[j].typeId]
    ensures Ready(pending[k], resolved)
  {
    var m := pending[k];
    forall idx | 0 <= idx < |m.dependencies| ensures m.dependencies[idx] in resolved {
      var d := m.dependencies[idx];
      assert d in KeySet(pending) ==> rank[m.typeId] <= rank[d];
    }
  }

  /** Installing one entry keeps the ranks decreasing over what is left. */
  lemma RankedBelowStep(resolved: set<TypeId>, pending: seq<Entry>, rank: map<TypeId, nat>, i: nat)
    requires RankedBelow(resolved, pending, rank) && i < |pending|
    ensures RankedBelow(resolved + {pending[i].typeId}, RemoveAt(pending, i), rank)
  {
    var t := pending[i].typeId;
    var p' := RemoveAt(pending, i);
    RemoveAtMembers(pending, i);
    forall e, d | e in p' && d in e.dependencies
      ensures e.typeId in rank && (d in resolved + {t} || (d in KeySet(p') && d in rank && rank[d] < rank[e.typeId]))
    {
      if d !in resolved + {t} {
        var e' :| e' in pending && e'.typeId == d;
        var j :| 0 <= j < |pending| && pending[j] == e';
        RemoveAtKeeps(pending, i, j);
      }
    }
  }

  /** If the pending sub-graph is acyclic the run installs everything and
      raises no error. */
  lemma {:induction false} AcyclicScheduleCompletes(resolved: set<TypeId>, pending: seq<Entry>, rank: map<TypeId, nat>)
    requires forall e :: e in pending ==> e.typeId in rank
    requires RankedBelow(resolved, pending, rank)
    ensures Schedule(resolved, pending).failure.None?
    decreases |pending|
  {
    if pending != [] {
      var k := MinRank(pending, rank);
      MinRankReady(resolved, pending, rank, k);
      var i := FirstReady(pending, resolved);
      assert i <= k;
      RankedBelowStep(resolved, pending, rank, i);
      RemoveAtMembers(pending, i);
      AcyclicScheduleCompletes(resolved + {pending[i].typeId}, RemoveAt(pending, i), rank);
    }
  }

  /** Every dependency of a pending entry is resolved or pending itself. */
  ghost predicate PendingClosed(resolved: set<TypeId>, pending: seq<Entry>) {
    forall e, d :: e in pending && d in e.dependencies ==> d in resolved || d in KeySet(pending)
  }

  /** A left-over entry that is not ready waits for a left-over entry,
      possibly itself. */
  lemma StuckEntryWaits(resolved: set<TypeId>, pending: seq<Entry>, installed: set<TypeId>, e: Entry)
    requires PendingClosed(resolved, pending)
    requires e in Unresolved(pending, installed) && !Ready(e, resolved + installed)
    ensures exists d :: d in e.dependencies && d in KeySet(Unresolved(pending, installed))
  {
    UnresolvedMembers(pending, installed);
    var idx :| 0 <= idx < |e.dependencies| && e.dependencies[idx] !in resolved + installed;
    var d := e.dependencies[idx];
    assert e in pending && d in e.dependencies;
    assert d in KeySet(pending);
    var e' :| e' in pending && e'.typeId == d;
    assert e' in Unresolved(pending, installed);
    assert d in KeySet(Unresolved(pending, installed));
  }

  /** The cycle error is raised only on a genuine cycle: every entry it names
      waits for an entry it names (possibly itself), so no order of
      construction exists. */
  lemma ScheduleStuckIsCycle(resolved: set<TypeId>, pending: seq<Entry>)
    requires DistinctKeys(pending)
    requires PendingClosed(resolved, pending)
    ensures var r := Schedule(resolved, pending);
      r.failure.Some? ==>
        && r.failure.value.DependencyCycle?
        && r.failure.value.unresolved != []
        && forall e :: e in r.failure.value.unresolved ==>
             exists d :: d in e.dependencies && d in KeySet(r.failure.value.unresolved)
  {
    var r := Schedule(resolved, pending);
    ScheduleOutcome(resolved, pending);
    if r.failure.Some? {
      var installed := KeySet(r.installed);
      var rest := Unresolved(pending, installed);
      assert r.failure.value == DependencyCycle(rest);
      forall e | e in rest ensures exists d :: d in e.dependencies && d in KeySet(rest) {
        StuckEntryWaits(resolved, pending, installed, e);
      }
    }
  }

  /** The pending list of a resolve call inherits the discovered map's facts. */
  lemma PendingFacts(reg: Registry, depsOf: TypeId -> seq<TypeId>, resolved: set<TypeId>, es: seq<Entry>)
    requires DistinctKeys(es) && DepsClosed(es)
    requires forall e :: e in es ==> EntryOf(reg, depsOf, e)
    ensures var pending := Unresolved(es, resolved);
      && DistinctKeys(pending)
      && PendingClosed(resolved, pending)
      && (forall e :: e in pending ==> EntryOf(reg, depsOf, e) && e.typeId !in resolved)
      && (forall t :: t in KeySet(es) ==> t in resolved || t in KeySet(pending))
  {
    var pending := Unresolved(es, resolved);
    UnresolvedDistinct(es, resolved);
    UnresolvedMembers(es, resolved);
    forall e, d | e in pending && d in e.dependencies ensures d in resolved || d in KeySet(pending) {
      assert e in es && d in KeySet(es);
      if d !in resolved {
        var e' :| e' in es && e'.typeId == d;
        assert e' in pending;
      }
    }
    forall t | t in KeySet(es) ensures t in resolved || t in KeySet(pending) {
      if t !in resolved {
        var e' :| e' in es && e'.typeId == t;
        assert e' in pending;
      }
    }
  }

  /** What a resolve call installs: well-formed entries for types that were
      not resolved, each type once, each after all of its dependencies. */
  lemma ResolvePlanInstalls(reg: Registry, overrides: map<TypeId, TypeId>, resolved: set<TypeId>, types: seq<TypeId>)
    ensures var plan := ResolvePlan(reg, overrides, resolved, types);
      && DistinctKeys(plan.installed)
      && (forall e :: e in plan.installed ==> EntryOf(reg, DependencyFn(reg, overrides), e) && e.typeId !in resolved)
      && (forall k :: 0 <= k < |plan.installed| ==> Ready(plan.installed[k], resolved + KeySet(plan.installed[..k])))
  {
    var depsOf := DependencyFn(reg, overrides);
    DiscoveredIsLeastClosure(reg, depsOf, types);
    var d := Discovered(reg, depsOf, types);
    if d.Success? {
      var pending := Unresolved(d.value, resolved);
      PendingFacts(reg, depsOf, resolved, d.value);
      ScheduleInstallsReady(resolved, pending);
      ScheduleInstallsOnce(resolved, pending);
    }
  }

  /** A resolve call that raises nothing resolves every requested type. A
      discovery failure installs nothing and is one of the two discovery
      errors; the cycle error names a non-empty set of entries each of which
      waits for one of them, possibly itself. */
  lemma ResolvePlanOutcome(reg: Registry, overrides: map<TypeId, TypeId>, resolved: set<TypeId>, types: seq<TypeId>)
    ensures var plan := ResolvePlan(reg, overrides, resolved, types);
      && (plan.failure.None? ==> forall t :: t in types ==> t in resolved + KeySet(plan.installed))
      && (plan.failure.Some? && plan.failure.value.DependencyCycle? ==>
            && plan.failure.value.unresolved != []
            && forall e :: e in plan.failure.value.unresolved ==>
                 exists d :: d in e.dependencies && d in KeySet(plan.failure.value.unresolved))
      && (plan.failure.Some? && !plan.failure.value.DependencyCycle? ==>
            plan.installed == [] && FailureKind(reg, DependencyFn(reg, overrides), types, plan.failure.value))
  {
    var depsOf := DependencyFn(reg, overrides);
    DiscoveredIsLeastClosure(reg, depsOf, types);
    DiscoveredFailure(reg, depsOf, types);
    var d := Discovered(reg, depsOf, types);
    if d.Success? {
      var pending := Unresolved(d.value, resolved);
      var r := Schedule(resolved, pending);
      PendingFacts(reg, depsOf, resolved, d.value);
      ScheduleOutcome(resolved, pending);
      ScheduleStuckIsCycle(resolved, pending);
      if r.failure.None? {
        UnresolvedMembers(pending, KeySet(r.installed));
        forall t | t in types ensures t in resolved + KeySet(r.installed) {
          if t !in resolved {
            var e :| e in pending && e.typeId == t;
            assert e !in Unresolved(pending, KeySet(r.installed));
          }
        }
      }
    }
  }

  /** If every requested type lies in a closed set of injectable types whose
      dependencies are ranked (the graph is acyclic), the resolve call
      raises nothing. */
  lemma AcyclicPlanSucceeds(reg: Registry, overrides: map<TypeId, TypeId>, resolved: set<TypeId>, types: seq<TypeId>,
                            s: set<TypeId>, rank: map<TypeId, nat>)
    requires InjectableClosure(reg, DependencyFn(reg, overrides), types, s)
    requires forall t :: t in s ==> t in rank
    requires forall t, d :: t in s && d in Dependencies(reg, overrides, t) ==> rank[d] < rank[t]
    ensures ResolvePlan(reg, overrides, resolved, types).failure.None?
  {
    var depsOf := DependencyFn(reg, overrides);
    DiscoveredSucceedsIff(reg, depsOf, types);
    DiscoveredIsLeastClosure(reg, depsOf, types);
    var es := Discovered(reg, depsOf, types).value;
    var pending := Unresolved(es, resolved);
    PendingFacts(reg, depsOf, resolved, es);
    UnresolvedMembers(es, resolved);
    assert KeySet(es) <= s;
    forall e, d | e in pending && d in e.dependencies
      ensures e.typeId in rank && (d in resolved || (d in KeySet(pending) && d in rank && rank[d] < rank[e.typeId]))
    {
      assert e in es && e.typeId in s;
    }
    AcyclicScheduleCompletes(resolved, pending, rank);
  }
}
