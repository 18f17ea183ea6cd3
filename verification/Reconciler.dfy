/** `Reconcile`, `reconcileDelete`, `deleteApplication` and `checkDependenciesHealth` as methods on
    the cluster they change, each API call of which may fail: every execution is a run of the
    protocol (pkg/controller/helmrelease_controller.go:349-467, 494-526). */
module Reconciler {
  import opened Text
  import opened Naming
  import opened Protocol
  import Progress

  /** The events lead from `s0` to `now`: one start, then steps of the same reconcile; `allOk` says
      whether every call in them succeeded. */
  ghost predicate Tracks(clusterName: string, s0: State, events: seq<Event>, k: Key, shipped: set<string>,
                         now: State, allOk: bool)
  {
    ValidRun(clusterName, s0, events) && Run(clusterName, s0, events) == now &&
    events != [] && events[0].Start? && events[0].k == k &&
    (forall i :: 1 <= i < |events| ==> events[i].Continue? && events[i] == Continue(k, events[i].ok, shipped)) &&
    (allOk <==> events[0].ok && forall i :: 1 <= i < |events| ==> events[i].Continue? && events[i].ok)
  }

  lemma Started(clusterName: string, s0: State, k: Key, ok: bool, shipped: set<string>)
    requires s0.StageOf(k).Idle?
    ensures Tracks(clusterName, s0, [Start(k, ok)], k, shipped, Apply(clusterName, s0, Start(k, ok)), ok)
  {
    assert [Start(k, ok)][1..] == [];
  }

  /** The state moves by one step of `k`. */
  lemma TracksStep(clusterName: string, s0: State, events: seq<Event>, before: State, wasOk: bool,
                   k: Key, ok: bool, shipped: set<string>)
    requires Tracks(clusterName, s0, events, k, shipped, before, wasOk) && !before.StageOf(k).Idle?
    ensures Tracks(clusterName, s0, events + [Continue(k, ok, shipped)], k, shipped,
                   Advance(clusterName, before, k, ok, shipped), wasOk && ok)
  {
    hide Advance;
    var e := Continue(k, ok, shipped);
    var more := events + [e];
    assert [e][1..] == [];
    RunAppend(clusterName, s0, events, [e]);
    if wasOk && ok {
      forall i | 1 <= i < |more| ensures more[i].Continue? && more[i].ok {
        if i < |events| { assert more[i] == events[i]; }
      }
    } else if wasOk {
      assert more[|events|] == e;
    } else if events[0].ok {
      var i :| 1 <= i < |events| && !(events[i].Continue? && events[i].ok);
      assert more[i] == events[i];
    }
  }

  class HelmReleaseReconciler {
    const clusterName: string
    /** Whether the n-th API call will succeed, which is not up to the controller. */
    const answers: nat -> bool
    var calls: nat
    var releases: map<Key, Release>
    var apps: map<string, Application>
    var registry: map<string, set<string>>
    var clock: nat
    /** Where all reconciles stand; the protocol's view of this method's own control flow. */
    ghost var stages: map<Key, Stage>

    constructor (clusterName: string, answers: nat -> bool, releases: map<Key, Release>, clock: nat)
      ensures this.clusterName == clusterName && this.answers == answers && calls == 0
      ensures View() == State(releases, map[], map[], map[], clock)
    {
      this.clusterName, this.answers, this.releases, this.clock := clusterName, answers, releases, clock;
      calls := 0;
      apps, registry, stages := map[], map[], map[];
    }

    ghost function View(): State
      reads this
    {
      State(releases, apps, stages, registry, clock)
    }

    /** No call since the one numbered `first` has failed. */
    ghost predicate NoFailure(first: nat)
      reads this`calls
    {
      forall n :: first <= n < calls ==> answers(n)
    }

    /** One API call. */
    method Call(ghost first: nat) returns (ok: bool)
      requires first <= calls
      modifies this`calls
      ensures first <= calls && NoFailure(first) == (old(NoFailure(first)) && ok)
    {
      ok := answers(calls);
      calls := calls + 1;
    }

    /** The events since call `first` lead from `s0` to where things stand. */
    ghost predicate Follows(s0: State, events: seq<Event>, k: Key, shipped: set<string>, first: nat)
      reads this
    {
      first <= calls && Tracks(clusterName, s0, events, k, shipped, View(), NoFailure(first))
    }

    /** What Reconcile may do for a release that is not being deleted: add the finalizer, and nothing
        else, when it is missing; nothing at all when the release is suspended; otherwise write an
        Application or record CRDs only when each dependency's Application is synced, or had its last
        operation succeed, and is Healthy or Progressing. */
    ghost predicate LiveOutcome(before: State, k: Key, hr: Release)
      reads this
    {
      (!hr.finalizer ==>
        apps == before.apps && registry == before.registry &&
        (releases == before.releases || releases == before.releases[k := hr.(finalizer := true, version := clock)])) &&
      (hr.finalizer && hr.suspend ==>
        releases == before.releases && apps == before.apps && registry == before.registry) &&
      (apps != before.apps || registry != before.registry ==>
        forall i :: 0 <= i < |hr.dependsOn| ==> Converges(before.apps, DependencyName(hr.dependsOn[i], clusterName)))
    }

    /** The Application exists, is synced or had its last operation succeed, and is Healthy or
        Progressing. */
    predicate Converges(apps: map<string, Application>, name: string) {
      name in apps && (apps[name].synced || apps[name].succeeded) &&
      (apps[name].health == Healthy || apps[name].health == Progressing)
    }

    lemma ReadyConverges(apps: map<string, Application>, name: string)
      ensures name in apps && Ready(apps[name]) <==> Converges(apps, name)
    {
    }

    method Reconcile(k: Key, shipped: set<string>) returns (ghost events: seq<Event>)
      requires View().StageOf(k).Idle?
      modifies this
      ensures Follows(old(View()), events, k, shipped, old(calls))
      ensures View().StageOf(k).Idle?
      ensures k !in old(releases) ==> releases == old(releases) && apps == old(apps) && registry == old(registry)
      ensures k in old(releases) && old(releases)[k].deleting && !old(releases)[k].finalizer ==>
                releases == old(releases) && apps == old(apps) && registry == old(registry)
      ensures k in old(releases) && !old(releases)[k].deleting ==> LiveOutcome(old(View()), k, old(releases)[k])
    {
      ghost var s0, first := View(), calls;
      var ok := Call(first);
      events := [Start(k, ok)];
      Started(clusterName, s0, k, ok, shipped);
      hide Tracks, NoFailure, ApplicationName, DependencyName, Ready, NewApp, Ref, Store, MarkAppDeleted;
      if !ok || k !in releases {
        return;
      }
      var hr := releases[k];
      stages := stages[k := Fetched(hr)];

      ghost var s, wasOk := View(), NoFailure(first);
      var found := Call(first);  // the Argo CD namespace
      if !found {
        stages := stages[k := Idle];
        TracksStep(clusterName, s0, events, s, wasOk, k, found, shipped);
        events := events + [Continue(k, found, shipped)];
        return;
      }
      if hr.deleting {
        events := ReconcileDelete(k, hr, shipped, s0, events, first);
        return;
      }
      events := ReconcileLive(k, hr, shipped, s0, events, first);
    }

    /** The rest of Reconcile, for a release that is not being deleted. */
    method ReconcileLive(k: Key, hr: Release, shipped: set<string>,
        ghost s0: State, ghost events0: seq<Event>, ghost first: nat)
      returns (ghost events: seq<Event>)
      requires Follows(s0, events0, k, shipped, first) && View().StageOf(k) == Fetched(hr) && !hr.deleting
      modifies this
      ensures Follows(s0, events, k, shipped, first) && View().StageOf(k).Idle?
      ensures k in old(releases) && old(releases)[k] == hr ==> LiveOutcome(old(View()), k, hr)
    {
      hide Tracks, NoFailure, ApplicationName, DependencyName, Ready, NewApp, Ref, Store, MarkAppDeleted;
      events := events0;
      ghost var s, wasOk := View(), NoFailure(first);
      if !hr.finalizer {
        stages := stages[k := AddFinalizer(hr)];
        TracksStep(clusterName, s0, events, s, wasOk, k, true, shipped);
        events := UpdateFinalizer(k, hr, true, shipped, s0, events + [Continue(k, true, shipped)], first);
        return;
      }
      if hr.suspend {
        stages := stages[k := Idle];
        TracksStep(clusterName, s0, events, s, wasOk, k, true, shipped);
        events := events + [Continue(k, true, shipped)];
        return;
      }
      stages := stages[k := Dependencies(hr, 0)];
      TracksStep(clusterName, s0, events, s, wasOk, k, true, shipped);
      events := events + [Continue(k, true, shipped)];
      var healthy;
      healthy, events := CheckDependenciesHealth(k, hr, shipped, s0, events, first);
      if !healthy {
        return;
      }
      var written;
      written, events := CreateOrPatch(k, hr, shipped, s0, events, first);
      if written {
        events := UpdateHelmReleaseStatus(k, hr, shipped, s0, events, first);
      }
    }

    /** Update with optimistic locking: writes only over the version that was read. */
    method UpdateRelease(k: Key, read: Release, r: Release, ghost first: nat) returns (ok: bool)
      requires first <= calls
      modifies this`calls, this`releases, this`clock
      ensures first <= calls && NoFailure(first) == (old(NoFailure(first)) && ok)
      ensures View() == if ok && k in old(releases) && old(releases)[k].version == read.version
                        then Store(old(View()), k, r) else old(View())
    {
      ok := Call(first);
      if ok && k in releases && releases[k].version == read.version {
        if r.deleting && !r.finalizer && !r.others {
          releases := releases - {k};
        } else {
          releases := releases[k := r.(version := clock + 1)];
        }
        clock := clock + 1;
      }
    }

    method CheckDependenciesHealth(k: Key, hr: Release, shipped: set<string>,
        ghost s0: State, ghost events0: seq<Event>, ghost first: nat)
      returns (healthy: bool, ghost events: seq<Event>)
      requires Follows(s0, events0, k, shipped, first) && View().StageOf(k) == Dependencies(hr, 0)
      modifies this`calls, this`stages
      ensures Follows(s0, events, k, shipped, first)
      ensures View().StageOf(k) == if healthy then GetApp(hr) else Idle
      ensures healthy ==>
                forall i :: 0 <= i < |hr.dependsOn| ==> Converges(apps, DependencyName(hr.dependsOn[i], clusterName))
      ensures !healthy && NoFailure(first) ==>
                exists i :: 0 <= i < |hr.dependsOn| && !Converges(apps, DependencyName(hr.dependsOn[i], clusterName))
    {
      hide Tracks, NoFailure, ApplicationName, DependencyName, Ready, Converges, NewApp, Ref, Store, MarkAppDeleted;
      events := events0;
      ghost var s, wasOk;
      for i := 0 to |hr.dependsOn|
        invariant Follows(s0, events, k, shipped, first) && View().StageOf(k) == Dependencies(hr, i)
        invariant forall j :: 0 <= j < i ==> Converges(apps, DependencyName(hr.dependsOn[j], clusterName))
      {
        s, wasOk := View(), NoFailure(first);
        var name := DependencyName(hr.dependsOn[i], clusterName);
        ReadyConverges(apps, name);
        var ok := Call(first);
        if !ok || name !in apps || !Ready(apps[name]) {
          stages := stages[k := Idle];
          TracksStep(clusterName, s0, events, s, wasOk, k, ok, shipped);
          events := events + [Continue(k, ok, shipped)];
          assert ok ==> !Converges(apps, name);
          return false, events;
        }
        stages := stages[k := Dependencies(hr, i + 1)];
        TracksStep(clusterName, s0, events, s, wasOk, k, true, shipped);
        events := events + [Continue(k, true, shipped)];
      }
      s, wasOk := View(), NoFailure(first);
      stages := stages[k := GetApp(hr)];
      TracksStep(clusterName, s0, events, s, wasOk, k, true, shipped);
      events := events + [Continue(k, true, shipped)];
      healthy := true;
    }

    /** controllerutil.CreateOrPatch: get the Application, run syncApplication on it, write it. */
    method CreateOrPatch(k: Key, hr: Release, shipped: set<string>,
        ghost s0: State, ghost events0: seq<Event>, ghost first: nat)
      returns (written: bool, ghost events: seq<Event>)
      requires Follows(s0, events0, k, shipped, first) && View().StageOf(k) == GetApp(hr)
      modifies this`calls, this`apps, this`registry, this`stages
      ensures Follows(s0, events, k, shipped, first)
      ensures View().StageOf(k) == if written then PatchStatus(hr) else Idle
      ensures written ==> AppName(clusterName, k, hr) in apps && apps[AppName(clusterName, k, hr)].owner == k
    {
      hide Tracks, NoFailure, ApplicationName, DependencyName, Ready, NewApp, Ref;
      events := events0;
      var name := AppName(clusterName, k, hr);
      ghost var s, wasOk := View(), NoFailure(first);
      var got := Call(first);
      var exists_ := name in apps;
      stages := stages[k := if got then Sync(hr, exists_) else Idle];
      TracksStep(clusterName, s0, events, s, wasOk, k, got, shipped);
      events := events + [Continue(k, got, shipped)];
      if !got {
        return false, events;
      }
      var synced;
      synced, events := RunSync(k, hr, exists_, shipped, s0, events, first);
      if !synced {
        return false, events;
      }
      written, events := WriteApplication(k, hr, exists_, shipped, s0, events, first);
    }

    /** The create or the patch. A patch cannot add Argo CD's finalizer to an Application that is
        being deleted without it. */
    method WriteApplication(k: Key, hr: Release, exists_: bool, shipped: set<string>,
        ghost s0: State, ghost events0: seq<Event>, ghost first: nat)
      returns (written: bool, ghost events: seq<Event>)
      requires Follows(s0, events0, k, shipped, first) && View().StageOf(k) == Write(hr, exists_)
      modifies this`calls, this`apps, this`stages
      ensures Follows(s0, events, k, shipped, first)
      ensures View().StageOf(k) == if written then PatchStatus(hr) else Idle
      ensures written ==> AppName(clusterName, k, hr) in apps && apps[AppName(clusterName, k, hr)].owner == k
    {
      hide Tracks, NoFailure, ApplicationName, DependencyName, Ready, Ref, Store, MarkAppDeleted;
      events := events0;
      var name := AppName(clusterName, k, hr);
      ghost var s, wasOk := View(), NoFailure(first);
      var ok := Call(first);
      written := ok &&
        if exists_ then name in apps && !(apps[name].deleting && !apps[name].cascade) else name !in apps;
      if written {
        if exists_ {
          apps := apps[name := apps[name].(owner := k, cascade := true)];
        } else {
          apps := apps[name := NewApp(k)];
        }
      }
      stages := stages[k := if written then PatchStatus(hr) else Idle];
      TracksStep(clusterName, s0, events, s, wasOk, k, ok, shipped);
      events := events + [Continue(k, ok, shipped)];
    }

    /** syncApplication, as far as the protocol sees it; module Sync has the rest. */
    method RunSync(k: Key, hr: Release, exists_: bool, shipped: set<string>,
        ghost s0: State, ghost events0: seq<Event>, ghost first: nat)
      returns (synced: bool, ghost events: seq<Event>)
      requires Follows(s0, events0, k, shipped, first) && View().StageOf(k) == Sync(hr, exists_)
      modifies this`calls, this`registry, this`stages
      ensures Follows(s0, events, k, shipped, first)
      ensures View().StageOf(k) == if synced then Write(hr, exists_) else Idle
    {
      hide Tracks, NoFailure, ApplicationName, DependencyName, Ready, NewApp, Ref, Store, MarkAppDeleted;
      events := events0;
      ghost var s, wasOk := View(), NoFailure(first);
      var ok := Call(first);  // the HelmRepository and the values
      synced := ok && hr.chart.Some?;
      if synced {
        registry := registry[Ref(k) := shipped];
      }
      stages := stages[k := if synced then Write(hr, exists_) else Idle];
      TracksStep(clusterName, s0, events, s, wasOk, k, ok, shipped);
      events := events + [Continue(k, ok, shipped)];
    }

    /** The status patch; its failure is only logged. */
    method UpdateHelmReleaseStatus(k: Key, hr: Release, shipped: set<string>,
        ghost s0: State, ghost events0: seq<Event>, ghost first: nat)
      returns (ghost events: seq<Event>)
      requires Follows(s0, events0, k, shipped, first) && View().StageOf(k) == PatchStatus(hr)
      modifies this`calls, this`releases, this`clock, this`stages
      ensures Follows(s0, events, k, shipped, first)
      ensures View().StageOf(k).Idle?
    {
      hide Tracks, NoFailure, ApplicationName, DependencyName, Ready, NewApp, Ref;
      events := events0;
      ghost var s, wasOk := View(), NoFailure(first);
      var ok := Call(first);
      if ok && k in releases {
        var r := releases[k];
        if r.deleting && !r.finalizer && !r.others {
          releases := releases - {k};
        } else {
          releases := releases[k := r.(version := clock + 1)];
        }
        clock := clock + 1;
      }
      stages := stages[k := Idle];
      TracksStep(clusterName, s0, events, s, wasOk, k, ok, shipped);
      events := events + [Continue(k, ok, shipped)];
    }

    method ReconcileDelete(k: Key, hr: Release, shipped: set<string>,
        ghost s0: State, ghost events0: seq<Event>, ghost first: nat)
      returns (ghost events: seq<Event>)
      requires Follows(s0, events0, k, shipped, first) && View().StageOf(k) == Fetched(hr) && hr.deleting
      modifies this
      ensures Follows(s0, events, k, shipped, first)
      ensures View().StageOf(k).Idle?
      ensures !hr.finalizer ==> releases == old(releases) && apps == old(apps) && registry == old(registry)
    {
      hide Tracks, NoFailure, ApplicationName, DependencyName, Ready, NewApp, Ref, Store, MarkAppDeleted;
      events := events0;
      ghost var s, wasOk := View(), NoFailure(first);
      stages := stages[k := if hr.finalizer then DeleteGet(hr) else Idle];
      TracksStep(clusterName, s0, events, s, wasOk, k, true, shipped);
      events := events + [Continue(k, true, shipped)];
      if !hr.finalizer {
        return;
      }
      var gone;
      gone, events := DeleteApplication(k, hr, shipped, s0, events, first);
      if !gone {
        return;
      }

      events := ForgetCRDs(k, hr, shipped, s0, events, first);
      events := UpdateFinalizer(k, hr, false, shipped, s0, events, first);
    }

    method ForgetCRDs(k: Key, hr: Release, shipped: set<string>,
        ghost s0: State, ghost events0: seq<Event>, ghost first: nat)
      returns (ghost events: seq<Event>)
      requires Follows(s0, events0, k, shipped, first) && View().StageOf(k) == Forget(hr)
      modifies this`registry, this`stages
      ensures Follows(s0, events, k, shipped, first) && View().StageOf(k) == RemoveFinalizer(hr)
      ensures registry == old(registry) - {Ref(k)}
    {
      hide Tracks, NoFailure, ApplicationName, Ref, Store, MarkAppDeleted;
      ghost var s, wasOk := View(), NoFailure(first);
      registry := registry - {Ref(k)};
      stages := stages[k := RemoveFinalizer(hr)];
      TracksStep(clusterName, s0, events0, s, wasOk, k, true, shipped);
      events := events0 + [Continue(k, true, shipped)];
    }

    /** The update at the end of adding or of removing the finalizer. */
    method UpdateFinalizer(k: Key, hr: Release, present: bool, shipped: set<string>,
        ghost s0: State, ghost events0: seq<Event>, ghost first: nat)
      returns (ghost events: seq<Event>)
      requires Follows(s0, events0, k, shipped, first)
      requires View().StageOf(k) == if present then Stage.AddFinalizer(hr) else RemoveFinalizer(hr)
      modifies this`calls, this`releases, this`clock, this`stages
      ensures Follows(s0, events, k, shipped, first) && View().StageOf(k).Idle?
      ensures present ==>
                releases == old(releases) || releases == old(releases)[k := hr.(finalizer := true, version := clock)]
    {
      hide Tracks, NoFailure, ApplicationName, Ref, MarkAppDeleted;
      ghost var s, wasOk := View(), NoFailure(first);
      var ok := UpdateRelease(k, hr, hr.(finalizer := present), first);
      stages := stages[k := Idle];
      TracksStep(clusterName, s0, events0, s, wasOk, k, ok, shipped);
      events := events0 + [Continue(k, ok, shipped)];
    }

    /** True once the Application no longer exists. */
    method DeleteApplication(k: Key, hr: Release, shipped: set<string>,
        ghost s0: State, ghost events0: seq<Event>, ghost first: nat)
      returns (gone: bool, ghost events: seq<Event>)
      requires Follows(s0, events0, k, shipped, first) && View().StageOf(k) == DeleteGet(hr)
      modifies this`calls, this`apps, this`stages
      ensures Follows(s0, events, k, shipped, first)
      ensures View().StageOf(k) == if gone then Forget(hr) else Idle
      ensures gone ==> AppName(clusterName, k, hr) !in apps
    {
      hide Tracks, NoFailure, ApplicationName, DependencyName, Ready, NewApp, Ref, Store;
      events := events0;
      var name := AppName(clusterName, k, hr);
      ghost var s, wasOk := View(), NoFailure(first);
      var got := Call(first);
      if !got || name !in apps {
        gone := got;
        stages := stages[k := if got then Forget(hr) else Idle];
        TracksStep(clusterName, s0, events, s, wasOk, k, got, shipped);
        events := events + [Continue(k, got, shipped)];
        return;
      }
      if apps[name].deleting {
        stages := stages[k := DeleteCheck(hr)];
        TracksStep(clusterName, s0, events, s, wasOk, k, true, shipped);
        events := events + [Continue(k, true, shipped)];
      } else {
        stages := stages[k := DeleteCall(hr)];
        TracksStep(clusterName, s0, events, s, wasOk, k, true, shipped);
        events := events + [Continue(k, true, shipped)];
        var deleted;
        deleted, events := IssueDelete(k, hr, shipped, s0, events, first);
        if !deleted {
          return false, events;
        }
      }
      gone, events := ConfirmGone(k, hr, shipped, s0, events, first);
    }

    /** The second look, after the delete call. */
    method ConfirmGone(k: Key, hr: Release, shipped: set<string>,
        ghost s0: State, ghost events0: seq<Event>, ghost first: nat)
      returns (gone: bool, ghost events: seq<Event>)
      requires Follows(s0, events0, k, shipped, first) && View().StageOf(k) == DeleteCheck(hr)
      modifies this`calls, this`stages
      ensures Follows(s0, events, k, shipped, first) && apps == old(apps)
      ensures View().StageOf(k) == if gone then Forget(hr) else Idle
      ensures gone ==> AppName(clusterName, k, hr) !in apps
    {
      hide Tracks, NoFailure, ApplicationName, Ref, Store, MarkAppDeleted;
      ghost var s, wasOk := View(), NoFailure(first);
      var ok := Call(first);
      gone := ok && AppName(clusterName, k, hr) !in apps;
      stages := stages[k := if gone then Forget(hr) else Idle];
      TracksStep(clusterName, s0, events0, s, wasOk, k, ok, shipped);
      events := events0 + [Continue(k, ok, shipped)];
    }

    method IssueDelete(k: Key, hr: Release, shipped: set<string>,
        ghost s0: State, ghost events0: seq<Event>, ghost first: nat)
      returns (deleted: bool, ghost events: seq<Event>)
      requires Follows(s0, events0, k, shipped, first) && View().StageOf(k) == DeleteCall(hr)
      requires AppName(clusterName, k, hr) in apps
      modifies this`calls, this`apps, this`stages
      ensures Follows(s0, events, k, shipped, first)
      ensures View().StageOf(k) == if deleted then DeleteCheck(hr) else Idle
    {
      hide Tracks, NoFailure, ApplicationName, Ref, Store;
      var name := AppName(clusterName, k, hr);
      ghost var s, wasOk := View(), NoFailure(first);
      deleted := Call(first);
      if deleted {
        if apps[name].cascade {
          apps := apps[name := apps[name].(deleting := true)];
        } else {
          apps := apps - {name};
        }
      }
      stages := stages[k := if deleted then DeleteCheck(hr) else Idle];
      TracksStep(clusterName, s0, events0, s, wasOk, k, deleted, shipped);
      events := events0 + [Continue(k, deleted, shipped)];
    }
  }

  /** A call of the method in which nothing failed is the reconcile that progress is proved for. */
  lemma UndisturbedIsReconcile(clusterName: string, s0: State, events: seq<Event>, k: Key, shipped: set<string>,
                               now: State)
    requires Tracks(clusterName, s0, events, k, shipped, now, true) && now.StageOf(k).Idle?
    ensures now == Progress.Reconcile(clusterName, s0, k, shipped)
  {
    var t := Apply(clusterName, s0, events[0]);
    forall e | e in events[1..] ensures e == Continue(k, true, shipped) {
      var i :| 1 <= i < |events| && events[i] == e;
    }
    Progress.OkRunIsFinish(clusterName, t, k, shipped, events[1..]);
    if k !in s0.releases {
      assert Progress.Finish(clusterName, s0, k, shipped) == s0;
    }
  }
}
