/** Whose Applications the controller writes and deletes when its reads lag
    (pkg/controller/helmrelease_controller.go:391-400, 440-467). */
module StaleOwners {
  import opened Naming
  import opened Protocol
  import opened StaleReads

  // ---------- whose Application is written and deleted ----------

  /** After any run without a miss, a patch hits the release's own Application; a delete call does so
      if and only if the release still exists under the Application name that its copy tells. */
  lemma HitsOwnExactly(clusterName: string, s: State, events: seq<CacheEvent>, k: Key)
    requires Init(clusterName, s) && CachedRun(clusterName, Synced(s), events)
    requires NeverMisses(clusterName, Synced(s), events)
    ensures var t := After(clusterName, Synced(s), events).live;
            var stage := t.StageOf(k);
            stage.Write? || stage.DeleteCall? ==>
              var name := AppName(clusterName, k, stage.hr);
              name in t.apps ==>
                (stage.Write? ==> t.apps[name].owner == k) &&
                (t.apps[name].owner == k <==>
                 k in t.releases && AppName(clusterName, k, t.releases[k]) == AppName(clusterName, k, stage.hr))
  {
    SyncedInv(clusterName, s);
    CachedRunInv(clusterName, Synced(s), events);
    var c := After(clusterName, Synced(s), events);
    PurgedNames(clusterName, c);
    WriteBound(clusterName, c, k);
    var stage := c.live.StageOf(k);
    hide After, AppName, CacheInv, NeverMisses;
    if !stage.Idle? && AppName(clusterName, k, stage.hr) in c.live.apps {
      OwnerIs(clusterName, c.live, k, AppName(clusterName, k, stage.hr));
    }
  }

  lemma WriteBound(clusterName: string, c: Cached, k: Key)
    requires CacheInv(clusterName, c)
    ensures c.live.StageOf(k).Write? ==> Bound(clusterName, c.live, k, c.live.StageOf(k).hr)
  {
    assert StageOk(c, k);
    PurgedStage(c.live, k);
    assert StageSound(clusterName, Purged(c.live), k);
    hide Inv, AppName;
  }

  /** A reconcile starts from a copy that is no older than its last removal of the finalizer. */
  predicate StartsFresh(c: Cached, e: CacheEvent) {
    e.Step? && e.e.Start? && e.e.ok ==> e.e.k !in c.staleReleases
  }

  predicate AlwaysFresh(clusterName: string, c: Cached, events: seq<CacheEvent>)
    requires CachedRun(clusterName, c, events)
    decreases |events|
  {
    events == [] ||
    (StartsFresh(c, events[0]) && AlwaysFresh(clusterName, Next(clusterName, c, events[0]), events[1..]))
  }

  ghost predicate Trusted(clusterName: string, c: Cached) {
    (forall k :: !c.live.StageOf(k).Idle? && c.live.StageOf(k).hr.finalizer ==>
      Bound(clusterName, c.live, k, c.live.StageOf(k).hr)) &&
    (forall k :: k in c.releases && k !in c.staleReleases && c.releases[k].finalizer ==>
      Bound(clusterName, c.live, k, c.releases[k]))
  }

  lemma StepTrusted(clusterName: string, c: Cached, e: Event)
    requires CacheInv(clusterName, c) && Trusted(clusterName, c) && Enabled(clusterName, c.live, e)
    requires StartsFresh(c, Step(e))
    ensures Trusted(clusterName, Next(clusterName, c, Step(e)))
  {
    var d := Next(clusterName, c, Step(e));
    forall j | !d.live.StageOf(j).Idle? && d.live.StageOf(j).hr.finalizer
      ensures Bound(clusterName, d.live, j, d.live.StageOf(j).hr)
    {
      StageTrusted(clusterName, c, e, j);
    }
    hide CacheInv, NextLive, Bound, AppName;
    forall j | j in d.releases && j !in d.staleReleases && d.releases[j].finalizer
      ensures Bound(clusterName, d.live, j, d.releases[j])
    {
      assert e.Continue? ==> StageOk(c, e.k) by { StagesAreOk(clusterName, c); }
      StepBound(clusterName, c, e, j, c.releases[j]);
    }
  }

  lemma StageTrusted(clusterName: string, c: Cached, e: Event, j: Key)
    requires CacheInv(clusterName, c) && Trusted(clusterName, c) && Enabled(clusterName, c.live, e)
    requires StartsFresh(c, Step(e))
    requires var t := NextLive(clusterName, c, e).StageOf(j); !t.Idle? && t.hr.finalizer
    ensures Bound(clusterName, NextLive(clusterName, c, e), j, NextLive(clusterName, c, e).StageOf(j).hr)
  {
    StagesAreOk(clusterName, c);
    assert StageOk(c, j) && (e.Continue? ==> StageOk(c, e.k));
    if Finalizes(c.live, e) { FinalizingEnds(clusterName, c, e); }
    StepGoes(clusterName, c, e, j);
    hide CacheInv, NextLive, Bound, AppName, Finalizes, StageOk;
    StepBound(clusterName, c, e, j, NextLive(clusterName, c, e).StageOf(j).hr);
  }

  lemma FinalizingEnds(clusterName: string, c: Cached, e: Event)
    requires Enabled(clusterName, c.live, e) && Finalizes(c.live, e)
    ensures NextLive(clusterName, c, e).StageOf(e.k).Idle?
  {
    hide AppName, Store;
  }

  lemma CatchUpTrusted(clusterName: string, c: Cached, e: CacheEvent)
    requires Trusted(clusterName, c) && !e.Step?
    ensures Trusted(clusterName, Next(clusterName, c, e))
  {
    hide AppName;
  }

  lemma {:induction false} RunTrusted(clusterName: string, c: Cached, events: seq<CacheEvent>)
    requires CacheInv(clusterName, c) && Trusted(clusterName, c) && CachedRun(clusterName, c, events)
    requires NeverMisses(clusterName, c, events) && AlwaysFresh(clusterName, c, events)
    ensures Trusted(clusterName, After(clusterName, c, events))
    decreases |events|
  {
    if events != [] {
      var e := events[0];
      if e.Step? { StepTrusted(clusterName, c, e.e); } else { CatchUpTrusted(clusterName, c, e); }
      NextInv(clusterName, c, e);
      hide CacheInv, Trusted, Allowed, Misses, Next, StartsFresh;
      RunTrusted(clusterName, Next(clusterName, c, e), events[1..]);
    }
  }

  /** If reconciles start from copies no older than their own last removal of the finalizer, delete
      calls too only ever hit the release's own Application. */
  lemma HitsOnlyOwnWithCaches(clusterName: string, s: State, events: seq<CacheEvent>, k: Key)
    requires Init(clusterName, s) && CachedRun(clusterName, Synced(s), events)
    requires NeverMisses(clusterName, Synced(s), events) && AlwaysFresh(clusterName, Synced(s), events)
    ensures var t := After(clusterName, Synced(s), events).live;
            var stage := t.StageOf(k);
            stage.Write? || stage.DeleteCall? ==>
              var name := AppName(clusterName, k, stage.hr);
              name in t.apps ==> t.apps[name].owner == k
  {
    SyncedInv(clusterName, s);
    assert Trusted(clusterName, Synced(s)) by { hide AppName, CacheInv; }
    RunTrusted(clusterName, Synced(s), events);
    CachedRunInv(clusterName, Synced(s), events);
    StagesAreOk(clusterName, After(clusterName, Synced(s), events));
    assert StageOk(After(clusterName, Synced(s), events), k);
    HitsOwnExactly(clusterName, s, events, k);
    hide After, AppName, CacheInv, NeverMisses, AlwaysFresh;
  }
}
