/** Dependency order when reads lag: whatever the gate let through had been ready at some earlier
    moment of the run (pkg/controller/helmrelease_controller.go:386-400, 494-526). */
module StaleOrder {
  import opened Naming
  import opened Protocol
  import opened StaleReads
  import DependencyOrder

  /** The true states that a run goes through, up to and with its last one. */
  ghost function States(clusterName: string, c: Cached, events: seq<CacheEvent>): set<State>
    requires CachedRun(clusterName, c, events)
    decreases |events|
  {
    {c.live} + if events == [] then {} else States(clusterName, Next(clusterName, c, events[0]), events[1..])
  }

  /** In one of the states the Application was synced, or its last operation had succeeded, and its
      health was Healthy or Progressing. */
  ghost predicate WasReady(past: set<State>, name: string) {
    exists s :: s in past && name in s.apps && (s.apps[name].synced || s.apps[name].succeeded) &&
                (s.apps[name].health == Healthy || s.apps[name].health == Progressing)
  }

  /** The copy was the release in one of the states. */
  ghost predicate WasRelease(past: set<State>, k: Key, hr: Release) {
    exists s :: s in past && k in s.releases && s.releases[k] == hr
  }

  /** Everything in the caches was so in one of the states. */
  ghost predicate CachesPast(past: set<State>, c: Cached) {
    (forall name :: name in c.apps ==> AppWas(past, name, c.apps[name])) &&
    forall k :: k in c.releases ==> WasRelease(past, k, c.releases[k])
  }

  ghost predicate AppWas(past: set<State>, name: string, a: Application) {
    exists s :: s in past && name in s.apps && s.apps[name] == a
  }

  /** How many dependencies the gate has let through. */
  function Passed(stage: Stage): nat {
    match stage
    case Dependencies(hr, next) => if next <= |hr.dependsOn| then next else |hr.dependsOn|
    case GetApp(hr) => |hr.dependsOn|
    case Sync(hr, _) => |hr.dependsOn|
    case Write(hr, _) => |hr.dependsOn|
    case _ => 0
  }

  ghost predicate StagePast(clusterName: string, past: set<State>, k: Key, stage: Stage) {
    Asked(stage) &&
    (!stage.Idle? ==>
      WasRelease(past, k, stage.hr) && Passed(stage) <= |stage.hr.dependsOn| &&
      forall i :: 0 <= i < Passed(stage) ==> WasReady(past, DependencyName(stage.hr.dependsOn[i], clusterName)))
  }

  ghost predicate Past(clusterName: string, past: set<State>, c: Cached) {
    c.live in past && CachesPast(past, c) && forall k :: StagePast(clusterName, past, k, c.live.StageOf(k))
  }

  /** What was so stays so. */
  lemma Grows(clusterName: string, past: set<State>, more: set<State>, k: Key, stage: Stage)
    requires past <= more && StagePast(clusterName, past, k, stage)
    ensures StagePast(clusterName, more, k, stage)
  {
    forall name | WasReady(past, name) ensures WasReady(more, name) {}
  }

  /** One step of the gate, reading from the cache. */
  lemma GateStep(clusterName: string, past: set<State>, s: State, k: Key, ok: bool, shipped: set<string>)
    requires forall name :: name in s.apps ==> AppWas(past, name, s.apps[name])
    requires StagePast(clusterName, past, k, s.StageOf(k))
    ensures StagePast(clusterName, past, k, Advance(clusterName, s, k, ok, shipped).StageOf(k))
  {
    DependencyOrder.AdvanceGoes(clusterName, s, k, ok, shipped);
    KeepsCopy(clusterName, s, k, ok, shipped);
    AdvanceAsked(clusterName, s, k, ok, shipped);
    hide Advance, DependencyName, WasRelease, Asked;
    var from, to := s.StageOf(k), Advance(clusterName, s, k, ok, shipped).StageOf(k);
    if from.Dependencies? && to.Dependencies? {
      var name := DependencyName(from.hr.dependsOn[from.next], clusterName);
      assert AppWas(past, name, s.apps[name]);
      assert WasReady(past, name);
    }
  }

  lemma KeepsCopy(clusterName: string, s: State, k: Key, ok: bool, shipped: set<string>)
    ensures var to := Advance(clusterName, s, k, ok, shipped).StageOf(k);
            to.Idle? || (!s.StageOf(k).Idle? && to.hr == s.StageOf(k).hr)
  {
    hide AppName, DependencyName, Ready, Ref, NewApp, Store, MarkAppDeleted;
  }

  lemma ContinuedStage(clusterName: string, past: set<State>, c: Cached, e: Event)
    requires Past(clusterName, past, c) && Enabled(clusterName, c.live, e) && e.Continue?
    ensures StagePast(clusterName, past, e.k, NextLive(clusterName, c, e).StageOf(e.k))
  {
    assert StagePast(clusterName, past, e.k, c.live.StageOf(e.k));
    assert forall name :: name in c.live.apps ==> AppWas(past, name, c.live.apps[name]);
    hide Advance, StagePast, AppWas, WasRelease;
    GateStep(clusterName, past, c.live, e.k, e.ok, e.shipped);
    GateStep(clusterName, past, c.live.(apps := c.apps), e.k, e.ok, e.shipped);
  }

  lemma OthersStage(clusterName: string, c: Cached, e: Event, j: Key)
    requires Enabled(clusterName, c.live, e) && !((e.Start? || e.Continue?) && e.k == j)
    ensures var t := NextLive(clusterName, c, e).StageOf(j);
            t == c.live.StageOf(j) || t.Idle?
  {
    hide Advance, AppName;
    if e.Continue? {
      if !ReadsApps(c.live.StageOf(e.k)) { AdvanceOthers(clusterName, c.live, e.k, e.ok, e.shipped, j); }
    } else if !e.Start? {
      DependencyOrder.OtherStage(clusterName, c.live, e, j);
    }
  }

  lemma StepStage(clusterName: string, past: set<State>, c: Cached, e: Event, j: Key)
    requires Past(clusterName, past, c) && Enabled(clusterName, c.live, e)
    ensures StagePast(clusterName, past, j, NextLive(clusterName, c, e).StageOf(j))
  {
    assert StagePast(clusterName, past, j, c.live.StageOf(j));
    hide Advance, Apply, AppName, WasRelease, WasReady, AppWas;
    if e.Continue? && e.k == j {
      ContinuedStage(clusterName, past, c, e);
    } else if !(e.Start? && e.k == j) {
      OthersStage(clusterName, c, e, j);
    }
  }

  lemma NextPast(clusterName: string, past: set<State>, c: Cached, e: CacheEvent)
    requires Past(clusterName, past, c) && Allowed(clusterName, c, e)
    ensures Past(clusterName, past + {Next(clusterName, c, e).live}, Next(clusterName, c, e))
  {
    var d := Next(clusterName, c, e);
    var more := past + {d.live};
    forall j ensures StagePast(clusterName, more, j, d.live.StageOf(j)) {
      if e.Step? {
        StepStage(clusterName, past, c, e.e, j);
      } else {
        assert StagePast(clusterName, past, j, c.live.StageOf(j));
      }
      Grows(clusterName, past, more, j, d.live.StageOf(j));
    }
    hide StagePast, NextLive, AppName, Finalizes;
    forall name | name in d.apps ensures AppWas(more, name, d.apps[name]) {
      assert !(e.SeeApp? && e.name == name) ==> AppWas(past, name, c.apps[name]);
    }
    forall k | k in d.releases ensures WasRelease(more, k, d.releases[k]) {
      assert !(e.SeeRelease? && e.k == k) ==> WasRelease(past, k, c.releases[k]);
    }
  }

  lemma {:induction false} RunPast(clusterName: string, past: set<State>, c: Cached, events: seq<CacheEvent>)
    requires Past(clusterName, past, c) && CachedRun(clusterName, c, events)
    ensures Past(clusterName, past + States(clusterName, c, events), After(clusterName, c, events))
    decreases |events|
  {
    assert c.live in past;
    hide Next, Allowed, Past;
    if events == [] {
      assert past + States(clusterName, c, events) == past;
    } else {
      var d := Next(clusterName, c, events[0]);
      NextPast(clusterName, past, c, events[0]);
      RunPast(clusterName, past + {d.live}, d, events[1..]);
      assert past + {d.live} + States(clusterName, d, events[1..]) == past + States(clusterName, c, events);
    }
  }

  lemma SyncedPast(clusterName: string, s: State)
    requires s.stages == map[]
    ensures Past(clusterName, {s}, Synced(s))
  {
  }

  /** The copy had the controller's finalizer, was not being deleted, was not suspended and had a
      chart; it was the release, and an Application of each name that the gate rebuilds was ready,
      each at some moment. */
  ghost predicate LetThrough(clusterName: string, past: set<State>, k: Key, hr: Release) {
    hr.finalizer && !hr.deleting && !hr.suspend && hr.chart.Some? && WasRelease(past, k, hr) &&
    forall d :: d in hr.dependsOn ==> WasReady(past, DependencyName(d, clusterName))
  }

  /** A step of a reconcile creates or patches an Application, or records CRDs. */
  ghost predicate Writing(clusterName: string, c: Cached, e: CacheEvent) {
    e.Step? && Enabled(clusterName, c.live, e.e) && e.e.Continue? && !ReadsApps(c.live.StageOf(e.e.k)) &&
    DependencyOrder.Writes(clusterName, c.live, e.e)
  }

  lemma WrittenFrom(clusterName: string, past: set<State>, c: Cached, e: CacheEvent)
    requires Past(clusterName, past, c) && Writing(clusterName, c, e)
    ensures exists hr :: LetThrough(clusterName, past, e.e.k, hr)
  {
    DependencyOrder.WritesInStage(clusterName, c.live, e.e);
    var k := e.e.k;
    if c.live.StageOf(k).Sync? { DependencyOrder.SyncNeedsChart(clusterName, c.live, e.e); }
    assert StagePast(clusterName, past, k, c.live.StageOf(k));
    hide NextLive, AppName, WasReady, DependencyOrder.Writes;
    assert LetThrough(clusterName, past, k, c.live.StageOf(k).hr);
  }

  lemma CreatedByWriting(clusterName: string, c: Cached, e: CacheEvent, name: string)
    requires Allowed(clusterName, c, e) && name !in c.live.apps && name in Next(clusterName, c, e).live.apps
    ensures Writing(clusterName, c, e) && AppName(clusterName, e.e.k, c.live.StageOf(e.e.k).hr) == name
    ensures c.live.StageOf(e.e.k).Write?
  {
    assert e.Step?;
    hide Advance, AppName;
    DependencyOrder.CreatedByWrite(clusterName, c.live, e.e, name);
  }

  /** In every run with lagging reads, whatever calls fail and however old the caches are, a step that
      creates or patches an Application, or records CRDs, follows moments at which its release was as
      the reconcile read it, asking to be reconciled, and the Application that the gate looks at for
      each dependency was ready. */
  lemma WrittenAfterReadingWithCaches(clusterName: string, s: State, events: seq<CacheEvent>, e: CacheEvent)
    requires s.stages == map[] && CachedRun(clusterName, Synced(s), events)
    requires Writing(clusterName, After(clusterName, Synced(s), events), e)
    ensures exists hr :: LetThrough(clusterName, States(clusterName, Synced(s), events), e.e.k, hr)
  {
    RunIsPast(clusterName, s, events);
    WrittenFrom(clusterName, States(clusterName, Synced(s), events), After(clusterName, Synced(s), events), e);
  }

  lemma RunIsPast(clusterName: string, s: State, events: seq<CacheEvent>)
    requires s.stages == map[] && CachedRun(clusterName, Synced(s), events)
    ensures Past(clusterName, States(clusterName, Synced(s), events), After(clusterName, Synced(s), events))
  {
    SyncedPast(clusterName, s);
    RunPast(clusterName, {s}, Synced(s), events);
    assert {s} + States(clusterName, Synced(s), events) == States(clusterName, Synced(s), events);
  }

  /** In particular before an Application is created. */
  lemma CreatedAfterDependenciesWithCaches(clusterName: string, s: State, events: seq<CacheEvent>, e: CacheEvent,
                                           name: string)
    requires s.stages == map[] && CachedRun(clusterName, Synced(s), events)
    requires Allowed(clusterName, After(clusterName, Synced(s), events), e)
    requires var c := After(clusterName, Synced(s), events);
             name !in c.live.apps && name in Next(clusterName, c, e).live.apps
    ensures exists k, hr :: AppName(clusterName, k, hr) == name &&
                            LetThrough(clusterName, States(clusterName, Synced(s), events), k, hr)
  {
    var past, c := States(clusterName, Synced(s), events), After(clusterName, Synced(s), events);
    RunIsPast(clusterName, s, events);
    CreatedByWriting(clusterName, c, e, name);
    var k := e.e.k;
    assert StagePast(clusterName, past, k, c.live.StageOf(k));
    hide NextLive, AppName, WasReady, After, States, Next;
    assert LetThrough(clusterName, past, k, c.live.StageOf(k).hr);
  }
}
