/** Dependency order over whole runs of the reconcile protocol
    (pkg/controller/helmrelease_controller.go:386-400, 494-526). */
module DependencyOrder {
  import opened Naming
  import opened Protocol

  // ---------- created only after its dependencies were seen ready ----------

  /** The Application was synced, or its last operation had succeeded, and its health was Healthy or
      Progressing. */
  ghost predicate ReadyAt(clusterName: string, s: State, events: seq<Event>, m: nat, name: string)
    requires ValidRun(clusterName, s, events) && m <= |events|
  {
    var apps := At(clusterName, s, events, m).apps;
    name in apps && (apps[name].synced || apps[name].succeeded) &&
    (apps[name].health == Healthy || apps[name].health == Progressing)
  }

  /** Ready at some moment strictly between `m0` and `n`. */
  ghost predicate SeenReady(clusterName: string, s: State, events: seq<Event>, m0: nat, n: nat, name: string)
    requires ValidRun(clusterName, s, events) && n <= |events|
  {
    exists m :: m0 < m < n && ReadyAt(clusterName, s, events, m, name)
  }

  /** Before moment `n`, the copy `hr` of release `k` was read, and since then the Application of
      each of its first `count` dependencies was ready at some moment. */
  ghost predicate Observed(clusterName: string, s: State, events: seq<Event>, n: nat, k: Key, hr: Release, count: nat)
    requires ValidRun(clusterName, s, events) && n <= |events|
  {
    count <= |hr.dependsOn| &&
    exists m0: nat :: m0 < n && ObservedSince(clusterName, s, events, m0, n, k, hr, count)
  }

  ghost predicate ObservedSince(clusterName: string, s: State, events: seq<Event>, m0: nat, n: nat,
                                k: Key, hr: Release, count: nat)
    requires ValidRun(clusterName, s, events) && m0 < n <= |events| && count <= |hr.dependsOn|
  {
    k in At(clusterName, s, events, m0).releases && At(clusterName, s, events, m0).releases[k] == hr &&
    forall j :: 0 <= j < count ==>
      SeenReady(clusterName, s, events, m0, n, DependencyName(hr.dependsOn[j], clusterName))
  }

  lemma SeenLater(clusterName: string, s: State, events: seq<Event>, m0: nat, n: nat)
    requires ValidRun(clusterName, s, events) && n < |events|
    ensures forall name :: SeenReady(clusterName, s, events, m0, n, name) ==>
                           SeenReady(clusterName, s, events, m0, n + 1, name)
  {
    forall name | SeenReady(clusterName, s, events, m0, n, name)
      ensures SeenReady(clusterName, s, events, m0, n + 1, name)
    {
      var m :| m0 < m < n && ReadyAt(clusterName, s, events, m, name);
      assert m0 < m < n + 1 && ReadyAt(clusterName, s, events, m, name);
    }
  }

  lemma ObservedLater(clusterName: string, s: State, events: seq<Event>, n: nat, k: Key, hr: Release, count: nat)
    requires ValidRun(clusterName, s, events) && n < |events|
    requires Observed(clusterName, s, events, n, k, hr, count)
    ensures Observed(clusterName, s, events, n + 1, k, hr, count)
  {
    var m0: nat :| m0 < n && ObservedSince(clusterName, s, events, m0, n, k, hr, count);
    SeenLater(clusterName, s, events, m0, n);
    assert ObservedSince(clusterName, s, events, m0, n + 1, k, hr, count);
  }

  lemma ObservedOneMore(clusterName: string, s: State, events: seq<Event>, n: nat, k: Key, hr: Release, count: nat)
    requires ValidRun(clusterName, s, events) && n < |events|
    requires Observed(clusterName, s, events, n, k, hr, count) && count < |hr.dependsOn|
    requires ReadyAt(clusterName, s, events, n, DependencyName(hr.dependsOn[count], clusterName))
    ensures Observed(clusterName, s, events, n + 1, k, hr, count + 1)
  {
    var m0: nat :| m0 < n && ObservedSince(clusterName, s, events, m0, n, k, hr, count);
    SeenLater(clusterName, s, events, m0, n);
    assert SeenReady(clusterName, s, events, m0, n + 1, DependencyName(hr.dependsOn[count], clusterName));
    assert ObservedSince(clusterName, s, events, m0, n + 1, k, hr, count + 1);
  }

  /** What the stage of release `k` says about the past. */
  ghost predicate StageObserved(clusterName: string, s: State, events: seq<Event>, n: nat, k: Key)
    requires ValidRun(clusterName, s, events) && n <= |events|
  {
    match At(clusterName, s, events, n).StageOf(k)
    case Fetched(hr) => Observed(clusterName, s, events, n, k, hr, 0)
    case Dependencies(hr, next) => Observed(clusterName, s, events, n, k, hr, next)
    case GetApp(hr) => Observed(clusterName, s, events, n, k, hr, |hr.dependsOn|)
    case Sync(hr, _) => Observed(clusterName, s, events, n, k, hr, |hr.dependsOn|)
    case Write(hr, _) => Observed(clusterName, s, events, n, k, hr, |hr.dependsOn|)
    case _ => true
  }

  lemma SameStageObserved(clusterName: string, s: State, events: seq<Event>, n: nat, k: Key)
    requires ValidRun(clusterName, s, events) && n < |events|
    requires StageObserved(clusterName, s, events, n, k)
    requires var before := At(clusterName, s, events, n).StageOf(k);
             var after := At(clusterName, s, events, n + 1).StageOf(k);
             after == before || after.Idle?
    ensures StageObserved(clusterName, s, events, n + 1, k)
  {
    hide At;
    match At(clusterName, s, events, n).StageOf(k)
    case Fetched(hr) => ObservedLater(clusterName, s, events, n, k, hr, 0);
    case Dependencies(hr, next) => ObservedLater(clusterName, s, events, n, k, hr, next);
    case GetApp(hr) => ObservedLater(clusterName, s, events, n, k, hr, |hr.dependsOn|);
    case Sync(hr, _) => ObservedLater(clusterName, s, events, n, k, hr, |hr.dependsOn|);
    case Write(hr, _) => ObservedLater(clusterName, s, events, n, k, hr, |hr.dependsOn|);
    case _ =>
  }

  /** Where a reconcile may go from the stages up to its write. */
  ghost predicate MayGo(clusterName: string, s: State, from: Stage, to: Stage) {
    match from
    case Fetched(hr) => !to.GetApp? && !to.Sync? && !to.Write? && (to.Dependencies? ==> to == Dependencies(hr, 0))
    case Dependencies(hr, next) =>
      if next >= |hr.dependsOn| then to == GetApp(hr)
      else
        var name := DependencyName(hr.dependsOn[next], clusterName);
        to.Idle? || (to == Dependencies(hr, next + 1) && name in s.apps && Ready(s.apps[name]))
    case GetApp(hr) => to.Idle? || (to.Sync? && to.hr == hr)
    case Sync(hr, _) => to.Idle? || (to.Write? && to.hr == hr)
    case _ => !to.Fetched? && !to.Dependencies? && !to.GetApp? && !to.Sync? && !to.Write?
  }

  lemma AdvanceGoes(clusterName: string, s: State, k: Key, ok: bool, shipped: set<string>)
    ensures MayGo(clusterName, s, s.StageOf(k), Advance(clusterName, s, k, ok, shipped).StageOf(k))
  {
    hide AppName, DependencyName, Ready, Ref, NewApp, Store, MarkAppDeleted;
  }

  lemma AdvanceObserved(clusterName: string, s: State, events: seq<Event>, n: nat, k: Key)
    requires ValidRun(clusterName, s, events) && n < |events|
    requires events[n].Continue? && events[n].k == k
    requires StageObserved(clusterName, s, events, n, k)
    ensures StageObserved(clusterName, s, events, n + 1, k)
  {
    AtStep(clusterName, s, events, n);
    var before, after := At(clusterName, s, events, n), At(clusterName, s, events, n + 1);
    AdvanceGoes(clusterName, before, k, events[n].ok, events[n].shipped);
    hide At, Advance, Observed, DependencyName;
    match before.StageOf(k)
    case Fetched(hr) => ObservedLater(clusterName, s, events, n, k, hr, 0);
    case Dependencies(hr, next) =>
      if after.StageOf(k).Dependencies? {
        ObservedOneMore(clusterName, s, events, n, k, hr, next);
      } else {
        ObservedLater(clusterName, s, events, n, k, hr, next);
      }
    case GetApp(hr) => ObservedLater(clusterName, s, events, n, k, hr, |hr.dependsOn|);
    case Sync(hr, _) => ObservedLater(clusterName, s, events, n, k, hr, |hr.dependsOn|);
    case _ =>
  }

  lemma StartObserved(clusterName: string, s: State, events: seq<Event>, n: nat, k: Key)
    requires ValidRun(clusterName, s, events) && n < |events|
    requires events[n].Start? && events[n].k == k
    requires StageObserved(clusterName, s, events, n, k)
    ensures StageObserved(clusterName, s, events, n + 1, k)
  {
    AtStep(clusterName, s, events, n);
    var before := At(clusterName, s, events, n);
    if events[n].ok && k in before.releases {
      assert ObservedSince(clusterName, s, events, n, n + 1, k, before.releases[k], 0);
    } else {
      SameStageObserved(clusterName, s, events, n, k);
    }
  }

  /** Only its own reconcile moves a release's stage, except back to `Idle`. */
  lemma OtherStage(clusterName: string, s: State, e: Event, k: Key)
    requires Enabled(clusterName, s, e) && !((e.Start? || e.Continue?) && e.k == k)
    ensures var after := Apply(clusterName, s, e).StageOf(k);
            after == s.StageOf(k) || after.Idle?
  {
    if e.Continue? && e.k != k { AdvanceOthers(clusterName, s, e.k, e.ok, e.shipped, k); }
    hide Advance, ApplicationName;
  }

  lemma {:induction false} StagesObserved(clusterName: string, s: State, events: seq<Event>, n: nat, k: Key)
    requires ValidRun(clusterName, s, events) && n <= |events| && s.stages == map[]
    ensures StageObserved(clusterName, s, events, n, k)
    decreases n
  {
    if n == 0 {
      assert events[..0] == [];
    } else {
      StagesObserved(clusterName, s, events, n - 1, k);
      AtStep(clusterName, s, events, n - 1);
      var before, e := At(clusterName, s, events, n - 1), events[n - 1];
      hide At, StageObserved;
      if e.Start? && e.k == k {
        StartObserved(clusterName, s, events, n - 1, k);
      } else if e.Continue? && e.k == k {
        AdvanceObserved(clusterName, s, events, n - 1, k);
      } else {
        OtherStage(clusterName, before, e, k);
        SameStageObserved(clusterName, s, events, n - 1, k);
      }
    }
  }

  /** Only the write of a reconcile that found no Application creates one. */
  lemma CreatedByWrite(clusterName: string, s: State, e: Event, name: string)
    requires Enabled(clusterName, s, e) && name !in s.apps && name in Apply(clusterName, s, e).apps
    ensures e.Continue? && s.StageOf(e.k).Write? && AppName(clusterName, e.k, s.StageOf(e.k).hr) == name
  {
    if e.Continue? { AdvanceWrites(clusterName, s, e.k, e.ok, e.shipped); }
    hide Advance, ApplicationName;
  }

  /** In every run, the step that creates an Application follows a reading of its release after
      which the Application of every dependency was, at some moment, installed and healthy or
      progressing. */
  lemma CreatedAfterDependencies(clusterName: string, s: State, events: seq<Event>, n: nat, name: string)
    requires ValidRun(clusterName, s, events) && n < |events| && s.stages == map[]
    requires name !in At(clusterName, s, events, n).apps && name in At(clusterName, s, events, n + 1).apps
    ensures exists k, hr :: AppName(clusterName, k, hr) == name &&
                            Observed(clusterName, s, events, n, k, hr, |hr.dependsOn|)
  {
    AtStep(clusterName, s, events, n);
    var before := At(clusterName, s, events, n);
    CreatedByWrite(clusterName, before, events[n], name);
    StagesObserved(clusterName, s, events, n, events[n].k);
    assert Observed(clusterName, s, events, n, events[n].k, before.StageOf(events[n].k).hr,
                    |before.StageOf(events[n].k).hr.dependsOn|);
  }

  // ---------- written only for releases that ask for it ----------

  /** The step creates an Application, patches one, or records CRDs for a release. */
  ghost predicate Writes(clusterName: string, s: State, e: Event)
    requires Enabled(clusterName, s, e)
  {
    var t := Apply(clusterName, s, e);
    (exists name :: name in t.apps && (name !in s.apps || t.apps[name].owner != s.apps[name].owner ||
                                       (t.apps[name].cascade && !s.apps[name].cascade))) ||
    (exists name :: Wrote(clusterName, s, e, name)) ||
    (exists ref :: ref in t.registry && (ref !in s.registry || t.registry[ref] != s.registry[ref]))
  }

  lemma AdvanceTouches(clusterName: string, s: State, k: Key, ok: bool, shipped: set<string>)
    requires !s.StageOf(k).Write? && !s.StageOf(k).Sync?
    ensures var t := Advance(clusterName, s, k, ok, shipped);
            (forall name :: name in t.apps ==>
              name in s.apps && t.apps[name].owner == s.apps[name].owner &&
              t.apps[name].cascade == s.apps[name].cascade) &&
            (forall ref :: ref in t.registry ==> ref in s.registry && t.registry[ref] == s.registry[ref])
  {
    if s.StageOf(k).DeleteCall? {
      DeleteCallTouches(clusterName, s, k, ok, shipped);
      hide Advance;
    } else {
      hide AppName, DependencyName, Ready, Ref, NewApp, Store, MarkAppDeleted;
    }
  }

  lemma DeleteCallTouches(clusterName: string, s: State, k: Key, ok: bool, shipped: set<string>)
    requires s.StageOf(k).DeleteCall?
    ensures var t := Advance(clusterName, s, k, ok, shipped);
            t.registry == s.registry &&
            forall name :: name in t.apps ==>
              name in s.apps && t.apps[name].owner == s.apps[name].owner &&
              t.apps[name].cascade == s.apps[name].cascade
  {
    hide AppName, DependencyName, Ready, Ref, NewApp, Store;
  }

  lemma WritesInStage(clusterName: string, s: State, e: Event)
    requires Enabled(clusterName, s, e) && Writes(clusterName, s, e)
    ensures e.Continue? && (s.StageOf(e.k).Write? || s.StageOf(e.k).Sync?)
  {
    if e.Continue? && !s.StageOf(e.k).Write? && !s.StageOf(e.k).Sync? {
      AdvanceTouches(clusterName, s, e.k, e.ok, e.shipped);
    }
    hide Advance, AppName, Store;
  }

  lemma {:induction false} AskedAt(clusterName: string, s: State, events: seq<Event>, n: nat, k: Key)
    requires ValidRun(clusterName, s, events) && n <= |events| && s.stages == map[]
    ensures Asked(At(clusterName, s, events, n).StageOf(k))
    decreases n
  {
    if n == 0 {
      assert events[..0] == [];
    } else {
      AskedAt(clusterName, s, events, n - 1, k);
      AtStep(clusterName, s, events, n - 1);
      var before, e := At(clusterName, s, events, n - 1), events[n - 1];
      hide At, Apply, Advance, Asked;
      StepAsked(clusterName, before, e, k);
    }
  }

  lemma StepAsked(clusterName: string, s: State, e: Event, k: Key)
    requires Enabled(clusterName, s, e) && Asked(s.StageOf(k))
    ensures Asked(Apply(clusterName, s, e).StageOf(k))
  {
    if e.Continue? && e.k == k {
      AdvanceAsked(clusterName, s, k, e.ok, e.shipped);
    } else if !(e.Start? && e.k == k) {
      OtherStage(clusterName, s, e, k);
    }
    hide Advance, AppName;
  }

  /** In every run, a step that creates or patches an Application, or records CRDs, follows a reading
      of its release in which it had the controller's finalizer, was not being deleted, was not
      suspended and had a chart, and after which each dependency was seen ready. */
  lemma WrittenAfterReading(clusterName: string, s: State, events: seq<Event>, n: nat)
    requires ValidRun(clusterName, s, events) && n < |events| && s.stages == map[]
    requires Enabled(clusterName, At(clusterName, s, events, n), events[n])
    requires Writes(clusterName, At(clusterName, s, events, n), events[n])
    ensures events[n].Continue? &&
            exists hr: Release ::
              hr.finalizer && !hr.deleting && !hr.suspend && hr.chart.Some? &&
              Observed(clusterName, s, events, n, events[n].k, hr, |hr.dependsOn|)
  {
    AtStep(clusterName, s, events, n);
    var before := At(clusterName, s, events, n);
    WritesInStage(clusterName, before, events[n]);
    var k := events[n].k;
    StagesObserved(clusterName, s, events, n, k);
    AskedAt(clusterName, s, events, n, k);
    if before.StageOf(k).Sync? { SyncNeedsChart(clusterName, before, events[n]); }
    hide At, Advance, Observed, Writes;
    assert Observed(clusterName, s, events, n, k, before.StageOf(k).hr, |before.StageOf(k).hr.dependsOn|);
  }

  lemma SyncNeedsChart(clusterName: string, s: State, e: Event)
    requires Enabled(clusterName, s, e) && e.Continue? && s.StageOf(e.k).Sync? && Writes(clusterName, s, e)
    ensures s.StageOf(e.k).hr.chart.Some?
  {
    hide AppName;
  }

  // ---------- the dependency's own Application ----------

  /** Whose Application the gate looks at: the dependency's own exactly when it exists, and has no
      cluster name, is named `ace`, or has another chart. */
  lemma GateSeesOwn(clusterName: string, s: State, j: Key)
    requires Inv(clusterName, s) && DependencyName(j.name, clusterName) in s.apps
    ensures s.apps[DependencyName(j.name, clusterName)].owner == j <==>
            j in s.releases && Agrees(j.name, s.releases[j].chart, clusterName)
  {
    var name := DependencyName(j.name, clusterName);
    assert Owned(clusterName, s, name);
    if j in s.releases { NamingAgreement(j.name, s.releases[j].chart, clusterName); }
  }

  /** The release exists and the gate rebuilds its Application's name rightly, all the time
      strictly between `m0` and `n`. */
  ghost predicate AgreesBetween(clusterName: string, s: State, events: seq<Event>, m0: nat, n: nat, j: Key)
    requires ValidRun(clusterName, s, events) && n <= |events|
  {
    forall m :: m0 < m < n ==> AgreesAt(clusterName, At(clusterName, s, events, m), j)
  }

  predicate AgreesAt(clusterName: string, s: State, j: Key) {
    j in s.releases && Agrees(j.name, s.releases[j].chart, clusterName)
  }

  /** The release exists, and its own Application, which names it as its owner, is synced or had its
      last operation succeed, and is Healthy or Progressing. */
  predicate OwnReady(clusterName: string, s: State, j: Key) {
    j in s.releases &&
    var name := AppName(clusterName, j, s.releases[j]);
    name in s.apps && s.apps[name].owner == j && (s.apps[name].synced || s.apps[name].succeeded) &&
    (s.apps[name].health == Healthy || s.apps[name].health == Progressing)
  }

  ghost predicate OwnSeenReady(clusterName: string, s: State, events: seq<Event>, m0: nat, n: nat, j: Key)
    requires ValidRun(clusterName, s, events) && n <= |events|
  {
    exists m :: m0 < m < n && OwnReady(clusterName, At(clusterName, s, events, m), j)
  }

  lemma SeenIsOwn(clusterName: string, s: State, events: seq<Event>, m0: nat, n: nat, j: Key)
    requires Init(clusterName, s) && ValidRun(clusterName, s, events) && n <= |events|
    requires SeenReady(clusterName, s, events, m0, n, DependencyName(j.name, clusterName))
    requires AgreesBetween(clusterName, s, events, m0, n, j)
    ensures OwnSeenReady(clusterName, s, events, m0, n, j)
  {
    var m :| m0 < m < n && ReadyAt(clusterName, s, events, m, DependencyName(j.name, clusterName));
    var t := At(clusterName, s, events, m);
    AtInv(clusterName, s, events, m);
    hide At, Init, Inv;
    assert AgreesAt(clusterName, t, j);
    GateSeesOwn(clusterName, t, j);
    NamingAgreement(j.name, t.releases[j].chart, clusterName);
    assert OwnReady(clusterName, t, j);
  }

  /** The copy `hr` of release `k` was read at `m0`, and between then and `n` each dependency that
      existed under an agreeing name had its own Application ready at some moment. */
  ghost predicate OwnObserved(clusterName: string, s: State, events: seq<Event>, m0: nat, n: nat, k: Key, hr: Release)
    requires ValidRun(clusterName, s, events) && m0 < n <= |events|
  {
    k in At(clusterName, s, events, m0).releases && At(clusterName, s, events, m0).releases[k] == hr &&
    forall j: Key :: j.name in hr.dependsOn && AgreesBetween(clusterName, s, events, m0, n, j) ==>
      OwnSeenReady(clusterName, s, events, m0, n, j)
  }

  /** Dependency order, for the dependencies' own Applications: in every run, the step that creates
      an Application follows a reading of its release after which each dependency that exists, and
      whose name the gate rebuilds rightly, had its own Application installed and healthy or
      progressing at some moment. */
  lemma CreatedAfterOwnDependencies(clusterName: string, s: State, events: seq<Event>, n: nat, name: string)
    requires Init(clusterName, s) && ValidRun(clusterName, s, events) && n < |events|
    requires name !in At(clusterName, s, events, n).apps && name in At(clusterName, s, events, n + 1).apps
    ensures exists k, hr, m0: nat ::
              AppName(clusterName, k, hr) == name && m0 < n && OwnObserved(clusterName, s, events, m0, n, k, hr)
  {
    CreatedAfterDependencies(clusterName, s, events, n, name);
    hide AppName, Observed, OwnObserved, Init, At;
    var k, hr :| AppName(clusterName, k, hr) == name && Observed(clusterName, s, events, n, k, hr, |hr.dependsOn|);
    var m0 := ObservedOwn(clusterName, s, events, n, k, hr);
  }

  lemma ObservedOwn(clusterName: string, s: State, events: seq<Event>, n: nat, k: Key, hr: Release) returns (m0: nat)
    requires Init(clusterName, s) && ValidRun(clusterName, s, events) && n <= |events|
    requires Observed(clusterName, s, events, n, k, hr, |hr.dependsOn|)
    ensures m0 < n && OwnObserved(clusterName, s, events, m0, n, k, hr)
  {
    hide At, Init, AgreesBetween, OwnSeenReady, SeenReady, DependencyName;
    m0 :| m0 < n && ObservedSince(clusterName, s, events, m0, n, k, hr, |hr.dependsOn|);
    forall j: Key | j.name in hr.dependsOn && AgreesBetween(clusterName, s, events, m0, n, j)
      ensures OwnSeenReady(clusterName, s, events, m0, n, j)
    {
      var i :| 0 <= i < |hr.dependsOn| && hr.dependsOn[i] == j.name;
      SeenIsOwn(clusterName, s, events, m0, n, j);
    }
  }

  // ---------- what can never be created ----------

  ghost predicate DependsInto(clusterName: string, r: Release, names: set<string>) {
    exists d :: d in r.dependsOn && DependencyName(d, clusterName) in names
  }

  /** Every release whose Application name is in the set depends on a name in the set. */
  ghost predicate BlockedAt(clusterName: string, s: State, names: set<string>) {
    forall k :: k in s.releases && AppName(clusterName, k, s.releases[k]) in names ==>
      DependsInto(clusterName, s.releases[k], names)
  }

  /** At every moment of the run. */
  ghost predicate AlwaysBlocked(clusterName: string, s: State, events: seq<Event>, names: set<string>)
    requires ValidRun(clusterName, s, events)
  {
    forall m :: 0 <= m <= |events| ==> BlockedAt(clusterName, At(clusterName, s, events, m), names)
  }

  ghost predicate StageBlocked(clusterName: string, k: Key, stage: Stage, names: set<string>) {
    !stage.Idle? ==>
      (AppName(clusterName, k, stage.hr) in names ==> DependsInto(clusterName, stage.hr, names)) &&
      (stage.Dependencies? ==>
        forall j :: 0 <= j < stage.next && j < |stage.hr.dependsOn| ==>
          DependencyName(stage.hr.dependsOn[j], clusterName) !in names) &&
      (stage.GetApp? || stage.Sync? || stage.Write? ==> AppName(clusterName, k, stage.hr) !in names)
  }

  ghost predicate NoneCreated(clusterName: string, s: State, names: set<string>) {
    s.apps.Keys !! names && forall k :: StageBlocked(clusterName, k, s.StageOf(k), names)
  }

  lemma AdvanceBlocked(clusterName: string, s: State, k: Key, ok: bool, shipped: set<string>, names: set<string>)
    requires NoneCreated(clusterName, s, names)
    ensures var t := Advance(clusterName, s, k, ok, shipped);
            t.apps.Keys !! names && StageBlocked(clusterName, k, t.StageOf(k), names)
  {
    hide AppName, DependencyName, Ready, NewApp, Store, MarkAppDeleted;
    assert StageBlocked(clusterName, k, s.StageOf(k), names);
    match s.StageOf(k)
    case Dependencies(hr, next) =>
      assert forall d :: d in hr.dependsOn ==> exists j :: 0 <= j < |hr.dependsOn| && hr.dependsOn[j] == d;
    case _ =>
  }

  lemma StepBlocked(clusterName: string, s: State, e: Event, names: set<string>)
    requires Enabled(clusterName, s, e) && BlockedAt(clusterName, s, names) && NoneCreated(clusterName, s, names)
    ensures NoneCreated(clusterName, Apply(clusterName, s, e), names)
  {
    var t := Apply(clusterName, s, e);
    forall name | name in t.apps ensures name !in names {
      if name !in s.apps {
        CreatedByWrite(clusterName, s, e, name);
        AdvanceBlocked(clusterName, s, e.k, e.ok, e.shipped, names);
      }
    }
    forall k ensures StageBlocked(clusterName, k, t.StageOf(k), names) {
      assert StageBlocked(clusterName, k, s.StageOf(k), names);
      if e.Continue? && e.k == k {
        AdvanceBlocked(clusterName, s, k, e.ok, e.shipped, names);
      } else if !(e.Start? && e.k == k) {
        OtherStage(clusterName, s, e, k);
      }
    }
  }

  lemma {:induction false} NoneCreatedAt(clusterName: string, s: State, events: seq<Event>, names: set<string>, n: nat)
    requires ValidRun(clusterName, s, events) && n <= |events| && AlwaysBlocked(clusterName, s, events, names)
    requires NoneCreated(clusterName, s, names)
    ensures NoneCreated(clusterName, At(clusterName, s, events, n), names)
    decreases n
  {
    if n == 0 {
      assert events[..0] == [];
    } else {
      NoneCreatedAt(clusterName, s, events, names, n - 1);
      AtStep(clusterName, s, events, n - 1);
      hide At, NoneCreated, BlockedAt;
      StepBlocked(clusterName, At(clusterName, s, events, n - 1), events[n - 1], names);
    }
  }

  /** A set of names each of whose releases depends on a name of the set never gets an
      Application, in any run. A release together with a dependency name that no release bears is
      such a set. */
  lemma BlockedNeverCreated(clusterName: string, s: State, events: seq<Event>, names: set<string>, n: nat)
    requires ValidRun(clusterName, s, events) && n <= |events| && AlwaysBlocked(clusterName, s, events, names)
    requires s.stages == map[] && s.apps.Keys !! names
    ensures At(clusterName, s, events, n).apps.Keys !! names
  {
    NoneCreatedAt(clusterName, s, events, names, n);
  }

  // ---------- cycles ----------

  /** Each release of the list exists, depends on the next one, the last on the first, and has the
      Application name that the gate rebuilds. */
  ghost predicate OnCycle(clusterName: string, s: State, ks: seq<Key>) {
    ks != [] &&
    forall i :: 0 <= i < |ks| ==> AgreesAt(clusterName, s, ks[i]) && Next(ks, i).name in s.releases[ks[i]].dependsOn
  }

  function Next(ks: seq<Key>, i: nat): Key
    requires i < |ks|
  {
    if i + 1 < |ks| then ks[i + 1] else ks[0]
  }

  ghost function CycleNames(clusterName: string, ks: seq<Key>): set<string> {
    set k | k in ks :: DependencyName(k.name, clusterName)
  }

  ghost predicate BearNames(clusterName: string, s: State, ks: seq<Key>) {
    forall k :: k in ks ==> k in s.releases && AppName(clusterName, k, s.releases[k]) in CycleNames(clusterName, ks)
  }

  /** Since names are distinct, only the cycle's own releases bear its names, and each of them
      depends on another of its names. */
  lemma CycleBlocked(clusterName: string, s: State, ks: seq<Key>)
    requires DistinctNames(clusterName, s) && OnCycle(clusterName, s, ks)
    ensures BlockedAt(clusterName, s, CycleNames(clusterName, ks))
    ensures BearNames(clusterName, s, ks)
  {
    var names := CycleNames(clusterName, ks);
    forall k | k in ks
      ensures k in s.releases && AppName(clusterName, k, s.releases[k]) == DependencyName(k.name, clusterName)
    {
      var i :| 0 <= i < |ks| && ks[i] == k;
      NamingAgreement(k.name, s.releases[k].chart, clusterName);
    }
    forall k | k in s.releases && AppName(clusterName, k, s.releases[k]) in names
      ensures DependsInto(clusterName, s.releases[k], names)
    {
      var j :| j in ks && DependencyName(j.name, clusterName) == AppName(clusterName, k, s.releases[k]);
      assert j == k;
      var i :| 0 <= i < |ks| && ks[i] == k;
      assert Next(ks, i) in ks;
      assert DependencyName(Next(ks, i).name, clusterName) in names;
    }
  }

  ghost predicate NoApps(clusterName: string, s: State, ks: seq<Key>) {
    forall k :: k in ks && k in s.releases ==> AppName(clusterName, k, s.releases[k]) !in s.apps
  }

  /** No release on a dependency cycle, a self-loop included, gets an Application in any run, as long
      as the cycle stands and the gate rebuilds its releases' names rightly. */
  lemma CycleNeverCreated(clusterName: string, s: State, events: seq<Event>, ks: seq<Key>, n: nat)
    requires Init(clusterName, s) && ValidRun(clusterName, s, events) && n <= |events|
    requires forall m :: 0 <= m <= |events| ==> OnCycle(clusterName, At(clusterName, s, events, m), ks)
    requires NoApps(clusterName, s, ks)
    ensures NoApps(clusterName, At(clusterName, s, events, n), ks)
  {
    var names := CycleNames(clusterName, ks);
    assert events[..0] == [] && At(clusterName, s, events, 0) == s;
    forall m | 0 <= m <= |events|
      ensures BlockedAt(clusterName, At(clusterName, s, events, m), names)
      ensures BearNames(clusterName, At(clusterName, s, events, m), ks)
    {
      AtInv(clusterName, s, events, m);
      CycleBlocked(clusterName, At(clusterName, s, events, m), ks);
    }
    CycleNamesFree(clusterName, s, ks);
    hide At, OnCycle, BlockedAt;
    BlockedNeverCreated(clusterName, s, events, names, n);
  }

  lemma CycleNamesFree(clusterName: string, s: State, ks: seq<Key>)
    requires OnCycle(clusterName, s, ks) && NoApps(clusterName, s, ks)
    ensures s.apps.Keys !! CycleNames(clusterName, ks)
  {
    forall k | k in ks ensures DependencyName(k.name, clusterName) !in s.apps {
      var i :| 0 <= i < |ks| && ks[i] == k;
      NamingAgreement(k.name, s.releases[k].chart, clusterName);
    }
  }

  // ---------- dependencies that stay as they are ----------

  /** The event neither deletes the release nor edits its dependencies or its chart. */
  predicate Keeps(e: Event, k: Key, r: Release) {
    !(e.Delete? && e.k == k) &&
    (e.Edit? && e.k == k ==> e.release.dependsOn == r.dependsOn && e.release.chart == r.chart)
  }

  ghost predicate SameGate(s: State, k: Key, r: Release) {
    k in s.releases && !s.releases[k].deleting &&
    s.releases[k].dependsOn == r.dependsOn && s.releases[k].chart == r.chart
  }

  lemma StoreKeepsGate(s: State, k: Key, q: Release, j: Key, r: Release)
    requires SameGate(s, j, r)
    requires j == k ==> !q.deleting && q.dependsOn == r.dependsOn && q.chart == r.chart
    ensures SameGate(Store(s, k, q), j, r)
  {
  }

  lemma AdvanceKeepsGate(clusterName: string, s: State, k: Key, ok: bool, shipped: set<string>, j: Key, r: Release)
    requires Inv(clusterName, s) && SameGate(s, j, r)
    ensures SameGate(Advance(clusterName, s, k, ok, shipped), j, r)
  {
    var stage := s.StageOf(k);
    assert StageSound(clusterName, s, k);
    hide Inv, AppName, DependencyName, Ready, Ref, NewApp, MarkAppDeleted, Store;
    if !WritesRelease(stage) {
      AdvanceSameReleases(clusterName, s, k, ok, shipped);
      hide Advance;
    } else if k in s.releases {
      var q := if stage.AddFinalizer? then stage.hr.(finalizer := true)
               else if stage.PatchStatus? then s.releases[k] else stage.hr.(finalizer := false);
      if stage.PatchStatus? || s.releases[k].version == stage.hr.version { StoreKeepsGate(s, k, q, j, r); }
    }
  }

  lemma StepKeepsGate(clusterName: string, s: State, e: Event, k: Key, r: Release)
    requires Inv(clusterName, s) && Enabled(clusterName, s, e) && SameGate(s, k, r) && Keeps(e, k, r)
    ensures SameGate(Apply(clusterName, s, e), k, r)
  {
    hide Inv, AppName;
    match e
    case Create(j, q) => StoreKeepsGate(s, j, q, k, r);
    case Edit(j, q) => StoreKeepsGate(s, j, q, k, r);
    case Delete(j) => StoreKeepsGate(s, j, s.releases[j].(deleting := true), k, r);
    case Continue(j, ok, shipped) => AdvanceKeepsGate(clusterName, s, j, ok, shipped, k, r); hide Advance;
    case _ =>
  }

  lemma {:induction false} GateKept(clusterName: string, s: State, events: seq<Event>, n: nat, k: Key, r: Release)
    requires Init(clusterName, s) && ValidRun(clusterName, s, events) && n <= |events| && SameGate(s, k, r)
    requires forall e :: e in events ==> Keeps(e, k, r)
    ensures SameGate(At(clusterName, s, events, n), k, r)
    decreases n
  {
    if n == 0 {
      assert events[..0] == [];
    } else {
      GateKept(clusterName, s, events, n - 1, k, r);
      AtStep(clusterName, s, events, n - 1);
      AtInv(clusterName, s, events, n - 1);
      hide At, SameGate, Keeps, Init;
      assert events[n - 1] in events;
      StepKeepsGate(clusterName, At(clusterName, s, events, n - 1), events[n - 1], k, r);
    }
  }

  /** So when nobody deletes the releases of a cycle or edits their dependencies or charts, none of
      them ever gets an Application. */
  lemma FixedCycleNeverCreated(clusterName: string, s: State, events: seq<Event>, ks: seq<Key>, n: nat)
    requires Init(clusterName, s) && ValidRun(clusterName, s, events) && n <= |events|
    requires OnCycle(clusterName, s, ks) && NoApps(clusterName, s, ks)
    requires forall k :: k in ks ==> k in s.releases && !s.releases[k].deleting
    requires forall e, k :: e in events && k in ks ==> Keeps(e, k, s.releases[k])
    ensures NoApps(clusterName, At(clusterName, s, events, n), ks)
  {
    forall m | 0 <= m <= |events| ensures OnCycle(clusterName, At(clusterName, s, events, m), ks) {
      forall i | 0 <= i < |ks|
        ensures AgreesAt(clusterName, At(clusterName, s, events, m), ks[i])
        ensures Next(ks, i).name in At(clusterName, s, events, m).releases[ks[i]].dependsOn
      {
        GateKept(clusterName, s, events, m, ks[i], s.releases[ks[i]]);
      }
    }
    hide At, OnCycle, NoApps, Init;
    CycleNeverCreated(clusterName, s, events, ks, n);
  }
}
