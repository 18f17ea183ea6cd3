/** The protocol with reads through informer caches, which lag behind the API server
    (pkg/cmds/run.go:222-224; pkg/controller/helmrelease_controller.go:349-467). */
module StaleReads {
  import opened Text
  import opened Naming
  import opened Protocol
  import opened StageLocal
  import DependencyOrder

  /** What is true, and what the caches hold of it. `staleApps` are the Applications that the
      controller has written since the cache last caught up with them, `staleReleases` the releases
      whose finalizer it has removed since then. */
  datatype Cached = Cached(
    live: State, apps: map<string, Application>, releases: map<Key, Release>,
    staleApps: set<string>, staleReleases: set<Key>)

  /** A cache catches up with one object, or the protocol makes a step. */
  datatype CacheEvent = SeeApp(name: string) | SeeRelease(k: Key) | Step(e: Event)

  predicate ReadsApps(stage: Stage) {
    stage.Dependencies? || stage.GetApp? || stage.DeleteGet? || stage.DeleteCheck?
  }

  predicate Allowed(clusterName: string, c: Cached, e: CacheEvent) {
    e.Step? ==> Enabled(clusterName, c.live, e.e)
  }

  /** A reconcile reads through the caches; everything else happens to what is true. */
  function NextLive(clusterName: string, c: Cached, e: Event): State
    requires Enabled(clusterName, c.live, e)
  {
    match e
    case Start(k, ok) =>
      if ok && k in c.releases then SetStage(c.live, k, Fetched(c.releases[k])) else c.live
    case Continue(k, ok, shipped) =>
      if ReadsApps(c.live.StageOf(k))
      then SetStage(c.live, k, Advance(clusterName, c.live.(apps := c.apps), k, ok, shipped).StageOf(k))
      else Advance(clusterName, c.live, k, ok, shipped)
    case _ => Apply(clusterName, c.live, e)
  }

  /** The copy is the release as it is now. */
  predicate Current(s: State, k: Key, hr: Release) {
    k in s.releases && s.releases[k].version == hr.version
  }

  /** The step removes the finalizer of its release. */
  predicate Finalizes(s: State, e: Event) {
    e.Continue? && e.ok && s.StageOf(e.k).RemoveFinalizer? && Current(s, e.k, s.StageOf(e.k).hr)
  }

  function Next(clusterName: string, c: Cached, e: CacheEvent): Cached
    requires Allowed(clusterName, c, e)
  {
    match e
    case SeeApp(name) =>
      c.(apps := if name in c.live.apps then c.apps[name := c.live.apps[name]] else c.apps - {name},
         staleApps := c.staleApps - {name})
    case SeeRelease(k) =>
      c.(releases := if k in c.live.releases then c.releases[k := c.live.releases[k]] else c.releases - {k},
         staleReleases := c.staleReleases - {k})
    case Step(p) =>
      c.(live := NextLive(clusterName, c, p),
         staleApps := if p.Continue? && c.live.StageOf(p.k).Write?
                      then c.staleApps + {AppName(clusterName, p.k, c.live.StageOf(p.k).hr)} else c.staleApps,
         staleReleases := if Finalizes(c.live, p) then c.staleReleases + {p.k} else c.staleReleases)
  }

  /** The deletion of a release that is as it was read looks for its Application in the cache and does
      not find it, although it exists. */
  predicate Misses(clusterName: string, c: Cached, e: CacheEvent) {
    e.Step? && e.e.Continue? && e.e.ok &&
    var stage := c.live.StageOf(e.e.k);
    (stage.DeleteGet? || stage.DeleteCheck?) && Current(c.live, e.e.k, stage.hr) &&
    var name := AppName(clusterName, e.e.k, stage.hr);
    name in c.live.apps && name !in c.apps
  }

  // ---------- copies of releases ----------

  /** The copy is of this moment or an earlier one. */
  predicate Earlier(s: State, k: Key, hr: Release) {
    hr.version <= s.clock &&
    (k in s.releases ==>
      hr.version <= s.releases[k].version && (hr.version == s.releases[k].version ==> hr == s.releases[k]))
  }

  /** The release exists, with its finalizer and the Application name that the copy tells. */
  predicate Bound(clusterName: string, s: State, k: Key, hr: Release) {
    k in s.releases && s.releases[k].finalizer &&
    AppName(clusterName, k, s.releases[k]) == AppName(clusterName, k, hr)
  }

  /** What every cached copy tells: only the copy of a release that was being deleted can be one
      whose finalizer is gone. */
  predicate CopyOk(clusterName: string, s: State, k: Key, hr: Release) {
    Earlier(s, k, hr) && (hr.finalizer && !hr.deleting ==> Bound(clusterName, s, k, hr))
  }

  predicate StageForm(stage: Stage) {
    match stage
    case Idle => true
    case Fetched(_) => true
    case AddFinalizer(hr) => !hr.deleting
    case Dependencies(hr, _) => !hr.deleting
    case GetApp(hr) => !hr.deleting
    case Sync(hr, _) => !hr.deleting
    case Write(hr, _) => !hr.deleting
    case PatchStatus(hr) => !hr.deleting
    case _ => stage.hr.deleting && stage.hr.finalizer
  }

  /** A reconcile works on a copy that is no newer than the cached one. */
  ghost predicate StageOk(c: Cached, k: Key) {
    var stage := c.live.StageOf(k);
    StageForm(stage) &&
    (!stage.Idle? ==>
      Earlier(c.live, k, stage.hr) && (k in c.releases ==> stage.hr.version <= c.releases[k].version))
  }

  /** A deletion that works on a copy that is not the release any more. Its update of the release will
      fail on the version. */
  predicate Stray(s: State, k: Key) {
    var stage := s.StageOf(k);
    !stage.Idle? && stage.hr.deleting && !Current(s, k, stage.hr)
  }

  /** The state without its stray deletions: a state of the protocol with current reads. */
  function Purged(s: State): State {
    s.(stages := map k | k in s.stages && !Stray(s, k) :: s.stages[k])
  }

  lemma PurgedStage(s: State, k: Key)
    ensures Purged(s).StageOf(k) == if Stray(s, k) then Idle else s.StageOf(k)
  {
  }

  ghost predicate CacheInv(clusterName: string, c: Cached) {
    Inv(clusterName, Purged(c.live)) && (forall k :: StageOk(c, k)) &&
    forall k :: k in c.releases ==> CopyOk(clusterName, c.live, k, c.releases[k])
  }

  // ---------- how copies age ----------

  /** The copy stays an earlier one, and once it is not current it never is again. */
  predicate Ages(s: State, t: State, k: Key, hr: Release) {
    Earlier(t, k, hr) && (Current(t, k, hr) ==> Current(s, k, hr))
  }

  lemma StoreAges(s: State, k: Key, r: Release, j: Key, hr: Release)
    requires Earlier(s, j, hr)
    ensures Ages(s, Store(s, k, r), j, hr)
  {
  }

  lemma SameAges(s: State, t: State, j: Key, hr: Release)
    requires Earlier(s, j, hr) && t.releases == s.releases && t.clock == s.clock
    ensures Ages(s, t, j, hr)
  {
  }

  /** Which release a step of a reconcile stores, if it stores one. */
  function StoredBy(s: State, k: Key): Release
    requires WritesRelease(s.StageOf(k)) && k in s.releases
  {
    match s.StageOf(k)
    case AddFinalizer(hr) => hr.(finalizer := true)
    case RemoveFinalizer(hr) => hr.(finalizer := false)
    case _ => s.releases[k]
  }

  predicate Stores(s: State, k: Key, ok: bool) {
    var stage := s.StageOf(k);
    ok && WritesRelease(stage) && k in s.releases && (stage.PatchStatus? || Current(s, k, stage.hr))
  }

  lemma AdvanceStores(clusterName: string, s: State, k: Key, ok: bool, shipped: set<string>)
    ensures var t := Advance(clusterName, s, k, ok, shipped);
            if Stores(s, k, ok) then
              var u := Store(s, k, StoredBy(s, k)); t.releases == u.releases && t.clock == u.clock
            else t.releases == s.releases && t.clock == s.clock
  {
    if WritesRelease(s.StageOf(k)) {
      hide AppName, DependencyName, Ready, Ref, NewApp, MarkAppDeleted, Store;
    } else {
      AdvanceSameReleases(clusterName, s, k, ok, shipped);
      hide Advance, Store;
    }
  }

  lemma AdvanceAges(clusterName: string, s: State, k: Key, ok: bool, shipped: set<string>, j: Key, hr: Release)
    requires Earlier(s, j, hr)
    ensures Ages(s, Advance(clusterName, s, k, ok, shipped), j, hr)
  {
    AdvanceStores(clusterName, s, k, ok, shipped);
    hide Advance, Store;
    if Stores(s, k, ok) {
      StoreAges(s, k, StoredBy(s, k), j, hr);
    }
  }

  lemma StepAges(clusterName: string, c: Cached, e: Event, j: Key, hr: Release)
    requires Enabled(clusterName, c.live, e) && Earlier(c.live, j, hr)
    ensures Ages(c.live, NextLive(clusterName, c, e), j, hr)
  {
    hide Advance, AppName, Store, Earlier, Current;
    var s, t := c.live, NextLive(clusterName, c, e);
    match e
    case Create(k, r) => StoreAges(s, k, r, j, hr);
    case Edit(k, r) => StoreAges(s, k, r, j, hr);
    case Delete(k) => StoreAges(s, k, s.releases[k].(deleting := true), j, hr);
    case Continue(k, ok, shipped) =>
      if ReadsApps(s.StageOf(k)) { SameAges(s, t, j, hr); } else { AdvanceAges(clusterName, s, k, ok, shipped, j, hr); }
    case _ => SameAges(s, t, j, hr);
  }

  lemma StoreBound(clusterName: string, s: State, k: Key, r: Release, j: Key, hr: Release)
    requires Bound(clusterName, s, j, hr)
    requires j == k ==> r.finalizer && AppName(clusterName, k, r) == AppName(clusterName, k, s.releases[k])
    ensures Bound(clusterName, Store(s, k, r), j, hr)
  {
    hide ApplicationName;
  }

  /** A release stays bound to its finalizer and its name until a reconcile removes the finalizer. */
  lemma StepBound(clusterName: string, c: Cached, e: Event, j: Key, hr: Release)
    requires Enabled(clusterName, c.live, e) && Bound(clusterName, c.live, j, hr)
    requires e.Continue? ==> StageOk(c, e.k)
    requires Finalizes(c.live, e) ==> e.k != j
    ensures Bound(clusterName, NextLive(clusterName, c, e), j, hr)
  {
    hide Advance, ApplicationName, Store;
    var s := c.live;
    match e
    case Create(k, r) => StoreBound(clusterName, s, k, r, j, hr);
    case Edit(k, r) => StoreBound(clusterName, s, k, r, j, hr);
    case Delete(k) => StoreBound(clusterName, s, k, s.releases[k].(deleting := true), j, hr);
    case Continue(k, ok, shipped) =>
      if !ReadsApps(s.StageOf(k)) {
        AdvanceStores(clusterName, s, k, ok, shipped);
        if Stores(s, k, ok) { StoreBound(clusterName, s, k, StoredBy(s, k), j, hr); }
      }
    case _ =>
  }

  /** While a reconcile removes the finalizer the cached copy is the release itself, which is being
      deleted. */
  lemma FinalizedCopyDeleting(clusterName: string, c: Cached, e: Event)
    requires Finalizes(c.live, e) && StageOk(c, e.k) && e.k in c.releases && Earlier(c.live, e.k, c.releases[e.k])
    ensures c.releases[e.k].deleting
  {
  }

  lemma StepCopyOk(clusterName: string, c: Cached, e: Event, j: Key)
    requires CacheInv(clusterName, c) && Enabled(clusterName, c.live, e) && j in c.releases
    ensures CopyOk(clusterName, NextLive(clusterName, c, e), j, c.releases[j])
  {
    var hr := c.releases[j];
    assert CopyOk(clusterName, c.live, j, hr);
    StepAges(clusterName, c, e, j, hr);
    assert e.Continue? ==> StageOk(c, e.k);
    if Finalizes(c.live, e) && e.k == j { FinalizedCopyDeleting(clusterName, c, e); }
    hide NextLive, CacheInv, Finalizes, StageOk, Bound;
    if hr.finalizer && !hr.deleting { StepBound(clusterName, c, e, j, hr); }
  }

  /** Where a stage may go: the copy it works on stays the same until the reconcile ends. */
  predicate Goes(from: Stage, to: Stage) {
    to.Idle? || (!from.Idle? && to.hr == from.hr && StageForm(to))
  }

  lemma AdvanceGoes(clusterName: string, s: State, k: Key, ok: bool, shipped: set<string>)
    requires StageForm(s.StageOf(k))
    ensures Goes(s.StageOf(k), Advance(clusterName, s, k, ok, shipped).StageOf(k))
  {
    hide AppName, DependencyName, Ready, Ref, NewApp, Store, MarkAppDeleted;
  }

  lemma StepGoes(clusterName: string, c: Cached, e: Event, j: Key)
    requires Enabled(clusterName, c.live, e) && StageForm(c.live.StageOf(j))
    ensures var t := NextLive(clusterName, c, e).StageOf(j);
            Goes(c.live.StageOf(j), t) || t == c.live.StageOf(j) ||
            (e.Start? && e.k == j && j in c.releases && t == Fetched(c.releases[j]))
  {
    hide Advance, AppName, Store, MarkAppDeleted, StageForm;
    match e
    case Continue(k, ok, shipped) =>
      if k == j {
        AdvanceGoes(clusterName, c.live, k, ok, shipped);
        AdvanceGoes(clusterName, c.live.(apps := c.apps), k, ok, shipped);
      } else if !ReadsApps(c.live.StageOf(k)) {
        AdvanceOthers(clusterName, c.live, k, ok, shipped, j);
      }
    case _ =>
  }

  lemma StepStageOk(clusterName: string, c: Cached, e: Event, j: Key)
    requires CacheInv(clusterName, c) && Enabled(clusterName, c.live, e)
    ensures StageOk(Next(clusterName, c, Step(e)), j)
  {
    assert StageOk(c, j);
    StepGoes(clusterName, c, e, j);
    if j in c.releases {
      assert CopyOk(clusterName, c.live, j, c.releases[j]);
      StepAges(clusterName, c, e, j, c.releases[j]);
    }
    if !c.live.StageOf(j).Idle? { StepAges(clusterName, c, e, j, c.live.StageOf(j).hr); }
    hide CacheInv, NextLive, Earlier, Current, Finalizes, AppName;
  }

  // ---------- the protocol behind the caches ----------

  /** The purged state after a step is that after the protocol's step from the purged state, but for
      reconciles that have ended or gone stray. */
  lemma PurgedAfter(clusterName: string, c: Cached, e: Event, t: State, u: State)
    requires forall k :: StageOk(c, k)
    requires Enabled(clusterName, c.live, e) && t == NextLive(clusterName, c, e) && Inv(clusterName, u)
    requires u.releases == t.releases && u.apps == t.apps && u.registry == t.registry && u.clock == t.clock
    requires forall j :: Stray(t, j) || t.StageOf(j).Idle? || u.StageOf(j) == t.StageOf(j)
    ensures Inv(clusterName, Purged(t))
  {
    hide Inv, NextLive, Stray, StageOk;
    var v := Purged(t);
    forall j ensures v.StageOf(j) == u.StageOf(j) || v.StageOf(j).Idle? { PurgedStage(t, j); }
    assert v == u.(stages := v.stages);
    IdleInv(clusterName, u, v);
  }

  /** A reconcile that is not stray after a step, and was under way before it, was not stray then. */
  lemma NotStrayBefore(clusterName: string, c: Cached, e: Event, j: Key)
    requires StageOk(c, j) && Enabled(clusterName, c.live, e)
    requires var t := NextLive(clusterName, c, e);
             !t.StageOf(j).Idle? && !Stray(t, j) &&
             !c.live.StageOf(j).Idle? && t.StageOf(j).hr == c.live.StageOf(j).hr
    ensures !Stray(c.live, j)
  {
    StepAges(clusterName, c, e, j, c.live.StageOf(j).hr);
    hide NextLive;
  }

  lemma OthersPurged(clusterName: string, c: Cached, e: Event, j: Key)
    requires StageOk(c, j) && Enabled(clusterName, c.live, e)
    requires var t := NextLive(clusterName, c, e);
             t.StageOf(j) == c.live.StageOf(j) && !t.StageOf(j).Idle? && !Stray(t, j)
    ensures Purged(c.live).StageOf(j) == NextLive(clusterName, c, e).StageOf(j)
  {
    NotStrayBefore(clusterName, c, e, j);
    PurgedStage(c.live, j);
  }

  /** Only the stage of one reconcile moves. */
  lemma StageMoveInv(clusterName: string, c: Cached, e: Event, k: Key, stage: Stage)
    requires CacheInv(clusterName, c) && Enabled(clusterName, c.live, e)
    requires NextLive(clusterName, c, e) == SetStage(c.live, k, stage)
    requires var t := SetStage(c.live, k, stage);
             Stray(t, k) || stage.Idle? || StageSound(clusterName, SetStage(Purged(c.live), k, stage), k)
    ensures Inv(clusterName, Purged(NextLive(clusterName, c, e)))
  {
    var t := SetStage(c.live, k, stage);
    var u := Purged(c.live);
    if !Stray(t, k) && !stage.Idle? {
      SetStageInv(clusterName, u, k, stage);
      u := SetStage(u, k, stage);
    }
    hide StageSound, Inv, Stray;
    forall j ensures Stray(t, j) || t.StageOf(j).Idle? || u.StageOf(j) == t.StageOf(j) {
      if j != k && !Stray(t, j) && !t.StageOf(j).Idle? { OthersPurged(clusterName, c, e, j); }
    }
    PurgedAfter(clusterName, c, e, t, u);
  }

  lemma StartInv(clusterName: string, c: Cached, k: Key, ok: bool)
    requires CacheInv(clusterName, c) && Enabled(clusterName, c.live, Start(k, ok)) && ok && k in c.releases
    ensures Inv(clusterName, Purged(NextLive(clusterName, c, Start(k, ok))))
  {
    var hr := c.releases[k];
    assert CopyOk(clusterName, c.live, k, hr);
    var u := Purged(c.live);
    assert Stray(SetStage(c.live, k, Fetched(hr)), k) ||
           StageSound(clusterName, SetStage(u, k, Fetched(hr)), k) by { hide Inv, CacheInv, ApplicationName; }
    hide Inv;
    StageMoveInv(clusterName, c, Start(k, ok), k, Fetched(hr));
  }

  /** Reading the Applications through the cache is sound, unless a deletion misses one. */
  lemma CachedReadSound(clusterName: string, u: State, apps: map<string, Application>, k: Key, ok: bool,
                        shipped: set<string>)
    requires StageSound(clusterName, u, k) && ReadsApps(u.StageOf(k))
    requires ok && (u.StageOf(k).DeleteGet? || u.StageOf(k).DeleteCheck?) ==>
               var name := AppName(clusterName, k, u.StageOf(k).hr); name in u.apps ==> name in apps
    ensures var stage := Advance(clusterName, u.(apps := apps), k, ok, shipped).StageOf(k);
            StageSound(clusterName, SetStage(u, k, stage), k)
  {
    hide ApplicationName, DependencyName, Ready, Ref, NewApp, Store, MarkAppDeleted;
  }

  lemma StrayStays(s: State, k: Key, stage: Stage)
    requires Stray(s, k) && Goes(s.StageOf(k), stage)
    ensures stage.Idle? || Stray(SetStage(s, k, stage), k)
  {
  }

  lemma ReadInv(clusterName: string, c: Cached, k: Key, ok: bool, shipped: set<string>)
    requires CacheInv(clusterName, c) && ReadsApps(c.live.StageOf(k))
    requires !Misses(clusterName, c, Step(Continue(k, ok, shipped)))
    ensures Inv(clusterName, Purged(NextLive(clusterName, c, Continue(k, ok, shipped))))
  {
    var e := Continue(k, ok, shipped);
    var seen := c.live.(apps := c.apps);
    var stage := Advance(clusterName, seen, k, ok, shipped).StageOf(k);
    assert StageOk(c, k);
    AdvanceGoes(clusterName, seen, k, ok, shipped);
    hide Advance, CacheInv, StageSound, Goes, Inv;
    if Stray(c.live, k) {
      StrayStays(c.live, k, stage);
    } else {
      SoundRead(clusterName, c, k, ok, shipped);
    }
    hide Stray, Misses;
    StageMoveInv(clusterName, c, e, k, stage);
  }

  lemma SoundRead(clusterName: string, c: Cached, k: Key, ok: bool, shipped: set<string>)
    requires CacheInv(clusterName, c) && !Stray(c.live, k) && ReadsApps(c.live.StageOf(k))
    requires !Misses(clusterName, c, Step(Continue(k, ok, shipped)))
    ensures var stage := Advance(clusterName, c.live.(apps := c.apps), k, ok, shipped).StageOf(k);
            StageSound(clusterName, SetStage(Purged(c.live), k, stage), k)
  {
    var u := Purged(c.live);
    assert StageOk(c, k);
    PurgedStage(c.live, k);
    AdvanceCongruent(clusterName, c.live.(apps := c.apps), u.(apps := c.apps), k, ok, shipped);
    assert StageSound(clusterName, u, k);
    hide Advance, CacheInv, StageSound, Inv, AppName;
    CachedReadSound(clusterName, u, c.apps, k, ok, shipped);
  }

  /** What the steps of a stray deletion that write something do. */
  lemma StrayWrites(clusterName: string, s: State, k: Key, ok: bool, shipped: set<string>)
    requires Stray(s, k) && StageForm(s.StageOf(k)) && !ReadsApps(s.StageOf(k))
    ensures var t, stage := Advance(clusterName, s, k, ok, shipped), s.StageOf(k);
            t.releases == s.releases && t.clock == s.clock &&
            t.registry == (if stage.Forget? then s.registry - {Ref(k)} else s.registry) &&
            t.apps.Keys <= s.apps.Keys && forall name :: name in t.apps ==> t.apps[name].owner == s.apps[name].owner
  {
    AdvanceStores(clusterName, s, k, ok, shipped);
    if s.StageOf(k).DeleteCall? {
      DeleteCallApps(clusterName, s, k, ok, shipped);
      hide Advance;
    } else {
      hide AppName, DependencyName, Ready, Ref, NewApp, Store, MarkAppDeleted;
    }
  }

  lemma DeleteCallApps(clusterName: string, s: State, k: Key, ok: bool, shipped: set<string>)
    requires s.StageOf(k).DeleteCall?
    ensures var t := Advance(clusterName, s, k, ok, shipped);
            t.registry == s.registry && t.apps.Keys <= s.apps.Keys &&
            forall name :: name in t.apps ==> t.apps[name].owner == s.apps[name].owner
  {
    hide AppName, DependencyName, Ready, Ref, NewApp, Store;
  }

  /** Dropping Applications and forgetting a release keeps the invariant. */
  lemma LessInv(clusterName: string, u: State, w: State, k: Key)
    requires Inv(clusterName, u) && w == u.(apps := w.apps, registry := w.registry)
    requires w.apps.Keys <= u.apps.Keys && forall name :: name in w.apps ==> w.apps[name].owner == u.apps[name].owner
    requires w.registry == u.registry || w.registry == u.registry - {Ref(k)}
    ensures Inv(clusterName, w)
  {
    var v := u.(apps := w.apps);
    AppsInv(clusterName, u, v);
    ForgetInv(clusterName, v, k);
    hide Inv;
    assert w == v || w == v.(registry := v.registry - {Ref(k)});
  }

  lemma StrayInv(clusterName: string, c: Cached, k: Key, ok: bool, shipped: set<string>)
    requires CacheInv(clusterName, c) && Stray(c.live, k) && !ReadsApps(c.live.StageOf(k))
    ensures Inv(clusterName, Purged(NextLive(clusterName, c, Continue(k, ok, shipped))))
  {
    var e, t := Continue(k, ok, shipped), Advance(clusterName, c.live, k, ok, shipped);
    assert StageOk(c, k);
    StrayWrites(clusterName, c.live, k, ok, shipped);
    AdvanceGoes(clusterName, c.live, k, ok, shipped);
    hide Inv, Advance;
    var w := Purged(c.live).(apps := t.apps, registry := t.registry);
    LessInv(clusterName, Purged(c.live), w, k);
    forall j ensures Stray(t, j) || t.StageOf(j).Idle? || w.StageOf(j) == t.StageOf(j) {
      if j == k {
        StrayStays(c.live, k, t.StageOf(k));
      } else {
        AdvanceOthers(clusterName, c.live, k, ok, shipped, j);
        if !Stray(t, j) && !t.StageOf(j).Idle? { OthersPurged(clusterName, c, e, j); }
      }
    }
    hide Stray, StageOk;
    PurgedAfter(clusterName, c, e, t, w) by { assert forall j :: StageOk(c, j) by { StagesAreOk(clusterName, c); } }
  }

  lemma StagesAreOk(clusterName: string, c: Cached)
    requires CacheInv(clusterName, c)
    ensures forall j :: StageOk(c, j)
  {
  }

  lemma StepOnInv(clusterName: string, c: Cached, k: Key, ok: bool, shipped: set<string>)
    requires CacheInv(clusterName, c) && !Stray(c.live, k) && !ReadsApps(c.live.StageOf(k))
    requires !c.live.StageOf(k).Idle?
    ensures Inv(clusterName, Purged(NextLive(clusterName, c, Continue(k, ok, shipped))))
  {
    var e, t := Continue(k, ok, shipped), Advance(clusterName, c.live, k, ok, shipped);
    PurgedStage(c.live, k);
    AdvanceCongruent(clusterName, c.live, Purged(c.live), k, ok, shipped);
    AdvanceInv(clusterName, Purged(c.live), k, ok, shipped);
    var u := Advance(clusterName, Purged(c.live), k, ok, shipped);
    hide Inv, Advance, Stray;
    forall j ensures Stray(t, j) || t.StageOf(j).Idle? || u.StageOf(j) == t.StageOf(j) {
      if j != k {
        AdvanceOthers(clusterName, c.live, k, ok, shipped, j);
        AdvanceOthers(clusterName, Purged(c.live), k, ok, shipped, j);
        if !Stray(t, j) && !t.StageOf(j).Idle? { OthersPurged(clusterName, c, e, j); }
      }
    }
    PurgedAfter(clusterName, c, e, t, u);
  }

  /** What users, Argo CD and a restart do does not depend on the stages. */
  lemma ApplyPurged(clusterName: string, s: State, e: Event, j: Key)
    requires Enabled(clusterName, s, e) && !e.Start? && !e.Continue?
    ensures Enabled(clusterName, Purged(s), e)
    ensures var t, u := Apply(clusterName, s, e), Apply(clusterName, Purged(s), e);
            u.releases == t.releases && u.apps == t.apps && u.registry == t.registry && u.clock == t.clock &&
            (t.StageOf(j).Idle? || (t.StageOf(j) == s.StageOf(j) && u.StageOf(j) == Purged(s).StageOf(j)))
  {
    hide AppName, Stray;
  }

  lemma OtherInv(clusterName: string, c: Cached, e: Event)
    requires CacheInv(clusterName, c) && Enabled(clusterName, c.live, e) && !e.Start? && !e.Continue?
    ensures Inv(clusterName, Purged(NextLive(clusterName, c, e)))
  {
    var t := NextLive(clusterName, c, e);
    ApplyPurged(clusterName, c.live, e, Key("", ""));
    var u := Apply(clusterName, Purged(c.live), e);
    StepInv(clusterName, Purged(c.live), e);
    hide Inv, Apply, Stray;
    forall j ensures Stray(t, j) || t.StageOf(j).Idle? || u.StageOf(j) == t.StageOf(j) {
      ApplyPurged(clusterName, c.live, e, j);
      if !Stray(t, j) && !t.StageOf(j).Idle? { OthersPurged(clusterName, c, e, j); }
    }
    PurgedAfter(clusterName, c, e, t, u);
  }

  lemma StepKeepsPurgedInv(clusterName: string, c: Cached, e: Event)
    requires CacheInv(clusterName, c) && Enabled(clusterName, c.live, e) && !Misses(clusterName, c, Step(e))
    ensures Inv(clusterName, Purged(NextLive(clusterName, c, e)))
  {
    hide Inv, Advance, Apply, AppName, Purged, Stray, Misses;
    match e
    case Start(k, ok) => if ok && k in c.releases { StartInv(clusterName, c, k, ok); }
    case Continue(k, ok, shipped) =>
      if ReadsApps(c.live.StageOf(k)) {
        ReadInv(clusterName, c, k, ok, shipped);
      } else if Stray(c.live, k) {
        StrayInv(clusterName, c, k, ok, shipped);
      } else {
        StepOnInv(clusterName, c, k, ok, shipped);
      }
    case _ => OtherInv(clusterName, c, e);
  }

  lemma CatchUpInv(clusterName: string, c: Cached, e: CacheEvent)
    requires CacheInv(clusterName, c) && !e.Step?
    ensures CacheInv(clusterName, Next(clusterName, c, e))
  {
    var d := Next(clusterName, c, e);
    SeenNow(clusterName, c);
    hide Inv, AppName;
    forall k ensures StageOk(d, k) { assert StageOk(c, k); }
    forall k | k in d.releases ensures CopyOk(clusterName, d.live, k, d.releases[k]) {
      if !(e.SeeRelease? && e.k == k) { assert CopyOk(clusterName, c.live, k, c.releases[k]); }
    }
  }

  lemma SeenNow(clusterName: string, c: Cached)
    requires CacheInv(clusterName, c)
    ensures forall k :: k in c.live.releases ==> CopyOk(clusterName, c.live, k, c.live.releases[k])
  {
    assert VersionsBounded(Purged(c.live));
    hide Inv, AppName;
  }

  lemma NextInv(clusterName: string, c: Cached, e: CacheEvent)
    requires CacheInv(clusterName, c) && Allowed(clusterName, c, e) && !Misses(clusterName, c, e)
    ensures CacheInv(clusterName, Next(clusterName, c, e))
  {
    if e.Step? {
      var d := Next(clusterName, c, e);
      StepKeepsPurgedInv(clusterName, c, e.e);
      forall j ensures StageOk(d, j) { StepStageOk(clusterName, c, e.e, j); }
      forall j | j in c.releases ensures CopyOk(clusterName, d.live, j, c.releases[j]) {
        StepCopyOk(clusterName, c, e.e, j);
      }
      hide NextLive, Inv, Purged, Misses, Finalizes, AppName, StageOk, CopyOk;
    } else {
      CatchUpInv(clusterName, c, e);
    }
  }

  // ---------- runs ----------

  predicate CachedRun(clusterName: string, c: Cached, events: seq<CacheEvent>)
    decreases |events|
  {
    events == [] ||
    (Allowed(clusterName, c, events[0]) && CachedRun(clusterName, Next(clusterName, c, events[0]), events[1..]))
  }

  function After(clusterName: string, c: Cached, events: seq<CacheEvent>): Cached
    requires CachedRun(clusterName, c, events)
    decreases |events|
  {
    if events == [] then c else After(clusterName, Next(clusterName, c, events[0]), events[1..])
  }

  /** At no step of the run. */
  predicate NeverMisses(clusterName: string, c: Cached, events: seq<CacheEvent>)
    requires CachedRun(clusterName, c, events)
    decreases |events|
  {
    events == [] ||
    (!Misses(clusterName, c, events[0]) && NeverMisses(clusterName, Next(clusterName, c, events[0]), events[1..]))
  }

  /** The controller starts once its caches are in sync. */
  function Synced(s: State): Cached {
    Cached(s, s.apps, s.releases, {}, {})
  }

  lemma SyncedInv(clusterName: string, s: State)
    requires Init(clusterName, s)
    ensures CacheInv(clusterName, Synced(s))
  {
    InitInv(clusterName, s);
    assert Purged(s) == s;
    assert VersionsBounded(s);
    hide Inv, AppName;
  }

  lemma {:induction false} CachedRunInv(clusterName: string, c: Cached, events: seq<CacheEvent>)
    requires CacheInv(clusterName, c) && CachedRun(clusterName, c, events) && NeverMisses(clusterName, c, events)
    ensures CacheInv(clusterName, After(clusterName, c, events))
    decreases |events|
  {
    hide CacheInv, Allowed, Misses, Next;
    if events != [] {
      NextInv(clusterName, c, events[0]);
      CachedRunInv(clusterName, Next(clusterName, c, events[0]), events[1..]);
    }
  }

  lemma PurgedNames(clusterName: string, c: Cached)
    requires CacheInv(clusterName, c)
    ensures NoOrphans(clusterName, c.live) && DistinctNames(clusterName, c.live)
  {
    hide AppName, StageOk, CopyOk;
    forall name | name in c.live.apps ensures Owned(clusterName, c.live, name) {
      assert Owned(clusterName, Purged(c.live), name);
    }
    assert DistinctNames(clusterName, Purged(c.live));
  }

  /** No orphans although all reads lag, as long as no deletion misses an Application. */
  lemma NoOrphansWithCaches(clusterName: string, s: State, events: seq<CacheEvent>)
    requires Init(clusterName, s) && CachedRun(clusterName, Synced(s), events)
    requires NeverMisses(clusterName, Synced(s), events)
    ensures NoOrphans(clusterName, After(clusterName, Synced(s), events).live)
  {
    SyncedInv(clusterName, s);
    CachedRunInv(clusterName, Synced(s), events);
    PurgedNames(clusterName, After(clusterName, Synced(s), events));
  }

  // ---------- and only then ----------

  function Go(k: Key): CacheEvent {
    Step(Continue(k, true, {}))
  }

  /** A reconcile is about to forget a release that is as it was read, while its Application exists. */
  predicate Abandons(clusterName: string, s: State, k: Key) {
    s.StageOf(k).Forget? && k in s.releases && s.releases[k] == s.StageOf(k).hr &&
    AppName(clusterName, k, s.releases[k]) in s.apps
  }

  lemma TwoSteps(clusterName: string, c: Cached, k: Key)
    requires Abandons(clusterName, c.live, k)
    ensures CachedRun(clusterName, c, [Go(k), Go(k)]) && NeverMisses(clusterName, c, [Go(k), Go(k)])
    ensures var d := After(clusterName, c, [Go(k), Go(k)]).live;
            d.apps == c.live.apps && (k in d.releases ==> !d.releases[k].finalizer)
  {
    var events := [Go(k), Go(k)];
    var c1 := Forgotten(clusterName, c, k);
    var c2 := Released(clusterName, c1, k);
    hide Next, Misses, Abandons;
    assert events[1..] == [Go(k)] && [Go(k)][1..] == [];
    assert CachedRun(clusterName, c2, []) && NeverMisses(clusterName, c2, []) && After(clusterName, c2, []) == c2;
    assert CachedRun(clusterName, c1, [Go(k)]) && NeverMisses(clusterName, c1, [Go(k)]);
  }

  lemma Forgotten(clusterName: string, c: Cached, k: Key) returns (c1: Cached)
    requires Abandons(clusterName, c.live, k)
    ensures Allowed(clusterName, c, Go(k)) && !Misses(clusterName, c, Go(k)) && c1 == Next(clusterName, c, Go(k))
    ensures c1.live.StageOf(k) == RemoveFinalizer(c.live.releases[k])
    ensures c1.live.apps == c.live.apps && c1.live.releases == c.live.releases
  {
    hide AppName, Ref;
    c1 := Next(clusterName, c, Go(k));
  }

  lemma Released(clusterName: string, c: Cached, k: Key) returns (c1: Cached)
    requires k in c.live.releases && c.live.StageOf(k) == RemoveFinalizer(c.live.releases[k])
    ensures Allowed(clusterName, c, Go(k)) && !Misses(clusterName, c, Go(k)) && c1 == Next(clusterName, c, Go(k))
    ensures c1.live.apps == c.live.apps && (k in c1.live.releases ==> !c1.live.releases[k].finalizer)
  {
    hide AppName;
    c1 := Next(clusterName, c, Go(k));
  }

  lemma AbandonsOrphans(clusterName: string, c: Cached, k: Key)
    requires Abandons(clusterName, c.live, k) && NoOrphans(clusterName, c.live) && DistinctNames(clusterName, c.live)
    ensures CachedRun(clusterName, c, [Go(k), Go(k)]) && NeverMisses(clusterName, c, [Go(k), Go(k)])
    ensures !NoOrphans(clusterName, After(clusterName, c, [Go(k), Go(k)]).live)
  {
    var name := AppName(clusterName, k, c.live.releases[k]);
    OwnerIs(clusterName, c.live, k, name);
    TwoSteps(clusterName, c, k);
    hide After, AppName;
    assert !Owned(clusterName, After(clusterName, c, [Go(k), Go(k)]).live, name);
  }

  lemma MissAbandons(clusterName: string, c: Cached, e: CacheEvent)
    requires CacheInv(clusterName, c) && Allowed(clusterName, c, e) && Misses(clusterName, c, e)
    ensures var d := Next(clusterName, c, e).live;
            Abandons(clusterName, d, e.e.k) && NoOrphans(clusterName, d) && DistinctNames(clusterName, d)
  {
    PurgedNames(clusterName, c);
    assert StageOk(c, e.e.k);
    hide CacheInv, AppName, NoOrphans, DistinctNames;
    StageMovesNames(clusterName, c.live, Next(clusterName, c, e).live);
  }

  lemma StageMovesNames(clusterName: string, s: State, t: State)
    requires t == s.(stages := t.stages) && NoOrphans(clusterName, s) && DistinctNames(clusterName, s)
    ensures NoOrphans(clusterName, t) && DistinctNames(clusterName, t)
  {
    hide AppName;
    forall name | name in t.apps ensures Owned(clusterName, t, name) { assert Owned(clusterName, s, name); }
  }

  /** Every continuation in which no deletion misses an Application has no orphans. */
  ghost predicate Safe(clusterName: string, c: Cached) {
    forall events :: CachedRun(clusterName, c, events) && NeverMisses(clusterName, c, events) ==>
      NoOrphans(clusterName, After(clusterName, c, events).live)
  }

  lemma SafeAfter(clusterName: string, c: Cached, e: CacheEvent)
    requires CacheInv(clusterName, c) && Allowed(clusterName, c, e)
    ensures Safe(clusterName, Next(clusterName, c, e)) <==> !Misses(clusterName, c, e)
  {
    var d := Next(clusterName, c, e);
    if Misses(clusterName, c, e) {
      MissAbandons(clusterName, c, e);
      AbandonsOrphans(clusterName, d, e.e.k);
    } else {
      NextInv(clusterName, c, e);
      hide CacheInv, Next, NoOrphans;
      forall events | CachedRun(clusterName, d, events) && NeverMisses(clusterName, d, events)
        ensures NoOrphans(clusterName, After(clusterName, d, events).live)
      {
        CachedRunInv(clusterName, d, events);
        PurgedNames(clusterName, After(clusterName, d, events));
      }
    }
  }

  /** The condition is exact: after any run without a miss, one more step leaves the cluster safe from
      orphans if and only if it is no miss. */
  lemma SafeExactly(clusterName: string, s: State, events: seq<CacheEvent>, e: CacheEvent)
    requires Init(clusterName, s) && CachedRun(clusterName, Synced(s), events)
    requires NeverMisses(clusterName, Synced(s), events)
    requires Allowed(clusterName, After(clusterName, Synced(s), events), e)
    ensures var c := After(clusterName, Synced(s), events);
            Safe(clusterName, Next(clusterName, c, e)) <==> !Misses(clusterName, c, e)
  {
    SyncedInv(clusterName, s);
    CachedRunInv(clusterName, Synced(s), events);
    SafeAfter(clusterName, After(clusterName, Synced(s), events), e);
  }

  /** For one deletion that does not see an Application, of a release that is as it was read: it ends
      without an orphan if and only if there is no Application. */
  lemma DeletionReadDecides(clusterName: string, c: Cached, k: Key)
    requires CacheInv(clusterName, c) && c.live.StageOf(k).DeleteGet? && Current(c.live, k, c.live.StageOf(k).hr)
    requires AppName(clusterName, k, c.live.StageOf(k).hr) !in c.apps
    ensures CachedRun(clusterName, c, [Go(k), Go(k), Go(k)])
    ensures NoOrphans(clusterName, After(clusterName, c, [Go(k), Go(k), Go(k)]).live) <==>
            AppName(clusterName, k, c.live.StageOf(k).hr) !in c.live.apps
  {
    var three, two := [Go(k), Go(k), Go(k)], [Go(k), Go(k)];
    assert three[1..] == two;
    var d := Next(clusterName, c, Go(k));
    SafeAfter(clusterName, c, Go(k));
    if Misses(clusterName, c, Go(k)) {
      MissAbandons(clusterName, c, Go(k));
      AbandonsOrphans(clusterName, d, k);
    } else {
      ThreeGo(clusterName, c, k);
      hide Next, CacheInv, NoOrphans;
      assert NoOrphans(clusterName, After(clusterName, d, two).live);
    }
  }

  lemma ThreeGo(clusterName: string, c: Cached, k: Key)
    requires c.live.StageOf(k).DeleteGet? && AppName(clusterName, k, c.live.StageOf(k).hr) !in c.apps
    ensures var d := Next(clusterName, c, Go(k));
            CachedRun(clusterName, d, [Go(k), Go(k)]) && NeverMisses(clusterName, d, [Go(k), Go(k)])
  {
    hide AppName, Ref;
    var d := Next(clusterName, c, Go(k));
    var d1 := Next(clusterName, d, Go(k));
    assert d1.live.StageOf(k) == RemoveFinalizer(c.live.StageOf(k).hr);
    var d2 := Next(clusterName, d1, Go(k));
    assert [Go(k), Go(k)][1..] == [Go(k)] && [Go(k)][1..] == [];
    assert CachedRun(clusterName, d2, []) && NeverMisses(clusterName, d2, []);
    assert CachedRun(clusterName, d1, [Go(k)]) && NeverMisses(clusterName, d1, [Go(k)]);
  }

  /** A release still vanishes only when it has no Application. */
  lemma VanishesAfterAppWithCaches(clusterName: string, s: State, events: seq<CacheEvent>, e: CacheEvent, k: Key,
                                   name: string)
    requires Init(clusterName, s) && CachedRun(clusterName, Synced(s), events)
    requires NeverMisses(clusterName, Synced(s), events)
    requires var c := After(clusterName, Synced(s), events);
             Allowed(clusterName, c, e) && !Misses(clusterName, c, e)
    ensures var c := After(clusterName, Synced(s), events);
            var d := Next(clusterName, c, e);
            k in c.live.releases && k !in d.live.releases && name in c.live.apps ==> c.live.apps[name].owner != k
  {
    SyncedInv(clusterName, s);
    CachedRunInv(clusterName, Synced(s), events);
    StepVanishes(clusterName, After(clusterName, Synced(s), events), e, k, name);
  }

  lemma StepVanishes(clusterName: string, c: Cached, e: CacheEvent, k: Key, name: string)
    requires CacheInv(clusterName, c) && Allowed(clusterName, c, e) && !Misses(clusterName, c, e)
    ensures var d := Next(clusterName, c, e);
            k in c.live.releases && k !in d.live.releases && name in c.live.apps ==> c.live.apps[name].owner != k
  {
    var d := Next(clusterName, c, e);
    if k in c.live.releases && k !in d.live.releases && name in c.live.apps {
      NextInv(clusterName, c, e);
      PurgedNames(clusterName, d);
      VanishKeepsLiveApps(clusterName, c, e, k);
      hide Next, CacheInv;
      assert Owned(clusterName, d.live, name);
    }
  }

  lemma VanishKeepsLiveApps(clusterName: string, c: Cached, e: CacheEvent, k: Key)
    requires Allowed(clusterName, c, e) && k in c.live.releases && k !in Next(clusterName, c, e).live.releases
    ensures Next(clusterName, c, e).live.apps == c.live.apps
  {
    if e.e.Continue? && !ReadsApps(c.live.StageOf(e.e.k)) {
      AdvanceWrites(clusterName, c.live, e.e.k, e.e.ok, e.e.shipped);
    }
    hide Advance, AppName, Misses, Finalizes;
  }

  // ---------- reading one's own writes is enough ----------

  /** A deletion looks for the Application no earlier than the controller's own last write of it. */
  predicate ReadsOwnWrites(clusterName: string, c: Cached, e: CacheEvent) {
    e.Step? && e.e.Continue? ==>
      var stage := c.live.StageOf(e.e.k);
      stage.DeleteGet? || stage.DeleteCheck? ==> AppName(clusterName, e.e.k, stage.hr) !in c.staleApps
  }

  predicate AlwaysOwnWrites(clusterName: string, c: Cached, events: seq<CacheEvent>)
    requires CachedRun(clusterName, c, events)
    decreases |events|
  {
    events == [] ||
    (ReadsOwnWrites(clusterName, c, events[0]) &&
     AlwaysOwnWrites(clusterName, Next(clusterName, c, events[0]), events[1..]))
  }

  predicate AppsSeen(c: Cached) {
    c.live.apps.Keys <= c.apps.Keys + c.staleApps
  }

  /** Applications that exist are in the cache, or were written since it last caught up. */
  lemma NextAppsSeen(clusterName: string, c: Cached, e: CacheEvent)
    requires AppsSeen(c) && Allowed(clusterName, c, e)
    ensures AppsSeen(Next(clusterName, c, e))
  {
    if e.Step? {
      forall name | name in NextLive(clusterName, c, e.e).apps && name !in c.live.apps
        ensures e.e.Continue? && c.live.StageOf(e.e.k).Write? &&
                AppName(clusterName, e.e.k, c.live.StageOf(e.e.k).hr) == name
      {
        DependencyOrder.CreatedByWrite(clusterName, c.live, e.e, name);
      }
      hide NextLive, AppName, Finalizes;
    }
  }

  lemma {:induction false} OwnWritesNeverMiss(clusterName: string, c: Cached, events: seq<CacheEvent>)
    requires AppsSeen(c) && CachedRun(clusterName, c, events) && AlwaysOwnWrites(clusterName, c, events)
    ensures NeverMisses(clusterName, c, events)
    decreases |events|
  {
    if events != [] {
      NextAppsSeen(clusterName, c, events[0]);
      assert !Misses(clusterName, c, events[0]);
      hide AppsSeen, Allowed, ReadsOwnWrites, Next, Misses;
      OwnWritesNeverMiss(clusterName, Next(clusterName, c, events[0]), events[1..]);
    }
  }

  /** So there are no orphans when deletions read no older a state than the controller's own writes;
      what users and Argo CD did may be seen late, and any copy of a release may be old. */
  lemma NoOrphansWithOwnWrites(clusterName: string, s: State, events: seq<CacheEvent>)
    requires Init(clusterName, s) && CachedRun(clusterName, Synced(s), events)
    requires AlwaysOwnWrites(clusterName, Synced(s), events)
    ensures NoOrphans(clusterName, After(clusterName, Synced(s), events).live)
  {
    OwnWritesNeverMiss(clusterName, Synced(s), events);
    NoOrphansWithCaches(clusterName, s, events);
  }
}
