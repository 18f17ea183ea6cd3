/** Runs in which lagging reads do harm: an orphan, and the deletion of another release's Application
    (pkg/controller/helmrelease_controller.go:349-467). */
module StaleRuns {
  import opened Text
  import opened Naming
  import opened Protocol
  import opened StaleReads

  const KEY := Key("n", "foo")
  const OTHER := Key("m", "foo")
  const FOO := Release(Some("web"), false, [], true, false, false, 0)
  const ONE := State(map[KEY := FOO], map[], map[], map[], 0)

  function Begin(k: Key): CacheEvent {
    Step(Start(k, true))
  }

  ghost predicate Leads(clusterName: string, c: Cached, events: seq<CacheEvent>, d: Cached) {
    CachedRun(clusterName, c, events) && After(clusterName, c, events) == d
  }

  lemma {:induction false} LeadsOn(clusterName: string, c: Cached, a: seq<CacheEvent>, d: Cached,
                                   b: seq<CacheEvent>, e: Cached)
    requires Leads(clusterName, c, a, d) && Leads(clusterName, d, b, e)
    ensures Leads(clusterName, c, a + b, e)
    decreases |a|
  {
    hide Allowed, Next;
    if a == [] {
      assert a + b == b;
    } else {
      LeadsOn(clusterName, Next(clusterName, c, a[0]), a[1..], d, b, e);
      assert (a + b)[1..] == a[1..] + b;
    }
  }

  /** One more step, which all the runs below are made of. */
  lemma LeadsBy(clusterName: string, c: Cached, events: seq<CacheEvent>, d: Cached, e: CacheEvent, f: Cached)
    requires Leads(clusterName, c, events, d) && Allowed(clusterName, d, e) && Next(clusterName, d, e) == f
    ensures Leads(clusterName, c, events + [e], f)
  {
    hide Allowed, Next;
    assert [e][1..] == [];
    assert CachedRun(clusterName, f, []) && After(clusterName, f, []) == f;
    LeadsOn(clusterName, c, events, d, [e], f);
  }

  // ---------- a release gets its Application ----------

  /** The release is alone, has its finalizer and a chart, and depends on nothing. */
  predicate Alone(c: Cached, k: Key, r: Release) {
    c.live.releases == map[k := r] && k in c.releases && c.releases[k] == r && c.live.apps == map[] == c.apps &&
    r.chart.Some? && r.finalizer && !r.deleting && !r.suspend && r.dependsOn == [] && r.version == c.live.clock
  }

  /** The Application exists, and the cache does not know it. */
  predicate Made(clusterName: string, c: Cached, k: Key, r: Release) {
    c.live.releases == map[k := r.(version := c.live.clock)] && c.live.StageOf(k).Idle? &&
    c.live.apps == map[AppName(clusterName, k, r) := NewApp(k)] && c.apps == map[]
  }

  ghost predicate Untouched(c: Cached, d: Cached, k: Key) {
    d.releases == c.releases && forall j :: j != k ==> d.live.StageOf(j) == c.live.StageOf(j)
  }

  lemma Make(clusterName: string, c0: Cached, before: seq<CacheEvent>, c: Cached, k: Key, r: Release)
    returns (events: seq<CacheEvent>, d: Cached)
    requires Leads(clusterName, c0, before, c) && Alone(c, k, r) && c.live.StageOf(k).Idle?
    ensures Leads(clusterName, c0, events, d) && Made(clusterName, d, k, r) && Untouched(c, d, k)
    ensures d.live.clock == c.live.clock + 1
  {
    var c1, c3 := Reads(clusterName, c, k, r);
    var c2 := Next(clusterName, c1, Go(k));
    var c4, c5 := GoesToWrite(clusterName, c3, k, r);
    var c6, c7 := Writes(clusterName, c5, k, r);
    hide Leads, Next, Allowed, Made, Alone;
    LeadsBy(clusterName, c0, before, c, Begin(k), c1);
    events := before + [Begin(k)];
    LeadsBy(clusterName, c0, events, c1, Go(k), c2);
    events := events + [Go(k)];
    LeadsBy(clusterName, c0, events, c2, Go(k), c3);
    events := events + [Go(k)];
    LeadsBy(clusterName, c0, events, c3, Go(k), c4);
    events := events + [Go(k)];
    LeadsBy(clusterName, c0, events, c4, Go(k), c5);
    events := events + [Go(k)];
    LeadsBy(clusterName, c0, events, c5, Go(k), c6);
    events := events + [Go(k)];
    LeadsBy(clusterName, c0, events, c6, Go(k), c7);
    events := events + [Go(k)];
    d := c7;
  }

  ghost predicate AtStage(c: Cached, d: Cached, k: Key, stage: Stage) {
    d.live.StageOf(k) == stage && d.live.apps == c.live.apps && d.live.releases == c.live.releases &&
    d.live.clock == c.live.clock && d.apps == c.apps && Untouched(c, d, k)
  }

  lemma Reads(clusterName: string, c: Cached, k: Key, r: Release) returns (c1: Cached, c3: Cached)
    requires Alone(c, k, r) && c.live.StageOf(k).Idle?
    ensures Allowed(clusterName, c, Begin(k)) && c1 == Next(clusterName, c, Begin(k))
    ensures Allowed(clusterName, c1, Go(k)) && Allowed(clusterName, Next(clusterName, c1, Go(k)), Go(k))
    ensures c3 == Next(clusterName, Next(clusterName, c1, Go(k)), Go(k)) && AtStage(c, c3, k, GetApp(r))
  {
    hide AppName, DependencyName, Ready, Ref, NewApp, Store, MarkAppDeleted;
    c1 := Next(clusterName, c, Begin(k));
    assert c1.live.StageOf(k) == Fetched(r);
    var c2 := Next(clusterName, c1, Go(k));
    assert c2.live.StageOf(k) == Dependencies(r, 0);
    c3 := Next(clusterName, c2, Go(k));
  }

  /** The cached read finds no Application, and the sync goes on to the write. */
  lemma GoesToWrite(clusterName: string, c: Cached, k: Key, r: Release) returns (c1: Cached, c2: Cached)
    requires c.live.StageOf(k) == GetApp(r) && c.apps == map[] && r.chart.Some?
    ensures Allowed(clusterName, c, Go(k)) && c1 == Next(clusterName, c, Go(k))
    ensures Allowed(clusterName, c1, Go(k)) && c2 == Next(clusterName, c1, Go(k))
    ensures AtStage(c, c2, k, Write(r, false))
  {
    hide AppName, DependencyName, Ready, Ref, NewApp, Store, MarkAppDeleted;
    c1 := Next(clusterName, c, Go(k));
    assert c1.live.StageOf(k) == Sync(r, false);
    c2 := Next(clusterName, c1, Go(k));
  }

  lemma Writes(clusterName: string, c: Cached, k: Key, r: Release) returns (c1: Cached, d: Cached)
    requires c.live.StageOf(k) == Write(r, false) && c.live.apps == map[] == c.apps
    requires c.live.releases == map[k := r] && !r.deleting
    ensures Allowed(clusterName, c, Go(k)) && c1 == Next(clusterName, c, Go(k))
    ensures Allowed(clusterName, c1, Go(k)) && d == Next(clusterName, c1, Go(k))
    ensures Made(clusterName, d, k, r) && Untouched(c, d, k) && d.live.clock == c.live.clock + 1
  {
    hide AppName, DependencyName, Ready, Ref, MarkAppDeleted;
    c1 := Next(clusterName, c, Go(k));
    assert c1.live.StageOf(k) == PatchStatus(r) && c1.live.releases == c.live.releases;
    d := Next(clusterName, c1, Go(k));
  }

  // ---------- a release is finalised while the cache shows no Application ----------

  /** The release is being deleted, and seen to be. */
  predicate Going(c: Cached, k: Key, hr: Release) {
    c.live.releases == map[k := hr] && k in c.releases && c.releases[k] == hr && c.apps == map[] &&
    c.live.StageOf(k).Idle? && hr.deleting && hr.finalizer && !hr.others
  }

  lemma Finalise(clusterName: string, c0: Cached, before: seq<CacheEvent>, c: Cached, k: Key, hr: Release)
    returns (events: seq<CacheEvent>, d: Cached)
    requires Leads(clusterName, c0, before, c) && Going(c, k, hr)
    ensures Leads(clusterName, c0, events, d)
    ensures d.live.releases == map[] && d.live.apps == c.live.apps && d.apps == map[] && Untouched(c, d, k)
    ensures d.live.StageOf(k).Idle? && d.live.clock == c.live.clock + 1
  {
    var c1, c2, c3 := FindsNothing(clusterName, c, k, hr);
    var c4, c5 := Releases(clusterName, c3, k, hr);
    hide Leads, Next, Allowed, Going;
    LeadsBy(clusterName, c0, before, c, Begin(k), c1);
    events := before + [Begin(k)];
    LeadsBy(clusterName, c0, events, c1, Go(k), c2);
    events := events + [Go(k)];
    LeadsBy(clusterName, c0, events, c2, Go(k), c3);
    events := events + [Go(k)];
    LeadsBy(clusterName, c0, events, c3, Go(k), c4);
    events := events + [Go(k)];
    LeadsBy(clusterName, c0, events, c4, Go(k), c5);
    events := events + [Go(k)];
    d := c5;
  }

  /** The deletion looks for the Application in the cache and does not find it. */
  lemma FindsNothing(clusterName: string, c: Cached, k: Key, hr: Release) returns (c1: Cached, c2: Cached, c3: Cached)
    requires Going(c, k, hr)
    ensures Allowed(clusterName, c, Begin(k)) && c1 == Next(clusterName, c, Begin(k))
    ensures Allowed(clusterName, c1, Go(k)) && c2 == Next(clusterName, c1, Go(k))
    ensures Allowed(clusterName, c2, Go(k)) && c3 == Next(clusterName, c2, Go(k))
    ensures AtStage(c, c3, k, Forget(hr))
  {
    c1, c2 := StartsDeletion(clusterName, c, k, hr);
    c3 := SeesNothing(clusterName, c2, k, hr);
  }

  lemma StartsDeletion(clusterName: string, c: Cached, k: Key, hr: Release) returns (c1: Cached, c2: Cached)
    requires k in c.releases && c.releases[k] == hr && c.live.StageOf(k).Idle? && hr.deleting && hr.finalizer
    ensures Allowed(clusterName, c, Begin(k)) && c1 == Next(clusterName, c, Begin(k))
    ensures Allowed(clusterName, c1, Go(k)) && c2 == Next(clusterName, c1, Go(k))
    ensures AtStage(c, c2, k, DeleteGet(hr))
  {
    hide AppName, DependencyName, Ready, Ref, NewApp, Store, MarkAppDeleted;
    c1 := Next(clusterName, c, Begin(k));
    assert c1.live.StageOf(k) == Fetched(hr);
    c2 := Next(clusterName, c1, Go(k));
  }

  lemma SeesNothing(clusterName: string, c: Cached, k: Key, hr: Release) returns (d: Cached)
    requires c.live.StageOf(k) == DeleteGet(hr) && c.apps == map[]
    ensures Allowed(clusterName, c, Go(k)) && d == Next(clusterName, c, Go(k)) && AtStage(c, d, k, Forget(hr))
  {
    hide AppName, DependencyName, Ready, Ref, NewApp, Store, MarkAppDeleted;
    d := Next(clusterName, c, Go(k));
  }

  lemma Releases(clusterName: string, c: Cached, k: Key, hr: Release) returns (c1: Cached, d: Cached)
    requires c.live.StageOf(k) == Forget(hr) && c.live.releases == map[k := hr] && hr.deleting && !hr.others
    requires c.apps == map[]
    ensures Allowed(clusterName, c, Go(k)) && c1 == Next(clusterName, c, Go(k))
    ensures Allowed(clusterName, c1, Go(k)) && d == Next(clusterName, c1, Go(k))
    ensures d.live.releases == map[] && d.live.apps == c.live.apps && d.apps == map[] && Untouched(c, d, k)
    ensures d.live.StageOf(k).Idle? && d.live.clock == c.live.clock + 1
  {
    hide AppName, DependencyName, Ready, Ref, NewApp, MarkAppDeleted;
    c1 := Next(clusterName, c, Go(k));
    assert c1.live.StageOf(k) == RemoveFinalizer(hr) && c1.live.releases == c.live.releases;
    d := Next(clusterName, c1, Go(k));
  }

  // ---------- the orphan ----------

  lemma Nothing(clusterName: string, c: Cached)
    ensures Leads(clusterName, c, [], c)
  {
  }

  /** n/foo gets its Application and is deleted. The controller sees the deletion, but not yet the
      Application that it wrote itself, and removes the finalizer: the Application is an orphan. */
  lemma StaleReadOrphans(clusterName: string) returns (events: seq<CacheEvent>, d: Cached)
    ensures Init(clusterName, ONE) && Leads(clusterName, Synced(ONE), events, d)
    ensures d.live.releases == map[] && AppName(clusterName, KEY, FOO) in d.live.apps
    ensures !NoOrphans(clusterName, d.live)
  {
    var c0 := Synced(ONE);
    Nothing(clusterName, c0);
    var c;
    events, c := Make(clusterName, c0, [], c0, KEY, FOO);
    hide AppName, Advance, Ref, Leads;
    var e := Step(Delete(KEY));
    var c1 := Next(clusterName, c, e);
    LeadsBy(clusterName, c0, events, c, e, c1);
    events := events + [e];
    var c2 := Next(clusterName, c1, SeeRelease(KEY));
    LeadsBy(clusterName, c0, events, c1, SeeRelease(KEY), c2);
    events := events + [SeeRelease(KEY)];
    events, d := Finalise(clusterName, c0, events, c2, KEY, FOO.(deleting := true, version := 2));
    assert !Owned(clusterName, d.live, AppName(clusterName, KEY, FOO));
  }

  // ---------- the wrong Application ----------

  /** n/foo is being deleted and has no Application. */
  const TWO := State(map[KEY := FOO.(deleting := true)], map[], map[], map[], 0)

  /** A new release gets its finalizer, and the cache sees it. */
  lemma Arrives(clusterName: string, c0: Cached, before: seq<CacheEvent>, c: Cached, k: Key)
    returns (events: seq<CacheEvent>, d: Cached)
    requires Leads(clusterName, c0, before, c) && c.live.releases == map[] && c.live.apps == map[] == c.apps
    requires c.live.StageOf(k).Idle? && '/' !in k.namespace
    ensures Leads(clusterName, c0, events, d) && Alone(d, k, FOO.(version := c.live.clock + 2))
    ensures d.live.StageOf(k).Idle? && d.live.clock == c.live.clock + 2
    ensures forall j :: j != k ==> d.live.StageOf(j) == c.live.StageOf(j)
    ensures forall j :: j != k && j in c.releases ==> j in d.releases && d.releases[j] == c.releases[j]
  {
    hide AppName, Advance, Ref, Leads;
    var e := Step(Create(k, FOO.(finalizer := false)));
    var c1, c2 := IsCreated(clusterName, c, k, e);
    hide Next, Allowed, Alone;
    LeadsBy(clusterName, c0, before, c, e, c1);
    events := before + [e];
    LeadsBy(clusterName, c0, events, c1, SeeRelease(k), c2);
    events := events + [SeeRelease(k)];
    var c3, c4, c5 := GetsFinalizer(clusterName, c2, k, FOO.(finalizer := false, version := c2.live.clock));
    LeadsBy(clusterName, c0, events, c2, Begin(k), c3);
    events := events + [Begin(k)];
    LeadsBy(clusterName, c0, events, c3, Go(k), c4);
    events := events + [Go(k)];
    LeadsBy(clusterName, c0, events, c4, Go(k), c5);
    events := events + [Go(k)];
    d := IsSeen(clusterName, c5, k);
    LeadsBy(clusterName, c0, events, c5, SeeRelease(k), d);
    events := events + [SeeRelease(k)];
  }

  lemma IsCreated(clusterName: string, c: Cached, k: Key, e: CacheEvent) returns (c1: Cached, c2: Cached)
    requires c.live.releases == map[] && '/' !in k.namespace && e == Step(Create(k, FOO.(finalizer := false)))
    ensures Allowed(clusterName, c, e) && c1 == Next(clusterName, c, e)
    ensures Allowed(clusterName, c1, SeeRelease(k)) && c2 == Next(clusterName, c1, SeeRelease(k))
    ensures c2.live == c.live.(releases := c2.live.releases, clock := c.live.clock + 1) && c2.apps == c.apps
    ensures c2.live.releases == map[k := FOO.(finalizer := false, version := c.live.clock + 1)]
    ensures c2.releases == c.releases[k := c2.live.releases[k]]
  {
    hide AppName;
    c1 := Next(clusterName, c, e);
    c2 := Next(clusterName, c1, SeeRelease(k));
  }

  lemma IsSeen(clusterName: string, c: Cached, k: Key) returns (d: Cached)
    requires c.live.releases == map[k := FOO.(version := c.live.clock)] && c.live.apps == map[] == c.apps
    ensures Allowed(clusterName, c, SeeRelease(k)) && d == Next(clusterName, c, SeeRelease(k))
    ensures Alone(d, k, FOO.(version := c.live.clock)) && d.live == c.live
    ensures d.releases == c.releases[k := c.live.releases[k]]
  {
    d := Next(clusterName, c, SeeRelease(k));
  }

  lemma GetsFinalizer(clusterName: string, c: Cached, k: Key, r: Release) returns (c1: Cached, c2: Cached, d: Cached)
    requires c.live.releases == map[k := r] && k in c.releases && c.releases[k] == r
    requires c.live.StageOf(k).Idle? && !r.finalizer && !r.deleting
    ensures Allowed(clusterName, c, Begin(k)) && c1 == Next(clusterName, c, Begin(k))
    ensures Allowed(clusterName, c1, Go(k)) && c2 == Next(clusterName, c1, Go(k))
    ensures Allowed(clusterName, c2, Go(k)) && d == Next(clusterName, c2, Go(k))
    ensures d.live.releases == map[k := r.(finalizer := true, version := c.live.clock + 1)]
    ensures d.live.clock == c.live.clock + 1 && d.live.apps == c.live.apps && d.apps == c.apps
    ensures d.live.StageOf(k).Idle? && Untouched(c, d, k)
  {
    c1, c2 := LacksFinalizer(clusterName, c, k, r);
    d := AddsFinalizer(clusterName, c2, k, r);
  }

  lemma LacksFinalizer(clusterName: string, c: Cached, k: Key, r: Release) returns (c1: Cached, c2: Cached)
    requires k in c.releases && c.releases[k] == r && c.live.StageOf(k).Idle? && !r.finalizer && !r.deleting
    ensures Allowed(clusterName, c, Begin(k)) && c1 == Next(clusterName, c, Begin(k))
    ensures Allowed(clusterName, c1, Go(k)) && c2 == Next(clusterName, c1, Go(k))
    ensures AtStage(c, c2, k, Stage.AddFinalizer(r))
  {
    hide AppName, DependencyName, Ready, Ref, NewApp, Store, MarkAppDeleted;
    c1 := Next(clusterName, c, Begin(k));
    assert c1.live.StageOf(k) == Fetched(r);
    c2 := Next(clusterName, c1, Go(k));
  }

  lemma AddsFinalizer(clusterName: string, c: Cached, k: Key, r: Release) returns (d: Cached)
    requires c.live.StageOf(k) == Stage.AddFinalizer(r) && c.live.releases == map[k := r] && !r.deleting
    ensures Allowed(clusterName, c, Go(k)) && d == Next(clusterName, c, Go(k))
    ensures d.live.releases == map[k := r.(finalizer := true, version := c.live.clock + 1)]
    ensures d.live.clock == c.live.clock + 1 && d.live.apps == c.live.apps && d.apps == c.apps
    ensures d.live.StageOf(k).Idle? && Untouched(c, d, k)
  {
    hide AppName, DependencyName, Ready, Ref, NewApp, MarkAppDeleted;
    d := Next(clusterName, c, Go(k));
  }

  /** A cached copy of a release that is gone, while another one's Application of its name is there. */
  predicate Mistaken(clusterName: string, c: Cached, k: Key, hr: Release) {
    c.live.StageOf(k).Idle? && k !in c.live.releases && k in c.releases && c.releases[k] == hr &&
    hr.deleting && hr.finalizer &&
    var name := AppName(clusterName, k, hr);
    name in c.live.apps && name in c.apps && !c.apps[name].deleting && c.live.apps[name].cascade
  }

  /** Whenever a reconcile starts from such a copy, four successful steps delete that Application. */
  lemma DeletesAnothers(clusterName: string, c0: Cached, before: seq<CacheEvent>, c: Cached, k: Key, hr: Release)
    returns (events: seq<CacheEvent>, d: Cached)
    requires Leads(clusterName, c0, before, c) && Mistaken(clusterName, c, k, hr)
    ensures Leads(clusterName, c0, events, d) && d.live.releases == c.live.releases
    ensures var name := AppName(clusterName, k, hr);
            name in d.live.apps && d.live.apps[name] == c.live.apps[name].(deleting := true)
  {
    var c1, c2, c3 := GoesToDelete(clusterName, c, k, hr);
    d := Deletes(clusterName, c3, k, hr);
    hide Leads, AppName, Next, Allowed;
    LeadsBy(clusterName, c0, before, c, Begin(k), c1);
    events := before + [Begin(k)];
    LeadsBy(clusterName, c0, events, c1, Go(k), c2);
    events := events + [Go(k)];
    LeadsBy(clusterName, c0, events, c2, Go(k), c3);
    events := events + [Go(k)];
    LeadsBy(clusterName, c0, events, c3, Go(k), d);
    events := events + [Go(k)];
  }

  lemma Deletes(clusterName: string, c: Cached, k: Key, hr: Release) returns (d: Cached)
    requires c.live.StageOf(k) == DeleteCall(hr)
    requires var name := AppName(clusterName, k, hr); name in c.live.apps && c.live.apps[name].cascade
    ensures Allowed(clusterName, c, Go(k)) && d == Next(clusterName, c, Go(k)) && d.live.releases == c.live.releases
    ensures var name := AppName(clusterName, k, hr);
            name in d.live.apps && d.live.apps[name] == c.live.apps[name].(deleting := true)
  {
    hide AppName, DependencyName, Ready, Ref, NewApp, Store;
    d := Next(clusterName, c, Go(k));
  }

  lemma GoesToDelete(clusterName: string, c: Cached, k: Key, hr: Release) returns (c1: Cached, c2: Cached, c3: Cached)
    requires Mistaken(clusterName, c, k, hr)
    ensures Allowed(clusterName, c, Begin(k)) && c1 == Next(clusterName, c, Begin(k))
    ensures Allowed(clusterName, c1, Go(k)) && c2 == Next(clusterName, c1, Go(k))
    ensures Allowed(clusterName, c2, Go(k)) && c3 == Next(clusterName, c2, Go(k))
    ensures AtStage(c, c3, k, DeleteCall(hr))
  {
    c1, c2 := StartsDeletion(clusterName, c, k, hr);
    c3 := SeesApplication(clusterName, c2, k, hr);
  }

  lemma SeesApplication(clusterName: string, c: Cached, k: Key, hr: Release) returns (d: Cached)
    requires c.live.StageOf(k) == DeleteGet(hr) && AppName(clusterName, k, hr) in c.apps
    requires !c.apps[AppName(clusterName, k, hr)].deleting
    ensures Allowed(clusterName, c, Go(k)) && d == Next(clusterName, c, Go(k)) && AtStage(c, d, k, DeleteCall(hr))
  {
    hide AppName, DependencyName, Ready, Ref, NewApp, Store, MarkAppDeleted;
    d := Next(clusterName, c, Go(k));
  }

  /** n/foo is finalised; m/foo takes its Application name and gets its Application; a reconcile of
      n/foo that starts from the old copy deletes it. */
  lemma StaleCopyDeletesAnothers(clusterName: string) returns (events: seq<CacheEvent>, d: Cached)
    ensures Init(clusterName, TWO) && Leads(clusterName, Synced(TWO), events, d)
    ensures var name := AppName(clusterName, OTHER, FOO);
            name in d.live.apps && d.live.apps[name].owner == OTHER && d.live.apps[name].deleting &&
            OTHER in d.live.releases && !d.live.releases[OTHER].deleting && KEY !in d.live.releases
  {
    var c0, hr := Synced(TWO), FOO.(deleting := true);
    Nothing(clusterName, c0);
    assert OTHER != KEY;
    var c;
    events, c := Finalise(clusterName, c0, [], c0, KEY, hr);
    events, c := Arrives(clusterName, c0, events, c, OTHER);
    events, c := Make(clusterName, c0, events, c, OTHER, FOO.(version := 3));
    var name := AppName(clusterName, OTHER, FOO);
    assert AppName(clusterName, KEY, hr) == name == AppName(clusterName, OTHER, FOO.(version := 3));
    hide AppName, Leads;
    var c1 := Next(clusterName, c, SeeApp(name));
    LeadsBy(clusterName, c0, events, c, SeeApp(name), c1);
    events := events + [SeeApp(name)];
    events, d := DeletesAnothers(clusterName, c0, events, c1, KEY, hr);
  }
}
