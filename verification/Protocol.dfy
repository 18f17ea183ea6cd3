/** The reconcile protocol as a state machine: HelmReleases, the Applications that mirror them,
    users, Argo CD, and `Reconcile` cut at each API call, any of which may fail
    (pkg/controller/helmrelease_controller.go:349-526). */
module Protocol {
  import opened Text
  import opened Naming
  import Rules

  datatype Key = Key(namespace: string, name: string)

  /** A HelmRelease. `finalizer` is this controller's own; `others` says that some other finalizer
      is present. `version` is the resourceVersion that guards updates. */
  datatype Release = Release(
    chart: Option<string>, suspend: bool, dependsOn: seq<string>,
    finalizer: bool, others: bool, deleting: bool, version: nat)

  datatype Health = Healthy | Progressing | Degraded | Suspended | Missing | Unknown

  /** An Application. `owner` is the release named in its annotation, `cascade` Argo CD's own
      resources finalizer, `succeeded` whether the last sync operation succeeded. */
  datatype Application = Application(
    owner: Key, cascade: bool, deleting: bool, synced: bool, succeeded: bool, health: Health)

  /** Where a reconcile stands, with the copy of the release it read. Each stage but `Idle` is
      about to make one API call, or to touch the registry. */
  datatype Stage =
    | Idle
    | Fetched(hr: Release)
    | AddFinalizer(hr: Release)
    | Dependencies(hr: Release, next: nat)
    | GetApp(hr: Release)
    | Sync(hr: Release, exists_: bool)
    | Write(hr: Release, exists_: bool)
    | PatchStatus(hr: Release)
    | DeleteGet(hr: Release)
    | DeleteCall(hr: Release)
    | DeleteCheck(hr: Release)
    | Forget(hr: Release)
    | RemoveFinalizer(hr: Release)

  /** `registry` maps the reference of a release to the CRDs recorded for it. */
  datatype State = State(
    releases: map<Key, Release>, apps: map<string, Application>,
    stages: map<Key, Stage>, registry: map<string, set<string>>, clock: nat)
  {
    function StageOf(k: Key): Stage {
      if k in stages then stages[k] else Idle
    }
  }

  /** What can happen. `ok` says whether the API call succeeds. */
  datatype Event =
    | Create(k: Key, release: Release)
    | Edit(k: Key, release: Release)
    | Delete(k: Key)
    | DeleteApp(name: string)
    | AppStatus(name: string, synced: bool, succeeded: bool, health: Health)
    | CascadeDone(name: string)
    | Start(k: Key, ok: bool)
    | Continue(k: Key, ok: bool, shipped: set<string>)
    | Abandon(k: Key)
    | Restart

  function AppName(clusterName: string, k: Key, r: Release): string {
    ApplicationName(k.name, r.chart, clusterName)
  }

  /** `hr.Namespace + "/" + hr.Name`. */
  function Ref(k: Key): string {
    k.namespace + "/" + k.name
  }

  /** Installed, and applied and converging. */
  predicate Ready(a: Application) {
    (a.synced || a.succeeded) && (a.health.Healthy? || a.health.Progressing?)
  }

  // ---------- what users and Argo CD may do ----------

  /** The assumptions: users leave the controller's finalizer and the deletion mark alone, live
      releases have distinct Application names, and no release changes its Application name. */
  predicate Enabled(clusterName: string, s: State, e: Event) {
    match e
    case Create(k, r) =>
      k !in s.releases && !r.finalizer && !r.deleting && '/' !in k.namespace &&
      forall j :: j in s.releases ==> AppName(clusterName, j, s.releases[j]) != AppName(clusterName, k, r)
    case Edit(k, r) =>
      k in s.releases && r.finalizer == s.releases[k].finalizer && r.deleting == s.releases[k].deleting &&
      (r.deleting && r.others ==> s.releases[k].others) &&
      AppName(clusterName, k, r) == AppName(clusterName, k, s.releases[k])
    case Delete(k) => k in s.releases
    case DeleteApp(name) => name in s.apps
    case AppStatus(name, _, _, _) => name in s.apps
    case CascadeDone(name) => name in s.apps && s.apps[name].deleting && s.apps[name].cascade
    case Start(k, _) => s.StageOf(k).Idle?
    case Continue(k, _, _) => !s.StageOf(k).Idle?
    case Abandon(_) => true
    case Restart => true
  }

  /** Store a release under a new version, or drop it once it is deleted and has no finalizers. */
  function Store(s: State, k: Key, r: Release): (t: State)
    ensures t.apps == s.apps && t.stages == s.stages && t.registry == s.registry
  {
    if r.deleting && !r.finalizer && !r.others then s.(releases := s.releases - {k}, clock := s.clock + 1)
    else s.(releases := s.releases[k := r.(version := s.clock + 1)], clock := s.clock + 1)
  }

  function MarkAppDeleted(s: State, name: string): (t: State)
    requires name in s.apps
    ensures t.apps.Keys <= s.apps.Keys && t.releases == s.releases && t.clock == s.clock
    ensures t.stages == s.stages && t.registry == s.registry
  {
    if s.apps[name].cascade then s.(apps := s.apps[name := s.apps[name].(deleting := true)])
    else s.(apps := s.apps - {name})
  }

  function SetStage(s: State, k: Key, stage: Stage): (t: State)
    ensures t.StageOf(k) == stage && forall j :: j != k ==> t.StageOf(j) == s.StageOf(j)
  {
    s.(stages := s.stages[k := stage])
  }

  function NewApp(k: Key): Application {
    Application(k, true, false, false, false, Missing)
  }

  /** One step of a reconcile. */
  function Advance(clusterName: string, s: State, k: Key, ok: bool, shipped: set<string>): State {
    match s.StageOf(k)
    case Idle => s
    case Fetched(hr) =>
      // The Argo CD namespace may be looked up here; then come the branches of Reconcile.
      SetStage(s, k,
        if !ok then Idle
        else if hr.deleting then (if hr.finalizer then DeleteGet(hr) else Idle)
        else if !hr.finalizer then AddFinalizer(hr)
        else if hr.suspend then Idle
        else Dependencies(hr, 0))
    case AddFinalizer(hr) =>
      var stored := ok && k in s.releases && s.releases[k].version == hr.version;
      SetStage(if stored then Store(s, k, hr.(finalizer := true)) else s, k, Idle)
    case Dependencies(hr, next) =>
      SetStage(s, k,
        if next >= |hr.dependsOn| then GetApp(hr)
        else
          var name := DependencyName(hr.dependsOn[next], clusterName);
          if ok && name in s.apps && Ready(s.apps[name]) then Dependencies(hr, next + 1) else Idle)
    case GetApp(hr) =>
      SetStage(s, k, if ok then Sync(hr, AppName(clusterName, k, hr) in s.apps) else Idle)
    case Sync(hr, exists_) =>
      // Looking up the repository and the values may fail; after that the CRDs are recorded.
      if !ok || hr.chart.None? then SetStage(s, k, Idle)
      else SetStage(s.(registry := s.registry[Ref(k) := shipped]), k, Write(hr, exists_))
    case Write(hr, exists_) =>
      var name := AppName(clusterName, k, hr);
      if !ok then SetStage(s, k, Idle)
      else if !exists_ then
        if name in s.apps then SetStage(s, k, Idle)
        else SetStage(s.(apps := s.apps[name := NewApp(k)]), k, PatchStatus(hr))
      else if name !in s.apps || (s.apps[name].deleting && !s.apps[name].cascade) then SetStage(s, k, Idle)
      else SetStage(s.(apps := s.apps[name := s.apps[name].(owner := k, cascade := true)]), k, PatchStatus(hr))
    case PatchStatus(hr) =>
      SetStage(if ok && k in s.releases then Store(s, k, s.releases[k]) else s, k, Idle)
    case DeleteGet(hr) =>
      var name := AppName(clusterName, k, hr);
      SetStage(s, k,
        if !ok then Idle
        else if name !in s.apps then Forget(hr)
        else if s.apps[name].deleting then DeleteCheck(hr)
        else DeleteCall(hr))
    case DeleteCall(hr) =>
      var name := AppName(clusterName, k, hr);
      if !ok then SetStage(s, k, Idle)
      else SetStage(if name in s.apps then MarkAppDeleted(s, name) else s, k, DeleteCheck(hr))
    case DeleteCheck(hr) =>
      SetStage(s, k, if ok && AppName(clusterName, k, hr) !in s.apps then Forget(hr) else Idle)
    case Forget(hr) =>
      SetStage(s.(registry := s.registry - {Ref(k)}), k, RemoveFinalizer(hr))
    case RemoveFinalizer(hr) =>
      var stored := ok && k in s.releases && s.releases[k].version == hr.version;
      SetStage(if stored then Store(s, k, hr.(finalizer := false)) else s, k, Idle)
  }

  function Apply(clusterName: string, s: State, e: Event): State
    requires Enabled(clusterName, s, e)
  {
    match e
    case Create(k, r) => Store(s, k, r)
    case Edit(k, r) => Store(s, k, r)
    case Delete(k) => Store(s, k, s.releases[k].(deleting := true))
    case DeleteApp(name) => MarkAppDeleted(s, name)
    case AppStatus(name, synced, succeeded, health) =>
      s.(apps := s.apps[name := s.apps[name].(synced := synced, succeeded := succeeded, health := health)])
    case CascadeDone(name) => s.(apps := s.apps - {name})
    case Start(k, ok) => if ok && k in s.releases then SetStage(s, k, Fetched(s.releases[k])) else s
    case Continue(k, ok, shipped) => Advance(clusterName, s, k, ok, shipped)
    case Abandon(k) => SetStage(s, k, Idle)
    case Restart => s.(stages := map[], registry := map[])
  }

  // ---------- the invariant ----------

  /** Every Application belongs to a release that exists, carries the finalizer and has its name. */
  ghost predicate NoOrphans(clusterName: string, s: State) {
    forall name :: name in s.apps ==> Owned(clusterName, s, name)
  }

  ghost predicate Owned(clusterName: string, s: State, name: string)
    requires name in s.apps
  {
    var k := s.apps[name].owner;
    k in s.releases && s.releases[k].finalizer && AppName(clusterName, k, s.releases[k]) == name
  }

  ghost predicate DistinctNames(clusterName: string, s: State) {
    forall j, k :: j in s.releases && k in s.releases && j != k ==>
      AppName(clusterName, j, s.releases[j]) != AppName(clusterName, k, s.releases[k])
  }

  ghost predicate ValidNamespaces(s: State) {
    forall k :: k in s.releases ==> '/' !in k.namespace
  }

  ghost predicate VersionsBounded(s: State) {
    forall k :: k in s.releases ==> s.releases[k].version <= s.clock
  }

  /** Every recorded reference is that of a release that exists and carries the finalizer. */
  ghost predicate RegistrySound(s: State) {
    forall ref :: ref in s.registry ==> HasFinalized(s, ref)
  }

  /** The reference is that of a release that exists and carries the finalizer. */
  ghost predicate HasFinalized(s: State, ref: string) {
    exists k :: k in s.releases && s.releases[k].finalizer && Ref(k) == ref
  }

  /** What a stage knows about its copy of the release. */
  ghost predicate StageSound(clusterName: string, s: State, k: Key) {
    var stage := s.StageOf(k);
    !stage.Idle? ==>
      var hr := stage.hr;
      hr.version <= s.clock &&
      (k in s.releases && s.releases[k].version == hr.version ==> s.releases[k] == hr) &&
      (hr.finalizer ==>
        k in s.releases && s.releases[k].finalizer &&
        AppName(clusterName, k, s.releases[k]) == AppName(clusterName, k, hr)) &&
      (stage.Fetched? || stage.AddFinalizer? || hr.finalizer) &&
      (stage.AddFinalizer? ==> !hr.deleting) &&
      (stage.Forget? || stage.RemoveFinalizer? ==> AppName(clusterName, k, hr) !in s.apps) &&
      (stage.RemoveFinalizer? ==> Ref(k) !in s.registry)
  }

  ghost predicate Inv(clusterName: string, s: State) {
    NoOrphans(clusterName, s) && DistinctNames(clusterName, s) && ValidNamespaces(s) && VersionsBounded(s) &&
    RegistrySound(s) &&
    forall k :: StageSound(clusterName, s, k)
  }

  /** A cluster when the controller starts: no reconcile under way and nothing recorded; releases
      with distinct names, and no Applications but those an earlier controller left for them. */
  ghost predicate Init(clusterName: string, s: State) {
    NoOrphans(clusterName, s) && s.stages == map[] && s.registry == map[] &&
    DistinctNames(clusterName, s) && ValidNamespaces(s) && VersionsBounded(s)
  }

  lemma InitInv(clusterName: string, s: State)
    requires Init(clusterName, s)
    ensures Inv(clusterName, s)
  {
  }

  /** Storing a release that keeps its finalizer, or that no reconcile is about, keeps what each
      stage knows. */
  lemma StoreStage(clusterName: string, s: State, k: Key, r: Release, j: Key)
    requires VersionsBounded(s) && StageSound(clusterName, s, j)
    requires k in s.releases && j == k && !s.StageOf(k).Idle? ==>
               AppName(clusterName, k, r) == AppName(clusterName, k, s.releases[k]) &&
               (s.releases[k].finalizer ==> r.finalizer)
    ensures StageSound(clusterName, Store(s, k, r), j)
  {
    hide ApplicationName, Ref;
  }

  lemma StoreFinalized(s: State, k: Key, r: Release, ref: string)
    requires HasFinalized(s, ref) && (k in s.releases && s.releases[k].finalizer && Ref(k) == ref ==> r.finalizer)
    ensures HasFinalized(Store(s, k, r), ref)
  {
    hide Ref;
    var j :| j in s.releases && s.releases[j].finalizer && Ref(j) == ref;
    assert j in Store(s, k, r).releases;
  }

  lemma StoreNames(clusterName: string, s: State, k: Key, r: Release)
    requires DistinctNames(clusterName, s)
    requires k in s.releases && AppName(clusterName, k, r) == AppName(clusterName, k, s.releases[k])
    ensures DistinctNames(clusterName, Store(s, k, r))
  {
    hide ApplicationName;
    var t := Store(s, k, r);
    forall j | j in t.releases
      ensures j in s.releases && AppName(clusterName, j, t.releases[j]) == AppName(clusterName, j, s.releases[j])
    {}
    hide AppName;
  }

  /** Writing release `k` under the same Application name keeps the invariant, as long as its
      finalizer stays. */
  lemma StoreInv(clusterName: string, s: State, k: Key, r: Release)
    requires Inv(clusterName, s)
    requires k in s.releases && AppName(clusterName, k, r) == AppName(clusterName, k, s.releases[k])
    requires s.releases[k].finalizer ==> r.finalizer
    ensures Inv(clusterName, Store(s, k, r))
  {
    hide ApplicationName, Ref, StageSound, HasFinalized, DistinctNames;
    var t := Store(s, k, r);
    StoreNames(clusterName, s, k, r);
    forall name | name in t.apps ensures Owned(clusterName, t, name) { assert Owned(clusterName, s, name); }
    forall j ensures StageSound(clusterName, t, j) { StoreStage(clusterName, s, k, r, j); }
    forall ref | ref in t.registry ensures HasFinalized(t, ref) { StoreFinalized(s, k, r, ref); }
  }

  lemma CreateInv(clusterName: string, s: State, k: Key, r: Release)
    requires Inv(clusterName, s) && Enabled(clusterName, s, Create(k, r))
    ensures Inv(clusterName, Store(s, k, r))
  {
    hide ApplicationName, Ref, StageSound, HasFinalized;
    var t := Store(s, k, r);
    forall name | name in t.apps ensures Owned(clusterName, t, name) { assert Owned(clusterName, s, name); }
    forall j ensures StageSound(clusterName, t, j) { StoreStage(clusterName, s, k, r, j); }
    forall ref | ref in t.registry ensures HasFinalized(t, ref) { StoreFinalized(s, k, r, ref); }
  }

  /** Removing an Application, or changing one without changing its owner, keeps the invariant. */
  lemma AppsInv(clusterName: string, s: State, t: State)
    requires Inv(clusterName, s)
    requires t == s.(apps := t.apps) && t.apps.Keys <= s.apps.Keys
    requires forall name :: name in t.apps ==> t.apps[name].owner == s.apps[name].owner
    ensures Inv(clusterName, t)
  {
    forall name | name in t.apps ensures Owned(clusterName, t, name) { assert Owned(clusterName, s, name); }
    forall j ensures StageSound(clusterName, t, j) { assert StageSound(clusterName, s, j); }
  }

  /** Moving one reconcile to a sound stage keeps the invariant. */
  lemma SetStageInv(clusterName: string, s: State, k: Key, stage: Stage)
    requires Inv(clusterName, s)
    requires StageSound(clusterName, SetStage(s, k, stage), k)
    ensures Inv(clusterName, SetStage(s, k, stage))
  {
    var t := SetStage(s, k, stage);
    forall name | name in t.apps ensures Owned(clusterName, t, name) { assert Owned(clusterName, s, name); }
    forall j ensures StageSound(clusterName, t, j) { assert StageSound(clusterName, s, j); }
  }

  lemma RefInjective(j: Key, k: Key)
    requires '/' !in j.namespace && '/' !in k.namespace && Ref(j) == Ref(k)
    ensures j == k
  {
    Rules.CutAtSlash(j.namespace, j.name, k.namespace, k.name);
  }

  /** Recording the CRDs of a release while its reconcile is syncing. */
  lemma RecordInv(clusterName: string, s: State, k: Key, shipped: set<string>)
    requires Inv(clusterName, s) && s.StageOf(k).Sync?
    ensures Inv(clusterName, s.(registry := s.registry[Ref(k) := shipped]))
  {
    var t := s.(registry := s.registry[Ref(k) := shipped]);
    assert StageSound(clusterName, s, k);
    forall name | name in t.apps ensures Owned(clusterName, t, name) { assert Owned(clusterName, s, name); }
    forall j ensures StageSound(clusterName, t, j) {
      assert StageSound(clusterName, s, j);
      if s.StageOf(j).RemoveFinalizer? && Ref(j) == Ref(k) {
        RefInjective(j, k);
      }
    }
  }

  /** Forgetting a release. */
  lemma ForgetInv(clusterName: string, s: State, k: Key)
    requires Inv(clusterName, s)
    ensures Inv(clusterName, s.(registry := s.registry - {Ref(k)}))
  {
    var t := s.(registry := s.registry - {Ref(k)});
    forall name | name in t.apps ensures Owned(clusterName, t, name) { assert Owned(clusterName, s, name); }
    forall j ensures StageSound(clusterName, t, j) { assert StageSound(clusterName, s, j); }
    assert forall ref :: ref in t.registry ==> ref in s.registry;
  }

  /** Writing the Application of a release whose reconcile has reached the write. */
  lemma WriteInv(clusterName: string, s: State, k: Key, a: Application)
    requires Inv(clusterName, s) && s.StageOf(k).Write? && a.owner == k
    ensures var name := AppName(clusterName, k, s.StageOf(k).hr);
            Inv(clusterName, SetStage(s.(apps := s.apps[name := a]), k, PatchStatus(s.StageOf(k).hr)))
  {
    hide ApplicationName, Ref;
    var hr := s.StageOf(k).hr;
    var name := AppName(clusterName, k, hr);
    var t := SetStage(s.(apps := s.apps[name := a]), k, PatchStatus(hr));
    assert StageSound(clusterName, s, k);
    forall n | n in t.apps ensures Owned(clusterName, t, n) {
      if n in s.apps { assert Owned(clusterName, s, n); }
    }
    forall j ensures StageSound(clusterName, t, j) { assert StageSound(clusterName, s, j); }
  }

  /** Dropping the finalizer of a release that has no Application and is not recorded. */
  lemma DropFinalizerInv(clusterName: string, s: State, k: Key, r: Release)
    requires Inv(clusterName, s) && s.StageOf(k).Idle? && k in s.releases
    requires AppName(clusterName, k, r) == AppName(clusterName, k, s.releases[k])
    requires AppName(clusterName, k, r) !in s.apps && Ref(k) !in s.registry
    ensures Inv(clusterName, Store(s, k, r))
  {
    hide ApplicationName, Ref, StageSound, HasFinalized, DistinctNames;
    var t := Store(s, k, r);
    StoreNames(clusterName, s, k, r);
    forall name | name in t.apps ensures Owned(clusterName, t, name) { assert Owned(clusterName, s, name); }
    forall j ensures StageSound(clusterName, t, j) { StoreStage(clusterName, s, k, r, j); }
    forall ref | ref in t.registry ensures HasFinalized(t, ref) { StoreFinalized(s, k, r, ref); }
  }

  lemma RemoveFinalizerInv(clusterName: string, s: State, k: Key)
    requires Inv(clusterName, s) && s.StageOf(k).RemoveFinalizer?
    requires k in s.releases && s.releases[k].version == s.StageOf(k).hr.version
    ensures Inv(clusterName, SetStage(Store(s, k, s.StageOf(k).hr.(finalizer := false)), k, Idle))
  {
    assert StageSound(clusterName, s, k);
    LeaveInv(clusterName, s, k);
    var r := s.StageOf(k).hr.(finalizer := false);
    assert AppName(clusterName, k, r) == AppName(clusterName, k, s.releases[k]);
    hide Inv;
    DropFinalizerInv(clusterName, SetStage(s, k, Idle), k, r);
    assert Store(SetStage(s, k, Idle), k, r) == SetStage(Store(s, k, r), k, Idle);
  }

  /** Ending any number of reconciles keeps the invariant. */
  lemma IdleInv(clusterName: string, s: State, t: State)
    requires Inv(clusterName, s)
    requires t == s.(stages := t.stages) && forall k :: t.StageOf(k) == s.StageOf(k) || t.StageOf(k).Idle?
    ensures Inv(clusterName, t)
  {
    hide ApplicationName;
    forall name | name in t.apps ensures Owned(clusterName, t, name) { assert Owned(clusterName, s, name); }
    forall j ensures StageSound(clusterName, t, j) { assert StageSound(clusterName, s, j); }
  }

  /** The stages that only read, or only decide where to go next. */
  lemma ReadStageInv(clusterName: string, s: State, k: Key, ok: bool, shipped: set<string>)
    requires Inv(clusterName, s)
    requires var stage := s.StageOf(k);
             stage.Fetched? || stage.Dependencies? || stage.GetApp? || stage.DeleteGet? || stage.DeleteCheck?
    ensures Inv(clusterName, Advance(clusterName, s, k, ok, shipped))
  {
    var stage := Advance(clusterName, s, k, ok, shipped).StageOf(k);
    assert StageSound(clusterName, s, k);
    ReadStageSound(clusterName, s, k, ok, shipped);
    hide Inv, Advance;
    SetStageInv(clusterName, s, k, stage);
  }

  lemma ReadStageSound(clusterName: string, s: State, k: Key, ok: bool, shipped: set<string>)
    requires StageSound(clusterName, s, k)
    requires var stage := s.StageOf(k);
             stage.Fetched? || stage.Dependencies? || stage.GetApp? || stage.DeleteGet? || stage.DeleteCheck?
    ensures var t := Advance(clusterName, s, k, ok, shipped);
            t == SetStage(s, k, t.StageOf(k)) && StageSound(clusterName, t, k)
  {
    hide ApplicationName, DependencyName, Ready, Ref, NewApp, Store, MarkAppDeleted;
  }

  /** Leaving a reconcile, after an error or at its end. */
  lemma LeaveInv(clusterName: string, s: State, k: Key)
    requires Inv(clusterName, s)
    ensures Inv(clusterName, SetStage(s, k, Idle))
  {
    SetStageInv(clusterName, s, k, Idle);
  }

  lemma StoreStageInv(clusterName: string, s: State, k: Key, r: Release)
    requires Inv(clusterName, s)
    requires k in s.releases && AppName(clusterName, k, r) == AppName(clusterName, k, s.releases[k])
    requires s.releases[k].finalizer ==> r.finalizer
    ensures Inv(clusterName, SetStage(Store(s, k, r), k, Idle))
  {
    StoreInv(clusterName, s, k, r);
    LeaveInv(clusterName, Store(s, k, r), k);
  }

  lemma AddFinalizerStageInv(clusterName: string, s: State, k: Key, ok: bool, shipped: set<string>)
    requires Inv(clusterName, s) && s.StageOf(k).AddFinalizer?
    ensures Inv(clusterName, Advance(clusterName, s, k, ok, shipped))
  {
    var hr := s.StageOf(k).hr;
    assert StageSound(clusterName, s, k);
    if ok && k in s.releases && s.releases[k].version == hr.version {
      StoreStageInv(clusterName, s, k, hr.(finalizer := true));
    } else {
      LeaveInv(clusterName, s, k);
    }
  }

  lemma SyncStageInv(clusterName: string, s: State, k: Key, ok: bool, shipped: set<string>)
    requires Inv(clusterName, s) && s.StageOf(k).Sync?
    ensures Inv(clusterName, Advance(clusterName, s, k, ok, shipped))
  {
    var stage := s.StageOf(k);
    assert StageSound(clusterName, s, k);
    if !ok || stage.hr.chart.None? {
      LeaveInv(clusterName, s, k);
    } else {
      RecordInv(clusterName, s, k, shipped);
      SetStageInv(clusterName, s.(registry := s.registry[Ref(k) := shipped]), k, Write(stage.hr, stage.exists_));
    }
  }

  lemma WriteStageInv(clusterName: string, s: State, k: Key, ok: bool, shipped: set<string>)
    requires Inv(clusterName, s) && s.StageOf(k).Write?
    ensures Inv(clusterName, Advance(clusterName, s, k, ok, shipped))
  {
    var name := AppName(clusterName, k, s.StageOf(k).hr);
    LeaveInv(clusterName, s, k);
    WriteInv(clusterName, s, k, NewApp(k));
    if name in s.apps {
      WriteInv(clusterName, s, k, s.apps[name].(owner := k, cascade := true));
    }
    hide Inv;
  }

  lemma PatchStatusStageInv(clusterName: string, s: State, k: Key, ok: bool, shipped: set<string>)
    requires Inv(clusterName, s) && s.StageOf(k).PatchStatus?
    ensures Inv(clusterName, Advance(clusterName, s, k, ok, shipped))
  {
    if ok && k in s.releases {
      StoreStageInv(clusterName, s, k, s.releases[k]);
    } else {
      LeaveInv(clusterName, s, k);
    }
  }

  lemma DeleteCallStageInv(clusterName: string, s: State, k: Key, ok: bool, shipped: set<string>)
    requires Inv(clusterName, s) && s.StageOf(k).DeleteCall?
    ensures Inv(clusterName, Advance(clusterName, s, k, ok, shipped))
  {
    if !ok {
      LeaveInv(clusterName, s, k);
    } else {
      var hr := s.StageOf(k).hr;
      var name := AppName(clusterName, k, hr);
      var t := if name in s.apps then MarkAppDeleted(s, name) else s;
      AppsInv(clusterName, s, t);
      assert StageSound(clusterName, s, k);
      SetStageInv(clusterName, t, k, DeleteCheck(hr));
    }
  }

  lemma ForgetStageInv(clusterName: string, s: State, k: Key, ok: bool, shipped: set<string>)
    requires Inv(clusterName, s) && s.StageOf(k).Forget?
    ensures Inv(clusterName, Advance(clusterName, s, k, ok, shipped))
  {
    ForgetInv(clusterName, s, k);
    assert StageSound(clusterName, s, k);
    SetStageInv(clusterName, s.(registry := s.registry - {Ref(k)}), k, RemoveFinalizer(s.StageOf(k).hr));
  }

  lemma RemoveFinalizerStageInv(clusterName: string, s: State, k: Key, ok: bool, shipped: set<string>)
    requires Inv(clusterName, s) && s.StageOf(k).RemoveFinalizer?
    ensures Inv(clusterName, Advance(clusterName, s, k, ok, shipped))
  {
    if ok && k in s.releases && s.releases[k].version == s.StageOf(k).hr.version {
      RemoveFinalizerInv(clusterName, s, k);
    } else {
      LeaveInv(clusterName, s, k);
    }
  }

  lemma AdvanceInv(clusterName: string, s: State, k: Key, ok: bool, shipped: set<string>)
    requires Inv(clusterName, s)
    ensures Inv(clusterName, Advance(clusterName, s, k, ok, shipped))
  {
    match s.StageOf(k) {
      case Idle =>
      case AddFinalizer(_) => AddFinalizerStageInv(clusterName, s, k, ok, shipped);
      case Sync(_, _) => SyncStageInv(clusterName, s, k, ok, shipped);
      case Write(_, _) => WriteStageInv(clusterName, s, k, ok, shipped);
      case PatchStatus(_) => PatchStatusStageInv(clusterName, s, k, ok, shipped);
      case DeleteCall(_) => DeleteCallStageInv(clusterName, s, k, ok, shipped);
      case Forget(_) => ForgetStageInv(clusterName, s, k, ok, shipped);
      case RemoveFinalizer(_) => RemoveFinalizerStageInv(clusterName, s, k, ok, shipped);
      case _ => ReadStageInv(clusterName, s, k, ok, shipped);
    }
  }

  lemma FetchInv(clusterName: string, s: State, k: Key)
    requires Inv(clusterName, s) && k in s.releases
    ensures Inv(clusterName, SetStage(s, k, Fetched(s.releases[k])))
  {
    SetStageInv(clusterName, s, k, Fetched(s.releases[k]));
  }

  /** A new controller process knows nothing of earlier reconciles. */
  lemma RestartInv(clusterName: string, s: State)
    requires Inv(clusterName, s)
    ensures Inv(clusterName, s.(stages := map[], registry := map[]))
  {
    var t := s.(stages := map[], registry := map[]);
    forall name | name in t.apps ensures Owned(clusterName, t, name) { assert Owned(clusterName, s, name); }
  }

  /** Every step of users, Argo CD and the controller keeps the invariant. */
  lemma StepInv(clusterName: string, s: State, e: Event)
    requires Inv(clusterName, s) && Enabled(clusterName, s, e)
    ensures Inv(clusterName, Apply(clusterName, s, e))
  {
    hide ApplicationName, Advance, Inv;
    var t := Apply(clusterName, s, e);
    match e {
      case Create(k, r) => CreateInv(clusterName, s, k, r);
      case Edit(k, r) => StoreInv(clusterName, s, k, r);
      case Delete(k) => StoreInv(clusterName, s, k, s.releases[k].(deleting := true));
      case DeleteApp(_) => AppsInv(clusterName, s, t);
      case AppStatus(_, _, _, _) => AppsInv(clusterName, s, t);
      case CascadeDone(_) => AppsInv(clusterName, s, t);
      case Start(k, ok) =>
        if ok && k in s.releases { FetchInv(clusterName, s, k); }
      case Continue(k, ok, shipped) => AdvanceInv(clusterName, s, k, ok, shipped);
      case Abandon(k) => LeaveInv(clusterName, s, k);
      case Restart => RestartInv(clusterName, s);
    }
  }

  // ---------- runs ----------

  /** Each event is enabled when it happens. */
  predicate ValidRun(clusterName: string, s: State, events: seq<Event>)
    decreases |events|
  {
    events == [] ||
    (Enabled(clusterName, s, events[0]) && ValidRun(clusterName, Apply(clusterName, s, events[0]), events[1..]))
  }

  function Run(clusterName: string, s: State, events: seq<Event>): State
    requires ValidRun(clusterName, s, events)
    decreases |events|
  {
    if events == [] then s else Run(clusterName, Apply(clusterName, s, events[0]), events[1..])
  }

  lemma {:induction false} RunAppend(clusterName: string, s: State, a: seq<Event>, b: seq<Event>)
    requires ValidRun(clusterName, s, a) && ValidRun(clusterName, Run(clusterName, s, a), b)
    ensures ValidRun(clusterName, s, a + b)
    ensures Run(clusterName, s, a + b) == Run(clusterName, Run(clusterName, s, a), b)
    decreases |a|
  {
    if a == [] {
      assert a + b == b;
    } else {
      RunAppend(clusterName, Apply(clusterName, s, a[0]), a[1..], b);
      assert (a + b)[1..] == a[1..] + b;
    }
  }

  lemma {:induction false} RunPrefix(clusterName: string, s: State, events: seq<Event>, n: nat)
    requires ValidRun(clusterName, s, events) && n < |events|
    ensures ValidRun(clusterName, s, events[..n]) && ValidRun(clusterName, s, events[..n+1])
    ensures Enabled(clusterName, Run(clusterName, s, events[..n]), events[n])
    ensures Run(clusterName, s, events[..n+1]) ==
            Apply(clusterName, Run(clusterName, s, events[..n]), events[n])
    decreases n
  {
    var t := Apply(clusterName, s, events[0]);
    assert events[..n+1][1..] == events[1..][..n];
    if n > 0 {
      RunPrefix(clusterName, t, events[1..], n - 1);
      assert events[..n][1..] == events[1..][..n-1];
    } else {
      assert events[..0] == [];
      assert events[1..][..0] == [];
    }
  }

  /** The state after `n` events. */
  function At(clusterName: string, s: State, events: seq<Event>, n: nat): State
    requires ValidRun(clusterName, s, events) && n <= |events|
  {
    PrefixValid(clusterName, s, events, n);
    Run(clusterName, s, events[..n])
  }

  lemma PrefixValid(clusterName: string, s: State, events: seq<Event>, n: nat)
    requires ValidRun(clusterName, s, events) && n <= |events|
    ensures ValidRun(clusterName, s, events[..n])
  {
    if n < |events| {
      RunPrefix(clusterName, s, events, n);
    } else {
      assert events[..n] == events;
    }
  }

  lemma AtStep(clusterName: string, s: State, events: seq<Event>, n: nat)
    requires ValidRun(clusterName, s, events) && n < |events|
    ensures Enabled(clusterName, At(clusterName, s, events, n), events[n])
    ensures At(clusterName, s, events, n + 1) == Apply(clusterName, At(clusterName, s, events, n), events[n])
  {
    RunPrefix(clusterName, s, events, n);
  }

  lemma {:induction false} RunInv(clusterName: string, s: State, events: seq<Event>)
    requires Inv(clusterName, s) && ValidRun(clusterName, s, events)
    ensures Inv(clusterName, Run(clusterName, s, events))
    decreases |events|
  {
    if events != [] {
      StepInv(clusterName, s, events[0]);
      RunInv(clusterName, Apply(clusterName, s, events[0]), events[1..]);
    }
  }

  /** No orphans: in every interleaving, whatever fails, every Application belongs to a release
      that exists and carries the finalizer. */
  lemma NoOrphansEver(clusterName: string, s: State, events: seq<Event>)
    requires Init(clusterName, s) && ValidRun(clusterName, s, events)
    ensures NoOrphans(clusterName, Run(clusterName, s, events))
  {
    InitInv(clusterName, s);
    RunInv(clusterName, s, events);
  }

  /** From the gate on, the release as it was read had the controller's finalizer, was not being
      deleted and was not suspended; what is written has a chart. */
  predicate Asked(stage: Stage) {
    (stage.Dependencies? || stage.GetApp? || stage.Sync? || stage.Write? || stage.PatchStatus? ==>
      stage.hr.finalizer && !stage.hr.deleting && !stage.hr.suspend) &&
    (stage.Write? ==> stage.hr.chart.Some?)
  }

  lemma AdvanceAsked(clusterName: string, s: State, k: Key, ok: bool, shipped: set<string>)
    requires Asked(s.StageOf(k))
    ensures Asked(Advance(clusterName, s, k, ok, shipped).StageOf(k))
  {
    hide AppName, DependencyName, Ready, Ref, NewApp, Store, MarkAppDeleted;
  }

  /** A step of one reconcile leaves the others where they are. */
  lemma AdvanceOthers(clusterName: string, s: State, k: Key, ok: bool, shipped: set<string>, j: Key)
    requires j != k
    ensures Advance(clusterName, s, k, ok, shipped).StageOf(j) == s.StageOf(j)
  {
    hide ApplicationName, DependencyName, Ready, Ref, NewApp, Store, SetStage, MarkAppDeleted;
  }

  /** A step writes releases or Applications, not both, and creates an Application only in the
      write stage. */
  lemma AdvanceWrites(clusterName: string, s: State, k: Key, ok: bool, shipped: set<string>)
    ensures var t := Advance(clusterName, s, k, ok, shipped);
            t.apps.Keys <= s.apps.Keys +
              (if s.StageOf(k).Write? then {AppName(clusterName, k, s.StageOf(k).hr)} else {}) &&
            (t.releases == s.releases || t.apps == s.apps)
  {
    hide ApplicationName, DependencyName, Ready, Ref, NewApp, Store, MarkAppDeleted;
  }

  /** Three stages write the release. */
  predicate WritesRelease(stage: Stage) {
    stage.AddFinalizer? || stage.PatchStatus? || stage.RemoveFinalizer?
  }

  lemma AdvanceSameReleases(clusterName: string, s: State, k: Key, ok: bool, shipped: set<string>)
    requires !WritesRelease(s.StageOf(k))
    ensures var t := Advance(clusterName, s, k, ok, shipped);
            t.releases == s.releases && t.clock == s.clock
  {
    hide AppName, DependencyName, Ready, Ref, NewApp, MarkAppDeleted, Store;
    match s.StageOf(k)
    case Write(_, _) => WriteSameReleases(clusterName, s, k, ok, shipped); hide Advance;
    case _ =>
  }

  lemma WriteSameReleases(clusterName: string, s: State, k: Key, ok: bool, shipped: set<string>)
    requires s.StageOf(k).Write?
    ensures var t := Advance(clusterName, s, k, ok, shipped);
            t.releases == s.releases && t.clock == s.clock
  {
    hide AppName, NewApp;
  }

  lemma AtInv(clusterName: string, s: State, events: seq<Event>, n: nat)
    requires Init(clusterName, s) && ValidRun(clusterName, s, events) && n <= |events|
    ensures Inv(clusterName, At(clusterName, s, events, n))
  {
    InitInv(clusterName, s);
    PrefixValid(clusterName, s, events, n);
    RunInv(clusterName, s, events[..n]);
  }

  /** Whose the Application of a name is: that of the release that bears the name, if there is one. */
  lemma OwnerIs(clusterName: string, s: State, k: Key, name: string)
    requires NoOrphans(clusterName, s) && DistinctNames(clusterName, s) && name in s.apps
    ensures s.apps[name].owner == k <==> k in s.releases && AppName(clusterName, k, s.releases[k]) == name
  {
    hide AppName;
    assert Owned(clusterName, s, name);
  }

  /** In every run a delete call and a patch only ever hit the release's own Application. */
  lemma HitsOnlyOwn(clusterName: string, s: State, events: seq<Event>, k: Key)
    requires Init(clusterName, s) && ValidRun(clusterName, s, events)
    ensures var t := Run(clusterName, s, events);
            var stage := t.StageOf(k);
            stage.DeleteCall? || stage.Write? ==>
              var name := AppName(clusterName, k, stage.hr);
              name in t.apps ==> t.apps[name].owner == k
  {
    InitInv(clusterName, s);
    RunInv(clusterName, s, events);
    var t := Run(clusterName, s, events);
    assert StageSound(clusterName, t, k);
    hide AppName, Run;
    if !t.StageOf(k).Idle? && AppName(clusterName, k, t.StageOf(k).hr) in t.apps {
      OwnerIs(clusterName, t, k, AppName(clusterName, k, t.StageOf(k).hr));
    }
  }

  /** A step that takes a release away leaves the Applications alone. */
  lemma VanishKeepsApps(clusterName: string, s: State, e: Event, k: Key)
    requires Enabled(clusterName, s, e) && k in s.releases && k !in Apply(clusterName, s, e).releases
    ensures Apply(clusterName, s, e).apps == s.apps
  {
    if e.Continue? { AdvanceWrites(clusterName, s, e.k, e.ok, e.shipped); }
    hide Advance, ApplicationName;
  }

  /** A release vanishes only when it has no Application. */
  lemma VanishesAfterApp(clusterName: string, s: State, events: seq<Event>, n: nat, k: Key, name: string)
    requires Init(clusterName, s) && ValidRun(clusterName, s, events) && n < |events|
    ensures ValidRun(clusterName, s, events[..n]) && ValidRun(clusterName, s, events[..n+1])
    ensures var before, after := Run(clusterName, s, events[..n]), Run(clusterName, s, events[..n+1]);
            k in before.releases && k !in after.releases && name in before.apps ==> before.apps[name].owner != k
  {
    RunPrefix(clusterName, s, events, n);
    var before, after := Run(clusterName, s, events[..n]), Run(clusterName, s, events[..n+1]);
    NoOrphansEver(clusterName, s, events[..n+1]);
    hide Run, Apply, Enabled;
    if k in before.releases && k !in after.releases && name in before.apps {
      VanishKeepsApps(clusterName, before, events[n], k);
      assert Owned(clusterName, after, name);
    }
  }

  /** Every release recorded in the registry exists and carries the finalizer, at every moment of
      every run: a finalised release is never recorded, so never elected. */
  lemma RecordedReleasesExist(clusterName: string, s: State, events: seq<Event>, ref: string)
    requires Init(clusterName, s) && ValidRun(clusterName, s, events)
    ensures var t := Run(clusterName, s, events);
            ref in t.registry ==> HasFinalized(t, ref)
  {
    InitInv(clusterName, s);
    RunInv(clusterName, s, events);
  }

  // ---------- pruned before released ----------

  /** The step writes the Application of this name, so that it carries Argo CD's finalizer. */
  predicate Wrote(clusterName: string, s: State, e: Event, name: string)
    requires Enabled(clusterName, s, e)
  {
    e.Continue? && s.StageOf(e.k).Write? && AppName(clusterName, e.k, s.StageOf(e.k).hr) == name &&
    Apply(clusterName, s, e).StageOf(e.k).PatchStatus?
  }

  /** The Application is there without Argo CD's finalizer, so that deleting it prunes nothing. */
  predicate Unpruned(s: State, name: string) {
    name in s.apps && !s.apps[name].cascade
  }

  lemma AdvanceUnpruned(clusterName: string, s: State, k: Key, ok: bool, shipped: set<string>, name: string)
    ensures var t := Advance(clusterName, s, k, ok, shipped);
            (Unpruned(t, name) ==>
              Unpruned(s, name) &&
              !(s.StageOf(k).Write? && AppName(clusterName, k, s.StageOf(k).hr) == name &&
                t.StageOf(k).PatchStatus?)) &&
            (name in s.apps && name !in t.apps ==> Unpruned(s, name) && !t.StageOf(k).PatchStatus?)
  {
    hide AppName, DependencyName, Ready, Ref, Store;
  }

  /** A step takes an Application away only unpruned or at the end of Argo CD's cascade, and never
      makes one unpruned. */
  lemma StepUnpruned(clusterName: string, s: State, e: Event, name: string)
    requires Enabled(clusterName, s, e)
    ensures var t := Apply(clusterName, s, e);
            (Unpruned(t, name) ==> Unpruned(s, name) && !Wrote(clusterName, s, e, name)) &&
            (name in s.apps && name !in t.apps ==>
              (e == CascadeDone(name) && s.apps[name].deleting) ||
              (Unpruned(s, name) && !Wrote(clusterName, s, e, name)))
  {
    if e.Continue? { AdvanceUnpruned(clusterName, s, e.k, e.ok, e.shipped, name); }
    hide Advance, AppName;
  }

  /** From the start up to moment `n` the Application was there, unpruned, and never written. */
  ghost predicate NeverWritten(clusterName: string, s: State, events: seq<Event>, n: nat, name: string)
    requires ValidRun(clusterName, s, events) && n <= |events|
  {
    forall m :: 0 <= m <= n ==> UnprunedAt(clusterName, s, events, m, name) &&
                                (m < n ==> !WroteAt(clusterName, s, events, m, name))
  }

  predicate UnprunedAt(clusterName: string, s: State, events: seq<Event>, m: nat, name: string)
    requires ValidRun(clusterName, s, events) && m <= |events|
  {
    Unpruned(At(clusterName, s, events, m), name)
  }

  predicate WroteAt(clusterName: string, s: State, events: seq<Event>, m: nat, name: string)
    requires ValidRun(clusterName, s, events) && m < |events|
  {
    AtStep(clusterName, s, events, m);
    Wrote(clusterName, At(clusterName, s, events, m), events[m], name)
  }

  lemma {:induction false} UnprunedSince(clusterName: string, s: State, events: seq<Event>, n: nat, name: string)
    requires ValidRun(clusterName, s, events) && n <= |events| && UnprunedAt(clusterName, s, events, n, name)
    ensures NeverWritten(clusterName, s, events, n, name)
    decreases n
  {
    if n > 0 {
      AtStep(clusterName, s, events, n - 1);
      StepUnpruned(clusterName, At(clusterName, s, events, n - 1), events[n - 1], name);
      UnprunedSince(clusterName, s, events, n - 1, name);
    }
    hide UnprunedAt, WroteAt;
  }

  /** Nothing is abandoned: in every run an Application disappears only when Argo CD has finished
      pruning what it deployed, or if it had no cascade finalizer at the start of the run and no
      reconcile has written it since. */
  lemma GoneOnlyWhenPruned(clusterName: string, s: State, events: seq<Event>, n: nat, name: string)
    requires ValidRun(clusterName, s, events) && n < |events|
    requires name in At(clusterName, s, events, n).apps && name !in At(clusterName, s, events, n + 1).apps
    ensures (events[n] == CascadeDone(name) && At(clusterName, s, events, n).apps[name].deleting) ||
            (NeverWritten(clusterName, s, events, n, name) && !WroteAt(clusterName, s, events, n, name))
  {
    AtStep(clusterName, s, events, n);
    StepUnpruned(clusterName, At(clusterName, s, events, n), events[n], name);
    if UnprunedAt(clusterName, s, events, n, name) { UnprunedSince(clusterName, s, events, n, name); }
  }
}
