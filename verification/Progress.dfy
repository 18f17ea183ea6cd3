/** Progress: rounds of undisturbed reconciles give every release its Application exactly when no
    set of releases blocks itself
    (pkg/controller/helmrelease_controller.go:386-400, 494-526; pkg/controller/naming.go:39-60). */
module Progress {
  import opened Text
  import opened Naming
  import opened Protocol
  import opened DependencyOrder

  // ---------- one undisturbed reconcile ----------

  /** How many steps a reconcile has left at most. */
  function StepsLeft(stage: Stage): nat {
    match stage
    case Idle => 0
    case Fetched(hr) => |hr.dependsOn| + 7
    case AddFinalizer(_) => 1
    case Dependencies(hr, next) => 5 + if next <= |hr.dependsOn| then |hr.dependsOn| - next else 0
    case GetApp(_) => 4
    case Sync(_, _) => 3
    case Write(_, _) => 2
    case PatchStatus(_) => 1
    case DeleteGet(_) => 5
    case DeleteCall(_) => 4
    case DeleteCheck(_) => 3
    case Forget(_) => 2
    case RemoveFinalizer(_) => 1
  }

  /** Let the reconcile of `k` run to its end, every call succeeding. */
  function Finish(clusterName: string, s: State, k: Key, shipped: set<string>): State
    decreases StepsLeft(s.StageOf(k))
  {
    if s.StageOf(k).Idle? then s
    else
      StepsDrop(clusterName, s, k, shipped);
      Finish(clusterName, Advance(clusterName, s, k, true, shipped), k, shipped)
  }

  lemma StepsDrop(clusterName: string, s: State, k: Key, shipped: set<string>)
    requires !s.StageOf(k).Idle?
    ensures StepsLeft(Advance(clusterName, s, k, true, shipped).StageOf(k)) < StepsLeft(s.StageOf(k))
  {
    hide AppName, DependencyName, Ready, NewApp, Ref;
  }

  lemma FinishStep(clusterName: string, s: State, k: Key, shipped: set<string>)
    requires !s.StageOf(k).Idle?
    ensures Finish(clusterName, s, k, shipped) ==
            Finish(clusterName, Advance(clusterName, s, k, true, shipped), k, shipped)
  {
  }

  function Reconcile(clusterName: string, s: State, k: Key, shipped: set<string>): State {
    if k in s.releases then Finish(clusterName, SetStage(s, k, Fetched(s.releases[k])), k, shipped) else s
  }

  /** An undisturbed reconcile is a run of the state machine. */
  lemma {:induction false} FinishIsRun(clusterName: string, s: State, k: Key, shipped: set<string>)
    ensures exists events :: ValidRun(clusterName, s, events) &&
                             Run(clusterName, s, events) == Finish(clusterName, s, k, shipped)
    decreases StepsLeft(s.StageOf(k))
  {
    hide Advance, StepsLeft;
    if s.StageOf(k).Idle? {
      assert ValidRun(clusterName, s, []) && Run(clusterName, s, []) == s;
    } else {
      var e := Continue(k, true, shipped);
      var t := Advance(clusterName, s, k, true, shipped);
      StepsDrop(clusterName, s, k, shipped);
      FinishIsRun(clusterName, t, k, shipped);
      var events :| ValidRun(clusterName, t, events) &&
                    Run(clusterName, t, events) == Finish(clusterName, t, k, shipped);
      assert ([e] + events)[1..] == events;
      assert Apply(clusterName, s, e) == t;
      assert ValidRun(clusterName, s, [e] + events);
    }
  }

  /** Conversely, a run of successful steps of one reconcile up to its end is that reconcile. */
  lemma {:induction false} OkRunIsFinish(clusterName: string, s: State, k: Key, shipped: set<string>,
                                         events: seq<Event>)
    requires ValidRun(clusterName, s, events) && Run(clusterName, s, events).StageOf(k).Idle?
    requires forall e :: e in events ==> e == Continue(k, true, shipped)
    ensures Run(clusterName, s, events) == Finish(clusterName, s, k, shipped)
    decreases |events|
  {
    if events != [] {
      assert events[0] in events;
      forall e | e in events[1..] ensures e in events {}
      OkRunIsFinish(clusterName, Apply(clusterName, s, events[0]), k, shipped, events[1..]);
    }
  }

  lemma ReconcileIsRun(clusterName: string, s: State, k: Key, shipped: set<string>)
    requires s.StageOf(k).Idle?
    ensures exists events :: ValidRun(clusterName, s, events) &&
                             Run(clusterName, s, events) == Reconcile(clusterName, s, k, shipped)
  {
    if k in s.releases {
      var e := Start(k, true);
      var t := SetStage(s, k, Fetched(s.releases[k]));
      FinishIsRun(clusterName, t, k, shipped);
      var events :| ValidRun(clusterName, t, events) &&
                    Run(clusterName, t, events) == Finish(clusterName, t, k, shipped);
      assert ([e] + events)[1..] == events;
      assert Apply(clusterName, s, e) == t;
      assert ValidRun(clusterName, s, [e] + events);
    } else {
      assert ValidRun(clusterName, s, []) && Run(clusterName, s, []) == s;
    }
  }

  /** A release that is live, finalized, not suspended and has a chart, with no reconcile under way. */
  predicate Live(s: State, k: Key) {
    k in s.releases && s.releases[k].finalizer && !s.releases[k].deleting && !s.releases[k].suspend &&
    s.releases[k].chart.Some? && s.StageOf(k).Idle?
  }

  predicate AllReady(clusterName: string, s: State, r: Release) {
    forall i :: 0 <= i < |r.dependsOn| ==>
      var name := DependencyName(r.dependsOn[i], clusterName);
      name in s.apps && (s.apps[name].synced || s.apps[name].succeeded) &&
      (s.apps[name].health == Healthy || s.apps[name].health == Progressing)
  }

  /** What one successful reconcile of a live release does to the Applications. */
  function AppsAfter(clusterName: string, s: State, k: Key): map<string, Application>
    requires k in s.releases
  {
    var name := AppName(clusterName, k, s.releases[k]);
    if !AllReady(clusterName, s, s.releases[k]) then s.apps
    else if name !in s.apps then s.apps[name := NewApp(k)]
    else if s.apps[name].deleting && !s.apps[name].cascade then s.apps
    else s.apps[name := s.apps[name].(owner := k, cascade := true)]
  }

  /** And to the registry: the CRDs are recorded before the Application is written. */
  function RegistryAfter(clusterName: string, s: State, k: Key, shipped: set<string>): map<string, set<string>>
    requires k in s.releases
  {
    if AllReady(clusterName, s, s.releases[k]) then s.registry[Ref(k) := shipped] else s.registry
  }

  /** Nothing but the version of `k` changed among releases, and all reconciles are where they were. */
  ghost predicate SameBut(s: State, t: State, k: Key) {
    t.releases.Keys == s.releases.Keys &&
    (forall j :: j in s.releases && j != k ==> t.releases[j] == s.releases[j]) &&
    (k in s.releases ==> t.releases[k] == s.releases[k].(version := t.releases[k].version)) &&
    (forall j :: j != k ==> t.StageOf(j) == s.StageOf(j)) &&
    t.StageOf(k).Idle?
  }

  /** From the write stage on. */
  lemma FinishWrite(clusterName: string, s: State, k: Key, shipped: set<string>, s0: State)
    requires k in s0.releases && Live(s0, k)
    requires s.releases == s0.releases && s.apps == s0.apps && s.registry == s0.registry
    requires forall j :: j != k ==> s.StageOf(j) == s0.StageOf(j)
    requires s.StageOf(k) == GetApp(s0.releases[k]) && AllReady(clusterName, s0, s0.releases[k])
    ensures var t := Finish(clusterName, s, k, shipped);
            t.apps == AppsAfter(clusterName, s0, k) && SameBut(s0, t, k) &&
            t.registry == RegistryAfter(clusterName, s0, k, shipped)
  {
    var s1 := Advance(clusterName, s, k, true, shipped);
    FinishStep(clusterName, s, k, shipped);
    var s2 := Advance(clusterName, s1, k, true, shipped);
    FinishStep(clusterName, s1, k, shipped);
    FinishPatch(clusterName, s2, k, shipped, s0);
  }

  lemma FinishPatch(clusterName: string, s: State, k: Key, shipped: set<string>, s0: State)
    requires k in s0.releases && Live(s0, k)
    requires s.releases == s0.releases && s.apps == s0.apps
    requires s.registry == s0.registry[Ref(k) := shipped]
    requires forall j :: j != k ==> s.StageOf(j) == s0.StageOf(j)
    requires s.StageOf(k) == Write(s0.releases[k], AppName(clusterName, k, s0.releases[k]) in s0.apps)
    requires AllReady(clusterName, s0, s0.releases[k])
    ensures var t := Finish(clusterName, s, k, shipped);
            t.apps == AppsAfter(clusterName, s0, k) && SameBut(s0, t, k) &&
            t.registry == RegistryAfter(clusterName, s0, k, shipped)
  {
    var s1 := Advance(clusterName, s, k, true, shipped);
    FinishStep(clusterName, s, k, shipped);
    WriteStep(clusterName, s, k, shipped, s0);
    hide AppsAfter, AppName, AllReady, Advance, Ref;
    if s1.StageOf(k).PatchStatus? {
      FinishStep(clusterName, s1, k, shipped);
      PatchStep(clusterName, s1, k, shipped, s0);
    }
  }

  lemma WriteStep(clusterName: string, s: State, k: Key, shipped: set<string>, s0: State)
    requires k in s0.releases && s.releases == s0.releases && s.apps == s0.apps
    requires s.StageOf(k) == Write(s0.releases[k], AppName(clusterName, k, s0.releases[k]) in s0.apps)
    requires AllReady(clusterName, s0, s0.releases[k])
    ensures var t := Advance(clusterName, s, k, true, shipped);
            t.apps == AppsAfter(clusterName, s0, k) && t.releases == s0.releases && t.registry == s.registry &&
            (forall j :: j != k ==> t.StageOf(j) == s.StageOf(j)) &&
            (t.StageOf(k).Idle? || t.StageOf(k).PatchStatus?)
  {
    hide AppName, Ref, AllReady;
  }

  lemma PatchStep(clusterName: string, s: State, k: Key, shipped: set<string>, s0: State)
    requires k in s0.releases && Live(s0, k) && s.releases == s0.releases && s.StageOf(k).PatchStatus?
    requires forall j :: j != k ==> s.StageOf(j) == s0.StageOf(j)
    ensures var t := Advance(clusterName, s, k, true, shipped);
            t.apps == s.apps && t.registry == s.registry && SameBut(s0, t, k)
  {
    hide AppName, Ref;
  }

  lemma {:induction false} FinishDependencies(clusterName: string, s: State, k: Key, shipped: set<string>, s0: State)
    requires k in s0.releases && Live(s0, k)
    requires s.releases == s0.releases && s.apps == s0.apps && s.registry == s0.registry
    requires forall j :: j != k ==> s.StageOf(j) == s0.StageOf(j)
    requires var stage := s.StageOf(k);
             stage.Dependencies? && stage.hr == s0.releases[k] && stage.next <= |stage.hr.dependsOn| &&
             forall i :: 0 <= i < stage.next ==>
               var name := DependencyName(stage.hr.dependsOn[i], clusterName);
               name in s0.apps && (s0.apps[name].synced || s0.apps[name].succeeded) &&
               (s0.apps[name].health == Healthy || s0.apps[name].health == Progressing)
    ensures var t := Finish(clusterName, s, k, shipped);
            t.apps == AppsAfter(clusterName, s0, k) && SameBut(s0, t, k) &&
            t.registry == RegistryAfter(clusterName, s0, k, shipped)
    decreases StepsLeft(s.StageOf(k))
  {
    var s1 := Advance(clusterName, s, k, true, shipped);
    FinishStep(clusterName, s, k, shipped);
    if s1.StageOf(k).GetApp? {
      FinishWrite(clusterName, s1, k, shipped, s0);
    } else if s1.StageOf(k).Dependencies? {
      FinishDependencies(clusterName, s1, k, shipped, s0);
    }
  }

  /** A live release's reconcile records its CRDs and writes its Application exactly when all its
      dependencies are ready, and changes no other. */
  lemma ReconcileEffect(clusterName: string, s: State, k: Key, shipped: set<string>)
    requires Live(s, k)
    ensures var t := Reconcile(clusterName, s, k, shipped);
            t.apps == AppsAfter(clusterName, s, k) && SameBut(s, t, k) &&
            t.registry == RegistryAfter(clusterName, s, k, shipped)
  {
    var s0 := SetStage(s, k, Fetched(s.releases[k]));
    var s1 := Advance(clusterName, s0, k, true, shipped);
    FinishStep(clusterName, s0, k, shipped);
    assert s1.StageOf(k) == Dependencies(s.releases[k], 0);
    FinishDependencies(clusterName, s1, k, shipped, s);
  }

  // ---------- rounds ----------

  /** Argo CD brings every Application to Synced and to Healthy or Progressing; then the releases
      of `order` are reconciled one after the other. */
  datatype Round = Round(progressing: set<string>, order: seq<Key>)

  function Settle(s: State, progressing: set<string>): State {
    s.(apps := map name | name in s.apps :: Settled(s.apps[name], name in progressing))
  }

  function ReconcileEach(clusterName: string, s: State, order: seq<Key>, shipped: map<Key, set<string>>): State
    decreases |order|
  {
    if order == [] then s
    else
      var k := order[0];
      var crds := if k in shipped then shipped[k] else {};
      ReconcileEach(clusterName, Reconcile(clusterName, s, k, crds), order[1..], shipped)
  }

  function AfterRound(clusterName: string, s: State, r: Round, shipped: map<Key, set<string>>): State {
    ReconcileEach(clusterName, Settle(s, r.progressing), r.order, shipped)
  }

  function AfterRounds(clusterName: string, s: State, rounds: seq<Round>, shipped: map<Key, set<string>>): State
    decreases |rounds|
  {
    if rounds == [] then s
    else AfterRounds(clusterName, AfterRound(clusterName, s, rounds[0], shipped), rounds[1..], shipped)
  }

  /** The releases of `all` that have no Application yet. */
  ghost function Pending(clusterName: string, s: State, all: set<Key>): set<Key>
    requires all <= s.releases.Keys
  {
    set k | k in all && AppName(clusterName, k, s.releases[k]) !in s.apps
  }

  ghost predicate AllLive(s: State, all: set<Key>) {
    all <= s.releases.Keys && forall k :: k in all ==> Live(s, k)
  }

  /** The releases of `all` read the same in both states, but for versions. */
  ghost predicate SameSpecs(s: State, t: State, all: set<Key>) {
    all <= s.releases.Keys && all <= t.releases.Keys &&
    forall k :: k in all ==> t.releases[k] == s.releases[k].(version := t.releases[k].version)
  }

  lemma SettleReady(s: State, progressing: set<string>, all: set<Key>)
    requires AllLive(s, all)
    ensures var t := Settle(s, progressing);
            t.apps.Keys == s.apps.Keys && (forall name :: name in t.apps ==> Ready(t.apps[name])) &&
            AllLive(t, all) && SameSpecs(s, t, all)
  {
  }

  /** One reconcile inside a round: releases stay live, Applications stay, ready ones stay ready. */
  lemma ReconcileKeeps(clusterName: string, s: State, k: Key, shipped: set<string>, all: set<Key>)
    requires AllLive(s, all) && k in all
    ensures var t := Reconcile(clusterName, s, k, shipped);
            AllLive(t, all) && SameSpecs(s, t, all) && s.apps.Keys <= t.apps.Keys &&
            forall name :: name in s.apps && Ready(s.apps[name]) ==> Ready(t.apps[name])
  {
    ReconcileEffect(clusterName, s, k, shipped);
  }

  lemma {:induction false} EachKeeps(clusterName: string, s: State, order: seq<Key>, shipped: map<Key, set<string>>,
                                     all: set<Key>)
    requires AllLive(s, all) && forall k :: k in order ==> k in all
    ensures var t := ReconcileEach(clusterName, s, order, shipped);
            AllLive(t, all) && SameSpecs(s, t, all) && s.apps.Keys <= t.apps.Keys
    decreases |order|
  {
    if order != [] {
      var k := order[0];
      var crds := if k in shipped then shipped[k] else {};
      ReconcileKeeps(clusterName, s, k, crds, all);
      EachKeeps(clusterName, Reconcile(clusterName, s, k, crds), order[1..], shipped, all);
    }
  }

  /** A release of the round whose dependencies are ready gets its Application in the round. */
  lemma {:induction false} EachCreates(clusterName: string, s: State, order: seq<Key>, shipped: map<Key, set<string>>,
                                       all: set<Key>, k: Key)
    requires AllLive(s, all) && (forall j :: j in order ==> j in all) && k in order
    requires AllReady(clusterName, s, s.releases[k])
    ensures AppName(clusterName, k, s.releases[k]) in ReconcileEach(clusterName, s, order, shipped).apps
    decreases |order|
  {
    var j := order[0];
    var crds := if j in shipped then shipped[j] else {};
    var t := Reconcile(clusterName, s, j, crds);
    ReconcileKeeps(clusterName, s, j, crds, all);
    ReconcileEffect(clusterName, s, j, crds);
    if j == k {
      EachKeeps(clusterName, t, order[1..], shipped, all);
    } else {
      EachCreates(clusterName, t, order[1..], shipped, all, k);
    }
  }

  // ---------- rounds are runs ----------

  ghost predicate Reaches(clusterName: string, s: State, events: seq<Event>, t: State) {
    ValidRun(clusterName, s, events) && Run(clusterName, s, events) == t
  }

  lemma ReachesOn(clusterName: string, s: State, a: seq<Event>, t: State, b: seq<Event>, u: State)
    requires Reaches(clusterName, s, a, t) && Reaches(clusterName, t, b, u)
    ensures Reaches(clusterName, s, a + b, u)
  {
    RunAppend(clusterName, s, a, b);
  }

  function Settled(a: Application, progressing: bool): Application {
    a.(synced := true, health := if progressing then Progressing else Healthy)
  }

  /** Some of the Applications settled. */
  function SettleSome(s: State, progressing: set<string>, names: set<string>): State {
    s.(apps := map name | name in s.apps ::
         if name in names then Settled(s.apps[name], name in progressing) else s.apps[name])
  }

  /** Argo CD settles the Applications one status update at a time. */
  lemma {:induction false} SettleIsRun(clusterName: string, s: State, progressing: set<string>, names: set<string>)
    returns (events: seq<Event>)
    requires names <= s.apps.Keys
    ensures Reaches(clusterName, s, events, SettleSome(s, progressing, names))
    decreases names
  {
    if names == {} {
      events := [];
      assert SettleSome(s, progressing, names).apps == s.apps;
    } else {
      var name :| name in names;
      var before := SettleIsRun(clusterName, s, progressing, names - {name});
      var t, u := SettleSome(s, progressing, names - {name}), SettleSome(s, progressing, names);
      var e := AppStatus(name, true, s.apps[name].succeeded, if name in progressing then Progressing else Healthy);
      SettleOne(s, progressing, names, name);
      OneEvent(clusterName, t, e);
      hide Reaches, SettleSome, Settled;
      ReachesOn(clusterName, s, before, t, [e], u);
      events := before + [e];
    }
  }

  lemma SettleOne(s: State, progressing: set<string>, names: set<string>, name: string)
    requires name in names && names <= s.apps.Keys
    ensures var t := SettleSome(s, progressing, names - {name});
            name in t.apps &&
            SettleSome(s, progressing, names) ==
              t.(apps := t.apps[name := t.apps[name].(synced := true, succeeded := s.apps[name].succeeded,
                                health := if name in progressing then Progressing else Healthy)])
  {
    var t, u := SettleSome(s, progressing, names - {name}), SettleSome(s, progressing, names);
    assert u.apps == t.apps[name := Settled(s.apps[name], name in progressing)];
  }

  lemma OneEvent(clusterName: string, s: State, e: Event)
    requires Enabled(clusterName, s, e)
    ensures Reaches(clusterName, s, [e], Apply(clusterName, s, e))
  {
    hide Enabled, Apply;
    var t := Apply(clusterName, s, e);
    assert [e][1..] == [];
    assert ValidRun(clusterName, t, []) && Run(clusterName, t, []) == t;
  }

  lemma ReconcileReaches(clusterName: string, s: State, k: Key, shipped: set<string>) returns (events: seq<Event>)
    requires s.StageOf(k).Idle?
    ensures Reaches(clusterName, s, events, Reconcile(clusterName, s, k, shipped))
  {
    ReconcileIsRun(clusterName, s, k, shipped);
    hide Reconcile;
    events :| ValidRun(clusterName, s, events) && Run(clusterName, s, events) == Reconcile(clusterName, s, k, shipped);
  }

  lemma {:induction false} EachIsRun(clusterName: string, s: State, order: seq<Key>, shipped: map<Key, set<string>>,
                                     all: set<Key>)
    returns (events: seq<Event>)
    requires AllLive(s, all) && forall k :: k in order ==> k in all
    ensures Reaches(clusterName, s, events, ReconcileEach(clusterName, s, order, shipped))
    decreases |order|
  {
    hide Run, ValidRun, Reconcile;
    if order == [] {
      events := [];
      assert Reaches(clusterName, s, [], s) by { NoEvents(clusterName, s); }
    } else {
      var k := order[0];
      var crds := if k in shipped then shipped[k] else {};
      var t := Reconcile(clusterName, s, k, crds);
      assert k in order && Live(s, k);
      var first := ReconcileReaches(clusterName, s, k, crds);
      ReconcileKeeps(clusterName, s, k, crds, all);
      hide Reaches, AllLive, Live;
      var rest := EachIsRun(clusterName, t, order[1..], shipped, all);
      ReachesOn(clusterName, s, first, t, rest, ReconcileEach(clusterName, s, order, shipped));
      events := first + rest;
    }
  }

  lemma NoEvents(clusterName: string, s: State)
    ensures Reaches(clusterName, s, [], s)
  {
  }

  /** The rounds that progress is proved for are a run of the protocol: everything that holds over
      all runs holds at their end too. */
  lemma {:induction false} RoundsAreRun(clusterName: string, s: State, rounds: seq<Round>,
                                        shipped: map<Key, set<string>>, all: set<Key>)
    returns (events: seq<Event>)
    requires AllLive(s, all) && forall r :: r in rounds ==> Covers(r, all)
    ensures Reaches(clusterName, s, events, AfterRounds(clusterName, s, rounds, shipped))
    decreases |rounds|
  {
    hide Reaches, ReconcileEach, Live;
    if rounds == [] {
      NoEvents(clusterName, s);
      events := [];
    } else {
      var r := rounds[0];
      assert r in rounds;
      var u := Settle(s, r.progressing);
      var settled := SettleIsRun(clusterName, s, r.progressing, s.apps.Keys);
      assert SettleSome(s, r.progressing, s.apps.Keys).apps == u.apps;
      SettleReady(s, r.progressing, all);
      var reconciled := EachIsRun(clusterName, u, r.order, shipped, all);
      EachKeeps(clusterName, u, r.order, shipped, all);
      var t := AfterRound(clusterName, s, r, shipped);
      var rest := RoundsAreRun(clusterName, t, rounds[1..], shipped, all);
      ReachesOn(clusterName, s, settled, u, reconciled, t);
      ReachesOn(clusterName, s, settled + reconciled, t, rest, AfterRounds(clusterName, s, rounds, shipped));
      events := settled + reconciled + rest;
    }
  }

  // ---------- blocking sets ----------

  /** Names without Applications such that each release of `all` with such a name depends on such
      a name, and at least one release of `all` has one. */
  ghost predicate Blocking(clusterName: string, s: State, all: set<Key>, names: set<string>)
    requires all <= s.releases.Keys
  {
    names !! s.apps.Keys &&
    (forall k :: k in all && AppName(clusterName, k, s.releases[k]) in names ==>
      DependsInto(clusterName, s.releases[k], names)) &&
    exists k :: k in all && AppName(clusterName, k, s.releases[k]) in names
  }

  ghost predicate NoBlockage(clusterName: string, s: State, all: set<Key>)
    requires all <= s.releases.Keys
  {
    forall names: set<string> :: !Blocking(clusterName, s, all, names)
  }

  /** Applications only appear, so a set that blocks later blocks now. */
  lemma BlockingEarlier(clusterName: string, s: State, t: State, all: set<Key>, names: set<string>)
    requires SameSpecs(s, t, all) && s.apps.Keys <= t.apps.Keys
    requires Blocking(clusterName, t, all, names)
    ensures Blocking(clusterName, s, all, names)
  {
    forall k | k in all && AppName(clusterName, k, s.releases[k]) in names
      ensures DependsInto(clusterName, s.releases[k], names)
    {
      assert DependsInto(clusterName, t.releases[k], names);
    }
    var k :| k in all && AppName(clusterName, k, t.releases[k]) in names;
    assert AppName(clusterName, k, s.releases[k]) in names;
  }

  ghost predicate DepsExist(clusterName: string, s: State, r: Release) {
    forall d :: d in r.dependsOn ==> DependencyName(d, clusterName) in s.apps
  }

  /** The names that pending releases have or wait for. */
  ghost function Waiting(clusterName: string, s: State, all: set<Key>): set<string>
    requires all <= s.releases.Keys
  {
    (set k | k in Pending(clusterName, s, all) :: AppName(clusterName, k, s.releases[k])) +
    (set k, d | k in Pending(clusterName, s, all) && d in s.releases[k].dependsOn &&
                DependencyName(d, clusterName) !in s.apps :: DependencyName(d, clusterName))
  }

  /** Without a blocking set, some pending release has all the Applications it waits for. */
  lemma SomeUnblocked(clusterName: string, s: State, all: set<Key>)
    requires all <= s.releases.Keys && NoBlockage(clusterName, s, all)
    requires Pending(clusterName, s, all) != {}
    ensures exists k :: k in Pending(clusterName, s, all) && DepsExist(clusterName, s, s.releases[k])
  {
    var names := Waiting(clusterName, s, all);
    if forall k :: k in Pending(clusterName, s, all) ==> !DepsExist(clusterName, s, s.releases[k]) {
      forall k | k in all && AppName(clusterName, k, s.releases[k]) in names
        ensures DependsInto(clusterName, s.releases[k], names)
      {
        assert k in Pending(clusterName, s, all);
        var d :| d in s.releases[k].dependsOn && DependencyName(d, clusterName) !in s.apps;
        assert DependencyName(d, clusterName) in names;
      }
      var k :| k in Pending(clusterName, s, all);
      assert AppName(clusterName, k, s.releases[k]) in names;
      assert Blocking(clusterName, s, all, names);
    }
  }

  /** A round covers a set of releases when it reconciles each of them, and nothing else. */
  ghost predicate Covers(r: Round, all: set<Key>) {
    forall k :: k in r.order <==> k in all
  }

  /** A round strictly lowers the number of releases without an Application. */
  lemma RoundProgress(clusterName: string, s: State, r: Round, shipped: map<Key, set<string>>, all: set<Key>)
    requires AllLive(s, all) && Covers(r, all) && NoBlockage(clusterName, s, all)
    ensures var t := AfterRound(clusterName, s, r, shipped);
            AllLive(t, all) && NoBlockage(clusterName, t, all) &&
            Pending(clusterName, t, all) <= Pending(clusterName, s, all) &&
            (Pending(clusterName, s, all) != {} ==>
              |Pending(clusterName, t, all)| < |Pending(clusterName, s, all)|)
  {
    var u := Settle(s, r.progressing);
    var t := AfterRound(clusterName, s, r, shipped);
    SettleReady(s, r.progressing, all);
    EachKeeps(clusterName, u, r.order, shipped, all);
    forall names: set<string> ensures !Blocking(clusterName, t, all, names) {
      if Blocking(clusterName, t, all, names) { BlockingEarlier(clusterName, s, t, all, names); }
    }
    var before, after := Pending(clusterName, s, all), Pending(clusterName, t, all);
    if before != {} {
      SomeUnblocked(clusterName, s, all);
      var k :| k in before && DepsExist(clusterName, s, s.releases[k]);
      EachCreates(clusterName, u, r.order, shipped, all, k);
      assert k !in after;
      FewerStrictly(after, before);
    }
  }

  lemma FewerStrictly<T>(a: set<T>, b: set<T>)
    requires a < b
    ensures |a| < |b|
  {
    assert b == a + (b - a);
    assert b - a != {};
  }

  lemma {:induction false} RoundsFinish(clusterName: string, s: State, rounds: seq<Round>,
                                        shipped: map<Key, set<string>>, all: set<Key>)
    requires AllLive(s, all) && NoBlockage(clusterName, s, all)
    requires forall r :: r in rounds ==> Covers(r, all)
    requires |rounds| >= |Pending(clusterName, s, all)|
    ensures var t := AfterRounds(clusterName, s, rounds, shipped);
            all <= t.releases.Keys && Pending(clusterName, t, all) == {}
    decreases |rounds|
  {
    if rounds != [] {
      RoundProgress(clusterName, s, rounds[0], shipped, all);
      assert rounds[0] in rounds;
      RoundsFinish(clusterName, AfterRound(clusterName, s, rounds[0], shipped), rounds[1..], shipped, all);
    }
  }

  /** Inside a round a name of a blocking set stays without an Application. */
  lemma {:induction false} EachBlocked(clusterName: string, s: State, order: seq<Key>, shipped: map<Key, set<string>>,
                                       all: set<Key>, names: set<string>)
    requires AllLive(s, all) && forall k :: k in order ==> k in all
    requires Blocking(clusterName, s, all, names)
    ensures var t := ReconcileEach(clusterName, s, order, shipped);
            AllLive(t, all) && SameSpecs(s, t, all) && Blocking(clusterName, t, all, names)
    decreases |order|
  {
    if order != [] {
      var k := order[0];
      var crds := if k in shipped then shipped[k] else {};
      ReconcileKeeps(clusterName, s, k, crds, all);
      ReconcileBlocked(clusterName, s, k, crds, all, names);
      EachBlocked(clusterName, Reconcile(clusterName, s, k, crds), order[1..], shipped, all, names);
    }
  }

  lemma ReconcileBlocked(clusterName: string, s: State, k: Key, shipped: set<string>, all: set<Key>, names: set<string>)
    requires AllLive(s, all) && k in all && Blocking(clusterName, s, all, names)
    requires all <= Reconcile(clusterName, s, k, shipped).releases.Keys
    requires SameSpecs(s, Reconcile(clusterName, s, k, shipped), all)
    ensures Blocking(clusterName, Reconcile(clusterName, s, k, shipped), all, names)
  {
    var t := Reconcile(clusterName, s, k, shipped);
    ReconcileEffect(clusterName, s, k, shipped);
    if AppName(clusterName, k, s.releases[k]) in names {
      var d :| d in s.releases[k].dependsOn && DependencyName(d, clusterName) in names;
      var i :| 0 <= i < |s.releases[k].dependsOn| && s.releases[k].dependsOn[i] == d;
      assert !AllReady(clusterName, s, s.releases[k]);
    }
    assert names !! t.apps.Keys;
    forall j | j in all && AppName(clusterName, j, t.releases[j]) in names
      ensures DependsInto(clusterName, t.releases[j], names)
    {
      assert DependsInto(clusterName, s.releases[j], names);
    }
    var j :| j in all && AppName(clusterName, j, s.releases[j]) in names;
    assert AppName(clusterName, j, t.releases[j]) in names;
  }

  lemma {:induction false} RoundsBlocked(clusterName: string, s: State, rounds: seq<Round>,
                                         shipped: map<Key, set<string>>, all: set<Key>, names: set<string>)
    requires AllLive(s, all) && Blocking(clusterName, s, all, names)
    requires forall r :: r in rounds ==> Covers(r, all)
    ensures var t := AfterRounds(clusterName, s, rounds, shipped);
            all <= t.releases.Keys && Pending(clusterName, t, all) != {}
    decreases |rounds|
  {
    if rounds == [] {
      var k :| k in all && AppName(clusterName, k, s.releases[k]) in names;
      assert k in Pending(clusterName, s, all);
    } else {
      var u := Settle(s, rounds[0].progressing);
      SettleReady(s, rounds[0].progressing, all);
      BlockingEarlier(clusterName, u, s, all, names);
      assert rounds[0] in rounds;
      EachBlocked(clusterName, u, rounds[0].order, shipped, all, names);
      RoundsBlocked(clusterName, AfterRound(clusterName, s, rounds[0], shipped), rounds[1..], shipped, all, names);
    }
  }

  /** Progress, exactly: with as many rounds as releases, whatever their order and whatever Argo CD
      reports, every release has its Application at the end if and only if no set of names blocks
      itself at the start. */
  lemma ProgressExactly(clusterName: string, s: State, rounds: seq<Round>, shipped: map<Key, set<string>>,
                        all: set<Key>)
    requires AllLive(s, all) && |rounds| >= |all|
    requires forall r :: r in rounds ==> Covers(r, all)
    ensures all <= AfterRounds(clusterName, s, rounds, shipped).releases.Keys
    ensures Pending(clusterName, AfterRounds(clusterName, s, rounds, shipped), all) == {} <==>
            NoBlockage(clusterName, s, all)
  {
    if NoBlockage(clusterName, s, all) {
      SubsetSize(Pending(clusterName, s, all), all);
      RoundsFinish(clusterName, s, rounds, shipped, all);
    } else {
      var names: set<string> :| Blocking(clusterName, s, all, names);
      RoundsBlocked(clusterName, s, rounds, shipped, all, names);
    }
  }

  lemma SubsetSize<T>(a: set<T>, b: set<T>)
    requires a <= b
    ensures |a| <= |b|
  {
    if a != b { FewerStrictly(a, b); }
  }

  // ---------- acyclic dependencies, and the names the gate rebuilds ----------

  /** Each dependency of each release is an Application that exists, or a release of the set with
      a lower rank for whose name the gate looks: see `NamingAgreement`. */
  ghost predicate Ranked(clusterName: string, s: State, all: set<Key>, rank: map<Key, nat>)
    requires all <= s.releases.Keys && all <= rank.Keys
  {
    forall k, d :: k in all && d in s.releases[k].dependsOn ==>
      DependencyName(d, clusterName) in s.apps || exists j :: LowerDependency(clusterName, s, all, rank, k, d, j)
  }

  ghost predicate LowerDependency(clusterName: string, s: State, all: set<Key>, rank: map<Key, nat>,
                                  k: Key, d: string, j: Key)
    requires all <= s.releases.Keys && all <= rank.Keys && k in all
  {
    j in all && j.name == d && rank[j] < rank[k] && Agrees(d, s.releases[j].chart, clusterName)
  }

  lemma {:induction false} RankedNotBlocked(clusterName: string, s: State, all: set<Key>, rank: map<Key, nat>,
                                            names: set<string>, k: Key)
    requires all <= s.releases.Keys && all <= rank.Keys && Ranked(clusterName, s, all, rank)
    requires Blocking(clusterName, s, all, names)
    requires k in all
    ensures AppName(clusterName, k, s.releases[k]) !in names
    decreases rank[k]
  {
    if AppName(clusterName, k, s.releases[k]) in names {
      var d :| d in s.releases[k].dependsOn && DependencyName(d, clusterName) in names;
      var j :| LowerDependency(clusterName, s, all, rank, k, d, j);
      NamingAgreement(d, s.releases[j].chart, clusterName);
      RankedNotBlocked(clusterName, s, all, rank, names, j);
    }
  }

  /** Acyclic dependencies inside the set, whose names the gate rebuilds rightly, never block. */
  lemma RankedNoBlockage(clusterName: string, s: State, all: set<Key>, rank: map<Key, nat>)
    requires all <= s.releases.Keys && all <= rank.Keys && Ranked(clusterName, s, all, rank)
    ensures NoBlockage(clusterName, s, all)
  {
    forall names: set<string> ensures !Blocking(clusterName, s, all, names) {
      if Blocking(clusterName, s, all, names) {
        var k :| k in all && AppName(clusterName, k, s.releases[k]) in names;
        RankedNotBlocked(clusterName, s, all, rank, names, k);
      }
    }
  }

  /** All of a ranked set gets Applications within as many rounds as it has releases. */
  lemma AcyclicProgress(clusterName: string, s: State, rounds: seq<Round>, shipped: map<Key, set<string>>,
                        all: set<Key>, rank: map<Key, nat>)
    requires AllLive(s, all) && all <= rank.Keys && Ranked(clusterName, s, all, rank)
    requires |rounds| >= |all| && forall r :: r in rounds ==> Covers(r, all)
    ensures all <= AfterRounds(clusterName, s, rounds, shipped).releases.Keys
    ensures Pending(clusterName, AfterRounds(clusterName, s, rounds, shipped), all) == {}
  {
    RankedNoBlockage(clusterName, s, all, rank);
    ProgressExactly(clusterName, s, rounds, shipped, all);
  }

  /** The gate's blind spot: with a cluster name, a release that depends on an `ace` chart under
      another name waits for an Application that no release will have. */
  lemma RenamedAceBlocks(clusterName: string, s: State, all: set<Key>, k: Key, ace: Key)
    requires DistinctNames(clusterName, s) && all <= s.releases.Keys && k in all && ace in all
    requires clusterName != "" && ace.name != ACE_CHART_NAME && s.releases[ace].chart == Some(ACE_CHART_NAME)
    requires ace.name in s.releases[k].dependsOn
    requires AppName(clusterName, k, s.releases[k]) !in s.apps
    requires DependencyName(ace.name, clusterName) !in s.apps
    requires forall j :: j in all ==> AppName(clusterName, j, s.releases[j]) != DependencyName(ace.name, clusterName)
    ensures AppName(clusterName, ace, s.releases[ace]) != DependencyName(ace.name, clusterName)
    ensures !NoBlockage(clusterName, s, all)
  {
    NamingAgreement(ace.name, s.releases[ace].chart, clusterName);
    var names := {DependencyName(ace.name, clusterName), AppName(clusterName, k, s.releases[k])};
    assert AppName(clusterName, k, s.releases[k]) in names;
    forall j | j in all && AppName(clusterName, j, s.releases[j]) in names
      ensures DependsInto(clusterName, s.releases[j], names)
    {
      assert j == k;
    }
    assert Blocking(clusterName, s, all, names);
  }
}
