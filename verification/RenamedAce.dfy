/** Where the dependency gate looks at a stranger: a dependency with an `ace` chart under another
    name (pkg/controller/helmrelease_controller.go:499-526; pkg/controller/naming.go:39-60). */
module RenamedAce {
  import opened Text
  import opened Naming
  import opened Protocol
  import opened DependencyOrder
  import opened Progress

  /** One reconcile of a release whose one dependency does not have the name that the gate rebuilds:
      the release gets its Application exactly when an Application of the rebuilt name exists and is
      ready, and that Application belongs to another release. */
  lemma StrangerDecides(clusterName: string, s: State, k: Key, dependency: Key, shipped: set<string>)
    requires Inv(clusterName, s) && Live(s, k) && s.releases[k].dependsOn == [dependency.name]
    requires !AgreesAt(clusterName, s, dependency)
    requires AppName(clusterName, k, s.releases[k]) !in s.apps
    ensures var name := DependencyName(dependency.name, clusterName);
            (AppName(clusterName, k, s.releases[k]) in Reconcile(clusterName, s, k, shipped).apps <==>
             name in s.apps && (s.apps[name].synced || s.apps[name].succeeded) &&
             (s.apps[name].health == Healthy || s.apps[name].health == Progressing)) &&
            (name in s.apps ==> s.apps[name].owner != dependency)
  {
    ReconcileEffect(clusterName, s, k, shipped);
    var name := DependencyName(dependency.name, clusterName);
    if name in s.apps { GateSeesOwn(clusterName, s, dependency); }
    assert s.releases[k].dependsOn[0] == dependency.name;
  }

  // ---------- what rounds leave alone ----------

  ghost function NamesOf(clusterName: string, s: State, all: set<Key>): set<string>
    requires all <= s.releases.Keys
  {
    set k | k in all :: AppName(clusterName, k, s.releases[k])
  }

  lemma SameNames(clusterName: string, s: State, t: State, all: set<Key>)
    requires SameSpecs(s, t, all)
    ensures NamesOf(clusterName, s, all) == NamesOf(clusterName, t, all)
  {
    forall k | k in all ensures AppName(clusterName, k, s.releases[k]) == AppName(clusterName, k, t.releases[k]) {}
  }

  lemma {:induction false} EachTouches(clusterName: string, s: State, order: seq<Key>, shipped: map<Key, set<string>>,
                                       all: set<Key>)
    requires AllLive(s, all) && forall k :: k in order ==> k in all
    ensures ReconcileEach(clusterName, s, order, shipped).apps.Keys <= s.apps.Keys + NamesOf(clusterName, s, all)
    decreases |order|
  {
    hide Reconcile, Live;
    if order != [] {
      var k := order[0];
      var crds := if k in shipped then shipped[k] else {};
      var t := Reconcile(clusterName, s, k, crds);
      assert k in order && k in all;
      ReconcileKeeps(clusterName, s, k, crds, all);
      assert Live(s, k);
      ReconcileEffect(clusterName, s, k, crds);
      assert t.apps.Keys <= s.apps.Keys + NamesOf(clusterName, s, all);
      SameNames(clusterName, s, t, all);
      EachTouches(clusterName, t, order[1..], shipped, all);
    }
  }

  /** Rounds create Applications for the releases they reconcile, and for no other. */
  lemma {:induction false} RoundsTouch(clusterName: string, s: State, rounds: seq<Round>,
                                       shipped: map<Key, set<string>>, all: set<Key>)
    requires AllLive(s, all) && forall r :: r in rounds ==> Covers(r, all)
    ensures AfterRounds(clusterName, s, rounds, shipped).apps.Keys <= s.apps.Keys + NamesOf(clusterName, s, all)
    decreases |rounds|
  {
    hide ReconcileEach, Live;
    if rounds != [] {
      var r := rounds[0];
      assert r in rounds;
      var u, t := Settle(s, r.progressing), AfterRound(clusterName, s, r, shipped);
      SettleReady(s, r.progressing, all);
      SameNames(clusterName, s, u, all);
      EachKeeps(clusterName, u, r.order, shipped, all);
      EachTouches(clusterName, u, r.order, shipped, all);
      SameNames(clusterName, u, t, all);
      RoundsTouch(clusterName, t, rounds[1..], shipped, all);
    }
  }

  // ---------- the failing runs ----------

  /** A live release depends on an `ace` chart under another name, which has no Application, while
      another live release of that name has another chart. Every other dependency of the two has an
      Application of the name that the gate rebuilds. */
  ghost predicate Misled(clusterName: string, s: State, k: Key, ace: Key, stranger: Key) {
    Init(clusterName, s) && AllLive(s, {k, stranger}) && k != stranger && ace in s.releases &&
    AppName(clusterName, ace, s.releases[ace]) !in s.apps &&
    !Agrees(ace.name, s.releases[ace].chart, clusterName) && ace.name in s.releases[k].dependsOn &&
    stranger.name == ace.name && Agrees(stranger.name, s.releases[stranger].chart, clusterName) &&
    (forall d :: d in s.releases[k].dependsOn ==> d == ace.name || DependencyName(d, clusterName) in s.apps) &&
    forall d :: d in s.releases[stranger].dependsOn ==> DependencyName(d, clusterName) in s.apps
  }

  /** Two rounds let the release pass on the stranger's Application: it gets its own while the
      dependency has none, or, when it depends on itself, although it is on a cycle. */
  lemma PassedOnStranger(clusterName: string, s: State, k: Key, ace: Key, stranger: Key)
    returns (events: seq<Event>, t: State)
    requires Misled(clusterName, s, k, ace, stranger)
    ensures Reaches(clusterName, s, events, t) && k in t.releases && t.releases[k].chart == s.releases[k].chart
    ensures AppName(clusterName, k, s.releases[k]) in t.apps
    ensures k != ace ==> AppName(clusterName, ace, s.releases[ace]) !in t.apps
  {
    var all := {k, stranger};
    var round := Round({}, [stranger, k]);
    var rounds := [round, round];
    var rank: map<Key, nat> := map[stranger := 0, k := 1];
    assert ace != stranger;
    assert LowerDependency(clusterName, s, all, rank, k, ace.name, stranger);
    assert Ranked(clusterName, s, all, rank);
    assert Covers(round, all);
    hide LowerDependency, Ranked, Covers, AfterRounds, Init;
    TwoElements(stranger, k);
    AcyclicProgress(clusterName, s, rounds, map[], all, rank);
    events := RoundsAreRun(clusterName, s, rounds, map[], all);
    t := AfterRounds(clusterName, s, rounds, map[]);
    RoundsTouch(clusterName, s, rounds, map[], all);
    RoundsSpecs(clusterName, s, rounds, map[], all);
    assert k !in Pending(clusterName, t, all);
    if k != ace {
      OtherName(clusterName, s, k, ace, stranger);
    }
  }

  lemma TwoElements<T>(a: T, b: T)
    requires a != b
    ensures |{a, b}| == 2
  {
  }

  lemma OtherName(clusterName: string, s: State, k: Key, ace: Key, stranger: Key)
    requires Misled(clusterName, s, k, ace, stranger) && k != ace && stranger != ace
    ensures AppName(clusterName, ace, s.releases[ace]) !in NamesOf(clusterName, s, {k, stranger})
  {
  }

  lemma {:induction false} RoundsSpecs(clusterName: string, s: State, rounds: seq<Round>,
                                       shipped: map<Key, set<string>>, all: set<Key>)
    requires AllLive(s, all) && forall r :: r in rounds ==> Covers(r, all)
    ensures SameSpecs(s, AfterRounds(clusterName, s, rounds, shipped), all)
    decreases |rounds|
  {
    hide ReconcileEach, Live;
    if rounds != [] {
      var r := rounds[0];
      assert r in rounds;
      var u := Settle(s, r.progressing);
      SettleReady(s, r.progressing, all);
      EachKeeps(clusterName, u, r.order, shipped, all);
      RoundsSpecs(clusterName, AfterRound(clusterName, s, r, shipped), rounds[1..], shipped, all);
    }
  }

  function ReleaseOf(chart: string, dependsOn: seq<string>): Release {
    Release(Some(chart), false, dependsOn, true, false, false, 0)
  }

  const FOO_ACE := Key("n", "foo")
  const FOO := Key("m", "foo")
  const BAR := Key("n", "bar")

  /** n/foo has the chart `ace` and depends on itself, n/bar depends on foo, m/foo on nothing. */
  const EXAMPLE := State(
    map[FOO_ACE := ReleaseOf("ace", ["foo"]), FOO := ReleaseOf("web", []), BAR := ReleaseOf("web", ["foo"])],
    map[], map[], map[], 0)

  lemma ExampleMisleads()
    ensures Misled("c", EXAMPLE, BAR, FOO_ACE, FOO) && Misled("c", EXAMPLE, FOO_ACE, FOO_ACE, FOO)
    ensures AppName("c", BAR, EXAMPLE.releases[BAR]) == "bar-c"
    ensures AppName("c", FOO_ACE, EXAMPLE.releases[FOO_ACE]) == "foo"
  {
    var s := EXAMPLE;
    assert FOO_ACE != FOO && BAR.name[0] != FOO.name[0];
    assert AppName("c", FOO_ACE, s.releases[FOO_ACE]) == "foo";
    assert AppName("c", FOO, s.releases[FOO]) == "foo-c";
    assert AppName("c", BAR, s.releases[BAR]) == "bar-c";
    assert "foo"[0] == 'f' && "foo-c"[0] == 'f' && "bar-c"[0] == 'b' && |"foo"| == 3 && |"foo-c"| == 5;
    assert DistinctNames("c", s);
  }

  /** A run in which an Application is created although its release's dependency has none. */
  lemma CreatedBeforeItsDependency() returns (events: seq<Event>, t: State)
    ensures Init("c", EXAMPLE) && Reaches("c", EXAMPLE, events, t)
    ensures EXAMPLE.releases[BAR].dependsOn == [FOO_ACE.name] && "bar-c" in t.apps && "foo" !in t.apps
  {
    ExampleMisleads();
    assert BAR != FOO_ACE;
    hide Reaches, Init, AppName;
    events, t := PassedOnStranger("c", EXAMPLE, BAR, FOO_ACE, FOO);
  }

  /** A run in which a release that depends on itself gets its Application. */
  lemma SelfLoopCreated() returns (events: seq<Event>, t: State)
    ensures Init("c", EXAMPLE) && Reaches("c", EXAMPLE, events, t)
    ensures FOO_ACE.name in EXAMPLE.releases[FOO_ACE].dependsOn && "foo" in t.apps
  {
    ExampleMisleads();
    hide Reaches, Init, AppName;
    events, t := PassedOnStranger("c", EXAMPLE, FOO_ACE, FOO_ACE, FOO);
  }
}
