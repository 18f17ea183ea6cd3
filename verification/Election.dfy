/** CRD ownership across releases: which Application gets the ignore rule, over any schedule of
    reconciles (pkg/controller/helmrelease_controller.go:333-346, 658-682). */
module Election {
  import opened Text
  import opened Registry
  import Protocol

  /** What detection reports for a release: the CRDs it ships, and the oversized ones among them. */
  datatype Chart = Chart(crds: set<string>, oversized: set<string>)

  /** The registry, and for each Application the CRDs that the ownership loop ignores in it. */
  datatype System = System(record: Record, ignored: map<string, set<string>>)

  /** The ownership loop of one release. */
  function IgnoredBy(record: Record, release: string, chart: Chart): set<string> {
    set crd | crd in chart.crds && !(OwnerOf(record, crd) == release && crd !in chart.oversized)
  }

  /** One reconcile of a release: record its CRDs, then write its rules. */
  function ReconcileOne(s: System, release: string, chart: Chart): System {
    var record := s.record[release := chart.crds];
    System(record, s.ignored[release := IgnoredBy(record, release, chart)])
  }

  function ReconcileAll(s: System, charts: map<string, Chart>, schedule: seq<string>): System
    requires forall r :: r in schedule ==> r in charts
  {
    if schedule == [] then s
    else
      var before := ReconcileAll(s, charts, schedule[..|schedule|-1]);
      var r := schedule[|schedule|-1];
      ReconcileOne(before, r, charts[r])
  }

  /** Every release is reconciled at least once, in any order, some possibly often. */
  ghost predicate FullPass(charts: map<string, Chart>, schedule: seq<string>) {
    forall r :: r in schedule <==> r in charts
  }

  /** What is recorded once every release of the charts has been: releases that are not reconciled
      any more, such as suspended ones, stay recorded as they were. */
  function FullRecord(record: Record, charts: map<string, Chart>): Record {
    record + map r | r in charts :: charts[r].crds
  }

  /** Each reconciled release is recorded with its CRDs, and no record is lost or invented. */
  lemma {:induction false} PassRecords(s: System, charts: map<string, Chart>, schedule: seq<string>)
    requires forall r :: r in schedule ==> r in charts
    ensures var t := ReconcileAll(s, charts, schedule);
            t.record.Keys == s.record.Keys + Elems(schedule) &&
            (forall r :: r in schedule ==> t.record[r] == charts[r].crds) &&
            (forall r :: r in s.record && r !in schedule ==> t.record[r] == s.record[r])
  {
    if schedule != [] {
      var before, r := schedule[..|schedule|-1], schedule[|schedule|-1];
      PassRecords(s, charts, before);
      assert forall q :: q in schedule <==> q in before || q == r;
    }
  }

  lemma PassFillsRecord(s: System, charts: map<string, Chart>, schedule: seq<string>)
    requires FullPass(charts, schedule)
    ensures ReconcileAll(s, charts, schedule).record == FullRecord(s.record, charts)
  {
    PassRecords(s, charts, schedule);
    assert Elems(schedule) == charts.Keys;
  }

  /** Once everything is recorded, each further reconcile writes its final rules. */
  lemma {:induction false} FinalRules(s: System, charts: map<string, Chart>, schedule: seq<string>)
    requires (forall r :: r in charts ==> r in s.record && s.record[r] == charts[r].crds)
    requires forall r :: r in schedule ==> r in charts
    ensures var t := ReconcileAll(s, charts, schedule);
            t.record == s.record &&
            forall r :: r in schedule ==> r in t.ignored && t.ignored[r] == IgnoredBy(s.record, r, charts[r])
  {
    if schedule != [] {
      var before, r := schedule[..|schedule|-1], schedule[|schedule|-1];
      FinalRules(s, charts, before);
      assert forall q :: q in schedule <==> q in before || q == r;
      assert s.record[r := charts[r].crds] == s.record;
    }
  }

  lemma {:induction false} ScheduleAppend(s: System, charts: map<string, Chart>, a: seq<string>, b: seq<string>)
    requires forall r :: r in a + b ==> r in charts
    ensures (forall r :: r in a ==> r in charts) && (forall r :: r in b ==> r in charts)
    ensures ReconcileAll(s, charts, a + b) == ReconcileAll(ReconcileAll(s, charts, a), charts, b)
  {
    assert forall r :: r in a ==> r in a + b;
    assert forall r :: r in b ==> r in a + b;
    if b == [] {
      assert a + b == a;
    } else {
      var before := b[..|b|-1];
      assert (a + b)[..|a + b|-1] == a + before;
      ScheduleAppend(s, charts, a, before);
    }
  }

  /** The releases that ship a CRD: those of the charts, and those that stay recorded. */
  function ShippedBy(record: Record, charts: map<string, Chart>, crd: string): set<string> {
    Shippers(FullRecord(record, charts), crd)
  }

  /** Whatever the registry held before and whatever the order: after two full passes a release
      that ships a CRD goes without its ignore rule exactly when it is the least release recorded as
      shipping it and the CRD is not oversized in it. */
  lemma TwoPassesElect(s: System, charts: map<string, Chart>, pass1: seq<string>, pass2: seq<string>,
                       release: string, crd: string)
    requires "" !in charts && "" !in s.record
    requires FullPass(charts, pass1) && FullPass(charts, pass2)
    requires release in charts && crd in charts[release].crds
    ensures var t := ReconcileAll(s, charts, pass1 + pass2);
            release in t.ignored &&
            (crd !in t.ignored[release] <==>
             IsLeast(release, ShippedBy(s.record, charts, crd)) && crd !in charts[release].oversized)
  {
    ScheduleAppend(s, charts, pass1, pass2);
    var mid := ReconcileAll(s, charts, pass1);
    PassFillsRecord(s, charts, pass1);
    FinalRules(mid, charts, pass2);
    var shippers := Shippers(mid.record, crd);
    assert release in shippers;
    if IsLeast(release, shippers) { LeastUnique(release, Least(shippers), shippers); }
  }

  /** So a CRD that is oversized nowhere is managed by exactly one Application of the passes, that of
      the least release recorded as shipping it; and by none of them if that release stays recorded
      but is not reconciled any more. */
  lemma ExactlyOneManager(s: System, charts: map<string, Chart>, pass1: seq<string>, pass2: seq<string>, crd: string)
    requires "" !in charts && "" !in s.record
    requires FullPass(charts, pass1) && FullPass(charts, pass2)
    requires ShippedBy(s.record, charts, crd) != {} && forall r :: r in charts ==> crd !in charts[r].oversized
    ensures var t := ReconcileAll(s, charts, pass1 + pass2);
            var owner := Least(ShippedBy(s.record, charts, crd));
            charts.Keys <= t.ignored.Keys &&
            (set r | r in charts && crd in charts[r].crds && crd !in t.ignored[r]) ==
              if owner in charts then {owner} else {}
  {
    var owner := Least(ShippedBy(s.record, charts, crd));
    var t := ReconcileAll(s, charts, pass1 + pass2);
    PassIgnores(s, charts, pass1, pass2);
    assert owner in charts ==> crd in charts[owner].crds;
    hide ReconcileAll, ShippedBy, FullPass;
    forall r | r in charts && crd in charts[r].crds ensures crd !in t.ignored[r] <==> r == owner {
      TwoPassesElect(s, charts, pass1, pass2, r, crd);
      if IsLeast(r, ShippedBy(s.record, charts, crd)) { LeastUnique(r, owner, ShippedBy(s.record, charts, crd)); }
    }
  }

  lemma PassIgnores(s: System, charts: map<string, Chart>, pass1: seq<string>, pass2: seq<string>)
    requires FullPass(charts, pass1) && FullPass(charts, pass2)
    ensures charts.Keys <= ReconcileAll(s, charts, pass1 + pass2).ignored.Keys
  {
    ScheduleAppend(s, charts, pass1, pass2);
    PassFillsRecord(s, charts, pass1);
    FinalRules(ReconcileAll(s, charts, pass1), charts, pass2);
  }

  // ---------- one pass, exactly ----------

  /** What is reconciled before the last reconcile of a release. */
  function BeforeLast(schedule: seq<string>, r: string): seq<string>
    requires r in schedule
  {
    var n := |schedule| - 1;
    if schedule[n] == r then schedule[..n] else BeforeLast(schedule[..n], r)
  }

  lemma {:induction false} BeforeLastWithin(schedule: seq<string>, r: string)
    requires r in schedule
    ensures forall q :: q in BeforeLast(schedule, r) ==> q in schedule
  {
    var n := |schedule| - 1;
    if schedule[n] != r { BeforeLastWithin(schedule[..n], r); }
  }

  /** The last reconcile of a release decides its rules. */
  lemma {:induction false} LastDecides(s: System, charts: map<string, Chart>, schedule: seq<string>, r: string)
    requires r in schedule && forall q :: q in schedule ==> q in charts
    ensures forall q :: q in BeforeLast(schedule, r) ==> q in charts
    ensures var record := ReconcileAll(s, charts, BeforeLast(schedule, r)).record[r := charts[r].crds];
            var t := ReconcileAll(s, charts, schedule);
            r in t.ignored && t.ignored[r] == IgnoredBy(record, r, charts[r])
  {
    BeforeLastWithin(schedule, r);
    var n := |schedule| - 1;
    hide IgnoredBy;
    if schedule[n] != r { LastDecides(s, charts, schedule[..n], r); }
  }

  /** The releases recorded as shipping a CRD after some reconciles. */
  function ShippedBefore(record: Record, charts: map<string, Chart>, done: seq<string>, crd: string): set<string>
    requires forall q :: q in done ==> q in charts
  {
    (set q | q in done && crd in charts[q].crds) + set q | q in record && q !in done && crd in record[q]
  }

  /** After any schedule, from any registry: a release that ships a CRD goes without its ignore rule
      exactly when the CRD is not oversized in it and no smaller release was recorded as shipping it
      before its last reconcile. */
  lemma RuleExactly(s: System, charts: map<string, Chart>, schedule: seq<string>, r: string, crd: string)
    requires "" !in charts && "" !in s.record
    requires r in schedule && (forall q :: q in schedule ==> q in charts) && crd in charts[r].crds
    ensures forall q :: q in BeforeLast(schedule, r) ==> q in charts
    ensures var t := ReconcileAll(s, charts, schedule);
            r in t.ignored &&
            (crd !in t.ignored[r] <==>
             crd !in charts[r].oversized &&
             forall q :: q in ShippedBefore(s.record, charts, BeforeLast(schedule, r), crd) ==> Leq(r, q))
  {
    LastDecides(s, charts, schedule, r);
    var done := BeforeLast(schedule, r);
    PassRecords(s, charts, done);
    var record := ReconcileAll(s, charts, done).record[r := charts[r].crds];
    var shippers := Shippers(record, crd);
    hide ReconcileAll, BeforeLast;
    forall q ensures q in shippers <==> q == r || q in ShippedBefore(s.record, charts, done, crd) {
      assert q in record <==> q == r || q in s.record || q in done by { assert q in done <==> q in Elems(done); }
    }
    assert IsLeast(r, shippers) <==>
           forall q :: q in ShippedBefore(s.record, charts, done, crd) ==> Leq(r, q);
    if IsLeast(r, shippers) { LeastUnique(r, Least(shippers), shippers); }
  }

  /** The releases whose Application manages a CRD. */
  function Managers(t: System, charts: map<string, Chart>, crd: string): set<string> {
    set r | r in charts && crd in charts[r].crds && r in t.ignored && crd !in t.ignored[r]
  }

  /** Some smaller release that ships the CRD is reconciled before the last reconcile of this one. */
  ghost predicate SmallerBefore(charts: map<string, Chart>, schedule: seq<string>, r: string, crd: string)
    requires r in schedule
  {
    exists q :: q in BeforeLast(schedule, r) && q in charts && crd in charts[q].crds && Less(q, r)
  }

  /** One pass over all releases, with nothing recorded before, leaves the least release that ships a
      CRD as a manager, and leaves no other exactly when each other release shipping it is reconciled,
      the last time, after some smaller one that ships it. */
  lemma OnePassExactly(charts: map<string, Chart>, schedule: seq<string>, crd: string)
    requires "" !in charts && FullPass(charts, schedule)
    requires (set r | r in charts && crd in charts[r].crds) != {}
    requires forall r :: r in charts ==> crd !in charts[r].oversized
    ensures var least := Least(set r | r in charts && crd in charts[r].crds);
            var managers := Managers(ReconcileAll(System(map[], map[]), charts, schedule), charts, crd);
            least in managers &&
            (managers == {least} <==>
             forall r :: r in charts && crd in charts[r].crds && r != least ==> SmallerBefore(charts, schedule, r, crd))
  {
    var shippers := set r | r in charts && crd in charts[r].crds;
    var t := ReconcileAll(System(map[], map[]), charts, schedule);
    var managers := Managers(t, charts, crd);
    forall r | r in shippers
      ensures r in managers <==> !SmallerBefore(charts, schedule, r, crd)
    {
      RuleExactly(System(map[], map[]), charts, schedule, r, crd);
      BeforeLastWithin(schedule, r);
      forall q ensures Leq(r, q) <==> !Less(q, r) { LeqOrLess(r, q); }
    }
    hide ReconcileAll, BeforeLast;
    var least := Least(shippers);
    if SmallerBefore(charts, schedule, least, crd) {
      var q :| q in BeforeLast(schedule, least) && q in charts && crd in charts[q].crds && Less(q, least);
      assert q in shippers;
      LeqOrLess(least, q);
    }
    assert managers <= shippers;
    if forall r :: r in shippers && r != least ==> SmallerBefore(charts, schedule, r, crd) {
      assert managers == {least};
    } else {
      var r :| r in shippers && r != least && !SmallerBefore(charts, schedule, r, crd);
      assert r in managers;
    }
  }

  lemma LeqOrLess(r: string, q: string)
    ensures Leq(r, q) <==> !Less(q, r)
  {
    LessTotal(r, q);
    if Less(r, q) && Less(q, r) { LessTransitive(r, q, r); }
    LessIrreflexive(r);
  }

  /** One pass is not enough: the larger release, reconciled first, elects itself. */
  lemma OnePassLeavesTwoManagers()
    ensures var charts := map["b/x" := Chart({"c"}, {}), "a/x" := Chart({"c"}, {})];
            var t := ReconcileAll(System(map[], map[]), charts, ["b/x", "a/x"]);
            FullPass(charts, ["b/x", "a/x"]) && t.ignored == map["b/x" := {}, "a/x" := {}]
  {
    var charts := map["b/x" := Chart({"c"}, {}), "a/x" := Chart({"c"}, {})];
    var s0 := System(map[], map[]);
    assert ["b/x", "a/x"][..1] == ["b/x"] && ["b/x"][..0] == [];
    var s1 := ReconcileOne(s0, "b/x", charts["b/x"]);
    assert ReconcileAll(s0, charts, ["b/x"]) == s1;
    assert Shippers(s1.record, "c") == {"b/x"};
    assert IgnoredBy(s1.record, "b/x", charts["b/x"]) == {};
    var s2 := ReconcileOne(s1, "a/x", charts["a/x"]);
    assert Shippers(s2.record, "c") == {"a/x", "b/x"};
    assert Less("a/x", "b/x");
    LeastUnique("a/x", Least(Shippers(s2.record, "c")), Shippers(s2.record, "c"));
    assert IgnoredBy(s2.record, "a/x", charts["a/x"]) == {};
  }

  /** At every moment of every run of the protocol, the elected owner of a CRD is a release that
      exists and carries the finalizer: a finalised release is never elected. */
  lemma ElectedIsLive(clusterName: string, s: Protocol.State, events: seq<Protocol.Event>, crd: string)
    requires Protocol.Init(clusterName, s) && Protocol.ValidRun(clusterName, s, events)
    ensures var t := Protocol.Run(clusterName, s, events);
            var owner := OwnerOf(t.registry, crd);
            (owner == "" <==> Shippers(t.registry, crd) == {}) &&
            (owner != "" ==> IsLeast(owner, Shippers(t.registry, crd)) && Protocol.HasFinalized(t, owner))
  {
    var t := Protocol.Run(clusterName, s, events);
    forall ref ensures ref in t.registry ==> Protocol.HasFinalized(t, ref) && ref != "" {
      Protocol.RecordedReleasesExist(clusterName, s, events, ref);
    }
  }
}
