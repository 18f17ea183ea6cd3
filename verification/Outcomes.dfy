/** What one undisturbed reconcile does to a release in each of its states, and how deletion ends
    (pkg/controller/helmrelease_controller.go:349-467). */
module Outcomes {
  import opened Text
  import opened Naming
  import opened Protocol
  import opened Progress

  /** Nothing but stages differs. */
  predicate SameCluster(s: State, t: State) {
    t.releases == s.releases && t.apps == s.apps && t.registry == s.registry
  }

  predicate Present(s: State, k: Key) {
    k in s.releases && s.StageOf(k).Idle?
  }

  /** The first step reads the release. */
  lemma Begins(clusterName: string, s: State, k: Key, shipped: set<string>) returns (t: State)
    requires Present(s, k)
    ensures t == Advance(clusterName, SetStage(s, k, Fetched(s.releases[k])), k, true, shipped)
    ensures Reconcile(clusterName, s, k, shipped) == Finish(clusterName, t, k, shipped)
  {
    FinishStep(clusterName, SetStage(s, k, Fetched(s.releases[k])), k, shipped);
    t := Advance(clusterName, SetStage(s, k, Fetched(s.releases[k])), k, true, shipped);
  }

  /** A suspended release, and one being deleted whose finalizer is gone, are left alone. */
  lemma LeavesAlone(clusterName: string, s: State, k: Key, shipped: set<string>)
    requires Present(s, k)
    requires var hr := s.releases[k];
             (hr.deleting && !hr.finalizer) || (!hr.deleting && hr.finalizer && hr.suspend)
    ensures SameCluster(s, Reconcile(clusterName, s, k, shipped))
  {
    var t := Begins(clusterName, s, k, shipped);
    hide AppName, DependencyName, Ready, Ref, NewApp, Store, MarkAppDeleted;
  }

  /** A release without the finalizer gets it, and nothing else happens. */
  lemma AddsFinalizer(clusterName: string, s: State, k: Key, shipped: set<string>)
    requires Present(s, k) && !s.releases[k].deleting && !s.releases[k].finalizer
    ensures var t := Reconcile(clusterName, s, k, shipped);
            t.releases == s.releases[k := s.releases[k].(finalizer := true, version := s.clock + 1)] &&
            t.apps == s.apps && t.registry == s.registry
  {
    var t := Begins(clusterName, s, k, shipped);
    hide AppName, DependencyName, Ready, Ref, NewApp, MarkAppDeleted;
    FinishStep(clusterName, t, k, shipped);
  }

  /** A live release without a chart is not written, and nothing is recorded for it. */
  lemma NeedsChart(clusterName: string, s: State, k: Key, shipped: set<string>)
    requires Present(s, k)
    requires var hr := s.releases[k];
             !hr.deleting && hr.finalizer && !hr.suspend && hr.chart.None? && hr.dependsOn == []
    ensures SameCluster(s, Reconcile(clusterName, s, k, shipped))
  {
    var t := Begins(clusterName, s, k, shipped);
    hide AppName, DependencyName, Ready, Ref, NewApp, Store, MarkAppDeleted;
    FinishStep(clusterName, t, k, shipped);
    var t1 := Advance(clusterName, t, k, true, shipped);
    FinishStep(clusterName, t1, k, shipped);
    var t2 := Advance(clusterName, t1, k, true, shipped);
    FinishStep(clusterName, t2, k, shipped);
  }

  predicate Deleting(s: State, k: Key) {
    Present(s, k) && s.releases[k].deleting && s.releases[k].finalizer
  }

  /** Without an Application, the finalizer of a release being deleted is removed and its CRDs are
      forgotten; the release goes if no other finalizer is left. */
  lemma Finalises(clusterName: string, s: State, k: Key, shipped: set<string>)
    requires Deleting(s, k) && AppName(clusterName, k, s.releases[k]) !in s.apps
    ensures var t := Reconcile(clusterName, s, k, shipped);
            t.apps == s.apps && t.registry == s.registry - {Ref(k)} && t.StageOf(k).Idle? &&
            t.releases == if s.releases[k].others
                          then s.releases[k := s.releases[k].(finalizer := false, version := s.clock + 1)]
                          else s.releases - {k}
  {
    var hr := s.releases[k];
    var t := Begins(clusterName, s, k, shipped);
    assert t.StageOf(k) == DeleteGet(hr) && SameCluster(s, t) && t.clock == s.clock;
    hide AppName, DependencyName, Ready, Ref, NewApp, MarkAppDeleted;
    FinishStep(clusterName, t, k, shipped);
    var t1 := Advance(clusterName, t, k, true, shipped);
    assert t1.StageOf(k) == Forget(hr) && SameCluster(s, t1) && t1.clock == s.clock;
    ForgetsAndReleases(clusterName, t1, k, shipped, hr);
  }

  lemma ForgetsAndReleases(clusterName: string, s: State, k: Key, shipped: set<string>, hr: Release)
    requires k in s.releases && s.releases[k] == hr && hr.deleting && s.StageOf(k) == Forget(hr)
    ensures var t := Finish(clusterName, s, k, shipped);
            t.apps == s.apps && t.registry == s.registry - {Ref(k)} && t.StageOf(k).Idle? &&
            t.releases == if hr.others then s.releases[k := hr.(finalizer := false, version := s.clock + 1)]
                          else s.releases - {k}
  {
    hide AppName, DependencyName, Ready, Ref, NewApp, MarkAppDeleted;
    FinishStep(clusterName, s, k, shipped);
    var t := Advance(clusterName, s, k, true, shipped);
    FinishStep(clusterName, t, k, shipped);
  }

  /** While its Application is being pruned a release is left alone. */
  lemma WaitsForPruning(clusterName: string, s: State, k: Key, shipped: set<string>)
    requires Deleting(s, k)
    requires var name := AppName(clusterName, k, s.releases[k]); name in s.apps && s.apps[name].deleting
    ensures SameCluster(s, Reconcile(clusterName, s, k, shipped))
    ensures Reconcile(clusterName, s, k, shipped).StageOf(k).Idle?
  {
    var t := Begins(clusterName, s, k, shipped);
    hide AppName, DependencyName, Ready, Ref, NewApp, Store, MarkAppDeleted;
    FinishStep(clusterName, t, k, shipped);
    var t1 := Advance(clusterName, t, k, true, shipped);
    FinishStep(clusterName, t1, k, shipped);
  }

  /** An Application that carries Argo CD's finalizer is marked as deleted, and the release waits. */
  lemma DeletesApplication(clusterName: string, s: State, k: Key, shipped: set<string>)
    requires Deleting(s, k)
    requires var name := AppName(clusterName, k, s.releases[k]);
             name in s.apps && !s.apps[name].deleting && s.apps[name].cascade
    ensures var name, t := AppName(clusterName, k, s.releases[k]), Reconcile(clusterName, s, k, shipped);
            t.apps == s.apps[name := s.apps[name].(deleting := true)] && t.releases == s.releases &&
            t.registry == s.registry && t.StageOf(k).Idle?
  {
    var hr := s.releases[k];
    var t := Begins(clusterName, s, k, shipped);
    assert t.StageOf(k) == DeleteGet(hr) && SameCluster(s, t);
    hide AppName, DependencyName, Ready, Ref, NewApp, Store;
    FinishStep(clusterName, t, k, shipped);
    var t1 := Advance(clusterName, t, k, true, shipped);
    assert t1.StageOf(k) == DeleteCall(hr) && SameCluster(s, t1);
    CallsDelete(clusterName, t1, k, shipped, hr);
  }

  lemma CallsDelete(clusterName: string, s: State, k: Key, shipped: set<string>, hr: Release)
    requires s.StageOf(k) == DeleteCall(hr)
    requires var name := AppName(clusterName, k, hr); name in s.apps && s.apps[name].cascade
    ensures var name, t := AppName(clusterName, k, hr), Finish(clusterName, s, k, shipped);
            t.apps == s.apps[name := s.apps[name].(deleting := true)] && t.releases == s.releases &&
            t.registry == s.registry && t.StageOf(k).Idle?
  {
    hide AppName, DependencyName, Ready, Ref, NewApp, Store;
    FinishStep(clusterName, s, k, shipped);
    var t := Advance(clusterName, s, k, true, shipped);
    FinishStep(clusterName, t, k, shipped);
  }

  /** Deletion ends: one reconcile deletes the Application, Argo CD prunes what it deployed, and one
      more reconcile takes the release away, unless another finalizer holds it. */
  lemma DeletionEnds(clusterName: string, s: State, k: Key, shipped: set<string>)
    requires Deleting(s, k)
    requires var name := AppName(clusterName, k, s.releases[k]);
             name in s.apps && !s.apps[name].deleting && s.apps[name].cascade
    ensures var name := AppName(clusterName, k, s.releases[k]);
            var t := Reconcile(clusterName, s, k, shipped);
            Enabled(clusterName, t, CascadeDone(name)) &&
            var u := Reconcile(clusterName, Apply(clusterName, t, CascadeDone(name)), k, shipped);
            u.apps == s.apps - {name} && u.registry == s.registry - {Ref(k)} &&
            (k in u.releases <==> s.releases[k].others) && (k in u.releases ==> !u.releases[k].finalizer)
  {
    var name := AppName(clusterName, k, s.releases[k]);
    DeletesApplication(clusterName, s, k, shipped);
    var t := Reconcile(clusterName, s, k, shipped);
    var pruned := Apply(clusterName, t, CascadeDone(name));
    assert pruned.apps == s.apps - {name} && pruned.releases == s.releases;
    hide Reconcile, AppName, Ref;
    Finalises(clusterName, pruned, k, shipped);
  }

  /** A live release whose dependencies are ready gets its CRDs recorded and its Application written,
      owned by it and with Argo CD's finalizer. */
  lemma WritesApplication(clusterName: string, s: State, k: Key, shipped: set<string>)
    requires Live(s, k) && AllReady(clusterName, s, s.releases[k])
    ensures var name, t := AppName(clusterName, k, s.releases[k]), Reconcile(clusterName, s, k, shipped);
            t.registry == s.registry[Ref(k) := shipped] &&
            ((name in s.apps && s.apps[name].deleting && !s.apps[name].cascade) ||
             (name in t.apps && t.apps[name].owner == k && t.apps[name].cascade)) &&
            (name !in s.apps ==> t.apps[name] == Application(k, true, false, false, false, Missing)) &&
            forall other :: other != name && other in s.apps ==> other in t.apps && t.apps[other] == s.apps[other]
  {
    ReconcileEffect(clusterName, s, k, shipped);
    hide Reconcile, AppName, Ref, AllReady;
  }
}
