/** A step of one reconcile depends on the stage of no other
    (pkg/controller/helmrelease_controller.go:349-467). */
module StageLocal {
  import opened Naming
  import opened Protocol

  /** The states agree but for the stages of other reconciles. */
  predicate AgreeFor(s: State, u: State, k: Key) {
    u.releases == s.releases && u.apps == s.apps && u.registry == s.registry && u.clock == s.clock &&
    u.StageOf(k) == s.StageOf(k)
  }

  /** A step of one reconcile depends on its own stage, not on those of others. */
  lemma AdvanceCongruent(clusterName: string, s: State, u: State, k: Key, ok: bool, shipped: set<string>)
    requires AgreeFor(s, u, k)
    ensures AgreeFor(Advance(clusterName, s, k, ok, shipped), Advance(clusterName, u, k, ok, shipped), k)
  {
    hide AppName, DependencyName, Ready, Ref, NewApp;
    var stage := s.StageOf(k);
    if stage.AddFinalizer? {
      AddFinalizerCongruent(clusterName, s, u, k, ok, shipped);
      hide Advance;
    } else if stage.PatchStatus? {
      PatchStatusCongruent(clusterName, s, u, k, ok, shipped);
      hide Advance;
    } else if stage.RemoveFinalizer? {
      RemoveFinalizerCongruent(clusterName, s, u, k, ok, shipped);
      hide Advance;
    } else if stage.Write? {
      WriteCongruent(clusterName, s, u, k, ok, shipped);
      hide Advance;
    } else if stage.DeleteCall? {
      DeleteCallCongruent(clusterName, s, u, k, ok, shipped);
      hide Advance;
    } else {
      hide Store, MarkAppDeleted, AgreeFor;
      RestCongruent(clusterName, s, u, k, ok, shipped);
    }
  }

  lemma AddFinalizerCongruent(clusterName: string, s: State, u: State, k: Key, ok: bool, shipped: set<string>)
    requires AgreeFor(s, u, k) && s.StageOf(k).AddFinalizer?
    ensures AgreeFor(Advance(clusterName, s, k, ok, shipped), Advance(clusterName, u, k, ok, shipped), k)
  {
    hide AppName, DependencyName, Ready, Ref, NewApp, MarkAppDeleted;
  }

  lemma PatchStatusCongruent(clusterName: string, s: State, u: State, k: Key, ok: bool, shipped: set<string>)
    requires AgreeFor(s, u, k) && s.StageOf(k).PatchStatus?
    ensures AgreeFor(Advance(clusterName, s, k, ok, shipped), Advance(clusterName, u, k, ok, shipped), k)
  {
    hide AppName, DependencyName, Ready, Ref, NewApp, MarkAppDeleted;
  }

  lemma RemoveFinalizerCongruent(clusterName: string, s: State, u: State, k: Key, ok: bool, shipped: set<string>)
    requires AgreeFor(s, u, k) && s.StageOf(k).RemoveFinalizer?
    ensures AgreeFor(Advance(clusterName, s, k, ok, shipped), Advance(clusterName, u, k, ok, shipped), k)
  {
    hide AppName, DependencyName, Ready, Ref, NewApp, MarkAppDeleted;
  }

  lemma WriteCongruent(clusterName: string, s: State, u: State, k: Key, ok: bool, shipped: set<string>)
    requires AgreeFor(s, u, k) && s.StageOf(k).Write?
    ensures AgreeFor(Advance(clusterName, s, k, ok, shipped), Advance(clusterName, u, k, ok, shipped), k)
  {
    hide AppName, DependencyName, Ready, Ref, NewApp, Store, MarkAppDeleted;
  }

  lemma DeleteCallCongruent(clusterName: string, s: State, u: State, k: Key, ok: bool, shipped: set<string>)
    requires AgreeFor(s, u, k) && s.StageOf(k).DeleteCall?
    ensures AgreeFor(Advance(clusterName, s, k, ok, shipped), Advance(clusterName, u, k, ok, shipped), k)
  {
    hide AppName, DependencyName, Ready, Ref, NewApp, Store;
  }

  lemma RestCongruent(clusterName: string, s: State, u: State, k: Key, ok: bool, shipped: set<string>)
    requires AgreeFor(s, u, k)
    requires !WritesRelease(s.StageOf(k)) && !s.StageOf(k).Write? && !s.StageOf(k).DeleteCall?
    ensures AgreeFor(Advance(clusterName, s, k, ok, shipped), Advance(clusterName, u, k, ok, shipped), k)
  {
    hide AppName, DependencyName, Ready, Ref, NewApp, Store, MarkAppDeleted;
  }
}
