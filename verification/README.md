# Verified model of the fargocd controller

fargocd watches FluxCD HelmReleases and projects each of them into an Argo CD Application. This
project models its three hard parts in Dafny and proves what they are for:

* **The reconcile protocol.** HelmReleases, Applications, users, Argo CD and `Reconcile`, cut at each
  API call, any of which may fail (`Protocol`). No Application is ever orphaned, a release vanishes only
  after its Application, Applications are created only after their dependencies were seen ready
  (`DependencyOrder`), and rounds of reconciles reach every release exactly when no set of names blocks
  itself (`Progress`). `Outcomes` tells what one reconcile does to a release in each of its states, and
  that deletion ends. `RenamedAce` has the runs in which the dependency gate is misled. `StaleReads`,
  `StaleOwners` and `StaleOrder` treat the same protocol with reads through lagging caches, and `StaleRuns`
  has the runs in which those do harm. `Reconciler` holds the controller's methods in their own control flow
  and proves that each execution, whatever calls fail, is a run of that protocol.
* **CRD ownership and the projection.** The registry that elects one owner per CRD (`Registry`), the
  election over any schedule of reconciles (`Election`), the cached CRD schemas (`SchemaCache`) and the rules
  they give, told from the CRDs that the cluster answered with (`ClusterSchemas`), Argo CD's warning messages
  (`Warnings`, and in plain text `WarningTexts`), `syncApplication` itself with its direct CRD creation
  (`Sync`), and the Application field by field (`Projection`).
* **The ignore-rule compiler.** JSON values (`Json`), JSON pointers after RFC 6901 and the erasure of
  what they name (`Pointers`), rules, their meaning and their merging (`Rules`, `MergedRules`), manifests
  (`Manifest`), the CRDs a chart ships (`ChartCRDs`), null and zero fields (`FieldSweep`), diffs of renders
  (`RenderDiff`), kind by kind (`KindDiffs`), what is left once they are erased (`ErasedDiff`), the pipeline
  that joins the passes (`Detection`), and why it ignores something, told from the documents (`Reasons`).
  `Text` holds orders, sorting and list lemmas.

A rule means a set of pairs of a resource and a pointer or expression; a pointer means the path that
sections 3 and 4 of RFC 6901 read from it; ignoring means erasing those paths on both sides.

## Assumptions

* Integers are unbounded; time is counted in whole seconds and handed in with each schema lookup,
  which happens at one moment.
* YAML decoding (`Decoder`) and the byte length of a text are given functions; a text is a list of lines.
  `json.Marshal` equality is equality of values; a number carries the text that Go prints for it.
* A `---` separator is one line. Blank lines that Go's `\s*` takes into the separator are trimmed from
  the next document here, which is the same once documents are trimmed.
* Map iteration visits keys in an arbitrary order: the loops pick any key that is left.
* In the protocol, one reconcile runs at a time for each key, updates succeed only on the version that was
  read, the Argo CD namespace does not change, live releases have distinct Application names and keep them,
  namespaces have no slash, and only the controller creates Applications and touches its own finalizer. A
  cluster may start with Applications of an earlier controller, as long as none is an orphan.
* In `Protocol`, `DependencyOrder`, `Progress` and `Reconciler` reads see the current state. The `Stale`
  modules drop this: the managers' clients read through caches (`pkg/cmds/run.go:222-224`), which hold, for
  each object, some state it was in before, and never go back.
* The methods of `Reconciler` run without interference; interference between their calls is the
  interleaving of events in `Protocol`.

## What the code does that its documents do not say

* `Design.md:69-71` asks for Healthy dependencies. The code accepts an Application that is Synced, or whose
  last operation succeeded, and that is Healthy or Progressing
  (`pkg/controller/helmrelease_controller.go:511-523`). The model follows the code.
* `Design.md:172` limits Secret diffs to keys that end in `.crt` or `.key`. The code compares the whole
  payload of Secrets and ConfigMaps, `stringData` included (`pkg/ignoregen/ignoregen.go:673-684`).
* The comment above `DetectIgnoreDifferences` names its memo key; values and credentials are not in it. A
  memoised answer is that of the first successful detection (`Detection.DetectionCache.DetectIgnoreDifferences`).

With lagging caches two properties of the protocol fail, and hold under these conditions:

* No Application is orphaned as long as no deletion misses one: a `DeleteGet` or `DeleteCheck`, for a release
  that is as it was read, that finds no Application in the cache while there is one. The condition is exact:
  after any run without a miss, a step leaves the cluster safe iff it is no miss (`StaleReads.SafeExactly`).
  `StaleRuns.StaleReadOrphans` is a run that misses. It is enough that deletions read no older a state than the
  controller's own last write (`StaleReads.NoOrphansWithOwnWrites`); copies of releases may be as old as they
  like.
* A delete call hits the release's own Application iff the release still exists under the Application name
  that its copy tells (`StaleOwners.HitsOwnExactly`). A reconcile that starts from an old copy of a finalised
  release can delete the Application of another release that took its name
  (`StaleRuns.StaleCopyDeletesAnothers`). That cannot happen when reconciles start from copies no older than
  their own last removal of the finalizer (`StaleOwners.HitsOnlyOwnWithCaches`), nor with current reads.

Some properties hold only under a condition. Each is proved as an if-and-only-if:

* merging keeps the meaning of rules iff no two different resources share a key (`Rules.DedupeMeaning`,
  counterexample `Rules.KeyClashExample`);
* the pointer written for an annotation is that annotation's own iff its key has no `~`
  (`ErasedDiff.AnnotationPointerExact`);
* the name that the dependency gate rebuilds is that of the dependency's own Application iff there is no
  cluster name, or the dependency is named `ace`, or its chart is not `ace` (`Naming.NamingAgreement`), and the
  Application it looks at is the dependency's own iff moreover the dependency exists
  (`DependencyOrder.GateSeesOwn`);
* a document reads back as itself iff trimming uncovers no separator line in it (`Manifest.DocStandsAlone`);
* the Application of a release that ships an oversized CRD carries the CRD's ignore rule iff the detection
  of the reconcile that wrote it last succeeded, or a condition contested the CRD then
  (`Sync.OversizedRuleExactly`, `Sync.OversizedRunExactly`). The code writes the Application although the
  detection failed: without any detected rule, and with no CRDs recorded for the release
  (`Sync.FailedDetectionForgets`).

So the order of dependencies, and the rule that a cycle gets no Applications, fail for an `ace` chart under
another name. A release that depends on it passes the gate iff an Application of the rebuilt name exists and
is ready, and that Application belongs to a stranger (`RenamedAce.StrangerDecides`). If no release bears that
name the dependent is blocked (`Progress.RenamedAceBlocks`). If one does, there is a run in which the
dependent's Application is created while its dependency has none (`RenamedAce.CreatedBeforeItsDependency`),
and one in which a release that depends on itself gets its Application (`RenamedAce.SelfLoopCreated`).

One pass of reconciles, with nothing recorded before, leaves a single manager for a CRD exactly when each
release that ships it, but the least, is last reconciled after some smaller one that ships it
(`Election.OnePassExactly`); `Election.OnePassLeavesTwoManagers` is a pass that leaves two. Two passes
leave one, or none if the least release stays recorded without being reconciled any more. These results are
for charts whose detection succeeds.

## Model

| member | source | states |
|---|---|---|
| Protocol.StepInv | pkg/controller/helmrelease_controller.go:349-467 | every step of users, Argo CD and the controller, failed calls, abandoned reconciles and restarts included, keeps the invariant |
| Protocol.NoOrphansEver | pkg/controller/helmrelease_controller.go:372-438 | with current reads, in every run every Application belongs to a release that exists, carries the finalizer and has that Application name |
| Protocol.VanishesAfterApp | pkg/controller/helmrelease_controller.go:414-438 | with current reads, the step that takes a release away finds no Application of it |
| Protocol.GoneOnlyWhenPruned | pkg/controller/helmrelease_controller.go:442-467 | in every run an Application disappears only when Argo CD has finished pruning what it deployed, or if it had no cascade finalizer at the start and no reconcile has written it since |
| Protocol.RecordedReleasesExist | pkg/controller/helmrelease_controller.go:433-437 | in every run each release in the CRD registry exists and carries the finalizer |
| Protocol.RefInjective | pkg/controller/helmrelease_controller.go:660 | the registry's keys tell releases apart, since namespaces have no slash |
| Protocol.HitsOnlyOwn | pkg/controller/helmrelease_controller.go:391-400 | with current reads, in every run a patch and a delete call only ever hit the release's own Application |
| Protocol.AdvanceWrites | pkg/controller/helmrelease_controller.go:391-400 | a step writes releases or Applications but not both, and only the write stage creates an Application, under its release's name |
| StaleReads.NoOrphansWithCaches | pkg/controller/helmrelease_controller.go:349-467 | with all reads through lagging caches, no Application is ever an orphan as long as no deletion misses one that exists |
| StaleReads.SafeExactly | pkg/controller/helmrelease_controller.go:442-467 | the condition is exact: after any run without a miss, one more step leaves the cluster without orphans in every continuation iff it is no miss |
| StaleReads.DeletionReadDecides | pkg/controller/helmrelease_controller.go:414-467 | a deletion of an unchanged release that does not see an Application ends without an orphan iff there is none |
| StaleReads.NoOrphansWithOwnWrites | pkg/controller/helmrelease_controller.go:442-467 | it is enough that deletions look for the Application no earlier than the controller's own last write of it |
| StaleReads.VanishesAfterAppWithCaches | pkg/controller/helmrelease_controller.go:414-438 | under the same exact condition a release vanishes only when it has no Application |
| StaleRuns.StaleReadOrphans | pkg/controller/helmrelease_controller.go:442-467 | a run in which the deletion does not see the Application that the controller created, and leaves it behind without its release |
| StaleOwners.HitsOwnExactly | pkg/controller/helmrelease_controller.go:391-400 | with lagging caches a patch hits the release's own Application, and a delete call does so iff the release still exists under the Application name that its copy tells |
| StaleOwners.HitsOnlyOwnWithCaches | pkg/controller/helmrelease_controller.go:440-467 | delete calls hit only the release's own Application when reconciles start from copies no older than their own last removal of the finalizer |
| StaleRuns.StaleCopyDeletesAnothers | pkg/controller/helmrelease_controller.go:440-467 | otherwise a run in which a finalised release's old copy deletes the Application of a new release that took the name |
| StaleOrder.CreatedAfterDependenciesWithCaches | pkg/controller/helmrelease_controller.go:386-400 | in every run with lagging caches, before an Application is created its release was, at some moment, as the reconcile read it, with the finalizer, a chart, neither suspended nor being deleted, and for each dependency the Application that the gate looks at was, at some moment, synced or succeeded, and Healthy or Progressing |
| StaleOrder.WrittenAfterReadingWithCaches | pkg/controller/helmrelease_controller.go:366-400 | in every run with lagging caches, each step of a reconcile that writes an Application or records CRDs follows a moment at which its release was as the reconcile read it, finalized, with a chart, neither suspended nor being deleted |
| Reconciler.HelmReleaseReconciler.Reconcile | pkg/controller/helmrelease_controller.go:349-410 | whichever API calls fail, the effect is that of a run of protocol steps of this reconcile to its end, and a step of it fails iff a call did; an absent release, one being deleted without the finalizer, and a suspended one with the finalizer change nothing; one without the finalizer at most gets it; anything else is written only if every dependency is synced or succeeded, and Healthy or Progressing |
| Reconciler.HelmReleaseReconciler.ReconcileDelete | pkg/controller/helmrelease_controller.go:414-438 | the deletion branch is such a run to its end |
| Reconciler.HelmReleaseReconciler.DeleteApplication | pkg/controller/helmrelease_controller.go:442-467 | get, delete and second get are such a run; it answers true only if the Application is gone |
| Reconciler.HelmReleaseReconciler.CheckDependenciesHealth | pkg/controller/helmrelease_controller.go:494-526 | the loop over dependencies is such a run; true means that the Application of every dependency is there, synced or succeeded, and Healthy or Progressing, and, if no call failed, false means that some is not |
| Reconciler.HelmReleaseReconciler.CreateOrPatch | pkg/controller/helmrelease_controller.go:391-400 | get, sync and write are such a run; success means the Application exists and names this release |
| Reconciler.HelmReleaseReconciler.UpdateFinalizer | pkg/controller/helmrelease_controller.go:433-437 | the update that adds or removes the finalizer is such a run, and writes only over the version that was read |
| Reconciler.UndisturbedIsReconcile | pkg/controller/helmrelease_controller.go:349-410 | an execution in which every call succeeds ends in the state that the progress theorems speak of |
| Naming.NamingAgreement | pkg/controller/naming.go:39-60 | the name the gate rebuilds is the dependency's Application name iff there is no cluster name, or it is named ace, or its chart is not ace |
| Naming.NamesTold | pkg/controller/naming.go:39-60 | with a cluster name every release but ACE's gets it as a suffix, by which clusters differ; ACE's, by name or by chart, and all without a cluster name keep their names |
| DependencyOrder.CreatedAfterDependencies | pkg/controller/helmrelease_controller.go:386-400 | in every run, between the reading of a release and the step that creates its Application, for each dependency the Application of the name that the gate rebuilds was, at some moment, synced or succeeded, and Healthy or Progressing |
| DependencyOrder.WrittenAfterReading | pkg/controller/helmrelease_controller.go:366-400 | in every run each step of a reconcile that creates or patches an Application, or records CRDs, follows a reading of its release in which it had the finalizer and a chart and was neither suspended nor being deleted |
| DependencyOrder.GateSeesOwn | pkg/controller/helmrelease_controller.go:499-510 | an Application of the rebuilt name belongs to the dependency iff the dependency exists and its name is rebuilt rightly |
| DependencyOrder.CreatedAfterOwnDependencies | pkg/controller/helmrelease_controller.go:386-400 | in every run, between that reading and the creation each dependency that exists, and whose name is rebuilt rightly, had, at some moment, its own Application synced or succeeded, and Healthy or Progressing |
| DependencyOrder.BlockedNeverCreated | pkg/controller/helmrelease_controller.go:494-526 | names whose releases always depend on one of these names never get an Application, in any run |
| DependencyOrder.CycleNeverCreated | pkg/controller/helmrelease_controller.go:494-526 | in every run no release on a dependency cycle, a self-loop included, gets an Application while the cycle stands and the gate rebuilds its releases' names rightly |
| DependencyOrder.FixedCycleNeverCreated | pkg/controller/helmrelease_controller.go:494-526 | so when nobody deletes the releases of such a cycle or edits their dependencies or charts, none ever gets an Application |
| Progress.ReconcileEffect | pkg/controller/helmrelease_controller.go:349-410 | a successful reconcile of a live release writes its Application iff every dependency's is synced or succeeded, and Healthy or Progressing, records its CRDs then and only then, and changes no other Application, release or record |
| Outcomes.LeavesAlone | pkg/controller/helmrelease_controller.go:366-421 | a suspended release with the finalizer, and one being deleted without it, change nothing |
| Outcomes.AddsFinalizer | pkg/controller/helmrelease_controller.go:370-379 | a live release without the finalizer gets it, and nothing else happens |
| Outcomes.NeedsChart | pkg/controller/helmrelease_controller.go:530-535 | a live release without a chart is not written and nothing is recorded for it |
| Outcomes.Finalises | pkg/controller/helmrelease_controller.go:414-438 | without an Application a release being deleted loses the finalizer and its record, and goes iff no other finalizer holds it |
| Outcomes.WaitsForPruning | pkg/controller/helmrelease_controller.go:442-467 | while its Application is being pruned nothing changes |
| Outcomes.DeletesApplication | pkg/controller/helmrelease_controller.go:442-467 | an Application with Argo CD's finalizer is marked as deleted, and nothing else changes |
| Outcomes.DeletionEnds | pkg/controller/helmrelease_controller.go:414-467 | one reconcile, the end of pruning and one more reconcile take away the Application, the record, the finalizer and, unless another finalizer holds it, the release |
| Outcomes.WritesApplication | pkg/controller/helmrelease_controller.go:386-400 | a live release whose dependencies are ready gets its CRDs recorded and its Application written, owned by it and with Argo CD's finalizer, unless one of that name is being deleted without cascade |
| Progress.ReconcileIsRun | pkg/controller/helmrelease_controller.go:349-410 | such a reconcile is a run of the protocol |
| Progress.RoundsAreRun | pkg/controller/helmrelease_controller.go:349-410 | rounds of settling and reconciling are a run of the protocol |
| Progress.RoundProgress | pkg/controller/helmrelease_controller.go:386-400 | unless something blocks, a round strictly lowers the number of releases without an Application |
| Progress.ProgressExactly | pkg/controller/helmrelease_controller.go:386-400 | after as many rounds as releases, in any order, all have Applications iff no set of names blocks itself |
| Progress.RankedNoBlockage | pkg/controller/helmrelease_controller.go:494-526 | acyclic dependencies whose names the gate rebuilds rightly never block |
| Progress.AcyclicProgress | pkg/controller/helmrelease_controller.go:494-526 | so all releases of an acyclic set get Applications within as many rounds as there are releases |
| Progress.RenamedAceBlocks | pkg/controller/helmrelease_controller.go:500-502 | with a cluster name, a release that depends on an ace chart under another name is blocked when no release and no Application bears the rebuilt name |
| RenamedAce.StrangerDecides | pkg/controller/helmrelease_controller.go:499-526 | a reconcile lets a release with one dependency that does not agree with its rebuilt name through iff an Application of that name exists, synced or succeeded, and Healthy or Progressing; it belongs to another release |
| RenamedAce.PassedOnStranger | pkg/controller/helmrelease_controller.go:499-526 | whenever a live release depends on an ace chart under another name that has no Application, another live release bears the rebuilt name, and the gate's names of all their other dependencies have Applications, there is a run in which the dependent gets its Application and the dependency, unless it is the dependent itself, has none |
| RenamedAce.CreatedBeforeItsDependency | pkg/controller/helmrelease_controller.go:499-526 | a concrete run in which an Application is created although its release's dependency has none |
| RenamedAce.SelfLoopCreated | pkg/controller/helmrelease_controller.go:499-526 | a concrete run in which a release that depends on itself gets its Application |
| Registry.HelmCRDRegistry.Set | pkg/controller/helmrelease_controller.go:200-211 | the release's recorded set becomes the given CRDs, and no other record changes |
| Registry.HelmCRDRegistry.Remove | pkg/controller/helmrelease_controller.go:193-197 | the release's record goes, and no other |
| Registry.HelmCRDRegistry.Owner | pkg/controller/helmrelease_controller.go:333-346 | for every order of the map the answer is the least release that ships the CRD, or none |
| Text.LessExactly | pkg/controller/helmrelease_controller.go:341 | the order that elects: a text comes after its prefixes, and otherwise the first character that differs decides |
| Registry.RecordedIsLast | pkg/controller/helmrelease_controller.go:193-211 | after any history a release counts as shipping a CRD iff the last operation on it recorded that |
| Registry.OwnerIsLeastRecorded | pkg/controller/helmrelease_controller.go:333-346 | after any history with non-empty keys the owner is the least release last recorded as shipping the CRD, and none iff there is none |
| Registry.EmptyKeyDependsOnOrder | pkg/controller/helmrelease_controller.go:338-344 | with an empty key the answer would depend on the order of the map |
| Election.TwoPassesElect | pkg/controller/helmrelease_controller.go:658-682 | after two full passes in any order, from any registry, a release goes without the ignore rule of a CRD iff it is the least release recorded as shipping it, those not reconciled any more included, and the CRD is not oversized |
| Election.ExactlyOneManager | pkg/controller/helmrelease_controller.go:658-682 | so a CRD oversized nowhere has exactly one manager among the reconciled releases, the least one recorded as shipping it, or none if that one stays recorded but is not reconciled |
| Election.RuleExactly | pkg/controller/helmrelease_controller.go:658-682 | after any schedule, from any registry, a release goes without a shipped CRD's rule iff the CRD is not oversized in it and no smaller release was recorded as shipping it before its last reconcile |
| Election.OnePassExactly | pkg/controller/helmrelease_controller.go:658-682 | one pass from an empty registry leaves the least release shipping a CRD as a manager, and no other iff each other one is last reconciled after some smaller one |
| Election.OnePassLeavesTwoManagers | pkg/controller/helmrelease_controller.go:658-682 | one pass is not enough: a larger key reconciled first keeps no ignore rule |
| Election.ElectedIsLive | pkg/controller/helmrelease_controller.go:433-437 | in every run of the protocol the elected owner is a release that exists with its finalizer |
| SchemaCache.ReadSchema | pkg/controller/helmrelease_controller.go:305-326 | the schema read is that of the first version entry with the wanted name, or one without fields |
| SchemaCache.CrdSchemaCache.Get | pkg/controller/helmrelease_controller.go:162-170 | an entry answers iff it is at most ten minutes old |
| SchemaCache.CrdSchemaCache.LookupCRDSchema | pkg/controller/helmrelease_controller.go:279-329 | a fresh entry answers without a call; otherwise the cluster does, and every answer but a failure is cached |
| SchemaCache.CrdSchemaCache.UndeclaredPointers | pkg/controller/helmrelease_controller.go:227-236 | for every map order: the sorted escaped pointers of exactly the spec fields the schema does not declare |
| SchemaCache.CrdSchemaCache.UndeclaredSpecFieldRules | pkg/controller/helmrelease_controller.go:215-246 | the rules of a whole list of lookups through the cache, and the cache after them |
| SchemaCache.CrdSchemaCache.ZeroValueSpecFieldRules | pkg/controller/helmrelease_controller.go:250-275 | the rules of a whole list of lookups through the cache, and the cache after them |
| SchemaCache.EntriesRecorded | pkg/controller/helmrelease_controller.go:172-180 | starting from an empty cache, every entry was fetched by one of the lookups, which did not fail, and carries its time |
| SchemaCache.LookupFresh | pkg/controller/helmrelease_controller.go:279-329 | on a monotone clock an answered schema is one the cluster gave at most ten minutes earlier |
| SchemaCache.RulesSound | pkg/controller/helmrelease_controller.go:215-275 | whatever was looked up before, on a monotone clock each undeclared-field or zero-value rule names exactly the paths to ignore of an object outside the core group, by a schema given at most ten minutes earlier, never one that is missing, nor for undeclared fields one that preserves unknown fields |
| SchemaCache.RulesComplete | pkg/controller/helmrelease_controller.go:215-275 | whatever is cached, each looked-up object with paths to ignore gets such a rule |
| SchemaCache.OnlyDeclaredRemain | pkg/controller/helmrelease_controller.go:215-246 | erasing the pointers of a rule leaves exactly the declared fields of the spec |
| ClusterSchemas.SchemaReadsCRD | pkg/controller/helmrelease_controller.go:305-326 | a field counts as undeclared iff the CRD's first entry of the version neither preserves unknown fields nor declares it, or there is no such entry, told by paths in the CRD |
| ClusterSchemas.GoneByCRD | pkg/controller/helmrelease_controller.go:215-246 | so the paths of an undeclared-field rule are those of exactly the spec fields that the CRD prunes |
| ClusterSchemas.UndeclaredByCluster | pkg/controller/helmrelease_controller.go:215-246 | whatever was looked up before, each undeclared-field rule names exactly the spec fields pruned by a CRD that the cluster gave at most 600 seconds earlier for the same kind, of an object outside the core group |
| ClusterSchemas.UndeclaredFieldNamed | pkg/controller/helmrelease_controller.go:215-246 | conversely an object outside the core group whose schema is not cached gets a rule naming each spec field that the CRD it looks up prunes |
| ClusterSchemas.ZeroValuedByCluster | pkg/controller/helmrelease_controller.go:250-275 | each zero-value rule names exactly the false, empty-object and empty-array fields of a spec whose kind had a CRD at most 600 seconds earlier |
| ClusterSchemas.CacheKeyExactly | pkg/controller/helmrelease_controller.go:279-283 | kinds share an entry iff they agree in group, version and kind |
| ClusterSchemas.AnsweredForTenMinutes | pkg/controller/helmrelease_controller.go:162-180 | a schema, or the absence of a CRD, once fetched answers for ten minutes whatever the cluster would say, and no longer |
| Warnings.RepeatedInverts | pkg/controller/helmrelease_controller.go:794-815 | the parser returns a key iff the message is its print, with the marker nowhere earlier |
| Warnings.RepeatedRoundTrip | pkg/controller/helmrelease_controller.go:794-815 | every printable key without blanks is read back from its message, whatever the tail, slashes in the name included |
| Warnings.SharedInverts | pkg/controller/helmrelease_controller.go:823-835 | the parser returns a kind and a name iff the message is their print, with the marker nowhere earlier |
| Warnings.SharedRoundTrip | pkg/controller/helmrelease_controller.go:823-835 | every kind and name without blanks are read back from their message |
| Warnings.SharedResourceIgnoreRules | pkg/controller/helmrelease_controller.go:730-767 | the rules of a whole list of conditions, one for each contested resource |
| Warnings.ContestedExactly | pkg/controller/helmrelease_controller.go:730-778 | a rule exists iff a condition contests its resource, and shared warnings contest only inventory resources |
| Warnings.ServerSideDiffSet | pkg/controller/helmrelease_controller.go:80-90 | the option is set afterwards, an existing choice is kept, and a second application changes nothing |
| WarningTexts.RepeatedMessage | pkg/controller/helmrelease_controller.go:794-815 | "Resource group/kind/namespace/name appeared ..." is read as that resource |
| WarningTexts.SharedMessage | pkg/controller/helmrelease_controller.go:823-835 | "kind/name is part of applications ..." is read as that kind and name |
| WarningTexts.ContestedTold | pkg/controller/helmrelease_controller.go:730-778 | a rule for spec, labels and annotations exists iff a RepeatedResourceWarning carries the resource's key before its first marker, or a SharedResourceWarning its kind and name and it is the first such resource of the inventory |
| WarningTexts.SetsExactly | pkg/controller/helmrelease_controller.go:80-90 | an option sets ServerSideDiff iff that text starts the annotation or follows a comma, blanks aside |
| WarningTexts.ServerSideDiffTold | pkg/controller/helmrelease_controller.go:80-90 | the annotation stays when some option sets ServerSideDiff, a blank one becomes "ServerSideDiff=true", and any other gets that after a comma |
| Sync.Syncer.SyncApplication | pkg/controller/helmrelease_controller.go:530-697 | the detection asked for is that of the chart it deploys; on success the whole Application, the registry and the schema cache are as specified; on failure registry, cache, CRDs and spec are untouched; CRDs are only ever added, and if no call failed every oversized CRD with a well-named document is there |
| Sync.Syncer.CreateOrPatch | pkg/controller/helmrelease_controller.go:391-400 | one reconcile as seen from the clusters: whatever calls fail it is a step of the runs below, and if none fails the Application is written |
| Sync.Syncer.OwnershipLoop | pkg/controller/helmrelease_controller.go:669-682 | a rule for every shipped CRD unless this release is the elected owner and the CRD is small |
| Sync.Syncer.EnsureOversizedCRDs | pkg/controller/helmrelease_controller.go:701-726 | whatever fails, no CRD in the cluster changes and only documents are added; if nothing fails every document's CRD exists |
| Sync.OwnershipIsElection | pkg/controller/helmrelease_controller.go:669-682 | the loop writes rules for exactly the CRDs that the election gives to others, or that are oversized |
| Sync.SyncIsElectionStep | pkg/controller/helmrelease_controller.go:658-682 | a sync changes registry and ownership rules as one step of the election does |
| Sync.RulesIgnoreCache | pkg/controller/helmrelease_controller.go:215-275 | with a cache that agrees with the cluster, the schema rules do not depend on the clock or on what is cached |
| Sync.BackReferenceInverts | pkg/controller/helmrelease_controller.go:547-554 | splitting the annotation gives the release's namespace and name back iff neither has a slash |
| Sync.WatchFindsRelease | pkg/controller/helmrelease_controller.go:998-1013 | a watched Application leads back to the release it mirrors, iff that release's namespace and name have no slash |
| Sync.SyncedExplained | pkg/controller/helmrelease_controller.go:642-694 | a synced Application ignores exactly what detection says, the CRDs owned by others or oversized, the undeclared and zero-valued fields, and the resources its conditions contest |
| Sync.SyncIdempotent | pkg/controller/helmrelease_controller.go:528-697 | a second sync in the same world leaves annotations, labels, finalizers, the whole spec and the registry as they are |
| Sync.OversizedRuleExactly | pkg/controller/helmrelease_controller.go:642-694 | after a sync the Application of a release shipping an oversized CRD carries its ignore rule iff the detection succeeded or a condition contests the CRD, elected or not |
| Sync.FailedDetectionForgets | pkg/controller/helmrelease_controller.go:653-661 | a sync with a failed detection leaves only the rules of contested resources, records no CRDs for the release and looks no schema up |
| Sync.OversizedRunExactly | pkg/controller/helmrelease_controller.go:642-694 | over any run of reconciles by any releases, at every moment the rule is there iff the detection of the reconcile that wrote the Application last succeeded or a condition contested the CRD then |
| Sync.OversizedEverIgnored | pkg/controller/helmrelease_controller.go:669-682 | so an Application whose reconciles all detect the oversized CRD carries its rule at every moment that it exists |
| Sync.InstallOnce | pkg/controller/helmrelease_controller.go:701-726 | over any run of reconciles by any releases, whatever calls fail, a CRD once in the cluster is never altered, and a new one is a document some reconcile shipped |
| Sync.OversizedInstalled | pkg/controller/helmrelease_controller.go:701-726 | if no call of a reconcile failed, its chart's oversized CRDs are in the cluster at the end of the run, whatever other reconciles do |
| Sync.PassInstallsAll | pkg/controller/helmrelease_controller.go:701-726 | after a pass in which no call failed, every oversized CRD of every release exists |
| Sync.RunRulesSound | pkg/controller/helmrelease_controller.go:215-275 | over any run from an empty cache on a monotone clock, each schema rule of a further sync rests on a schema that the cluster gave at most ten minutes earlier, in this sync or an earlier one |
| Sync.SyncIsProtocolStage | pkg/controller/helmrelease_controller.go:530-697 | this sync goes on under the same condition as the protocol's sync stage and does the same to the registry |
| Sync.SyncedIsProtocolApp | pkg/controller/helmrelease_controller.go:542-560 | what it writes is an Application of the protocol's name that leads back to its release and carries Argo CD's finalizer |
| Sync.DetectedWellNamed | pkg/ignoregen/ignoregen.go:203-231 | the documents that detection reports decode to CRDs of the names they are filed under |
| Projection.DeploysWhatWasDetected | pkg/controller/helmrelease_controller.go:602-656 | the spec carries the release's chart, version, release name, namespace and repository without the oci scheme, and the detection for just these fields gives its first rules and the CRDs recorded; without one there are none |
| Projection.SpecBySettings | pkg/controller/helmrelease_controller.go:562-636 | project and destination with their defaults, values, which a lone {} empties and nothing else does, prune without selfHeal, and the four sync options |
| Projection.MetadataBySettings | pkg/controller/helmrelease_controller.go:542-566 | the two annotations, the cascade finalizer and, for a named managed cluster, its label are set; every other annotation, finalizer and label stays |
| Projection.OwnershipTold | pkg/controller/helmrelease_controller.go:658-682 | a rule for spec, labels and annotations of each shipped CRD, except of a small one that this release records and no smaller release does |
| Pointers.EscapeBijective | pkg/ignoregen/ignoregen.go:331-334 | the two-pass escape is a bijection onto RFC 6901 reference tokens, inverted by the RFC's unescaping, for all strings |
| Pointers.DecodeEncode | pkg/ignoregen/ignoregen.go:316-334 | a written pointer, read by the RFC, gives the path it was written for |
| Pointers.EraseIsEraseSet | pkg/ignoregen/ignoregen.go:233-256 | erasing pointer after pointer removes exactly the named fields, in any order |
| Pointers.EraseSetLookup | pkg/ignoregen/ignoregen.go:233-256 | a path survives erasing iff none of its non-empty prefixes is named |
| FieldSweep.NullPointers | pkg/ignoregen/ignoregen.go:316-328 | for every map order: each null field reachable through maps once, and nothing else |
| FieldSweep.ZeroValuePointers | pkg/ignoregen/ignoregen.go:338-360 | for every map order: each false, empty-object and empty-array field once, without cascading, and nothing else |
| FieldSweep.PathsExact | pkg/ignoregen/ignoregen.go:316-360 | a path is listed iff it leads to a qualifying field |
| FieldSweep.SpecPointersExact | pkg/ignoregen/ignoregen.go:235-256 | each pointer of a rule decodes to the path of a qualifying field, each such field is listed, none twice, in sorted order |
| FieldSweep.SpecPointersTold | pkg/ignoregen/ignoregen.go:235-256 | a null rule lists exactly the null fields of a spec, a zero-value rule exactly those that are false, an empty object or an empty array |
| FieldSweep.EraseGivesPruned | pkg/ignoregen/ignoregen.go:316-360 | erasing the listed fields gives the value without its qualifying fields, and the same from that value |
| FieldSweep.PrunedRemovesOnly | pkg/ignoregen/ignoregen.go:316-360 | a field goes iff it qualifies itself; every other value stays as it is |
| FieldSweep.SweepRulesAgree | pkg/ignoregen/ignoregen.go:235-256 | once the rule's pointers are erased, a resource and its copy that lost the qualifying fields are equal |
| FieldSweep.NullFieldRules | pkg/ignoregen/ignoregen.go:235-256 | a rule exists iff it is the null rule of a resource whose spec has a null |
| Rules.KeyInjective | pkg/ignoregen/ignoregen.go:557-559 | keys tell resources apart when group, kind and namespace have no slash |
| Rules.UnionStrings | pkg/ignoregen/ignoregen.go:406-418 | the ascending list of exactly the strings of both lists |
| Rules.DedupeRules | pkg/ignoregen/ignoregen.go:388-404 | the loop with its index map, which always agrees with the output, computes the merge specification |
| Rules.DedupeKeys | pkg/ignoregen/ignoregen.go:388-404 | one rule for each key, in order of first appearance |
| Rules.DedupeIdempotent | pkg/ignoregen/ignoregen.go:388-404 | a second application changes nothing |
| MergedRules.MergedExactly | pkg/ignoregen/ignoregen.go:388-418 | each rule given out lists exactly what the rules with its key list, names the resource of the first of them, and is their only one, unchanged, or has ascending lists |
| Rules.DedupeRelabels | pkg/ignoregen/ignoregen.go:388-404 | in general every target lands on the resource of the first rule with its key |
| Rules.DedupeMeaning | pkg/ignoregen/ignoregen.go:388-404 | the meaning is kept iff no two resources with targets share a key |
| Rules.DedupePreservesMeaning | pkg/ignoregen/ignoregen.go:388-404 | with slash-free group, kind and namespace the meaning is kept |
| Rules.KeyClashExample | pkg/ignoregen/ignoregen.go:388-404 | two resources with one key whose merged rules mean something else |
| Manifest.JoinRoundTrip | pkg/ignoregen/ignoregen.go:515-541 | splitting the joined texts gives each text's documents, in order, blanks dropped, for all texts |
| Manifest.DocStandsAlone | pkg/ignoregen/ignoregen.go:208-213 | a trimmed document splits into itself iff no line of it is a separator |
| Manifest.SplitsExactly | pkg/ignoregen/ignoregen.go:563 | a text is cut at every line of three dashes and blanks, and nowhere else |
| Manifest.ParseResources | pkg/ignoregen/ignoregen.go:565-610 | the loop computes the keyed resources of the text's documents |
| Manifest.ParsedExactly | pkg/ignoregen/ignoregen.go:582-606 | a document gives a resource iff kind and name are texts and not empty; it has that kind, name and namespace and the document itself, and the apiVersion is its version, or its slash-free group, a slash and its version |
| Manifest.KeyedIsLast | pkg/ignoregen/ignoregen.go:565-610 | a key holds the last document that has it, and is missing iff none has |
| Manifest.KeyedWellKeyed | pkg/ignoregen/ignoregen.go:594-606 | every resource is stored under its own key |
| ChartCRDs.HelmCRDNames | pkg/ignoregen/ignoregen.go:203-231 | sorted names of all CRDs of the documents; the oversized ones are the keys of the document map, each with the last oversized document that holds it |
| ChartCRDs.CollectCRDs | pkg/ignoregen/ignoregen.go:515-541 | the crds/ files, then rendered documents that hold a CRD not in them; together they hold all CRD names |
| ChartCRDs.CollectedNamesExact | pkg/ignoregen/ignoregen.go:203-231 | reading the joined documents back lists exactly the CRDs in crds/ files or the rendered manifest |
| ChartCRDs.CrdTold | pkg/ignoregen/ignoregen.go:197-231 | a document is a CRD of a name iff its kind says CustomResourceDefinition and its metadata has that name, and oversized iff moreover it takes more than 204800 bytes |
| RenderDiff.DiffAnnotations | pkg/ignoregen/ignoregen.go:760-779 | pointers of exactly the shared annotations that print differently |
| RenderDiff.HasWebhookCaBundleDiff | pkg/ignoregen/ignoregen.go:803-827 | true iff as many webhooks on both sides and some pair has two different non-empty bundles |
| RenderDiff.Compare | pkg/ignoregen/ignoregen.go:665-725 | adds exactly the differences of the kind's own comparison, without repeats |
| KindDiffs.PayloadTargets | pkg/ignoregen/ignoregen.go:673-684 | Secrets and ConfigMaps: /data iff data or stringData differ, /stringData iff stringData differs, nothing else |
| KindDiffs.WebhookTargets | pkg/ignoregen/ignoregen.go:685-694 | webhook configurations of both kinds: the bundle expression iff as many webhooks and two different non-empty bundles at one place, nothing else |
| KindDiffs.ApiServiceTargets | pkg/ignoregen/ignoregen.go:695-701 | APIServices: /spec/caBundle iff two different non-empty bundles, nothing else |
| KindDiffs.WorkloadTargets | pkg/ignoregen/ignoregen.go:702-708 | Deployments and StatefulSets: exactly the pod template's annotations that both have and that print differently |
| KindDiffs.CrdTargets | pkg/ignoregen/ignoregen.go:711-720 | CRDs: /spec iff it differs, and exactly the annotations that both have and that print differently |
| KindDiffs.NoOtherTargets | pkg/ignoregen/ignoregen.go:665-725 | no other kind is compared |
| KindDiffs.ArrayPrints | pkg/ignoregen/ignoregen.go:760-779 | for that comparison an array prints as its items with blanks between them, in brackets |
| KindDiffs.MapPrints | pkg/ignoregen/ignoregen.go:760-779 | and a map as its keys and values in the order of the keys |
| RenderDiff.FindIgnoreDifferences | pkg/ignoregen/ignoregen.go:612-758 | the rules of exactly the resources that differ, each once, in order of kind and name |
| RenderDiff.RulesMeanDifferences | pkg/ignoregen/ignoregen.go:612-758 | the rules ignore exactly the differences between render 0 and any later render of the same resource |
| RenderDiff.RulesWellFormed | pkg/ignoregen/ignoregen.go:727-751 | one rule for each resource, none empty, pointers sorted and listed once |
| RenderDiff.SelfDiffEmpty | pkg/ignoregen/ignoregen.go:612-758 | a render compared with itself gives no rules |
| RenderDiff.SwapSameRules | pkg/ignoregen/ignoregen.go:612-850 | swapping two renders gives the same set of rules |
| RenderDiff.AppendMonotone | pkg/ignoregen/ignoregen.go:665-725 | one more render never takes a pointer or an expression away |
| ErasedDiff.AnnotationPointerExact | pkg/ignoregen/ignoregen.go:774 | the annotation pointer names its annotation iff the key has no tilde |
| ErasedDiff.PayloadsAgree | pkg/ignoregen/ignoregen.go:673-684 | once the pointers are erased, the payload of a Secret or ConfigMap is the same in both renders |
| ErasedDiff.CrdSpecsAgree | pkg/ignoregen/ignoregen.go:711-716 | once the pointers are erased, the spec of a CRD is the same in both renders |
| ErasedDiff.ApiBundlesAgree | pkg/ignoregen/ignoregen.go:695-701 | when both renders of an APIService carry a CA bundle, it is the same in both, or gone from both, once the pointers are erased |
| ErasedDiff.CrdAnnotationsAgree | pkg/ignoregen/ignoregen.go:717-720 | an annotation of a CRD that both renders have, and whose key has no tilde, is then gone from both or prints the same in both |
| ErasedDiff.PodAnnotationsAgree | pkg/ignoregen/ignoregen.go:702-708 | the same for the pod template of a Deployment or StatefulSet |
| Detection.DetectForeignChartResources | pkg/ignoregen/ignoregen.go:167-195 | a rule exists iff the resource carries labels of another chart or release |
| Detection.LookupGuardedRules | pkg/ignoregen/ignoregen.go:282-312 | a payload rule exists iff a part from a lookup-calling template holds that Secret or ConfigMap |
| Detection.PartIsOneDoc | pkg/ignoregen/ignoregen.go:287-292 | what a part describes on its own is a document of the whole manifest |
| Detection.Detect | pkg/ignoregen/ignoregen.go:128-156 | the result is the merge of the four passes, the objects of the first render and the CRDs of the second |
| Detection.DetectionExplained | pkg/ignoregen/ignoregen.go:139-156 | one rule for each key, and something is ignored iff it differs between renders, or its resource is foreign, or it is a null spec field, or it is a guarded payload |
| Reasons.ForeignTold | pkg/ignoregen/ignoregen.go:167-195 | a resource is foreign iff its label helm.sh/chart is set and not chart-version, or app.kubernetes.io/instance is set and not the release's non-empty name |
| Reasons.SourceTold | pkg/ignoregen/ignoregen.go:258-292 | a part comes from a template iff its first "# Source: " line that goes on names it |
| Reasons.IgnoredExactly | pkg/ignoregen/ignoregen.go:139-156 | a detection ignores exactly the differences between the renders, spec, labels and annotations of foreign resources, nulls in specs, and payloads of Secrets and ConfigMaps from templates that call lookup, all told by paths in the documents |
| Reasons.ObjectsTold | pkg/ignoregen/ignoregen.go:362-384 | schemas are looked up for exactly the resources with an object as spec, by the group, version and kind that their documents name |
| Detection.ListedCRDs | pkg/ignoregen/ignoregen.go:148-155 | names are sorted, oversized names are among them and key the documents, each of which is one document of the chart that is that CRD and oversized; a CRD oversized in every document that holds it is listed as such |
| Detection.DetectionCache.DetectIgnoreDifferences | pkg/ignoregen/ignoregen.go:118-163 | the first success answers every later request with its key; failures are not remembered; every memoised result comes from two renders |

## Left out

- Helm pull and render, the registry client, TLS and temporary directories: libraries; a render's manifest, crds/ files and lookup templates are inputs.
- lookupGuardedTemplates: walking the chart's templates for calls of `lookup` is a regular expression over chart files; the set of paths is an input.
- Values composition, HelmRepository lookup and credentials: library calls; their results or failures are inputs of `Sync`.
- updateHelmReleaseStatus: the condition list is a straight copy; the protocol keeps only that the patch bumps the version.
- SetupWithManager, watches, requeue delays and the work queue: when reconciles start is up to the run.
- Progress with lagging caches: it needs the caches to catch up between rounds, which is not modelled.
- StaleOrder.CreatedAfterDependenciesWithCaches: says that the dependencies were ready at some earlier moments of the run, not after the reading of the release, because the caches may be older than that.
- JQ path expressions: what they select is not modelled; rules mean the expression itself.
- Server-side defaulting: a CRD created from a document is the decoded document.
- Argo CD's own evaluation of ignoreDifferences, wildcards included: not in this repository; rules mean sets of pointers and expressions.
- Text as Go sees it: strings are sequences of characters and compared by them, not by bytes.
- renderedObjects: the order by kind and name is not kept; the set of objects is.
- Detection.RenderedObjects: states the set of objects, not their order, because ties are in no particular order.
- RenderDiff.FindIgnoreDifferences: ties of kind and name come in one fixed order in the model; every result about its rules speaks of the set and of the order by kind and name only.
- Array elements in pointers: the program never writes one, so `Decode` names map keys only.
- cmds, manager, mode and the Helm chart of the controller: flags, wiring and configuration.
