/** `syncApplication`: projecting a HelmRelease onto its Application, with the ownership loop and the
    direct creation of oversized CRDs (pkg/controller/helmrelease_controller.go:528-726). */
module Sync {
  import opened Text
  import opened Json
  import opened Rules
  import opened SchemaCache
  import opened Registry
  import opened Detection
  import ChartCRDs
  import opened Naming
  import Election
  import Protocol
  import Manifest
  import Warnings

  // ---------- inputs ----------

  datatype ChartSpec = ChartSpec(chart: string, version: string)

  /** The parts of a HelmRelease that syncApplication reads. */
  datatype HelmRelease = HelmRelease(
    namespace: string, name: string, chart: Option<ChartSpec>, releaseName: string, releaseNamespace: string)

  datatype Settings = Settings(
    project: string, destinationServer: string, destinationName: string, managed: bool, clusterName: string)

  const NOTHING_DETECTED := Detected([], [], [], map[], [])

  /** What the calls made on the way answer; `None` stands for an error. The lookups list one
      schema query for each detected object, for each of the two rule builders. */
  datatype Answers = Answers(
    repoURL: Option<string>, values: Option<string>, detections: map<Request, Detected>,
    undeclaredLookups: seq<Query>, zeroValueLookups: seq<Query>)

  /** What detection is asked for: the chart that the Application will deploy. */
  function RequestOf(a: Answers, hr: HelmRelease): Option<Request> {
    if hr.chart.None? || a.repoURL.None? then None
    else Some(Request(hr.chart.value.chart, hr.chart.value.version, TrimPrefix(a.repoURL.value, "oci://"),
                      hr.releaseNamespace, hr.releaseName))
  }

  /** Detection succeeds for this release. */
  predicate Detects(a: Answers, hr: HelmRelease) {
    RequestOf(a, hr).Some? && RequestOf(a, hr).value in a.detections
  }

  function DetectedOf(a: Answers, hr: HelmRelease): Detected {
    if Detects(a, hr) then a.detections[RequestOf(a, hr).value] else NOTHING_DETECTED
  }

  predicate LooksUp(queries: seq<Query>, objects: seq<RenderedObject>) {
    |queries| == |objects| && forall i :: 0 <= i < |queries| ==> queries[i].obj == objects[i]
  }

  predicate WellPosed(a: Answers, hr: HelmRelease) {
    LooksUp(a.undeclaredLookups, DetectedOf(a, hr).objects) && LooksUp(a.zeroValueLookups, DetectedOf(a, hr).objects)
  }

  // ---------- the Application ----------

  datatype Destination = Destination(namespace: string, server: string, name: string)

  datatype ApplicationSpec = ApplicationSpec(
    project: string, repoURL: string, chart: string, targetRevision: string, releaseName: string, values: string,
    destination: Destination, prune: bool, selfHeal: bool, syncOptions: seq<string>, ignoreDifferences: seq<Rule>)

  /** What a sync may change. */
  datatype AppData = AppData(
    annotations: map<string, string>, labels: map<string, string>, finalizers: seq<string>, spec: ApplicationSpec)

  /** What Argo CD reports and a sync only reads. */
  datatype Status = Status(conditions: seq<Warnings.Condition>, resources: seq<ResourceId>)

  /** The Application object that syncApplication fills in. */
  class LiveApplication {
    var annotations: map<string, string>
    var labels: map<string, string>
    var finalizers: seq<string>
    var spec: ApplicationSpec
    const status: Status

    constructor (data: AppData, status: Status)
      ensures Data() == data && this.status == status
    {
      annotations, labels, finalizers, spec := data.annotations, data.labels, data.finalizers, data.spec;
      this.status := status;
    }

    function Data(): AppData
      reads this
    {
      AppData(annotations, labels, finalizers, spec)
    }
  }

  const HELM_RELEASE_ANNOTATION := "fargocd.appscode.com/helmrelease"
  const COMPARE_OPTIONS_ANNOTATION := "argocd.argoproj.io/compare-options"
  const AGENT_NAME_LABEL := "argocd.argoproj.io/agent-name"
  const RESOURCES_FINALIZER := "resources-finalizer.argocd.argoproj.io"
  const IN_CLUSTER := "https://kubernetes.default.svc"
  const SYNC_OPTIONS: seq<string> :=
    ["CreateNamespace=true", "Validate=false", "ApplyOutOfSyncOnly=true", "RespectIgnoreDifferences=true"]

  function ReleaseKey(hr: HelmRelease): string {
    hr.namespace + "/" + hr.name
  }

  /** cache.MetaNamespaceKeyFunc. */
  function BackReference(hr: HelmRelease): string {
    if hr.namespace == "" then hr.name else ReleaseKey(hr)
  }

  /** cache.SplitMetaNamespaceKey: a namespace and a name, or an error. */
  function SplitBackReference(ref: string): Option<(string, string)> {
    match Warnings.Cut(ref)
    case (_, None) => Some(("", ref))
    case (namespace, Some(name)) => if '/' in name then None else Some((namespace, name))
  }

  /** The request that a watched Application raises. */
  function RequestFrom(app: AppData): Option<(string, string)> {
    if HELM_RELEASE_ANNOTATION in app.annotations then SplitBackReference(app.annotations[HELM_RELEASE_ANNOTATION])
    else None
  }

  lemma BackReferenceInverts(hr: HelmRelease)
    ensures SplitBackReference(BackReference(hr)) == Some((hr.namespace, hr.name)) <==>
            '/' !in hr.namespace && '/' !in hr.name
  {
    var ref := BackReference(hr);
    Warnings.CutSlash(ref);
    if '/' !in hr.namespace {
      if hr.namespace != "" {
        Warnings.CutOf(hr.namespace, hr.name);
      } else if '/' !in hr.name {
        Warnings.CutOf(hr.name, "");
      }
    }
  }

  function TrimPrefix(s: string, prefix: string): string {
    if Warnings.HasPrefix(s, prefix) then s[|prefix|..] else s
  }

  function AddFinalizer(finalizers: seq<string>, f: string): seq<string> {
    if f in finalizers then finalizers else finalizers + [f]
  }

  /** The values text; a lone `{}` stands for no values. */
  function NormalValues(raw: string): string {
    if Warnings.TrimSpace(raw) == "{}" then "" else raw
  }

  function WithMetadata(settings: Settings, hr: HelmRelease, app: AppData): AppData {
    var options :=
      if COMPARE_OPTIONS_ANNOTATION in app.annotations then app.annotations[COMPARE_OPTIONS_ANNOTATION] else "";
    app.(
      annotations := app.annotations[HELM_RELEASE_ANNOTATION := BackReference(hr)]
                       [COMPARE_OPTIONS_ANNOTATION := Warnings.WithServerSideDiff(options)],
      finalizers := AddFinalizer(app.finalizers, RESOURCES_FINALIZER),
      labels := if settings.managed && settings.clusterName != ""
                then app.labels[AGENT_NAME_LABEL := settings.clusterName] else app.labels)
  }

  function SpecFor(settings: Settings, hr: HelmRelease, repoURL: string, values: string, rules: seq<Rule>)
    : ApplicationSpec
    requires hr.chart.Some?
  {
    ApplicationSpec(
      if settings.project == "" then "default" else settings.project,
      TrimPrefix(repoURL, "oci://"), hr.chart.value.chart, hr.chart.value.version, hr.releaseName, NormalValues(values),
      Destination(hr.releaseNamespace,
                  if settings.destinationServer == "" && settings.destinationName == "" then IN_CLUSTER
                  else settings.destinationServer,
                  settings.destinationName),
      true, false, SYNC_OPTIONS, rules)
  }

  // ---------- the ownership loop ----------

  function CrdRule(crd: string): Rule {
    Rule(ResourceId("apiextensions.k8s.io", "CustomResourceDefinition", "", crd), Warnings.CONTESTED_POINTERS, [])
  }

  /** A rule for every shipped CRD, unless this release is the elected owner and the CRD is small. */
  function OwnershipRules(record: Record, release: string, crds: seq<string>, oversized: set<string>): seq<Rule> {
    if crds == [] then []
    else
      var last := crds[|crds|-1];
      OwnershipRules(record, release, crds[..|crds|-1], oversized) +
      (if OwnerOf(record, last) == release && last !in oversized then [] else [CrdRule(last)])
  }

  /** The loop writes rules for exactly the CRDs that the election says this release ignores. */
  lemma {:induction false} OwnershipIsElection(record: Record, release: string, crds: seq<string>,
                                               oversized: set<string>, r: Rule)
    ensures r in OwnershipRules(record, release, crds, oversized) <==>
            exists crd :: crd in Election.IgnoredBy(record, release, Election.Chart(Elems(crds), oversized)) &&
                          r == CrdRule(crd)
  {
    if crds != [] {
      var before, last := crds[..|crds|-1], crds[|crds|-1];
      OwnershipIsElection(record, release, before, oversized, r);
      assert crds == before + [last];
      ElemsAppend(before, [last]);
      var all := Election.IgnoredBy(record, release, Election.Chart(Elems(crds), oversized));
      var some := Election.IgnoredBy(record, release, Election.Chart(Elems(before), oversized));
      assert all == some + if OwnerOf(record, last) == release && last !in oversized then {} else {last};
    }
  }

  // ---------- the controller ----------

  /** What the election gets to know of a detection. */
  ghost function ChartOf(d: Detected): Election.Chart {
    Election.Chart(Elems(d.helmCRDs), Elems(d.oversized))
  }

  ghost function RecordAfter(a: Answers, record: Record, hr: HelmRelease): Record {
    record[ReleaseKey(hr) := Elems(DetectedOf(a, hr).helmCRDs)]
  }

  /** The election's step is what a sync does to the registry and to its ownership rules. */
  lemma SyncIsElectionStep(a: Answers, system: Election.System, hr: HelmRelease, crd: string)
    ensures var d := DetectedOf(a, hr);
            var record := RecordAfter(a, system.record, hr);
            var after := Election.ReconcileOne(system, ReleaseKey(hr), ChartOf(d));
            after.record == record &&
            (crd in after.ignored[ReleaseKey(hr)] <==>
             CrdRule(crd) in OwnershipRules(record, ReleaseKey(hr), d.helmCRDs, Elems(d.oversized)))
  {
    var d := DetectedOf(a, hr);
    var record := RecordAfter(a, system.record, hr);
    hide Election.IgnoredBy;
    OwnershipIsElection(record, ReleaseKey(hr), d.helmCRDs, Elems(d.oversized), CrdRule(crd));
  }

  function EntriesAfterSync(a: Answers, entries: Entries): Entries {
    EntriesAfterAll(EntriesAfterAll(entries, a.undeclaredLookups), a.zeroValueLookups)
  }

  /** All the rules of one sync, in the order they are appended. */
  ghost function RulesFor(a: Answers, record: Record, entries: Entries, hr: HelmRelease, status: Status): seq<Rule> {
    var d := DetectedOf(a, hr);
    d.rules +
    OwnershipRules(RecordAfter(a, record, hr), ReleaseKey(hr), d.helmCRDs, Elems(d.oversized)) +
    RulesFrom(entries, a.undeclaredLookups, Undeclared) +
    RulesFrom(EntriesAfterAll(entries, a.undeclaredLookups), a.zeroValueLookups, ZeroValued) +
    Warnings.ContestedRules(status.conditions, status.resources)
  }

  predicate Succeeds(a: Answers, hr: HelmRelease) {
    hr.chart.Some? && a.repoURL.Some? && a.values.Some?
  }

  /** The Application after a successful sync. */
  ghost function Synced(settings: Settings, a: Answers, record: Record, entries: Entries, hr: HelmRelease,
                        status: Status, app: AppData): AppData
    requires Succeeds(a, hr)
  {
    WithMetadata(settings, hr, app).(
      spec := SpecFor(settings, hr, a.repoURL.value, a.values.value, RulesFor(a, record, entries, hr, status)))
  }

  /** The name a CRD document gives its object. */
  function ObjectName(v: Value): string {
    AsString(Field(Field(v, "metadata"), "name"))
  }

  /** Each document decodes to a CRD of the name it is filed under. */
  predicate WellNamed(decode: Manifest.Decoder, docs: map<string, Manifest.Lines>) {
    forall n :: n in docs ==> decode(docs[n]).Some? && ObjectName(decode(docs[n]).value) == n
  }

  /** What creating missing CRDs may do to the cluster: add objects from the documents, and leave
      every CRD that is there as it is. */
  ghost predicate OnlyInstalls(before: map<string, Value>, after: map<string, Value>, decode: Manifest.Decoder,
                               docs: map<string, Manifest.Lines>)
  {
    (forall n :: n in before ==> n in after && after[n] == before[n]) &&
    (forall n :: n in after && n !in before ==> Installed(before, n, after[n], decode, docs))
  }

  ghost predicate Installed(before: map<string, Value>, name: string, obj: Value, decode: Manifest.Decoder,
                            docs: map<string, Manifest.Lines>)
  {
    ObjectName(obj) == name && exists d :: d in docs && d !in before && decode(docs[d]) == Some(obj)
  }

  // ---------- one reconcile, seen from the clusters ----------

  /** What a reconcile is about: the release, what Argo CD reports of its Application, and what the
      calls on the way answer. */
  datatype Job = Job(hr: HelmRelease, status: Status, answers: Answers)

  /** The CRDs of the workload cluster, the controller's memory, and the Applications by name. */
  datatype Cluster = Cluster(
    crds: map<string, Value>, record: Record, entries: Entries, apps: map<string, AppData>)

  const NEW_APP := AppData(
    map[], map[], [], ApplicationSpec("", "", "", "", "", "", Destination("", "", ""), false, false, [], []))

  function AppNameOf(settings: Settings, hr: HelmRelease): string {
    ApplicationName(hr.name, ChartName(hr), settings.clusterName)
  }

  function AppAt(settings: Settings, s: Cluster, hr: HelmRelease): AppData {
    var name := AppNameOf(settings, hr);
    if name in s.apps then s.apps[name] else NEW_APP
  }

  /** What one reconcile does. `allOk` says that no API call failed: then the Application is written
      and, if the documents are well named, their CRDs are there. */
  ghost predicate SyncStep(settings: Settings, decode: Manifest.Decoder, s: Cluster, job: Job, allOk: bool,
                           t: Cluster)
  {
    if Succeeds(job.answers, job.hr)
    then (!allOk && t == s) || Syncs(settings, decode, s, job, allOk, t)
    else t == s
  }

  ghost predicate Syncs(settings: Settings, decode: Manifest.Decoder, s: Cluster, job: Job, allOk: bool, t: Cluster)
    requires Succeeds(job.answers, job.hr)
  {
    var a, hr := job.answers, job.hr;
    var docs := DetectedOf(a, hr).oversizedDocs;
    t.record == RecordAfter(a, s.record, hr) && t.entries == EntriesAfterSync(a, s.entries) &&
    OnlyInstalls(s.crds, t.crds, decode, docs) && (allOk && WellNamed(decode, docs) ==> docs.Keys <= t.crds.Keys) &&
    ((!allOk && t.apps == s.apps) ||
     t.apps == s.apps[AppNameOf(settings, hr) :=
                        Synced(settings, a, s.record, s.entries, hr, job.status, AppAt(settings, s, hr))])
  }

  /** The part of the reconciler that writes Applications. */
  class Syncer {
    const settings: Settings
    const decode: Manifest.Decoder
    /** Whether the n-th API call will succeed. */
    const answers: nat -> bool
    var calls: nat
    const helmCRDs: HelmCRDRegistry
    const crdSchemas: CrdSchemaCache
    /** The CRDs of the workload cluster. */
    var crds: map<string, Value>
    var apps: map<string, AppData>

    constructor (settings: Settings, decode: Manifest.Decoder, answers: nat -> bool, crds: map<string, Value>,
                 apps: map<string, AppData>)
      ensures Valid() && fresh(helmCRDs) && fresh(crdSchemas) && calls == 0
      ensures View() == Cluster(crds, map[], map[], apps)
    {
      this.settings, this.decode, this.answers, this.crds, this.apps := settings, decode, answers, crds, apps;
      calls := 0;
      helmCRDs := new HelmCRDRegistry();
      crdSchemas := new CrdSchemaCache();
    }

    /** Release keys contain a slash, so none is empty. */
    ghost predicate Valid()
      reads this, helmCRDs
    {
      "" !in helmCRDs.byRelease
    }

    ghost function View(): Cluster
      reads this, helmCRDs, crdSchemas
    {
      Cluster(crds, helmCRDs.byRelease, crdSchemas.entries, apps)
    }

    /** No call since the one numbered `first` has failed. */
    ghost predicate NoFailure(first: nat)
      reads this`calls
    {
      forall n :: first <= n < calls ==> answers(n)
    }

    /** One API call. */
    method Call(ghost first: nat) returns (ok: bool)
      requires first <= calls
      modifies this`calls
      ensures first <= calls && NoFailure(first) == (old(NoFailure(first)) && ok)
    {
      ok := answers(calls);
      calls := calls + 1;
    }

    /** Create the oversized CRDs that are missing. Failed calls are only logged. */
    method EnsureOversizedCRDs(docs: map<string, Manifest.Lines>, ghost first: nat)
      requires first <= calls
      modifies this`crds, this`calls
      ensures first <= calls && (NoFailure(first) ==> old(NoFailure(first)))
      ensures OnlyInstalls(old(crds), crds, decode, docs)
      ensures NoFailure(first) && WellNamed(decode, docs) ==> docs.Keys <= crds.Keys
    {
      hide NoFailure;
      var todo := docs.Keys;
      while todo != {}
        invariant todo <= docs.Keys && first <= calls
        invariant NoFailure(first) ==> old(NoFailure(first))
        invariant OnlyInstalls(old(crds), crds, decode, docs)
        invariant NoFailure(first) && WellNamed(decode, docs) ==> docs.Keys - todo <= crds.Keys
      {
        var name :| name in todo;
        todo := todo - {name};
        var answered := Call(first);
        if !answered || name in crds {
          continue;
        }
        var obj := decode(docs[name]);
        if obj.None? {
          continue;
        }
        var created := Call(first);
        if !created {
          continue;
        }
        if ObjectName(obj.value) !in crds {
          assert name !in old(crds);
          crds := crds[ObjectName(obj.value) := obj.value];
        }
      }
    }

    method OwnershipLoop(release: string, shipped: seq<string>, oversized: set<string>) returns (rules: seq<Rule>)
      requires Valid()
      ensures rules == OwnershipRules(helmCRDs.byRelease, release, shipped, oversized)
    {
      rules := [];
      for i := 0 to |shipped|
        invariant rules == OwnershipRules(helmCRDs.byRelease, release, shipped[..i], oversized)
      {
        assert shipped[..i+1][..i] == shipped[..i];
        var owner := helmCRDs.Owner(shipped[i]);
        if owner == release && shipped[i] !in oversized {
          continue;
        }
        rules := rules + [CrdRule(shipped[i])];
      }
      assert shipped[..|shipped|] == shipped;
    }

    method SyncMetadata(app: LiveApplication, hr: HelmRelease)
      modifies app`annotations, app`labels, app`finalizers
      ensures app.Data() == WithMetadata(settings, hr, old(app.Data()))
    {
      hide Warnings.WithServerSideDiff, AddFinalizer;
      app.annotations := app.annotations[HELM_RELEASE_ANNOTATION := BackReference(hr)];
      var options :=
        if COMPARE_OPTIONS_ANNOTATION in app.annotations then app.annotations[COMPARE_OPTIONS_ANNOTATION] else "";
      app.annotations := app.annotations[COMPARE_OPTIONS_ANNOTATION := Warnings.WithServerSideDiff(options)];
      app.finalizers := AddFinalizer(app.finalizers, RESOURCES_FINALIZER);
      if settings.managed && settings.clusterName != "" {
        app.labels := app.labels[AGENT_NAME_LABEL := settings.clusterName];
      }
    }

    /** syncApplication. Its answers are those of the calls made for the repository, the values, the
        detection and the schemas; creating CRDs makes further calls. */
    method SyncApplication(app: LiveApplication, hr: HelmRelease, a: Answers, ghost first: nat) returns (ok: bool)
      requires Valid() && WellPosed(a, hr) && first <= calls
      modifies app, helmCRDs, crdSchemas, this`crds, this`calls
      ensures Valid() && ok == Succeeds(a, hr)
      ensures first <= calls && (NoFailure(first) ==> old(NoFailure(first)))
      ensures ok ==> app.Data() == Synced(settings, a, old(helmCRDs.byRelease), old(crdSchemas.entries), hr,
                                          app.status, old(app.Data()))
      ensures ok ==> helmCRDs.byRelease == RecordAfter(a, old(helmCRDs.byRelease), hr)
      ensures ok ==> crdSchemas.entries == EntriesAfterSync(a, old(crdSchemas.entries))
      ensures OnlyInstalls(old(crds), crds, decode, DetectedOf(a, hr).oversizedDocs)
      ensures ok && NoFailure(first) && WellNamed(decode, DetectedOf(a, hr).oversizedDocs) ==>
                DetectedOf(a, hr).oversizedDocs.Keys <= crds.Keys
      ensures !ok ==> unchanged(helmCRDs) && unchanged(crdSchemas) && unchanged(this) && app.spec == old(app.spec)
    {
      hide WithMetadata, OwnershipRules, RulesFrom, Warnings.ContestedRules, EntriesAfterAll, SpecFor;
      hide NoFailure, WellNamed;
      if hr.chart.None? || a.repoURL.None? {
        return false;
      }
      SyncMetadata(app, hr);
      if a.values.None? {
        return false;
      }
      var request := Request(hr.chart.value.chart, hr.chart.value.version, TrimPrefix(a.repoURL.value, "oci://"),
                             hr.releaseNamespace, hr.releaseName);
      var detected := if request in a.detections then a.detections[request] else NOTHING_DETECTED;
      var key := ReleaseKey(hr);
      assert '/' in key;
      helmCRDs.Set(key, detected.helmCRDs);
      var oversized := set crd | crd in detected.oversized;
      EnsureOversizedCRDs(detected.oversizedDocs, first);
      var owned := OwnershipLoop(key, detected.helmCRDs, oversized);
      var undeclared := crdSchemas.UndeclaredSpecFieldRules(a.undeclaredLookups);
      var zeroValued := crdSchemas.ZeroValueSpecFieldRules(a.zeroValueLookups);
      var contested := Warnings.SharedResourceIgnoreRules(app.status.conditions, app.status.resources);
      var rules := detected.rules + owned + undeclared + zeroValued + contested;
      app.spec := SpecFor(settings, hr, a.repoURL.value, a.values.value, rules);
      return true;
    }

    /** controllerutil.CreateOrPatch: read the Application, sync it, write it. */
    method CreateOrPatch(job: Job)
      requires Valid() && WellPosed(job.answers, job.hr)
      modifies this, helmCRDs, crdSchemas
      ensures Valid() && old(calls) <= calls
      ensures SyncStep(settings, decode, old(View()), job, NoFailure(old(calls)), View())
    {
      hide NoFailure, Synced, OnlyInstalls, WellNamed, RecordAfter, EntriesAfterSync, AppNameOf;
      ghost var first := calls;
      var name := AppNameOf(settings, job.hr);
      var got := Call(first);
      if !got {
        return;
      }
      var app := new LiveApplication(if name in apps then apps[name] else NEW_APP, job.status);
      var ok := SyncApplication(app, job.hr, job.answers, first);
      if !ok {
        return;
      }
      var written := Call(first);
      if written {
        apps := apps[name := app.Data()];
      }
    }
  }

  // ---------- idempotence ----------

  /** What the cluster says about each kind, by cache key, while two syncs run. */
  type Snapshot = string -> Option<Schema>

  ghost predicate AnswersFrom(snapshot: Snapshot, queries: seq<Query>) {
    forall q :: q in queries ==> Fetched(q) == snapshot(CacheKey(q.obj))
  }

  /** Nothing cached contradicts the cluster. */
  ghost predicate Coherent(snapshot: Snapshot, entries: Entries) {
    forall key :: key in entries ==> snapshot(key) == Some(entries[key].schema)
  }

  lemma {:induction false} CoherentKept(snapshot: Snapshot, entries: Entries, queries: seq<Query>)
    requires Coherent(snapshot, entries) && AnswersFrom(snapshot, queries)
    ensures Coherent(snapshot, EntriesAfterAll(entries, queries))
  {
    if queries != [] {
      CoherentKept(snapshot, entries, queries[..|queries|-1]);
      assert queries[|queries|-1] in queries;
    }
  }

  /** With a coherent cache the rules depend on the objects only: not on the clock, nor on which
      entries happen to be cached. */
  lemma {:induction false} RulesIgnoreCache(snapshot: Snapshot, e1: Entries, q1: seq<Query>,
                                            e2: Entries, q2: seq<Query>, family: Family)
    requires Coherent(snapshot, e1) && AnswersFrom(snapshot, q1)
    requires Coherent(snapshot, e2) && AnswersFrom(snapshot, q2)
    requires |q1| == |q2| && forall i :: 0 <= i < |q1| ==> q1[i].obj == q2[i].obj
    ensures RulesFrom(e1, q1, family) == RulesFrom(e2, q2, family)
  {
    if q1 != [] {
      var n := |q1| - 1;
      RulesIgnoreCache(snapshot, e1, q1[..n], e2, q2[..n], family);
      CoherentKept(snapshot, e1, q1[..n]);
      CoherentKept(snapshot, e2, q2[..n]);
      assert q1[n] in q1 && q2[n] in q2;
      assert Result(EntriesAfterAll(e1, q1[..n]), q1[n]) == Result(EntriesAfterAll(e2, q2[..n]), q2[n]);
    }
  }

  /** Two syncs of one release see the same world: the same answers but for the times of lookup. */
  ghost predicate SameWorld(snapshot: Snapshot, hr: HelmRelease, a: Answers, b: Answers) {
    a.repoURL == b.repoURL && a.values == b.values && a.detections == b.detections &&
    WellPosed(a, hr) && WellPosed(b, hr) &&
    AnswersFrom(snapshot, a.undeclaredLookups) && AnswersFrom(snapshot, a.zeroValueLookups) &&
    AnswersFrom(snapshot, b.undeclaredLookups) && AnswersFrom(snapshot, b.zeroValueLookups)
  }

  lemma MetadataIdempotent(settings: Settings, hr: HelmRelease, app: AppData)
    ensures WithMetadata(settings, hr, WithMetadata(settings, hr, app)) == WithMetadata(settings, hr, app)
  {
    hide Warnings.WithServerSideDiff;
    var options :=
      if COMPARE_OPTIONS_ANNOTATION in app.annotations then app.annotations[COMPARE_OPTIONS_ANNOTATION] else "";
    Warnings.ServerSideDiffSet(options);
    var once := WithMetadata(settings, hr, app);
    assert HELM_RELEASE_ANNOTATION != COMPARE_OPTIONS_ANNOTATION by { AnnotationsDiffer(); }
    assert once.annotations[COMPARE_OPTIONS_ANNOTATION] == Warnings.WithServerSideDiff(options);
    assert WithMetadata(settings, hr, once).annotations == once.annotations;
  }

  lemma AnnotationsDiffer()
    ensures HELM_RELEASE_ANNOTATION != COMPARE_OPTIONS_ANNOTATION
  {
    assert HELM_RELEASE_ANNOTATION[0] != COMPARE_OPTIONS_ANNOTATION[0];
  }

  /** Both rule builders say the same the second time. */
  lemma SameSchemaRules(snapshot: Snapshot, hr: HelmRelease, a: Answers, b: Answers, entries: Entries)
    requires SameWorld(snapshot, hr, a, b) && Coherent(snapshot, entries)
    ensures var entries1 := EntriesAfterSync(a, entries);
            RulesFrom(entries1, b.undeclaredLookups, Undeclared) ==
            RulesFrom(entries, a.undeclaredLookups, Undeclared) &&
            RulesFrom(EntriesAfterAll(entries1, b.undeclaredLookups), b.zeroValueLookups, ZeroValued) ==
            RulesFrom(EntriesAfterAll(entries, a.undeclaredLookups), a.zeroValueLookups, ZeroValued)
  {
    hide EntriesAfterAll, RulesFrom;
    var entries1 := EntriesAfterSync(a, entries);
    var mid, mid1 := EntriesAfterAll(entries, a.undeclaredLookups), EntriesAfterAll(entries1, b.undeclaredLookups);
    CoherentKept(snapshot, entries, a.undeclaredLookups);
    CoherentKept(snapshot, mid, a.zeroValueLookups);
    CoherentKept(snapshot, entries1, b.undeclaredLookups);
    RulesIgnoreCache(snapshot, entries, a.undeclaredLookups, entries1, b.undeclaredLookups, Undeclared);
    RulesIgnoreCache(snapshot, mid, a.zeroValueLookups, mid1, b.zeroValueLookups, ZeroValued);
  }

  /** A second sync in the same world, with no other registry change in between, changes nothing:
      annotations, labels, finalizers, the whole spec and the registry stay as they are. */
  lemma SyncIdempotent(settings: Settings, snapshot: Snapshot, a: Answers, b: Answers, record: Record, entries: Entries,
                       hr: HelmRelease, status: Status, app: AppData)
    requires Succeeds(a, hr) && SameWorld(snapshot, hr, a, b) && Coherent(snapshot, entries)
    ensures Succeeds(b, hr)
    ensures var record1, entries1 := RecordAfter(a, record, hr), EntriesAfterSync(a, entries);
            var app1 := Synced(settings, a, record, entries, hr, status, app);
            RecordAfter(b, record1, hr) == record1 && Synced(settings, b, record1, entries1, hr, status, app1) == app1
  {
    hide WithMetadata, RulesFrom, OwnershipRules, Warnings.ContestedRules, EntriesAfterAll, EntriesAfterSync, SpecFor;
    var record1, entries1 := RecordAfter(a, record, hr), EntriesAfterSync(a, entries);
    assert RecordAfter(b, record1, hr) == record1;
    SameSchemaRules(snapshot, hr, a, b, entries);
    assert RulesFor(b, record1, entries1, hr, status) == RulesFor(a, record, entries, hr, status);
    MetadataIdempotent(settings, hr, app);
    SpecChangesNoMetadata(settings, hr, WithMetadata(settings, hr, app),
                          SpecFor(settings, hr, a.repoURL.value, a.values.value,
                                  RulesFor(a, record, entries, hr, status)));
  }

  lemma SpecChangesNoMetadata(settings: Settings, hr: HelmRelease, app: AppData, spec: ApplicationSpec)
    ensures WithMetadata(settings, hr, app.(spec := spec)) == WithMetadata(settings, hr, app).(spec := spec)
  {
  }

  // ---------- what a sync leaves behind ----------

  /** Changes of a synced Application lead back to the release it mirrors, for exactly the releases
      whose namespace and name have no slash. */
  lemma WatchFindsRelease(settings: Settings, a: Answers, record: Record, entries: Entries, hr: HelmRelease,
                          status: Status, app: AppData)
    requires Succeeds(a, hr)
    ensures RequestFrom(Synced(settings, a, record, entries, hr, status, app)) == Some((hr.namespace, hr.name)) <==>
            '/' !in hr.namespace && '/' !in hr.name
  {
    BackReferenceInverts(hr);
    AnnotationsDiffer();
    hide SplitBackReference, BackReference, RulesFor, SpecFor, Warnings.WithServerSideDiff;
  }

  /** An ownership rule of this release covers the target. */
  ghost predicate Disowned(record: Record, hr: HelmRelease, d: Detected, id: ResourceId, t: Target) {
    Among(t, Warnings.CONTESTED_POINTERS) &&
    exists crd :: crd in Election.IgnoredBy(record, ReleaseKey(hr), ChartOf(d)) &&
                  id == CrdRule(crd).id
  }

  /** A condition contests the resource, and the target is among its mutable parts. */
  ghost predicate Contested(status: Status, id: ResourceId, t: Target) {
    Among(t, Warnings.CONTESTED_POINTERS) &&
    exists c :: c in status.conditions && Warnings.Contested(c, status.resources) == Some(id)
  }

  /** What a synced Application ignores, and why. */
  lemma SyncedExplained(settings: Settings, a: Answers, record: Record, entries: Entries, hr: HelmRelease,
                        status: Status, app: AppData, id: ResourceId, t: Target)
    requires Succeeds(a, hr)
    ensures (id, t) in Meaning(Synced(settings, a, record, entries, hr, status, app).spec.ignoreDifferences) <==>
            (id, t) in Meaning(DetectedOf(a, hr).rules) ||
            Disowned(RecordAfter(a, record, hr), hr, DetectedOf(a, hr), id, t) ||
            (id, t) in Meaning(RulesFrom(entries, a.undeclaredLookups, Undeclared)) ||
            (id, t) in Meaning(RulesFrom(EntriesAfterAll(entries, a.undeclaredLookups), a.zeroValueLookups,
                                         ZeroValued)) ||
            Contested(status, id, t)
  {
    var d := DetectedOf(a, hr);
    var owned := OwnershipRules(RecordAfter(a, record, hr), ReleaseKey(hr), d.helmCRDs, Elems(d.oversized));
    var undeclared := RulesFrom(entries, a.undeclaredLookups, Undeclared);
    var zeroValued := RulesFrom(EntriesAfterAll(entries, a.undeclaredLookups), a.zeroValueLookups, ZeroValued);
    var contested := Warnings.ContestedRules(status.conditions, status.resources);
    assert RulesFor(a, record, entries, hr, status) == d.rules + owned + undeclared + zeroValued + contested;
    DisownedMeaning(RecordAfter(a, record, hr), hr, d, id, t);
    ContestedMeaning(status, id, t);
    hide Meaning, RulesFor, OwnershipRules, RulesFrom, Warnings.ContestedRules, Disowned, Contested, WithMetadata;
    MeaningAppend(d.rules + owned + undeclared + zeroValued, contested);
    MeaningAppend(d.rules + owned + undeclared, zeroValued);
    MeaningAppend(d.rules + owned, undeclared);
    MeaningAppend(d.rules, owned);
  }

  lemma DisownedMeaning(record: Record, hr: HelmRelease, d: Detected, id: ResourceId, t: Target)
    ensures (id, t) in Meaning(OwnershipRules(record, ReleaseKey(hr), d.helmCRDs, Elems(d.oversized))) <==>
            Disowned(record, hr, d, id, t)
  {
    hide OwnershipRules, Election.IgnoredBy;
    var rules := OwnershipRules(record, ReleaseKey(hr), d.helmCRDs, Elems(d.oversized));
    forall r ensures r in rules <==>
      exists crd :: crd in Election.IgnoredBy(record, ReleaseKey(hr), ChartOf(d)) &&
                    r == CrdRule(crd)
    {
      OwnershipIsElection(record, ReleaseKey(hr), d.helmCRDs, Elems(d.oversized), r);
    }
    forall crd ensures t in Targets(CrdRule(crd)) <==> Among(t, Warnings.CONTESTED_POINTERS) {
      TargetsOfPointers(CrdRule(crd).id, Warnings.CONTESTED_POINTERS, t);
    }
    hide Targets, Among;
    if Disowned(record, hr, d, id, t) {
      var crd :| crd in Election.IgnoredBy(record, ReleaseKey(hr), ChartOf(d)) &&
                 id == CrdRule(crd).id;
      assert CrdRule(crd) in rules;
    }
  }

  lemma ContestedMeaning(status: Status, id: ResourceId, t: Target)
    ensures (id, t) in Meaning(Warnings.ContestedRules(status.conditions, status.resources)) <==>
            Contested(status, id, t)
  {
    hide Warnings.ContestedRules, Warnings.Contested;
    var rules := Warnings.ContestedRules(status.conditions, status.resources);
    forall r ensures r in rules <==>
      (r == Rule(r.id, Warnings.CONTESTED_POINTERS, []) &&
       exists c :: c in status.conditions && Warnings.Contested(c, status.resources) == Some(r.id))
    {
      Warnings.ContestedExactly(status.conditions, status.resources, r);
    }
    TargetsOfPointers(id, Warnings.CONTESTED_POINTERS, t);
    hide Targets, Among;
    if Contested(status, id, t) { assert Rule(id, Warnings.CONTESTED_POINTERS, []) in rules; }
  }

  // ---------- install once ----------

  /** Every Application written for a release that ships an oversized CRD carries its ignore rule,
      whoever the elected owner is. */
  lemma OversizedAlwaysIgnored(settings: Settings, a: Answers, record: Record, entries: Entries, hr: HelmRelease,
                               status: Status, app: AppData, crd: string)
    requires Succeeds(a, hr) && crd in DetectedOf(a, hr).helmCRDs && crd in DetectedOf(a, hr).oversized
    ensures CrdRule(crd) in Synced(settings, a, record, entries, hr, status, app).spec.ignoreDifferences
  {
    var d := DetectedOf(a, hr);
    var owned := OwnershipRules(RecordAfter(a, record, hr), ReleaseKey(hr), d.helmCRDs, Elems(d.oversized));
    OwnershipIsElection(RecordAfter(a, record, hr), ReleaseKey(hr), d.helmCRDs, Elems(d.oversized), CrdRule(crd));
    assert crd in Election.IgnoredBy(RecordAfter(a, record, hr), ReleaseKey(hr),
                                     ChartOf(d));
    assert CrdRule(crd) in owned;
  }

  /** Whenever its detection succeeds, the release ships the CRD and it is oversized. */
  predicate ShipsOversized(a: Answers, hr: HelmRelease, crd: string) {
    Detects(a, hr) ==> crd in DetectedOf(a, hr).helmCRDs && crd in DetectedOf(a, hr).oversized
  }

  /** Some condition of the Application contests the CRD. */
  ghost predicate ContestsCrd(status: Status, crd: string) {
    exists c :: c in status.conditions && Warnings.Contested(c, status.resources) == Some(CrdRule(crd).id)
  }

  /** A failed detection leaves only the rules of contested resources, records no CRDs for the
      release, and looks nothing up. */
  lemma FailedDetectionForgets(settings: Settings, a: Answers, record: Record, entries: Entries, hr: HelmRelease,
                               status: Status, app: AppData)
    requires Succeeds(a, hr) && WellPosed(a, hr) && !Detects(a, hr)
    ensures Synced(settings, a, record, entries, hr, status, app).spec.ignoreDifferences ==
            Warnings.ContestedRules(status.conditions, status.resources)
    ensures RecordAfter(a, record, hr) == record[ReleaseKey(hr) := {}] && EntriesAfterSync(a, entries) == entries
  {
    assert a.undeclaredLookups == [] == a.zeroValueLookups;
    assert DetectedOf(a, hr).helmCRDs == [] && Elems(DetectedOf(a, hr).helmCRDs) == {};
    hide WithMetadata, Warnings.ContestedRules, SpecFor;
  }

  /** The Application of a release shipping an oversized CRD carries its ignore rule after a sync if
      and only if the detection succeeded or a condition contests the CRD. */
  lemma OversizedRuleExactly(settings: Settings, a: Answers, record: Record, entries: Entries, hr: HelmRelease,
                             status: Status, app: AppData, crd: string)
    requires Succeeds(a, hr) && WellPosed(a, hr) && ShipsOversized(a, hr, crd)
    ensures CrdRule(crd) in Synced(settings, a, record, entries, hr, status, app).spec.ignoreDifferences <==>
            Detects(a, hr) || ContestsCrd(status, crd)
  {
    if Detects(a, hr) {
      hide Synced;
      OversizedAlwaysIgnored(settings, a, record, entries, hr, status, app, crd);
    } else {
      FailedDetectionForgets(settings, a, record, entries, hr, status, app);
      Warnings.ContestedExactly(status.conditions, status.resources, CrdRule(crd));
      hide Synced, Warnings.ContestedRules, Warnings.Contested;
    }
  }

  /** The documents that detection reports are well named, when trimming uncovers no separator in
      the chart's texts. */
  lemma DetectedWellNamed(enc: ChartCRDs.Encoding, r: Rendered, d: Detected)
    requires CRDsOf(enc, r, d) && CleanTexts(r)
    ensures WellNamed(enc.decode, d.oversizedDocs)
    ensures d.oversizedDocs.Keys == Elems(d.oversized) <= Elems(d.helmCRDs)
  {
    hide DocOf, OversizedEverywhere, ObjectName, ChartCRDs.Encoding.CrdOf, CleanTexts;
    forall n | n in d.oversizedDocs
      ensures enc.decode(d.oversizedDocs[n]).Some? && ObjectName(enc.decode(d.oversizedDocs[n]).value) == n
    {
      assert OversizedDoc(enc, r, n, d.oversizedDocs[n]);
      CrdDocNamed(enc, d.oversizedDocs[n], n);
    }
  }

  lemma CrdDocNamed(enc: ChartCRDs.Encoding, doc: Manifest.Lines, n: string)
    requires n in enc.CrdOf(doc)
    ensures enc.decode(doc).Some? && ObjectName(enc.decode(doc).value) == n
  {
  }

  // ---------- runs of reconciles ----------

  /** Any number of reconciles of any releases: `trace` has the states in between, and `allOk` says
      in which reconciles no API call failed. */
  ghost predicate SyncRun(settings: Settings, decode: Manifest.Decoder, trace: seq<Cluster>, jobs: seq<Job>,
                          allOk: seq<bool>)
  {
    |trace| == |jobs| + 1 && |allOk| == |jobs| &&
    forall i :: 0 <= i < |jobs| ==> SyncStep(settings, decode, trace[i], jobs[i], allOk[i], trace[i+1])
  }

  lemma RunBefore(settings: Settings, decode: Manifest.Decoder, trace: seq<Cluster>, jobs: seq<Job>, allOk: seq<bool>)
    requires SyncRun(settings, decode, trace, jobs, allOk) && jobs != []
    ensures var n := |jobs| - 1;
            SyncRun(settings, decode, trace[..n+1], jobs[..n], allOk[..n]) &&
            SyncStep(settings, decode, trace[n], jobs[n], allOk[n], trace[n+1])
  {
    hide SyncStep;
    var n := |jobs| - 1;
    forall i | 0 <= i < n
      ensures SyncStep(settings, decode, trace[..n+1][i], jobs[..n][i], allOk[..n][i], trace[..n+1][i+1])
    {
      assert SyncStep(settings, decode, trace[i], jobs[i], allOk[i], trace[i+1]);
    }
  }

  lemma StepInstalls(settings: Settings, decode: Manifest.Decoder, s: Cluster, job: Job, allOk: bool, t: Cluster)
    requires SyncStep(settings, decode, s, job, allOk, t)
    ensures OnlyInstalls(s.crds, t.crds, decode, DetectedOf(job.answers, job.hr).oversizedDocs)
  {
  }

  lemma StepKeepsCRDs(settings: Settings, decode: Manifest.Decoder, s: Cluster, job: Job, allOk: bool, t: Cluster)
    requires SyncStep(settings, decode, s, job, allOk, t)
    ensures s.crds.Keys <= t.crds.Keys
  {
    StepInstalls(settings, decode, s, job, allOk, t);
    hide SyncStep, Installed, DetectedOf;
  }

  /** The CRD is one of the documents of some reconcile of the run. */
  ghost predicate ShippedInRun(decode: Manifest.Decoder, jobs: seq<Job>, crd: Value) {
    exists i, d ::
      0 <= i < |jobs| && d in DetectedOf(jobs[i].answers, jobs[i].hr).oversizedDocs &&
      decode(DetectedOf(jobs[i].answers, jobs[i].hr).oversizedDocs[d]) == Some(crd)
  }

  /** Over any run no CRD once in the cluster is altered, and each new one is a document that some
      reconcile of the run shipped. */
  lemma {:induction false} InstallOnce(settings: Settings, decode: Manifest.Decoder, trace: seq<Cluster>,
                                       jobs: seq<Job>, allOk: seq<bool>, name: string)
    requires SyncRun(settings, decode, trace, jobs, allOk)
    ensures var before, after := trace[0].crds, trace[|jobs|].crds;
            (name in before ==> name in after && after[name] == before[name]) &&
            (name in after && name !in before ==> ShippedInRun(decode, jobs, after[name]))
  {
    if jobs != [] {
      var n := |jobs| - 1;
      RunBefore(settings, decode, trace, jobs, allOk);
      StepInstalls(settings, decode, trace[n], jobs[n], allOk[n], trace[n+1]);
      hide SyncRun, SyncStep;
      InstallOnce(settings, decode, trace[..n+1], jobs[..n], allOk[..n], name);
      var after := trace[n+1].crds;
      if name in after && name !in trace[0].crds {
        if name in trace[n].crds {
          var i, d :| 0 <= i < n && d in DetectedOf(jobs[..n][i].answers, jobs[..n][i].hr).oversizedDocs &&
                      decode(DetectedOf(jobs[..n][i].answers, jobs[..n][i].hr).oversizedDocs[d]) == Some(after[name]);
          assert jobs[i] == jobs[..n][i];
        } else {
          assert Installed(trace[n].crds, name, after[name], decode,
                           DetectedOf(jobs[n].answers, jobs[n].hr).oversizedDocs);
        }
      }
    }
  }

  /** The detection of this reconcile comes from a chart whose texts read back as they are. */
  ghost predicate DetectedCleanly(enc: ChartCRDs.Encoding, r: Rendered, job: Job) {
    CleanTexts(r) && CRDsOf(enc, r, DetectedOf(job.answers, job.hr))
  }

  lemma {:induction false} CRDsKept(settings: Settings, decode: Manifest.Decoder, trace: seq<Cluster>, jobs: seq<Job>,
                                    allOk: seq<bool>, i: nat)
    requires SyncRun(settings, decode, trace, jobs, allOk) && i <= |jobs|
    ensures trace[i].crds.Keys <= trace[|jobs|].crds.Keys
    decreases |jobs| - i
  {
    hide SyncStep;
    if i < |jobs| {
      StepKeepsCRDs(settings, decode, trace[i], jobs[i], allOk[i], trace[i+1]);
      CRDsKept(settings, decode, trace, jobs, allOk, i + 1);
    }
  }

  /** If no call of a reconcile failed, every oversized CRD of its chart is in the cluster at the end
      of the run, whatever other reconciles did or failed to do. */
  lemma OversizedInstalled(settings: Settings, enc: ChartCRDs.Encoding, trace: seq<Cluster>, jobs: seq<Job>,
                           allOk: seq<bool>, i: nat, r: Rendered)
    requires SyncRun(settings, enc.decode, trace, jobs, allOk) && i < |jobs| && allOk[i]
    requires Succeeds(jobs[i].answers, jobs[i].hr) && DetectedCleanly(enc, r, jobs[i])
    ensures forall crd :: crd in DetectedOf(jobs[i].answers, jobs[i].hr).oversized ==> crd in trace[|jobs|].crds
  {
    hide SyncStep, DetectedCleanly, DetectedOf, Succeeds;
    StepInstallsAll(settings, enc, trace[i], jobs[i], trace[i+1], r);
    CRDsKept(settings, enc.decode, trace, jobs, allOk, i + 1);
  }

  lemma StepInstallsAll(settings: Settings, enc: ChartCRDs.Encoding, s: Cluster, job: Job, t: Cluster, r: Rendered)
    requires SyncStep(settings, enc.decode, s, job, true, t)
    requires Succeeds(job.answers, job.hr) && DetectedCleanly(enc, r, job)
    ensures forall crd :: crd in DetectedOf(job.answers, job.hr).oversized ==> crd in t.crds
  {
    var d := DetectedOf(job.answers, job.hr);
    DetectedWellNamed(enc, r, d);
    hide CRDsOf, WellNamed, OnlyInstalls, Synced;
    forall crd | crd in d.oversized ensures crd in t.crds {
      assert crd in Elems(d.oversized);
    }
  }

  /** After a pass in which no call failed, every oversized CRD of every release is in the cluster. */
  lemma PassInstallsAll(settings: Settings, enc: ChartCRDs.Encoding, trace: seq<Cluster>, jobs: seq<Job>,
                        allOk: seq<bool>, renders: seq<Rendered>)
    requires SyncRun(settings, enc.decode, trace, jobs, allOk) && |renders| == |jobs|
    requires forall i :: 0 <= i < |jobs| ==>
               allOk[i] && Succeeds(jobs[i].answers, jobs[i].hr) && DetectedCleanly(enc, renders[i], jobs[i])
    ensures forall i, crd :: 0 <= i < |jobs| && crd in DetectedOf(jobs[i].answers, jobs[i].hr).oversized ==>
              crd in trace[|jobs|].crds
  {
    hide SyncStep, DetectedCleanly;
    forall i, crd | 0 <= i < |jobs| && crd in DetectedOf(jobs[i].answers, jobs[i].hr).oversized
      ensures crd in trace[|jobs|].crds
    {
      OversizedInstalled(settings, enc, trace, jobs, allOk, i, renders[i]);
    }
  }

  /** The Application, if it exists, carries the CRD's ignore rule. */
  predicate Ignores(s: Cluster, name: string, crd: string) {
    name in s.apps ==> CrdRule(crd) in s.apps[name].spec.ignoreDifferences
  }

  lemma StepIgnores(settings: Settings, decode: Manifest.Decoder, s: Cluster, job: Job, allOk: bool, t: Cluster,
                    name: string, crd: string)
    requires SyncStep(settings, decode, s, job, allOk, t) && Ignores(s, name, crd)
    requires AppNameOf(settings, job.hr) == name ==>
               crd in DetectedOf(job.answers, job.hr).helmCRDs && crd in DetectedOf(job.answers, job.hr).oversized
    ensures Ignores(t, name, crd)
  {
    var a, hr := job.answers, job.hr;
    if Succeeds(a, hr) && AppNameOf(settings, hr) == name {
      OversizedAlwaysIgnored(settings, a, s.record, s.entries, hr, job.status, AppAt(settings, s, hr), crd);
    }
    hide Synced, OnlyInstalls, WellNamed, RecordAfter, EntriesAfterSync, AppAt;
  }

  /** Over any run, an Application all of whose reconciles ship an oversized CRD carries its ignore
      rule at every moment that it exists, whoever is elected and whatever calls fail. */
  lemma {:induction false} OversizedEverIgnored(settings: Settings, decode: Manifest.Decoder, trace: seq<Cluster>,
                                                jobs: seq<Job>, allOk: seq<bool>, name: string, crd: string)
    requires SyncRun(settings, decode, trace, jobs, allOk) && Ignores(trace[0], name, crd)
    requires forall i :: 0 <= i < |jobs| && AppNameOf(settings, jobs[i].hr) == name ==>
               crd in DetectedOf(jobs[i].answers, jobs[i].hr).helmCRDs &&
               crd in DetectedOf(jobs[i].answers, jobs[i].hr).oversized
    ensures Ignores(trace[|jobs|], name, crd)
  {
    hide Ignores, SyncStep, AppNameOf, DetectedOf;
    if jobs != [] {
      var n := |jobs| - 1;
      RunBefore(settings, decode, trace, jobs, allOk);
      OversizedEverIgnored(settings, decode, trace[..n+1], jobs[..n], allOk[..n], name, crd);
      StepIgnores(settings, decode, trace[n], jobs[n], allOk[n], trace[n+1], name, crd);
    }
  }

  /** Reconcile `i` wrote the Application, and none has changed it since. */
  ghost predicate LastWrote(settings: Settings, trace: seq<Cluster>, jobs: seq<Job>, name: string, i: nat) {
    |trace| == |jobs| + 1 && i < |jobs| && AppNameOf(settings, jobs[i].hr) == name &&
    Succeeds(jobs[i].answers, jobs[i].hr) && name in trace[i+1].apps &&
    forall j :: i < j <= |jobs| ==> name in trace[j].apps && trace[j].apps[name] == trace[i+1].apps[name]
  }

  /** The Application is as it was at the start, or carries the rule exactly when the detection of the
      reconcile that wrote it last succeeded or a condition contested the CRD then. */
  ghost predicate RuleDecided(settings: Settings, trace: seq<Cluster>, jobs: seq<Job>, name: string, crd: string)
    requires |trace| == |jobs| + 1
  {
    var end := trace[|jobs|];
    name in end.apps ==>
      (name in trace[0].apps && end.apps[name] == trace[0].apps[name]) ||
      exists i: nat ::
        LastWrote(settings, trace, jobs, name, i) &&
        (CrdRule(crd) in end.apps[name].spec.ignoreDifferences <==>
         Detects(jobs[i].answers, jobs[i].hr) || ContestsCrd(jobs[i].status, crd))
  }

  lemma StepDecides(settings: Settings, decode: Manifest.Decoder, s: Cluster, job: Job, allOk: bool, t: Cluster,
                    name: string, crd: string)
    requires SyncStep(settings, decode, s, job, allOk, t)
    requires AppNameOf(settings, job.hr) == name ==>
               WellPosed(job.answers, job.hr) && ShipsOversized(job.answers, job.hr, crd)
    ensures name in t.apps ==>
              (name in s.apps && t.apps[name] == s.apps[name]) ||
              (AppNameOf(settings, job.hr) == name && Succeeds(job.answers, job.hr) &&
               (CrdRule(crd) in t.apps[name].spec.ignoreDifferences <==>
                Detects(job.answers, job.hr) || ContestsCrd(job.status, crd)))
  {
    var a, hr := job.answers, job.hr;
    if Succeeds(a, hr) && AppNameOf(settings, hr) == name {
      OversizedRuleExactly(settings, a, s.record, s.entries, hr, job.status, AppAt(settings, s, hr), crd);
    }
    hide Synced, OnlyInstalls, WellNamed, RecordAfter, EntriesAfterSync, AppAt, ShipsOversized, ContestsCrd;
  }

  /** Over any run of reconciles, for an Application whose release ships an oversized CRD: at every
      moment its rule is decided by the reconcile that wrote it last. */
  lemma {:induction false} OversizedRunExactly(settings: Settings, decode: Manifest.Decoder, trace: seq<Cluster>,
                                               jobs: seq<Job>, allOk: seq<bool>, name: string, crd: string)
    requires SyncRun(settings, decode, trace, jobs, allOk)
    requires forall i :: 0 <= i < |jobs| && AppNameOf(settings, jobs[i].hr) == name ==>
               WellPosed(jobs[i].answers, jobs[i].hr) && ShipsOversized(jobs[i].answers, jobs[i].hr, crd)
    ensures RuleDecided(settings, trace, jobs, name, crd)
  {
    if jobs != [] {
      var n := |jobs| - 1;
      RunBefore(settings, decode, trace, jobs, allOk);
      StepDecides(settings, decode, trace[n], jobs[n], allOk[n], trace[n+1], name, crd);
      hide SyncStep, AppNameOf, WellPosed, ShipsOversized, ContestsCrd, Succeeds;
      OversizedRunExactly(settings, decode, trace[..n+1], jobs[..n], allOk[..n], name, crd);
      DecidedOn(settings, trace, jobs, name, crd);
    }
  }

  lemma DecidedOn(settings: Settings, trace: seq<Cluster>, jobs: seq<Job>, name: string, crd: string)
    requires |trace| == |jobs| + 1 && jobs != []
    requires var n := |jobs| - 1;
             var t, job := trace[n+1], jobs[n];
             RuleDecided(settings, trace[..n+1], jobs[..n], name, crd) &&
             (name in t.apps ==>
               (name in trace[n].apps && t.apps[name] == trace[n].apps[name]) ||
               (AppNameOf(settings, job.hr) == name && Succeeds(job.answers, job.hr) &&
                (CrdRule(crd) in t.apps[name].spec.ignoreDifferences <==>
                 Detects(job.answers, job.hr) || ContestsCrd(job.status, crd))))
    ensures RuleDecided(settings, trace, jobs, name, crd)
  {
    hide AppNameOf, ContestsCrd, Succeeds;
    var n := |jobs| - 1;
    var t := trace[n+1];
    if name in t.apps {
      if name in trace[n].apps && t.apps[name] == trace[n].apps[name] {
        if !(name in trace[0].apps && t.apps[name] == trace[0].apps[name]) {
          var i: nat :| LastWrote(settings, trace[..n+1], jobs[..n], name, i) &&
                        (CrdRule(crd) in t.apps[name].spec.ignoreDifferences <==>
                         Detects(jobs[i].answers, jobs[i].hr) || ContestsCrd(jobs[i].status, crd));
          LastWroteOn(settings, trace, jobs, name, i);
        }
      } else {
        assert LastWrote(settings, trace, jobs, name, n);
      }
    }
  }

  lemma LastWroteOn(settings: Settings, trace: seq<Cluster>, jobs: seq<Job>, name: string, i: nat)
    requires |trace| == |jobs| + 1 && jobs != []
    requires var n := |jobs| - 1;
             LastWrote(settings, trace[..n+1], jobs[..n], name, i) &&
             name in trace[n+1].apps && name in trace[n].apps && trace[n+1].apps[name] == trace[n].apps[name]
    ensures LastWrote(settings, trace, jobs, name, i)
  {
    var n := |jobs| - 1;
    forall j | i < j <= n + 1 ensures name in trace[j].apps && trace[j].apps[name] == trace[i+1].apps[name] {
      if j <= n { assert trace[..n+1][j] == trace[j] && trace[..n+1][i+1] == trace[i+1]; }
      assert trace[..n+1][n] == trace[n];
    }
  }

  // ---------- the schema rules over runs ----------

  function LookupsOf(job: Job): seq<Query> {
    job.answers.undeclaredLookups + job.answers.zeroValueLookups
  }

  /** All lookups of a list of reconciles, in order. */
  function AllLookups(jobs: seq<Job>): seq<Query> {
    if jobs == [] then [] else AllLookups(jobs[..|jobs|-1]) + LookupsOf(jobs[|jobs|-1])
  }

  lemma MonotoneDrop(a: seq<Query>, b: seq<Query>, c: seq<Query>)
    requires Monotone(a + (b + c))
    ensures Monotone(a + c)
  {
    var all, few := a + (b + c), a + c;
    forall i | 0 <= i < |few| ensures few[i] == all[if i < |a| then i else i + |b|] {}
    forall i, j | 0 <= i <= j < |few| ensures few[i].now <= few[j].now {
      assert all[if i < |a| then i else i + |b|].now <= all[if j < |a| then j else j + |b|].now;
    }
  }

  ghost predicate Within(some: seq<Query>, all: seq<Query>) {
    forall q :: q in some ==> q in all
  }

  /** The lookups made by the reconciles of a run that got so far: they filled the cache, and are in
      order as all lookups are. */
  lemma {:induction false} RunEntries(settings: Settings, decode: Manifest.Decoder, trace: seq<Cluster>, jobs: seq<Job>,
                                      allOk: seq<bool>, next: seq<Query>)
    returns (made: seq<Query>)
    requires SyncRun(settings, decode, trace, jobs, allOk) && trace[0].entries == map[]
    requires Monotone(AllLookups(jobs) + next)
    ensures trace[|jobs|].entries == EntriesAfterAll(map[], made) && Monotone(made + next)
    ensures Within(made, AllLookups(jobs))
  {
    if jobs == [] {
      made := [];
    } else {
      var n := |jobs| - 1;
      RunBefore(settings, decode, trace, jobs, allOk);
      var before, last := AllLookups(jobs[..n]), LookupsOf(jobs[n]);
      Assoc(before, last, next);
      hide SyncRun, Monotone, AllLookups, EntriesAfterAll, OnlyInstalls, WellNamed, Synced;
      if trace[n+1].entries == trace[n].entries {
        MonotoneDrop(before, last, next);
        made := RunEntries(settings, decode, trace[..n+1], jobs[..n], allOk[..n], next);
      } else {
        var done := RunEntries(settings, decode, trace[..n+1], jobs[..n], allOk[..n], last + next);
        Assoc(done, last, next);
        EntriesAppend(map[], done, last);
        EntriesAppend(trace[n].entries, jobs[n].answers.undeclaredLookups, jobs[n].answers.zeroValueLookups);
        made := done + last;
      }
    }
  }

  /** On every run from an empty cache with a monotone clock, each schema rule that a further sync
      writes names exactly the paths to ignore of one of its objects, by a schema that the cluster
      gave for its kind at most ten minutes earlier, in this sync or in an earlier one. */
  lemma RunRulesSound(settings: Settings, decode: Manifest.Decoder, trace: seq<Cluster>, jobs: seq<Job>,
                      allOk: seq<bool>, a: Answers, r: Rule)
    requires SyncRun(settings, decode, trace, jobs, allOk) && trace[0].entries == map[]
    requires Monotone(AllLookups(jobs) + (a.undeclaredLookups + a.zeroValueLookups))
    ensures var entries := trace[|jobs|].entries;
            (r in RulesFrom(entries, a.undeclaredLookups, Undeclared) ==>
              exists made :: Within(made, AllLookups(jobs)) && RecentlyDue(Undeclared, made, a.undeclaredLookups, r)) &&
            (r in RulesFrom(EntriesAfterAll(entries, a.undeclaredLookups), a.zeroValueLookups, ZeroValued) ==>
              exists made :: Within(made, AllLookups(jobs) + a.undeclaredLookups) &&
                             RecentlyDue(ZeroValued, made, a.zeroValueLookups, r))
  {
    hide SyncStep, RulesFrom, RecentlyDue, EntriesAfterAll;
    var made := RunEntries(settings, decode, trace, jobs, allOk, a.undeclaredLookups + a.zeroValueLookups);
    Assoc(made, a.undeclaredLookups, a.zeroValueLookups);
    MonotonePrefix(made + a.undeclaredLookups, a.zeroValueLookups);
    EntriesAppend(map[], made, a.undeclaredLookups);
    if r in RulesFrom(trace[|jobs|].entries, a.undeclaredLookups, Undeclared) {
      RulesSound(Undeclared, made, a.undeclaredLookups, r);
    }
    if r in RulesFrom(EntriesAfterAll(trace[|jobs|].entries, a.undeclaredLookups), a.zeroValueLookups, ZeroValued) {
      RulesSound(ZeroValued, made + a.undeclaredLookups, a.zeroValueLookups, r);
    }
  }

  lemma MonotonePrefix(a: seq<Query>, b: seq<Query>)
    requires Monotone(a + b)
    ensures Monotone(a)
  {
    forall i | 0 <= i < |a| ensures a[i] == (a + b)[i] {}
  }

  // ---------- the protocol's view ----------

  function ChartName(hr: HelmRelease): Option<string> {
    match hr.chart case Some(c) => Some(c.chart) case None => None
  }

  /** The sync stage of the protocol is this sync: it goes on under the same condition, and does the
      same to the registry. */
  lemma SyncIsProtocolStage(settings: Settings, s: Protocol.State, k: Protocol.Key, hr: HelmRelease, a: Answers)
    requires s.StageOf(k).Sync? && k == Protocol.Key(hr.namespace, hr.name) && s.StageOf(k).hr.chart == ChartName(hr)
    ensures var t := Protocol.Advance(settings.clusterName, s, k, a.repoURL.Some? && a.values.Some?,
                                      Elems(DetectedOf(a, hr).helmCRDs));
            t.StageOf(k) == (if Succeeds(a, hr) then Protocol.Write(s.StageOf(k).hr, s.StageOf(k).exists_)
                             else Protocol.Idle) &&
            t.registry == (if Succeeds(a, hr) then RecordAfter(a, s.registry, hr) else s.registry) &&
            t.releases == s.releases && t.apps == s.apps
  {
    assert Protocol.Ref(k) == ReleaseKey(hr);
    hide ApplicationName, Elems, DetectedOf, Protocol.Ref, ReleaseKey;
  }

  /** What is written after it is an Application of the protocol's name that leads back to the
      release and carries Argo CD's finalizer. */
  lemma SyncedIsProtocolApp(settings: Settings, hr: HelmRelease, a: Answers, record: Record, entries: Entries,
                            status: Status, app: AppData, r: Protocol.Release)
    requires Succeeds(a, hr) && '/' !in hr.namespace && '/' !in hr.name && r.chart == ChartName(hr)
    ensures Protocol.AppName(settings.clusterName, Protocol.Key(hr.namespace, hr.name), r) == AppNameOf(settings, hr)
    ensures var data := Synced(settings, a, record, entries, hr, status, app);
            RequestFrom(data) == Some((hr.namespace, hr.name)) && RESOURCES_FINALIZER in data.finalizers
  {
    WatchFindsRelease(settings, a, record, entries, hr, status, app);
    hide RulesFor, SpecFor, Warnings.WithServerSideDiff, ApplicationName, BackReference, RequestFrom;
  }
}
