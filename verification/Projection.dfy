/** What the Application of a release says, field by field (pkg/controller/helmrelease_controller.go:528-651,
    728-744). */
module Projection {
  import opened Text
  import opened Sync
  import opened Registry
  import opened Rules
  import opened SchemaCache
  import opened Detection
  import Warnings

  /** `url` without the scheme of OCI registries. */
  predicate WithoutScheme(url: string, bare: string) {
    if "oci://" <= url then url == "oci://" + bare else url == bare
  }

  /** The Application deploys the release's chart, and its rules are those detected for what it deploys: a
      detection for the chart, version, repository, namespace and release name that the Application itself
      carries gives its first rules and the CRDs recorded for the release. */
  lemma DeploysWhatWasDetected(settings: Settings, a: Answers, record: Record, entries: Entries, hr: HelmRelease,
                               status: Status, app: AppData)
    requires Succeeds(a, hr)
    ensures var spec := Synced(settings, a, record, entries, hr, status, app).spec;
            spec.chart == hr.chart.value.chart && spec.targetRevision == hr.chart.value.version &&
            WithoutScheme(a.repoURL.value, spec.repoURL) && spec.releaseName == hr.releaseName &&
            spec.destination.namespace == hr.releaseNamespace
    ensures var spec := Synced(settings, a, record, entries, hr, status, app).spec;
            var asked := Request(chart := spec.chart, version := spec.targetRevision, repoURL := spec.repoURL,
                                 namespace := spec.destination.namespace, releaseName := spec.releaseName);
            if asked in a.detections
            then DetectedOf(a, hr) == a.detections[asked] && a.detections[asked].rules <= spec.ignoreDifferences &&
                 RecordAfter(a, record, hr)[ReleaseKey(hr)] == Elems(a.detections[asked].helmCRDs)
            else DetectedOf(a, hr) == Detected([], [], [], map[], []) &&
                 RecordAfter(a, record, hr)[ReleaseKey(hr)] == {}
  {
    hide WithMetadata, OwnershipRules, RulesFrom, Warnings.ContestedRules, NormalValues;
  }

  /** The rest of the spec, by release and settings. */
  lemma SpecBySettings(settings: Settings, a: Answers, record: Record, entries: Entries, hr: HelmRelease,
                       status: Status, app: AppData)
    requires Succeeds(a, hr)
    ensures var spec := Synced(settings, a, record, entries, hr, status, app).spec;
            (settings.project != "" ==> spec.project == settings.project) &&
            (settings.project == "" ==> spec.project == "default") &&
            spec.destination.name == settings.destinationName &&
            (settings.destinationServer != "" || settings.destinationName != "" ==>
              spec.destination.server == settings.destinationServer) &&
            (settings.destinationServer == "" && settings.destinationName == "" ==>
              spec.destination.server == "https://kubernetes.default.svc") &&
            spec.prune && !spec.selfHeal &&
            spec.syncOptions == ["CreateNamespace=true", "Validate=false", "ApplyOutOfSyncOnly=true",
                                 "RespectIgnoreDifferences=true"]
    ensures var values := Synced(settings, a, record, entries, hr, status, app).spec.values;
            if exists i: nat :: Warnings.Wraps(a.values.value, i, "{}") then values == ""
            else values == a.values.value
  {
    hide WithMetadata, RulesFor, TrimPrefix;
    Warnings.TrimExactly(a.values.value, "{}");
    hide Warnings.Wraps, Warnings.TrimSpace;
  }

  /** The metadata: the two annotations, the cascade finalizer and, for a named managed cluster, its label are
      set, and everything else that was there stays. */
  lemma MetadataBySettings(settings: Settings, a: Answers, record: Record, entries: Entries, hr: HelmRelease,
                           status: Status, app: AppData)
    requires Succeeds(a, hr)
    ensures var t := Synced(settings, a, record, entries, hr, status, app);
            t.annotations.Keys == app.annotations.Keys +
              {"fargocd.appscode.com/helmrelease", "argocd.argoproj.io/compare-options"} &&
            (forall k :: k in app.annotations.Keys -
                         {"fargocd.appscode.com/helmrelease", "argocd.argoproj.io/compare-options"} ==>
               t.annotations[k] == app.annotations[k]) &&
            t.annotations["fargocd.appscode.com/helmrelease"] ==
              (if hr.namespace == "" then hr.name else hr.namespace + "/" + hr.name) &&
            t.annotations["argocd.argoproj.io/compare-options"] == Warnings.WithServerSideDiff(
              if "argocd.argoproj.io/compare-options" in app.annotations
              then app.annotations["argocd.argoproj.io/compare-options"] else "")
    ensures var t := Synced(settings, a, record, entries, hr, status, app);
            t.finalizers == app.finalizers +
              (if "resources-finalizer.argocd.argoproj.io" in app.finalizers then []
               else ["resources-finalizer.argocd.argoproj.io"])
    ensures var t := Synced(settings, a, record, entries, hr, status, app);
            if settings.managed && settings.clusterName != ""
            then t.labels == app.labels["argocd.argoproj.io/agent-name" := settings.clusterName]
            else t.labels == app.labels
  {
    hide Warnings.WithServerSideDiff, SpecFor, RulesFor;
    AnnotationsDiffer();
  }

  /** The release records the CRD, and every other release that does comes after it. */
  ghost predicate Owns(record: Record, release: string, crd: string) {
    release in record && crd in record[release] &&
    forall other :: other in record && crd in record[other] && other != release ==> Less(release, other)
  }

  lemma OwnerTold(record: Record, release: string, crd: string)
    requires release != ""
    ensures OwnerOf(record, crd) == release <==> Owns(record, release, crd)
  {
    var shippers := Shippers(record, crd);
    if Owns(record, release, crd) {
      assert IsLeast(release, shippers);
      LeastUnique(release, Least(shippers), shippers);
    }
    if shippers != {} && Least(shippers) == release {
      assert forall other :: other in record && crd in record[other] ==> other in shippers;
      assert Owns(record, release, crd);
    }
  }

  /** The rules that a sync writes for the CRDs its chart ships: spec, labels and annotations of each one,
      except of a small one of which this release is the first that records it. */
  lemma {:induction false} OwnershipTold(record: Record, release: string, crds: seq<string>, oversized: set<string>,
                                         r: Rule)
    requires release != ""
    ensures r in OwnershipRules(record, release, crds, oversized) <==>
            r.id.group == "apiextensions.k8s.io" && r.id.kind == "CustomResourceDefinition" && r.id.namespace == "" &&
            r.jsonPointers == ["/spec", "/metadata/labels", "/metadata/annotations"] && r.jqPathExpressions == [] &&
            r.id.name in crds && !(Owns(record, release, r.id.name) && r.id.name !in oversized)
  {
    if crds != [] {
      var before, last := crds[..|crds|-1], crds[|crds|-1];
      OwnershipTold(record, release, before, oversized, r);
      OwnerTold(record, release, last);
      assert crds == before + [last];
      hide Owns, OwnerOf;
    }
  }
}
