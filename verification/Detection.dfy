/** The detection pipeline: the rule passes over two renders of a chart, their merged rules, and the
    memo of results (pkg/ignoregen/ignoregen.go:103-195, 258-312, 362-384). */
module Detection {
  import opened Text
  import opened Json
  import opened Rules
  import opened Manifest
  import opened RenderDiff
  import Pointers
  import FieldSweep
  import ChartCRDs
  import SchemaCache
  import Warnings

  /** What one render gives: the manifest, the chart's crds/ files, and the paths of its templates
      that call `lookup`. */
  datatype Rendered = Rendered(manifest: Lines, crdFiles: seq<Lines>, lookupTemplates: set<string>)

  /** The memo's key: neither values nor credentials are part of it. */
  datatype Request = Request(chart: string, version: string, repoURL: string, namespace: string, releaseName: string)

  datatype Detected = Detected(
    rules: seq<Rule>, helmCRDs: seq<string>, oversized: seq<string>, oversizedDocs: map<string, Lines>,
    objects: seq<SchemaCache.RenderedObject>)

  /** The targets of a rule with these pointers. */
  ghost predicate Among(t: Target, pointers: seq<string>) {
    t.Pointer? && t.p in pointers
  }

  lemma TargetsOfPointers(id: ResourceId, pointers: seq<string>, t: Target)
    ensures t in Targets(Rule(id, pointers, [])) <==> Among(t, pointers)
  {
  }

  // ---------- resources of another chart ----------

  predicate IsForeign(q: Request, res: Resource) {
    var labels := Field(res.Metadata(), "labels");
    var chart := AsString(Field(labels, "helm.sh/chart"));
    var instance := AsString(Field(labels, "app.kubernetes.io/instance"));
    (chart != "" && chart != q.chart + "-" + q.version) ||
    (instance != "" && q.releaseName != "" && instance != q.releaseName)
  }

  function ForeignRule(res: Resource): Rule {
    Rule(res.id, Warnings.CONTESTED_POINTERS, [])
  }

  ghost predicate ForeignRules(q: Request, resources: Render, rules: seq<Rule>) {
    forall r :: r in rules <==>
      exists key :: key in resources && IsForeign(q, resources[key]) && r == ForeignRule(resources[key])
  }

  method DetectForeignChartResources(q: Request, resources: Render) returns (rules: seq<Rule>)
    ensures ForeignRules(q, resources, rules)
  {
    rules := [];
    var todo := resources.Keys;
    while todo != {}
      invariant todo <= resources.Keys
      invariant forall r :: r in rules <==>
        exists key ::
          key in resources && key !in todo && IsForeign(q, resources[key]) && r == ForeignRule(resources[key])
    {
      var key :| key in todo;
      ghost var before, left := rules, todo;
      todo := todo - {key};
      if IsForeign(q, resources[key]) {
        rules := rules + [ForeignRule(resources[key])];
      }
      forall r ensures r in rules <==>
        exists k :: k in resources && k !in todo && IsForeign(q, resources[k]) && r == ForeignRule(resources[k])
      {
        if k :| k in resources && k !in todo && IsForeign(q, resources[k]) && r == ForeignRule(resources[k]) {
          assert k == key || k !in left;
        }
      }
    }
  }

  // ---------- payloads behind a lookup ----------

  const SOURCE_HEADER := "# Source: "

  /** The template path in the first source comment of a document. */
  function SourceOf(part: Lines): Option<string> {
    if part == [] then None
    else if Warnings.HasPrefix(part[0], SOURCE_HEADER) && |part[0]| > |SOURCE_HEADER| then
      Some(Warnings.TrimSpace(part[0][|SOURCE_HEADER|..]))
    else SourceOf(part[1..])
  }

  predicate Guarded(templates: set<string>, part: Lines) {
    SourceOf(part).Some? && SourceOf(part).value in templates
  }

  function PayloadPointers(kind: string): seq<string> {
    if kind == "Secret" then ["/data", "/stringData"]
    else if kind == "ConfigMap" then ["/binaryData", "/data"]
    else []
  }

  /** The rule for a payload that some of the parts renders behind a lookup. */
  ghost predicate IsGuardedRule(decode: Decoder, templates: set<string>, parts: seq<Lines>, r: Rule) {
    exists part :: part in parts && IsPartRule(decode, templates, part, r)
  }

  ghost predicate IsPartRule(decode: Decoder, templates: set<string>, part: Lines, r: Rule) {
    Guarded(templates, part) &&
    exists key :: key in Keyed(decode, Docs(part)) && IsPayloadRule(Keyed(decode, Docs(part))[key], r)
  }

  predicate IsPayloadRule(res: Resource, r: Rule) {
    PayloadPointers(res.id.kind) != [] && r == Rule(res.id, PayloadPointers(res.id.kind), [])
  }

  method LookupGuardedRules(decode: Decoder, manifest: Lines, templates: set<string>) returns (rules: seq<Rule>)
    ensures forall r :: r in rules <==> IsGuardedRule(decode, templates, Split(manifest), r)
  {
    hide Docs, Guarded, PayloadPointers;
    rules := [];
    if |templates| == 0 {
      NoneGuarded(decode, Split(manifest));
      return;
    }
    var parts := Split(manifest);
    for i := 0 to |parts|
      invariant forall r :: r in rules <==> IsGuardedRule(decode, templates, parts[..i], r)
    {
      ghost var before := rules;
      var more: seq<Rule> := [];
      if Guarded(templates, parts[i]) {
        var resources := ParseResources(decode, parts[i]);
        more := PayloadRules(resources);
      }
      rules := rules + more;
      forall r ensures r in rules <==> IsGuardedRule(decode, templates, parts[..i+1], r) {
        OnePartMore(decode, templates, parts, i, r);
      }
    }
    assert parts[..|parts|] == parts;
  }

  lemma NoneGuarded(decode: Decoder, parts: seq<Lines>)
    ensures forall r :: !IsGuardedRule(decode, {}, parts, r)
  {
  }

  lemma OnePartMore(decode: Decoder, templates: set<string>, parts: seq<Lines>, i: nat, r: Rule)
    requires i < |parts|
    ensures IsGuardedRule(decode, templates, parts[..i+1], r) <==>
            IsGuardedRule(decode, templates, parts[..i], r) || IsPartRule(decode, templates, parts[i], r)
  {
    hide IsPartRule;
    assert parts[..i+1] == parts[..i] + [parts[i]];
    assert forall part :: part in parts[..i+1] <==> part in parts[..i] || part == parts[i];
  }

  /** The inner loop, over the resources of one part. */
  method PayloadRules(resources: Render) returns (rules: seq<Rule>)
    ensures forall r :: r in rules <==> exists key :: key in resources && IsPayloadRule(resources[key], r)
  {
    hide PayloadPointers;
    rules := [];
    var todo := resources.Keys;
    while todo != {}
      invariant todo <= resources.Keys
      invariant forall r :: r in rules ==> exists key :: key in resources && IsPayloadRule(resources[key], r)
      invariant forall key, r :: key in resources && key !in todo && IsPayloadRule(resources[key], r) ==> r in rules
    {
      var key :| key in todo;
      var res := resources[key];
      todo := todo - {key};
      var ptrs := PayloadPointers(res.id.kind);
      if ptrs != [] {
        assert IsPayloadRule(resources[key], Rule(res.id, ptrs, []));
        rules := rules + [Rule(res.id, ptrs, [])];
      }
    }
  }

  // ---------- objects for schema lookups ----------

  function ObjectOf(res: Resource): SchemaCache.RenderedObject {
    SchemaCache.RenderedObject(res.id, res.version, res.Spec())
  }

  /** Every resource with a spec map, in some order. */
  method RenderedObjects(resources: Render) returns (objects: seq<SchemaCache.RenderedObject>)
    ensures forall o :: o in objects <==>
              exists key :: key in resources && resources[key].Spec().Obj? && o == ObjectOf(resources[key])
  {
    objects := [];
    var todo := resources.Keys;
    while todo != {}
      invariant todo <= resources.Keys
      invariant forall o :: o in objects ==>
        exists key :: key in resources && resources[key].Spec().Obj? && o == ObjectOf(resources[key])
      invariant forall key :: key in resources && key !in todo && resources[key].Spec().Obj? ==>
        ObjectOf(resources[key]) in objects
    {
      var key :| key in todo;
      todo := todo - {key};
      if resources[key].Spec().Obj? {
        objects := objects + [ObjectOf(resources[key])];
      }
    }
  }

  // ---------- why something is ignored ----------

  /** The resources a manifest describes. */
  function Resources(decode: Decoder, manifest: Lines): Render {
    Keyed(decode, Docs(manifest))
  }

  /** The two renders of the resource differ by the target. */
  ghost predicate DiffReason(decode: Decoder, r0: Rendered, r1: Rendered, id: ResourceId, t: Target) {
    exists a, b :: a in Resources(decode, r0.manifest).Values && b in Resources(decode, r1.manifest).Values &&
                   a.id == b.id == id && t in DiffTargets(a, b)
  }

  /** The resource carries the labels of another chart or release. */
  ghost predicate ForeignReason(decode: Decoder, q: Request, r0: Rendered, id: ResourceId, t: Target) {
    Among(t, Warnings.CONTESTED_POINTERS) &&
    exists a :: a in Resources(decode, r0.manifest).Values && a.id == id && IsForeign(q, a)
  }

  /** The target is a null field of the resource's spec. */
  ghost predicate NullReason(decode: Decoder, r0: Rendered, id: ResourceId, t: Target) {
    exists a :: a in Resources(decode, r0.manifest).Values && a.id == id && IsNullField(a, t)
  }

  ghost predicate IsNullField(a: Resource, t: Target) {
    a.Spec().Obj? &&
    exists p :: p in FieldSweep.Paths(FieldSweep.Nulls, a.Spec()) && t == Pointer("/spec" + Pointers.Encode(p))
  }

  /** The resource is a Secret or ConfigMap from a template that calls `lookup`, and the target is
      its payload. */
  ghost predicate GuardedReason(decode: Decoder, r0: Rendered, r1: Rendered, id: ResourceId, t: Target) {
    exists part, a ::
      part in Split(r0.manifest) && Guarded(r1.lookupTemplates, part) && a in Resources(decode, part).Values &&
      a.id == id && Among(t, PayloadPointers(id.kind))
  }

  ghost predicate SlashFreeDocs(decode: Decoder, manifest: Lines) {
    forall doc :: doc in Docs(manifest) && Parse(decode, doc).Some? ==> SlashFree(Parse(decode, doc).value.id)
  }

  lemma SlashFreeResources(decode: Decoder, manifest: Lines)
    requires SlashFreeDocs(decode, manifest)
    ensures SlashFreeRender(Resources(decode, manifest))
  {
    hide Docs, Keyed;
    var resources := Resources(decode, manifest);
    KeyedWellKeyed(decode, Docs(manifest));
    forall key | key in resources ensures SlashFree(resources[key].id) {
      KeyedIsLast(decode, Docs(manifest), key);
      var i: nat :|
        LastWith(decode, Docs(manifest), key, i) && Parse(decode, Docs(manifest)[i]) == Some(resources[key]);
      assert Docs(manifest)[i] in Docs(manifest);
    }
  }

  /** A part holds no separator, so on its own it is at most one document, and the manifest's own. */
  lemma PartIsOneDoc(manifest: Lines, part: Lines, doc: Lines)
    requires part in Split(manifest) && doc in Docs(part)
    ensures doc in Docs(manifest)
  {
    PartHasNoSeparator(manifest, part);
    SplitLineCount(part);
    FlatMapOne(Kept, part);
    KeptInTidy(Split(manifest), part, doc);
  }

  lemma {:induction false} PartHasNoSeparator(text: Lines, part: Lines)
    requires part in Split(text)
    ensures Separators(part) == 0
  {
    if text != [] {
      var parts := Split(text[1..]);
      if part in parts {
        PartHasNoSeparator(text[1..], part);
      } else {
        PartHasNoSeparator(text[1..], parts[0]);
        assert part == [] || part == [text[0]] + parts[0];
      }
    }
  }

  lemma {:induction false} KeptInTidy(parts: seq<Lines>, part: Lines, doc: Lines)
    requires part in parts && doc in Kept(part)
    ensures doc in Tidy(parts)
  {
    if part != parts[0] { KeptInTidy(parts[1..], part, doc); }
  }

  // ---------- the pipeline ----------

  /** The rules of the four passes, before they are merged. */
  ghost predicate Passes(decode: Decoder, q: Request, r0: Rendered, r1: Rendered,
                         diff: seq<Rule>, foreign: seq<Rule>, nulls: seq<Rule>, guarded: seq<Rule>)
  {
    var res0, res1 := Resources(decode, r0.manifest), Resources(decode, r1.manifest);
    RulesCover(diff, [res0, res1], res0.Keys) && ForeignRules(q, res0, foreign) &&
    (forall r :: r in nulls <==> exists key :: key in res0 && FieldSweep.IsNullRule(res0[key], r)) &&
    (forall r :: r in guarded <==> IsGuardedRule(decode, r1.lookupTemplates, Split(r0.manifest), r))
  }

  lemma DiffMeaning(decode: Decoder, r0: Rendered, r1: Rendered, diff: seq<Rule>, id: ResourceId, t: Target)
    requires SlashFreeDocs(decode, r0.manifest) && SlashFreeDocs(decode, r1.manifest)
    requires var res0, res1 := Resources(decode, r0.manifest), Resources(decode, r1.manifest);
             RulesCover(diff, [res0, res1], res0.Keys)
    ensures (id, t) in Meaning(diff) <==> DiffReason(decode, r0, r1, id, t)
    ensures forall r :: r in diff ==> SlashFree(r.id)
  {
    hide Resources, DiffTargets, HasDiff, RuleFor;
    var res0, res1 := Resources(decode, r0.manifest), Resources(decode, r1.manifest);
    SlashFreeResources(decode, r0.manifest);
    SlashFreeResources(decode, r1.manifest);
    RulesMeanDifferences(diff, [res0, res1], id, t);
    if a, b :| a in res0.Values && b in res1.Values && a.id == b.id == id && t in DiffTargets(a, b) {
      assert b in [res0, res1][1].Values;
    }
    if (id, t) in Meaning(diff) {
      var a, b, i :| 1 <= i < 2 && a in res0.Values && b in [res0, res1][i].Values && a.id == b.id == id &&
                     t in DiffTargets(a, b);
      assert [res0, res1][i] == res1;
    }
    forall r | r in diff ensures SlashFree(r.id) {
      var key :| key in res0 && HasDiff([res0, res1], key) && r == RuleFor([res0, res1], key);
      RuleForId([res0, res1], key);
    }
  }

  lemma ForeignMeaning(decode: Decoder, q: Request, r0: Rendered, foreign: seq<Rule>, id: ResourceId, t: Target)
    requires SlashFreeDocs(decode, r0.manifest) && ForeignRules(q, Resources(decode, r0.manifest), foreign)
    ensures (id, t) in Meaning(foreign) <==> ForeignReason(decode, q, r0, id, t)
    ensures forall r :: r in foreign ==> SlashFree(r.id)
  {
    hide Resources, IsForeign;
    var res := Resources(decode, r0.manifest);
    SlashFreeResources(decode, r0.manifest);
    forall a: Resource ensures t in Targets(ForeignRule(a)) <==> Among(t, Warnings.CONTESTED_POINTERS) {
      TargetsOfPointers(a.id, Warnings.CONTESTED_POINTERS, t);
    }
    hide Targets;
    if (id, t) in Meaning(foreign) {
      var r :| r in foreign && r.id == id && t in Targets(r);
      var key :| key in res && IsForeign(q, res[key]) && r == ForeignRule(res[key]);
      assert res[key] in res.Values;
    }
    if ForeignReason(decode, q, r0, id, t) {
      var a :| a in res.Values && a.id == id && IsForeign(q, a);
      var key :| key in res && res[key] == a;
      assert ForeignRule(res[key]) in foreign;
    }
  }

  lemma NullMeaning(decode: Decoder, r0: Rendered, nulls: seq<Rule>, id: ResourceId, t: Target)
    requires SlashFreeDocs(decode, r0.manifest)
    requires var res0 := Resources(decode, r0.manifest);
             forall r :: r in nulls <==> exists key :: key in res0 && FieldSweep.IsNullRule(res0[key], r)
    ensures (id, t) in Meaning(nulls) <==> NullReason(decode, r0, id, t)
    ensures forall r :: r in nulls ==> SlashFree(r.id)
  {
    hide Resources, IsNullField;
    var res := Resources(decode, r0.manifest);
    SlashFreeResources(decode, r0.manifest);
    if (id, t) in Meaning(nulls) {
      var r :| r in nulls && r.id == id && t in Targets(r);
      var key :| key in res && FieldSweep.IsNullRule(res[key], r);
      NullRuleTargets(res[key], r, t);
      assert res[key] in res.Values;
    }
    if NullReason(decode, r0, id, t) {
      var a :| a in res.Values && a.id == id && IsNullField(a, t);
      var key :| key in res && res[key] == a;
      var r := Rule(a.id, FieldSweep.SpecPointers(FieldSweep.Nulls, a.Spec()), []);
      NullFieldRule(a, t);
      NullRuleTargets(a, r, t);
      assert FieldSweep.IsNullRule(res[key], r);
    }
  }

  lemma NullFieldRule(a: Resource, t: Target)
    requires IsNullField(a, t)
    ensures FieldSweep.IsNullRule(a, Rule(a.id, FieldSweep.SpecPointers(FieldSweep.Nulls, a.Spec()), []))
  {
  }

  lemma NullRuleTargets(a: Resource, r: Rule, t: Target)
    requires FieldSweep.IsNullRule(a, r)
    ensures r.id == a.id && (t in Targets(r) <==> IsNullField(a, t))
  {
    var ptrs := FieldSweep.SpecPointers(FieldSweep.Nulls, a.Spec());
    TargetsOfPointers(a.id, ptrs, t);
    if t.Pointer? {
      assert t.p in ptrs <==> t.p in Elems(ptrs);
    }
  }

  lemma GuardedMeaning(decode: Decoder, r0: Rendered, r1: Rendered, guarded: seq<Rule>, id: ResourceId, t: Target)
    requires SlashFreeDocs(decode, r0.manifest)
    requires forall r :: r in guarded <==> IsGuardedRule(decode, r1.lookupTemplates, Split(r0.manifest), r)
    ensures (id, t) in Meaning(guarded) <==> GuardedReason(decode, r0, r1, id, t)
    ensures forall r :: r in guarded ==> SlashFree(r.id)
  {
    hide Docs, Keyed, PayloadPointers, Guarded;
    forall a: Resource, r | IsPayloadRule(a, r)
      ensures r.id == a.id && (t in Targets(r) <==> Among(t, PayloadPointers(a.id.kind)))
    {
      TargetsOfPointers(a.id, PayloadPointers(a.id.kind), t);
    }
    forall r | r in guarded ensures SlashFree(r.id) {
      var part :| part in Split(r0.manifest) && IsPartRule(decode, r1.lookupTemplates, part, r);
      var key :| key in Keyed(decode, Docs(part)) && IsPayloadRule(Keyed(decode, Docs(part))[key], r);
      SlashFreePart(decode, r0.manifest, part);
    }
    hide Targets;
    if (id, t) in Meaning(guarded) {
      var r :| r in guarded && r.id == id && t in Targets(r);
      var part :| part in Split(r0.manifest) && IsPartRule(decode, r1.lookupTemplates, part, r);
      var key :| key in Keyed(decode, Docs(part)) && IsPayloadRule(Keyed(decode, Docs(part))[key], r);
      assert Keyed(decode, Docs(part))[key] in Resources(decode, part).Values;
    }
    if GuardedReason(decode, r0, r1, id, t) {
      var part, a :| part in Split(r0.manifest) && Guarded(r1.lookupTemplates, part) &&
                     a in Resources(decode, part).Values && a.id == id && Among(t, PayloadPointers(id.kind));
      var key :| key in Keyed(decode, Docs(part)) && Keyed(decode, Docs(part))[key] == a;
      var r := Rule(a.id, PayloadPointers(a.id.kind), []);
      assert IsPartRule(decode, r1.lookupTemplates, part, r);
      assert r in guarded;
    }
  }

  lemma SlashFreePart(decode: Decoder, manifest: Lines, part: Lines)
    requires SlashFreeDocs(decode, manifest) && part in Split(manifest)
    ensures SlashFreeRender(Keyed(decode, Docs(part)))
  {
    hide Docs;
    forall doc | doc in Docs(part) ensures doc in Docs(manifest) { PartIsOneDoc(manifest, part, doc); }
    SlashFreeResources(decode, part);
  }

  /** A rule that detection returns ignores something for one of four reasons, and for each reason
      there is a rule. */
  lemma DetectedMeaning(decode: Decoder, q: Request, r0: Rendered, r1: Rendered, diff: seq<Rule>, foreign: seq<Rule>,
                        nulls: seq<Rule>, guarded: seq<Rule>, id: ResourceId, t: Target)
    requires SlashFreeDocs(decode, r0.manifest) && SlashFreeDocs(decode, r1.manifest)
    requires Passes(decode, q, r0, r1, diff, foreign, nulls, guarded)
    ensures (id, t) in Meaning(Dedupe(diff + foreign + nulls + guarded)) <==>
            DiffReason(decode, r0, r1, id, t) || ForeignReason(decode, q, r0, id, t) ||
            NullReason(decode, r0, id, t) || GuardedReason(decode, r0, r1, id, t)
  {
    DiffMeaning(decode, r0, r1, diff, id, t);
    ForeignMeaning(decode, q, r0, foreign, id, t);
    NullMeaning(decode, r0, nulls, id, t);
    GuardedMeaning(decode, r0, r1, guarded, id, t);
    hide *;
    DedupePreservesMeaning(diff + foreign + nulls + guarded);
    MeaningAppend(diff + foreign + nulls, guarded);
    MeaningAppend(diff + foreign, nulls);
    MeaningAppend(diff, foreign);
  }

  /** What a detection from two renders says. */
  ghost predicate DetectedFrom(enc: ChartCRDs.Encoding, q: Request, r0: Rendered, r1: Rendered, d: Detected) {
    MergedPasses(enc.decode, q, r0, r1, d.rules) && ObjectsOf(Resources(enc.decode, r0.manifest), d.objects) &&
    CRDsOf(enc, r1, d)
  }

  ghost predicate MergedPasses(decode: Decoder, q: Request, r0: Rendered, r1: Rendered, rules: seq<Rule>) {
    exists diff, foreign, nulls, guarded ::
      Passes(decode, q, r0, r1, diff, foreign, nulls, guarded) && rules == Dedupe(diff + foreign + nulls + guarded)
  }

  ghost predicate ObjectsOf(resources: Render, objects: seq<SchemaCache.RenderedObject>) {
    forall o :: o in objects <==>
      exists key :: key in resources && resources[key].Spec().Obj? && o == ObjectOf(resources[key])
  }

  /** No document of the chart's CRD texts changes its extent when it is trimmed. */
  ghost predicate CleanTexts(r: Rendered) {
    Clean(r.manifest) && forall t :: t in r.crdFiles ==> Clean(t)
  }

  /** A document of the chart: of one of its crds/ files or of its rendered manifest. */
  ghost predicate DocOf(r: Rendered, doc: Lines) {
    doc in Docs(r.manifest) || exists t :: t in r.crdFiles && doc in Docs(t)
  }

  /** Every document of the chart that is this CRD takes more than 200 KiB. */
  ghost predicate OversizedEverywhere(enc: ChartCRDs.Encoding, r: Rendered, n: string) {
    forall doc :: DocOf(r, doc) && n in enc.CrdOf(doc) ==> enc.size(doc) > 204800
  }

  ghost predicate CRDsOf(enc: ChartCRDs.Encoding, r: Rendered, d: Detected) {
    Sorted(d.helmCRDs) && Sorted(d.oversized) && Elems(d.oversized) == d.oversizedDocs.Keys <= Elems(d.helmCRDs) &&
    (CleanTexts(r) ==> Elems(d.helmCRDs) == Gather(enc.CrdsOf, r.crdFiles) + enc.CrdsOf(r.manifest)) &&
    (CleanTexts(r) ==> forall n :: n in d.oversizedDocs ==> OversizedDoc(enc, r, n, d.oversizedDocs[n])) &&
    (CleanTexts(r) ==> forall n :: n in d.helmCRDs && OversizedEverywhere(enc, r, n) ==> n in d.oversizedDocs)
  }

  ghost predicate OversizedDoc(enc: ChartCRDs.Encoding, r: Rendered, n: string, doc: Lines) {
    DocOf(r, doc) && enc.CrdOf(doc) == {n} && enc.size(doc) > 204800
  }

  /** The rules of a detection, and why. */
  lemma DetectionExplained(enc: ChartCRDs.Encoding, q: Request, r0: Rendered, r1: Rendered, d: Detected,
                           id: ResourceId, t: Target)
    requires SlashFreeDocs(enc.decode, r0.manifest) && SlashFreeDocs(enc.decode, r1.manifest)
    requires DetectedFrom(enc, q, r0, r1, d)
    ensures NoDup(KeysOf(d.rules))
    ensures (id, t) in Meaning(d.rules) <==>
            DiffReason(enc.decode, r0, r1, id, t) || ForeignReason(enc.decode, q, r0, id, t) ||
            NullReason(enc.decode, r0, id, t) || GuardedReason(enc.decode, r0, r1, id, t)
  {
    hide Passes, Meaning;
    var diff, foreign, nulls, guarded :|
      Passes(enc.decode, q, r0, r1, diff, foreign, nulls, guarded) &&
      d.rules == Dedupe(diff + foreign + nulls + guarded);
    DedupeKeys(diff + foreign + nulls + guarded);
    DetectedMeaning(enc.decode, q, r0, r1, diff, foreign, nulls, guarded, id, t);
  }

  // ---------- the CRDs of a detection ----------

  lemma {:induction false} DocsOfAllMember(texts: seq<Lines>, doc: Lines)
    requires doc in DocsOfAll(texts)
    ensures exists t :: t in texts && doc in Docs(t)
  {
    if doc in Docs(texts[0]) {
      assert texts[0] in texts;
    } else {
      DocsOfAllMember(texts[1..], doc);
    }
  }

  /** Every document of the joined CRD texts stands alone. */
  lemma JoinedStandAlone(r: Rendered, extra: seq<Lines>, doc: Lines)
    requires CleanTexts(r) && forall d :: d in extra ==> d in Docs(r.manifest)
    requires doc in Docs(Join(r.crdFiles + extra))
    ensures Docs(doc) == [doc] && DocOf(r, doc)
  {
    hide Docs;
    JoinRoundTrip(r.crdFiles + extra);
    DocsOfAllMember(r.crdFiles + extra, doc);
    var t :| t in r.crdFiles + extra && doc in Docs(t);
    if t in r.crdFiles {
      CleanDoc(t, doc);
    } else {
      CleanDoc(r.manifest, t);
      CleanDoc(r.manifest, doc);
    }
  }

  lemma {:induction false} GatherWithin<A>(f: A -> set<string>, g: A -> set<string>, s: seq<A>)
    requires forall x :: x in s ==> f(x) <= g(x)
    ensures Gather(f, s) <= Gather(g, s)
  {
    if s != [] { GatherWithin(f, g, s[..|s|-1]); }
  }

  /** What listing the joined CRD texts gives. */
  lemma ListedCRDs(enc: ChartCRDs.Encoding, r: Rendered, extra: seq<Lines>, d: Detected)
    requires forall e :: e in extra ==> e in Docs(r.manifest)
    requires Gather(enc.NamesIn, r.crdFiles + extra) ==
             Gather(enc.NamesIn, r.crdFiles) + Gather(enc.NamesIn, Docs(r.manifest))
    requires Sorted(d.helmCRDs) && Elems(d.helmCRDs) == Gather(enc.NamesIn, Docs(Join(r.crdFiles + extra)))
    requires Sorted(d.oversized) && Elems(d.oversized) == d.oversizedDocs.Keys
    requires d.oversizedDocs.Keys == Gather(enc.OversizedNamesIn, Docs(Join(r.crdFiles + extra)))
    requires forall n :: n in d.oversizedDocs ==>
               ChartCRDs.HoldsOversized(enc, Docs(Join(r.crdFiles + extra)), d.oversizedDocs[n], n)
    ensures CRDsOf(enc, r, d)
  {
    hide Docs, ChartCRDs.Encoding.NamesIn, ChartCRDs.Encoding.CrdOf;
    var docs := Docs(Join(r.crdFiles + extra));
    GatherWithin(enc.OversizedNamesIn, enc.NamesIn, docs);
    if CleanTexts(r) {
      ChartCRDs.CollectedNamesExact(enc, r.crdFiles, r.manifest, extra);
      forall n | n in d.oversizedDocs ensures OversizedDoc(enc, r, n, d.oversizedDocs[n]) {
        JoinedStandAlone(r, extra, d.oversizedDocs[n]);
        ChartCRDs.NamesInDoc(enc, d.oversizedDocs[n]);
        AtMostOneCRD(enc, d.oversizedDocs[n]);
      }
      forall n | n in d.helmCRDs && OversizedEverywhere(enc, r, n) ensures n in d.oversizedDocs {
        OversizedListed(enc, r, extra, n);
      }
    }
  }

  lemma OversizedListed(enc: ChartCRDs.Encoding, r: Rendered, extra: seq<Lines>, n: string)
    requires CleanTexts(r) && forall e :: e in extra ==> e in Docs(r.manifest)
    requires OversizedEverywhere(enc, r, n) && n in Gather(enc.NamesIn, Docs(Join(r.crdFiles + extra)))
    ensures n in Gather(enc.OversizedNamesIn, Docs(Join(r.crdFiles + extra)))
  {
    hide Docs, ChartCRDs.Encoding.NamesIn, ChartCRDs.Encoding.CrdOf, DocOf;
    var docs := Docs(Join(r.crdFiles + extra));
    GatherMember(enc.NamesIn, docs, n);
    var i :| 0 <= i < |docs| && n in enc.NamesIn(docs[i]);
    JoinedStandAlone(r, extra, docs[i]);
    ChartCRDs.NamesInDoc(enc, docs[i]);
    GatherMember(enc.OversizedNamesIn, docs, n);
  }

  lemma AtMostOneCRD(enc: ChartCRDs.Encoding, doc: Lines)
    ensures forall n :: n in enc.CrdOf(doc) ==> enc.CrdOf(doc) == {n}
  {
  }

  // ---------- the pipeline and its memo ----------

  /** Detection from two renders. The second render's CRDs and templates are the ones used. */
  method Detect(enc: ChartCRDs.Encoding, q: Request, r0: Rendered, r1: Rendered) returns (d: Detected)
    ensures DetectedFrom(enc, q, r0, r1, d)
  {
    hide Resources, RulesCover, ForeignRules, IsGuardedRule, CRDsOf, Dedupe, Docs;
    var res0 := ParseResources(enc.decode, r0.manifest);
    var res1 := ParseResources(enc.decode, r1.manifest);
    ParsedWell(enc.decode, r0.manifest, res0);
    ParsedWell(enc.decode, r1.manifest, res1);
    var diff := FindIgnoreDifferences([res0, res1]);
    var foreign := DetectForeignChartResources(q, res0);
    var nulls := FieldSweep.NullFieldRules(res0);
    var guarded := LookupGuardedRules(enc.decode, r0.manifest, r1.lookupTemplates);
    var rules := DedupeRules(diff + foreign + nulls + guarded);
    assert Passes(enc.decode, q, r0, r1, diff, foreign, nulls, guarded);
    var objects := RenderedObjects(res0);
    var crdDocs, extra := ChartCRDs.CollectCRDs(enc, r1.crdFiles, r1.manifest);
    var names, oversized, oversizedDocs := ChartCRDs.HelmCRDNames(enc, Join(crdDocs));
    d := Detected(rules, names, oversized, oversizedDocs, objects);
    ListedCRDs(enc, r1, extra, d);
  }

  lemma ParsedWell(decode: Decoder, manifest: Lines, resources: Render)
    requires resources == Keyed(decode, Docs(manifest))
    ensures resources == Resources(decode, manifest) && WellKeyed(resources)
  {
    KeyedWellKeyed(decode, Docs(manifest));
  }

  class DetectionCache {
    const enc: ChartCRDs.Encoding
    var cache: map<Request, Detected>
    /** The renders each memoised result was detected from. */
    ghost var origins: map<Request, (Rendered, Rendered)>

    constructor (enc: ChartCRDs.Encoding)
      ensures Valid() && this.enc == enc && cache == map[]
    {
      this.enc, cache, origins := enc, map[], map[];
    }

    ghost predicate Valid()
      reads this
    {
      cache.Keys == origins.Keys &&
      forall q :: q in cache ==> DetectedFrom(enc, q, origins[q].0, origins[q].1, cache[q])
    }

    /** The first successful detection for a request answers every later one, whatever the renders
        would be by then. A failed render is not remembered. */
    method DetectIgnoreDifferences(q: Request, first: Option<Rendered>, second: Option<Rendered>)
      returns (d: Option<Detected>)
      requires Valid()
      modifies this
      ensures Valid()
      ensures q in old(cache) ==> d == Some(old(cache)[q]) && cache == old(cache) && origins == old(origins)
      ensures q !in old(cache) && first.Some? && second.Some? ==>
                d.Some? && cache == old(cache)[q := d.value] &&
                origins == old(origins)[q := (first.value, second.value)]
      ensures q !in old(cache) && !(first.Some? && second.Some?) ==>
                d == None && cache == old(cache) && origins == old(origins)
    {
      hide DetectedFrom;
      if q in cache {
        return Some(cache[q]);
      }
      if first.None? || second.None? {
        return None;
      }
      var res := Detect(enc, q, first.value, second.value);
      cache, origins := cache[q := res], origins[q := (first.value, second.value)];
      return Some(res);
    }
  }
}
