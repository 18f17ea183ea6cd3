/** Why a detection ignores something, told from the decoded documents
    (pkg/ignoregen/ignoregen.go:103-195, 233-312). */
module Reasons {
  import opened Text
  import opened Json
  import opened Rules
  import opened Manifest
  import opened RenderDiff
  import opened Detection
  import Pointers
  import FieldSweep
  import SchemaCache
  import ChartCRDs
  import Warnings

  /** The document's labels name another chart, or another release. */
  predicate CarriesOther(q: Request, v: Value) {
    var chart := TextAt(v, ["metadata", "labels", "helm.sh/chart"]);
    var instance := TextAt(v, ["metadata", "labels", "app.kubernetes.io/instance"]);
    (chart != "" && chart != q.chart + "-" + q.version) ||
    (instance != "" && q.releaseName != "" && instance != q.releaseName)
  }

  lemma LabelAt(v: Value, key: string)
    ensures TextAt(v, ["metadata", "labels", key]) == AsString(Field(Field(Field(v, "metadata"), "labels"), key))
  {
    assert ["metadata", "labels", key] == ["metadata"] + ["labels", key];
    assert ["labels", key] == ["labels"] + [key];
    LookupCons(v, "metadata", ["labels", key]);
    LookupCons(Field(v, "metadata"), "labels", [key]);
    LookupOne(Field(Field(v, "metadata"), "labels"), key);
  }

  lemma ForeignTold(q: Request, res: Resource)
    ensures IsForeign(q, res) <==> CarriesOther(q, res.raw)
  {
    LabelAt(res.raw, "helm.sh/chart");
    LabelAt(res.raw, "app.kubernetes.io/instance");
    hide TextAt, Field, AsString;
  }

  /** A source comment with something after it. */
  predicate Heads(line: string) {
    "# Source: " <= line && |line| > 10
  }

  /** The first source comment of the part names this template. */
  ghost predicate FromTemplate(part: Lines, path: string) {
    exists i :: 0 <= i < |part| && Heads(part[i]) && Warnings.TrimSpace(part[i][10..]) == path &&
                forall j :: 0 <= j < i ==> !Heads(part[j])
  }

  lemma {:induction false} SourceTold(part: Lines, path: string)
    ensures SourceOf(part) == Some(path) <==> FromTemplate(part, path)
  {
    hide Warnings.TrimSpace;
    if part != [] && !Heads(part[0]) {
      var rest := part[1..];
      SourceTold(rest, path);
      if FromTemplate(part, path) {
        var i :| 0 <= i < |part| && Heads(part[i]) && Warnings.TrimSpace(part[i][10..]) == path &&
                 forall j :: 0 <= j < i ==> !Heads(part[j]);
        assert rest[i-1] == part[i] && forall j :: 0 <= j < i - 1 ==> rest[j] == part[j+1];
      }
      if FromTemplate(rest, path) {
        var i :| 0 <= i < |rest| && Heads(rest[i]) && Warnings.TrimSpace(rest[i][10..]) == path &&
                 forall j :: 0 <= j < i ==> !Heads(rest[j]);
        assert part[i+1] == rest[i] && forall j :: 0 < j < i + 1 ==> part[j] == rest[j-1];
      }
    }
  }

  /** A resource of the first render whose labels name another chart or release: spec, labels and
      annotations. */
  ghost predicate Foreign(decode: Decoder, q: Request, r0: Rendered, id: ResourceId, t: Target) {
    (t == Pointer("/spec") || t == Pointer("/metadata/labels") || t == Pointer("/metadata/annotations")) &&
    exists a :: a in Resources(decode, r0.manifest).Values && a.id == id && CarriesOther(q, a.raw)
  }

  lemma ForeignExactly(decode: Decoder, q: Request, r0: Rendered, id: ResourceId, t: Target)
    ensures ForeignReason(decode, q, r0, id, t) <==> Foreign(decode, q, r0, id, t)
  {
    forall a ensures IsForeign(q, a) <==> CarriesOther(q, a.raw) { ForeignTold(q, a); }
    hide IsForeign, CarriesOther, Resources;
  }

  /** A null below the spec of a resource of the first render: the pointer to it. */
  ghost predicate NullField(decode: Decoder, r0: Rendered, id: ResourceId, t: Target) {
    exists a, path :: a in Resources(decode, r0.manifest).Values && a.id == id && IsNull(a.raw, path, t)
  }

  ghost predicate IsNull(v: Value, path: Pointers.Path, t: Target) {
    path != [] && Lookup(v, ["spec"] + path) == Some(Null) && t == Pointer(Pointers.Encode(["spec"] + path))
  }

  lemma NullTold(a: Resource, path: Pointers.Path, t: Target)
    ensures a.Spec().Obj? && path in FieldSweep.Paths(FieldSweep.Nulls, a.Spec()) &&
            t == Pointer("/spec" + Pointers.Encode(path)) <==>
            IsNull(a.raw, path, t)
  {
    FieldSweep.PathsExact(FieldSweep.Nulls, a.Spec(), path);
    FieldSweep.SpecPrefix();
    Pointers.EncodeAppend(["spec"], path);
    if path != [] { LookupCons(a.raw, "spec", path); }
    hide FieldSweep.Paths, Pointers.Encode;
  }

  lemma NullExactly(decode: Decoder, r0: Rendered, id: ResourceId, t: Target)
    ensures NullReason(decode, r0, id, t) <==> NullField(decode, r0, id, t)
  {
    forall a ensures IsNullField(a, t) <==> exists path :: IsNull(a.raw, path, t) {
      forall path { NullTold(a, path, t); }
      hide IsNull, FieldSweep.Paths, Pointers.Encode;
    }
    hide IsNullField, IsNull, Resources;
  }

  /** The payload of a Secret or ConfigMap. */
  predicate IsPayload(kind: string, t: Target) {
    (kind == "Secret" && (t == Pointer("/data") || t == Pointer("/stringData"))) ||
    (kind == "ConfigMap" && (t == Pointer("/data") || t == Pointer("/binaryData")))
  }

  /** The payload of a resource of the first render that comes from a template calling `lookup`. */
  ghost predicate BehindLookup(decode: Decoder, r0: Rendered, r1: Rendered, id: ResourceId, t: Target) {
    IsPayload(id.kind, t) &&
    exists part, path, a ::
      part in Split(r0.manifest) && path in r1.lookupTemplates && FromTemplate(part, path) &&
      a in Resources(decode, part).Values && a.id == id
  }

  lemma GuardedTold(templates: set<string>, part: Lines)
    ensures Guarded(templates, part) <==> exists path :: path in templates && FromTemplate(part, path)
  {
    forall path ensures SourceOf(part) == Some(path) <==> FromTemplate(part, path) { SourceTold(part, path); }
    hide SourceOf, FromTemplate;
  }

  lemma GuardedExactly(decode: Decoder, r0: Rendered, r1: Rendered, id: ResourceId, t: Target)
    ensures GuardedReason(decode, r0, r1, id, t) <==> BehindLookup(decode, r0, r1, id, t)
  {
    assert Among(t, PayloadPointers(id.kind)) <==> IsPayload(id.kind, t);
    forall part ensures Guarded(r1.lookupTemplates, part) <==>
                        exists path :: path in r1.lookupTemplates && FromTemplate(part, path)
    {
      GuardedTold(r1.lookupTemplates, part);
    }
    hide Among, IsPayload, Guarded, FromTemplate, Resources, Split;
  }

  /** A detection ignores exactly what differs between the renders, spec and metadata of resources that
      belong to others, nulls in specs, and payloads behind a lookup. */
  lemma IgnoredExactly(enc: ChartCRDs.Encoding, q: Request, r0: Rendered, r1: Rendered, d: Detected,
                       id: ResourceId, t: Target)
    requires SlashFreeDocs(enc.decode, r0.manifest) && SlashFreeDocs(enc.decode, r1.manifest)
    requires DetectedFrom(enc, q, r0, r1, d)
    ensures (id, t) in Meaning(d.rules) <==>
            DiffReason(enc.decode, r0, r1, id, t) || Foreign(enc.decode, q, r0, id, t) ||
            NullField(enc.decode, r0, id, t) || BehindLookup(enc.decode, r0, r1, id, t)
  {
    hide *;
    DetectionExplained(enc, q, r0, r1, d, id, t);
    ForeignExactly(enc.decode, q, r0, id, t);
    NullExactly(enc.decode, r0, id, t);
    GuardedExactly(enc.decode, r0, r1, id, t);
  }

  // ---------- the objects whose schemas are looked up ----------

  /** Each resource is described by its own document. */
  lemma ResourcesDescribed(decode: Decoder, manifest: Lines, a: Resource)
    requires a in Resources(decode, manifest).Values
    ensures Describes(a.raw, a)
  {
    hide Docs, Keyed, Describes;
    var docs := Docs(manifest);
    var key :| key in Keyed(decode, docs) && Keyed(decode, docs)[key] == a;
    KeyedIsLast(decode, docs, key);
    var i: nat :| LastWith(decode, docs, key, i) && Parse(decode, docs[i]) == Some(a);
    DescribedByRaw(decode, docs[i], a);
  }

  lemma DescribedByRaw(decode: Decoder, doc: Lines, a: Resource)
    requires Parse(decode, doc) == Some(a)
    ensures Describes(a.raw, a)
  {
    ParsedExactly(decode, doc, a);
    hide TextAt;
  }

  /** The schemas are looked up for exactly the resources with an object as spec, by the kind, group and
      version that their documents name. */
  lemma ObjectsTold(enc: ChartCRDs.Encoding, q: Request, r0: Rendered, r1: Rendered, d: Detected,
                    o: SchemaCache.RenderedObject)
    requires DetectedFrom(enc, q, r0, r1, d)
    ensures o in d.objects <==>
            exists a :: a in Resources(enc.decode, r0.manifest).Values && Describes(a.raw, a) &&
                        a.id == o.id && a.version == o.version && HasSpec(a.raw, o.spec)
  {
    hide Resources, MergedPasses, CRDsOf, Describes;
    var resources := Resources(enc.decode, r0.manifest);
    forall a | a in resources.Values
      ensures Describes(a.raw, a) && (a.Spec().Obj? && o == ObjectOf(a) <==>
                                      a.id == o.id && a.version == o.version && HasSpec(a.raw, o.spec))
    {
      ResourcesDescribed(enc.decode, r0.manifest, a);
      LookupOne(a.raw, "spec");
    }
    hide ObjectOf, HasSpec;
    assert forall key :: key in resources ==> resources[key] in resources.Values;
  }

  predicate HasSpec(v: Value, spec: Value) {
    spec.Obj? && Lookup(v, ["spec"]) == Some(spec)
  }
}
