/** What a difference between two renders of a resource asks to ignore, kind by kind, told from the two
    objects (pkg/ignoregen/ignoregen.go:665-725, 760-838). */
module KindDiffs {
  import opened Text
  import opened Json
  import opened Rules
  import opened Manifest
  import opened RenderDiff
  import opened ErasedDiff
  import Pointers

  /** The top-level field is not the same in both; a missing field counts as null. */
  predicate Differs(a: Resource, b: Resource, field: string) {
    Field(a.raw, field) != Field(b.raw, field)
  }

  /** Secrets and ConfigMaps: the payload, whenever it or `stringData` differs. */
  lemma PayloadTargets(a: Resource, b: Resource, t: Target)
    requires a.id.kind == "Secret" || a.id.kind == "ConfigMap"
    ensures t in DiffTargets(a, b) <==>
            (t == Pointer("/data") && (Differs(a, b, "data") || Differs(a, b, "stringData"))) ||
            (t == Pointer("/stringData") && Differs(a, b, "stringData"))
  {
  }

  /** The webhooks of a configuration. */
  function WebhooksOf(raw: Value): seq<Value> {
    match Lookup(raw, ["webhooks"])
    case Some(Arr(items)) => items
    case _ => []
  }

  /** There are as many webhooks in both, and two at the same place have different CA bundles, neither
      of them empty. */
  ghost predicate BundlesDiffer(a: Value, b: Value) {
    |WebhooksOf(a)| == |WebhooksOf(b)| &&
    exists i :: 0 <= i < |WebhooksOf(a)| && BundleDiffers(WebhooksOf(a)[i], WebhooksOf(b)[i])
  }

  predicate BundleDiffers(a: Value, b: Value) {
    var x, y := TextAt(a, ["clientConfig", "caBundle"]), TextAt(b, ["clientConfig", "caBundle"]);
    x != "" && y != "" && x != y
  }

  lemma TextAtTwo(v: Value, first: string, second: string)
    ensures TextAt(v, [first, second]) == AsString(Field(Field(v, first), second))
  {
    assert [first, second] == [first] + [second];
    LookupCons(v, first, [second]);
    LookupOne(Field(v, first), second);
  }

  lemma SameWebhooks(a: Value, b: Value)
    ensures BundlesDiffer(a, b) <==> CaBundleDiffs(a, b)
  {
    LookupOne(a, "webhooks");
    LookupOne(b, "webhooks");
    assert WebhooksOf(a) == Items(Field(a, "webhooks")) && WebhooksOf(b) == Items(Field(b, "webhooks"));
    forall x, y ensures BundleDiffers(x, y) <==> WebhookDiffers(x, y) {
      TextAtTwo(x, "clientConfig", "caBundle");
      TextAtTwo(y, "clientConfig", "caBundle");
    }
    hide WebhooksOf, BundleDiffers, WebhookDiffers, Field;
  }

  /** Webhook configurations: the CA bundles, whenever two of them differ. */
  lemma WebhookTargets(a: Resource, b: Resource, t: Target)
    requires a.id.kind == "MutatingWebhookConfiguration" || a.id.kind == "ValidatingWebhookConfiguration"
    ensures t in DiffTargets(a, b) <==>
            t == Expression(".webhooks[].clientConfig.caBundle") && BundlesDiffer(a.raw, b.raw)
  {
    SameWebhooks(a.raw, b.raw);
    hide BundlesDiffer, CaBundleDiffs;
  }

  /** APIServices: the CA bundle, whenever there are two and they differ. */
  lemma ApiServiceTargets(a: Resource, b: Resource, t: Target)
    requires a.id.kind == "APIService"
    ensures t in DiffTargets(a, b) <==>
            t == Pointer("/spec/caBundle") &&
            var x, y := TextAt(a.raw, ["spec", "caBundle"]), TextAt(b.raw, ["spec", "caBundle"]);
            x != "" && y != "" && x != y
  {
    TextAtTwo(a.raw, "spec", "caBundle");
    TextAtTwo(b.raw, "spec", "caBundle");
    hide TextAt, Field;
  }

  /** Both objects have something at this path, and it prints differently. */
  predicate PrintsDifferently(a: Value, b: Value, path: Pointers.Path) {
    var x, y := Lookup(a, path), Lookup(b, path);
    x.Some? && y.Some? && Show(x.value) != Show(y.value)
  }

  /** Texts print as themselves; absence and truth values by their names. */
  lemma ScalarsPrint(x: string, y: string)
    ensures Show(Str(x)) == x && (Show(Str(x)) != Show(Str(y)) <==> x != y)
    ensures Show(Null) == "<nil>" && Show(Bool(true)) == "true" && Show(Bool(false)) == "false"
  {
  }

  /** The parts with one blank between each two. */
  function Joined(parts: seq<string>): string {
    if parts == [] then "" else if |parts| == 1 then parts[0] else parts[0] + (" " + Joined(parts[1..]))
  }

  lemma {:induction false} ItemsJoined(whole: Value, from: nat, parts: seq<string>)
    requires whole.Arr? && from + |parts| == |whole.items|
    requires forall i :: 0 <= i < |parts| ==> parts[i] == Show(whole.items[from + i])
    ensures ShowItems(whole, from) == (if from == 0 || parts == [] then "" else " ") + Joined(parts)
    decreases |parts|
  {
    if parts != [] {
      ItemsJoined(whole, from + 1, parts[1..]);
      var blank := if from == 0 then "" else " ";
      Assoc(blank, parts[0], ShowItems(whole, from + 1));
      hide Show;
      assert |parts| == 1 ==> parts[0] + ShowItems(whole, from + 1) == parts[0];
    }
  }

  /** An array prints its items, blanks between them. */
  lemma ArrayPrints(items: seq<Value>, parts: seq<string>)
    requires |parts| == |items| && forall i :: 0 <= i < |items| ==> parts[i] == Show(items[i])
    ensures Show(Arr(items)) == "[" + Joined(parts) + "]"
  {
    ItemsJoined(Arr(items), 0, parts);
    assert "" + Joined(parts) == Joined(parts);
  }

  lemma {:induction false} FieldsJoined(whole: Value, keys: seq<string>, parts: seq<string>)
    requires whole.Obj? && |parts| == |keys| && forall i :: 0 <= i < |keys| ==>
               keys[i] in whole.fields && parts[i] == keys[i] + ":" + Show(whole.fields[keys[i]])
    ensures ShowFields(whole, keys) == Joined(parts)
  {
    if keys != [] {
      FieldsJoined(whole, keys[1..], parts[1..]);
      hide Show;
      assert |keys| == 1 ==> parts[0] + "" == parts[0];
    }
  }

  /** A map prints its keys and values, in the order of the keys. */
  lemma MapPrints(m: map<string, Value>, keys: seq<string>, parts: seq<string>)
    requires Ascending(keys) && Elems(keys) == m.Keys && |parts| == |keys|
    requires forall i :: 0 <= i < |keys| ==> keys[i] in m && parts[i] == keys[i] + ":" + Show(m[keys[i]])
    ensures Show(Obj(m)) == "map[" + Joined(parts) + "]"
  {
    InOrderAscending(m.Keys);
    AscendingUnique(keys, InOrder(m.Keys));
    FieldsJoined(Obj(m), keys, parts);
  }

  /** The pointer written for an annotation. */
  function Written(prefix: string, key: string): string {
    prefix + "/" + Pointers.ReplaceAll(key, '/', "~1")
  }

  lemma AnnotationTargets(a: Value, b: Value, metaA: Value, metaB: Value, path: Pointers.Path, prefix: string,
                          p: string)
    requires forall key :: Lookup(a, path + [key]) == Lookup(Field(metaA, "annotations"), [key])
    requires forall key :: Lookup(b, path + [key]) == Lookup(Field(metaB, "annotations"), [key])
    ensures p in AnnotationDiffs(metaA, metaB, prefix) <==>
            exists key :: PrintsDifferently(a, b, path + [key]) && p == Written(prefix, key)
  {
    var x, y := Field(metaA, "annotations"), Field(metaB, "annotations");
    forall key ensures PrintsDifferently(a, b, path + [key]) <==>
      (x.Obj? && y.Obj? && key in x.fields && key in y.fields && Show(x.fields[key]) != Show(y.fields[key]))
    {
      LookupOne(x, key);
      LookupOne(y, key);
    }
    forall key ensures Written(prefix, key) == AnnotationPointer(prefix, key) {}
    hide PrintsDifferently, Show, Written, AnnotationPointer, Field, Lookup;
  }

  /** Deployments and StatefulSets: the annotations of the pod template that both have and that print
      differently. */
  lemma WorkloadTargets(a: Resource, b: Resource, t: Target)
    requires a.id.kind == "Deployment" || a.id.kind == "StatefulSet"
    ensures t in DiffTargets(a, b) <==>
            exists key :: PrintsDifferently(a.raw, b.raw, ["spec", "template", "metadata", "annotations"] + [key]) &&
                          t == Pointer(Written("/spec/template/metadata/annotations", key))
  {
    var path: Pointers.Path := ["spec", "template", "metadata", "annotations"];
    assert path == POD_ANNOTATIONS;
    forall key ensures Lookup(a.raw, path + [key]) == Lookup(Field(TemplateMeta(a.Spec()), "annotations"), [key])
               ensures Lookup(b.raw, path + [key]) == Lookup(Field(TemplateMeta(b.Spec()), "annotations"), [key])
    {
      LookupAnnotation(a.raw, key);
      LookupAnnotation(b.raw, key);
    }
    WorkloadPointers(a, b);
    hide *;
    if t.Pointer? {
      AnnotationTargets(a.raw, b.raw, TemplateMeta(a.Spec()), TemplateMeta(b.Spec()), path,
                        "/spec/template/metadata/annotations", t.p);
    }
  }

  lemma WorkloadPointers(a: Resource, b: Resource)
    requires a.id.kind == "Deployment" || a.id.kind == "StatefulSet"
    ensures var prefix := "/spec/template/metadata/annotations";
            forall t :: t in DiffTargets(a, b) <==>
              t.Pointer? && t.p in AnnotationDiffs(TemplateMeta(a.Spec()), TemplateMeta(b.Spec()), prefix)
  {
    hide AnnotationDiffs, CaBundleDiffs, TemplateMeta;
  }

  /** CRDs: the spec if it differs, and the annotations that both have and that print differently. */
  lemma CrdTargets(a: Resource, b: Resource, t: Target)
    requires a.id.kind == "CustomResourceDefinition"
    ensures t in DiffTargets(a, b) <==>
            (t == Pointer("/spec") && Differs(a, b, "spec")) ||
            exists key :: PrintsDifferently(a.raw, b.raw, ["metadata", "annotations"] + [key]) &&
                          t == Pointer(Written("/metadata/annotations", key))
  {
    var path: Pointers.Path := ["metadata", "annotations"];
    assert path == CRD_ANNOTATIONS;
    forall key ensures Lookup(a.raw, path + [key]) == Lookup(Field(a.Metadata(), "annotations"), [key])
               ensures Lookup(b.raw, path + [key]) == Lookup(Field(b.Metadata(), "annotations"), [key])
    {
      LookupAnnotation(a.raw, key);
      LookupAnnotation(b.raw, key);
    }
    CrdPointers(a, b);
    hide *;
    if t.Pointer? {
      AnnotationTargets(a.raw, b.raw, a.Metadata(), b.Metadata(), path, "/metadata/annotations", t.p);
    }
  }

  lemma CrdPointers(a: Resource, b: Resource)
    requires a.id.kind == "CustomResourceDefinition"
    ensures forall t :: t in DiffTargets(a, b) <==>
              (t == Pointer("/spec") && Differs(a, b, "spec")) ||
              (t.Pointer? && t.p in AnnotationDiffs(a.Metadata(), b.Metadata(), "/metadata/annotations"))
  {
    hide AnnotationDiffs, CaBundleDiffs;
  }

  /** All other kinds: nothing. */
  lemma NoOtherTargets(a: Resource, b: Resource)
    requires a.id.kind !in {"Secret", "ConfigMap", "MutatingWebhookConfiguration", "ValidatingWebhookConfiguration",
                            "APIService", "Deployment", "StatefulSet", "CustomResourceDefinition"}
    ensures DiffTargets(a, b) == {}
  {
    hide AnnotationDiffs, CaBundleDiffs, HasAPICaBundleDiff;
  }
}
