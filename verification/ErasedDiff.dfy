/** What erasing the pointers of a render diff achieves: both renders agree on what is left
    (pkg/ignoregen/ignoregen.go:665-725, 760-850). */
module ErasedDiff {
  import opened Text
  import opened Json
  import opened Rules
  import opened Manifest
  import opened RenderDiff
  import Pointers

  // ---------- the pointers of annotations ----------

  /** The pointer written for an annotation is that annotation's own pointer exactly when the
      key has no `~`. */
  lemma AnnotationPointerExact(prefix: Pointers.Path, key: string)
    ensures Pointers.Decode(AnnotationPointer(Pointers.Encode(prefix), key)) == Some(prefix + [key]) <==> '~' !in key
  {
    var written := Pointers.ReplaceAll(key, '/', "~1");
    var proper := Pointers.EscapeJSONPointer(key);
    SlashOnlyEscape(key);
    Pointers.EncodeAppend(prefix, [key]);
    Pointers.DecodeEncode(prefix + [key]);
    assert [key][1..] == [];
    assert Pointers.Encode([key]) == "/" + proper;
    Assoc(Pointers.Encode(prefix), "/", proper);
    if '~' in key {
      NoSlashWritten(key);
      DecodeAfter(prefix, written);
      Pointers.EscapeBijective(key, written);
      assert (prefix + [key])[|prefix|] == key;
    }
  }

  lemma {:induction false} DecodeAfter(prefix: Pointers.Path, token: string)
    requires '/' !in token
    ensures Pointers.Decode(Pointers.Encode(prefix) + "/" + token) ==
            if Pointers.ValidToken(token) then Some(prefix + [Pointers.Unescape(token)]) else None
  {
    if prefix == [] {
      DecodeAlone(token);
      assert prefix + [Pointers.Unescape(token)] == [Pointers.Unescape(token)];
    } else {
      DecodeAfter(prefix[1..], token);
      DecodeFirst(prefix, "/" + token);
      Assoc(Pointers.Encode(prefix[1..]), "/", token);
      Assoc(Pointers.Encode(prefix), "/", token);
      hide *;
      assert [prefix[0]] + (prefix[1..] + [Pointers.Unescape(token)]) == prefix + [Pointers.Unescape(token)];
    }
  }

  lemma DecodeAlone(token: string)
    requires '/' !in token
    ensures Pointers.Decode(Pointers.Encode([]) + "/" + token) ==
            if Pointers.ValidToken(token) then Some([Pointers.Unescape(token)]) else None
  {
    assert Pointers.Decode("").Some? && Pointers.Decode("").value == [];
    assert Pointers.Encode([]) == "";
    hide *;
    Pointers.DecodeStep(token, "");
    assert "/" + token + "" == "" + "/" + token;
    assert [Pointers.Unescape(token)] + [] == [Pointers.Unescape(token)];
  }

  /** Reading the first key of a path off a pointer. */
  lemma DecodeFirst(path: Pointers.Path, tail: string)
    requires path != [] && tail != "" && tail[0] == '/'
    ensures var rest := Pointers.Decode(Pointers.Encode(path[1..]) + tail);
            Pointers.Decode(Pointers.Encode(path) + tail) == if rest.Some? then Some([path[0]] + rest.value) else None
  {
    var first, others := Pointers.EscapeJSONPointer(path[0]), Pointers.Encode(path[1..]);
    Pointers.EscapeBijective(path[0], "");
    Pointers.ValidTokenNoSlash(first);
    Pointers.EncodeStarts(path[1..]);
    assert Pointers.Encode(path) == "/" + first + others;
    hide *;
    assert others + tail != "" && (others + tail)[0] == '/';
    Pointers.DecodeStep(first, others + tail);
    Assoc("/" + first, others, tail);
  }

  lemma {:induction false} NoSlashWritten(key: string)
    ensures '/' !in Pointers.ReplaceAll(key, '/', "~1")
  {
    if key != "" { NoSlashWritten(key[1..]); }
  }

  lemma {:induction false} SlashOnlyEscape(key: string)
    ensures Pointers.ReplaceAll(key, '/', "~1") == Pointers.EscapeJSONPointer(key) <==> '~' !in key
    ensures |Pointers.ReplaceAll(key, '/', "~1")| <= |Pointers.EscapeJSONPointer(key)|
    ensures '~' in key ==> |Pointers.ReplaceAll(key, '/', "~1")| < |Pointers.EscapeJSONPointer(key)|
  {
    Pointers.EscapeIsOnePass(key);
    if key != "" {
      SlashOnlyEscape(key[1..]);
      Pointers.EscapeIsOnePass(key[1..]);
      assert key == [key[0]] + key[1..];
    }
  }

  lemma {:induction false} NoSlashUnchanged(s: string)
    requires '/' !in s
    ensures Pointers.ReplaceAll(s, '/', "~1") == s
  {
    if s != "" {
      NoSlashUnchanged(s[1..]);
      assert s == [s[0]] + s[1..];
    }
  }

  // ---------- reading the pointers that the diff writes ----------

  lemma EncodePlain(field: string)
    requires '/' !in field && '~' !in field
    ensures Pointers.Encode([field]) == "/" + field
  {
    SlashOnlyEscape(field);
    NoSlashUnchanged(field);
    assert [field][1..] == [];
  }

  lemma EncodeTwo(a: string, b: string)
    requires '/' !in a && '~' !in a && '/' !in b && '~' !in b
    ensures Pointers.Encode([a, b]) == "/" + a + ("/" + b)
  {
    EncodePlain(a);
    EncodePlain(b);
    Pointers.EncodeAppend([a], [b]);
    assert [a] + [b] == [a, b];
  }

  const CRD_ANNOTATIONS: Pointers.Path := ["metadata", "annotations"]
  const POD_TEMPLATE: Pointers.Path := ["spec", "template"]
  const POD_ANNOTATIONS := POD_TEMPLATE + CRD_ANNOTATIONS

  lemma CrdPrefix()
    ensures Pointers.Encode(CRD_ANNOTATIONS) == "/metadata/annotations"
  {
    assert CRD_ANNOTATIONS == ["metadata", "annotations"];
    hide *;
    EncodeTwo("metadata", "annotations");
    CrdPrefixText();
  }

  lemma CrdPrefixText()
    ensures "/" + "metadata" + ("/" + "annotations") == "/metadata/annotations"
  {
    assert "/" + "metadata" == "/metadata" && "/" + "annotations" == "/annotations";
  }

  lemma PodTemplate()
    ensures Pointers.Encode(POD_TEMPLATE) == "/" + "spec" + ("/" + "template")
  {
    assert POD_TEMPLATE == ["spec", "template"];
    hide *;
    EncodeTwo("spec", "template");
  }

  lemma PodPrefix()
    ensures Pointers.Encode(POD_ANNOTATIONS) == TEMPLATE_ANNOTATIONS
  {
    PodTemplate();
    CrdPrefix();
    PodPrefixText();
    hide Pointers.Encode, TEMPLATE_ANNOTATIONS, POD_TEMPLATE, CRD_ANNOTATIONS;
    Pointers.EncodeAppend(POD_TEMPLATE, CRD_ANNOTATIONS);
  }

  lemma PodPrefixText()
    ensures "/" + "spec" + ("/" + "template") + "/metadata/annotations" == TEMPLATE_ANNOTATIONS
  {
    assert "/" + "spec" == "/spec" && "/" + "template" == "/template";
    assert "/spec" + "/template" == "/spec/template";
  }

  lemma ListedPath(pointers: set<string>, s: string, path: Pointers.Path)
    requires s in pointers && Pointers.Decode(s) == Some(path)
    ensures path in Pointers.PathsOf(InOrder(pointers))
  {
    var ptrs := InOrder(pointers);
    assert s in Elems(ptrs);
    assert Pointers.Decode(s).value in Pointers.PathsOf(ptrs);
  }

  lemma ListedPlain(pointers: set<string>, field: string)
    requires "/" + field in pointers && '/' !in field && '~' !in field
    ensures [field] in Pointers.PathsOf(InOrder(pointers))
  {
    EncodePlain(field);
    Pointers.DecodeEncode([field]);
    ListedPath(pointers, "/" + field, [field]);
  }

  // ---------- what is left ----------

  lemma EraseTopField(v: Value, ptrs: seq<string>, field: string)
    requires v.Obj?
    ensures var paths := Pointers.PathsOf(ptrs);
            Field(Pointers.Erase(v, ptrs), field) ==
            if [field] in paths then Null else Pointers.EraseSet(Field(v, field), Pointers.Below(paths, field))
  {
    Pointers.EraseIsEraseSet(v, ptrs);
    hide Pointers.Below, Pointers.PathsOf, Pointers.Erase;
  }

  /** A field of two values that is the same in both, or erased, is the same afterwards. */
  lemma TopFieldsAgree(a: Value, b: Value, ptrs: seq<string>, field: string)
    requires a.Obj? && b.Obj?
    requires Field(a, field) != Field(b, field) ==> [field] in Pointers.PathsOf(ptrs)
    ensures Field(Pointers.Erase(a, ptrs), field) == Field(Pointers.Erase(b, ptrs), field)
  {
    hide *;
    EraseTopField(a, ptrs, field);
    EraseTopField(b, ptrs, field);
  }

  /** Once its rule's pointers are erased, the payload of a Secret or ConfigMap is the same in
      both renders. */
  lemma PayloadsAgree(a: Resource, b: Resource, field: string)
    requires a.id.kind == "Secret" || a.id.kind == "ConfigMap"
    requires a.raw.Obj? && b.raw.Obj?
    requires field == "data" || field == "stringData"
    ensures var ptrs := InOrder(PointerDiffs(a, b));
            Field(Pointers.Erase(a.raw, ptrs), field) == Field(Pointers.Erase(b.raw, ptrs), field)
  {
    var pointers := PointerDiffs(a, b);
    assert "/" + "data" == "/data" && "/" + "stringData" == "/stringData";
    if Field(a.raw, field) != Field(b.raw, field) {
      assert "/" + field in pointers;
      ListedPlain(pointers, field);
    }
    TopFieldsAgree(a.raw, b.raw, InOrder(pointers), field);
  }

  /** The specs of a CRD are the same in both renders once the pointers are erased. */
  lemma CrdSpecsAgree(a: Resource, b: Resource)
    requires a.id.kind == "CustomResourceDefinition" && a.raw.Obj? && b.raw.Obj?
    ensures var ptrs := InOrder(PointerDiffs(a, b));
            Field(Pointers.Erase(a.raw, ptrs), "spec") == Field(Pointers.Erase(b.raw, ptrs), "spec")
  {
    var pointers := PointerDiffs(a, b);
    hide AnnotationDiffs;
    assert "/" + "spec" == "/spec";
    if a.Spec() != b.Spec() {
      assert "/spec" in pointers;
      ListedPlain(pointers, "spec");
    }
    TopFieldsAgree(a.raw, b.raw, InOrder(pointers), "spec");
  }

  /** Two values that hold the same at a path, or have the path erased, hold the same afterwards;
      a value that is an object itself keeps or loses its place. */
  lemma LookupsAgree(a: Value, b: Value, ptrs: seq<string>, q: Pointers.Path)
    requires q != [] && Lookup(a, q).Some? && Lookup(b, q).Some?
    ensures var x, y := Lookup(Pointers.Erase(a, ptrs), q), Lookup(Pointers.Erase(b, ptrs), q);
            (x.Some? <==> y.Some?) && (q in Pointers.PathsOf(ptrs) ==> x.None?) &&
            (x.Some? && !Lookup(a, q).value.Obj? ==> x == Lookup(a, q)) &&
            (y.Some? && !Lookup(b, q).value.Obj? ==> y == Lookup(b, q))
  {
    var paths := Pointers.PathsOf(ptrs);
    Pointers.EraseIsEraseSet(a, ptrs);
    Pointers.EraseIsEraseSet(b, ptrs);
    Pointers.EraseSetLookup(a, paths, q);
    Pointers.EraseSetLookup(b, paths, q);
    assert q[..|q|] == q;
    hide Pointers.EraseSet, Pointers.Erase, Pointers.PathsOf, Lookup;
  }

  const CA_BUNDLE: Pointers.Path := ["spec", "caBundle"]

  lemma BundleAt(a: Resource)
    requires Field(a.Spec(), "caBundle") != Null
    ensures Lookup(a.raw, CA_BUNDLE) == Some(Field(a.Spec(), "caBundle"))
  {
    assert CA_BUNDLE[1..] == ["caBundle"] && CA_BUNDLE[1..][1..] == [];
    assert Lookup(Field(a.Spec(), "caBundle"), []) == Some(Field(a.Spec(), "caBundle"));
  }

  lemma BundleListed(pointers: set<string>)
    requires "/spec/caBundle" in pointers
    ensures CA_BUNDLE in Pointers.PathsOf(InOrder(pointers))
  {
    assert CA_BUNDLE == ["spec", "caBundle"];
    hide *;
    EncodeTwo("spec", "caBundle");
    BundleText();
    Pointers.DecodeEncode(CA_BUNDLE);
    ListedPath(pointers, "/spec/caBundle", CA_BUNDLE);
  }

  lemma BundleText()
    ensures "/" + "spec" + ("/" + "caBundle") == "/spec/caBundle"
  {
    assert "/" + "spec" == "/spec" && "/" + "caBundle" == "/caBundle";
  }

  /** When both renders of an APIService carry a CA bundle, the bundles are the same, or gone from
      both, once the pointers are erased. */
  lemma ApiBundlesAgree(a: Resource, b: Resource)
    requires a.id.kind == "APIService"
    requires AsString(Field(a.Spec(), "caBundle")) != "" && AsString(Field(b.Spec(), "caBundle")) != ""
    ensures var ptrs := InOrder(PointerDiffs(a, b));
            Lookup(Pointers.Erase(a.raw, ptrs), CA_BUNDLE) == Lookup(Pointers.Erase(b.raw, ptrs), CA_BUNDLE)
  {
    BundleAt(a);
    BundleAt(b);
    if Field(a.Spec(), "caBundle") != Field(b.Spec(), "caBundle") { BundleListed(PointerDiffs(a, b)); }
    hide Lookup, PointerDiffs, Field, InOrder, Pointers.Erase, Pointers.PathsOf;
    LookupsAgree(a.raw, b.raw, InOrder(PointerDiffs(a, b)), CA_BUNDLE);
  }

  // ---------- annotations ----------

  /** The annotation is gone from both values, or is in both and prints the same; one that is an
      object, which Kubernetes does not allow, is only said to be in both. */
  ghost predicate AnnotationAgrees(a: Value, b: Value, erasedA: Value, erasedB: Value, q: Pointers.Path) {
    var x, y := Lookup(erasedA, q), Lookup(erasedB, q);
    (x.Some? <==> y.Some?) &&
    (x.Some? && Lookup(a, q).Some? && !Lookup(a, q).value.Obj? && Lookup(b, q).Some? && !Lookup(b, q).value.Obj? ==>
      Show(x.value) == Show(y.value))
  }

  lemma AnnotationErased(a: Value, b: Value, pointers: set<string>, prefix: Pointers.Path, key: string)
    requires '~' !in key && Lookup(a, prefix + [key]).Some? && Lookup(b, prefix + [key]).Some?
    requires Show(Lookup(a, prefix + [key]).value) != Show(Lookup(b, prefix + [key]).value) ==>
               AnnotationPointer(Pointers.Encode(prefix), key) in pointers
    ensures var ptrs := InOrder(pointers);
            AnnotationAgrees(a, b, Pointers.Erase(a, ptrs), Pointers.Erase(b, ptrs), prefix + [key])
  {
    var q := prefix + [key];
    AnnotationPointerExact(prefix, key);
    hide *;
    if Show(Lookup(a, q).value) != Show(Lookup(b, q).value) {
      ListedPath(pointers, AnnotationPointer(Pointers.Encode(prefix), key), q);
    }
    LookupsAgree(a, b, InOrder(pointers), q);
    AgreesIf(a, b, Pointers.Erase(a, InOrder(pointers)), Pointers.Erase(b, InOrder(pointers)), q);
  }

  lemma AgreesIf(a: Value, b: Value, erasedA: Value, erasedB: Value, q: Pointers.Path)
    requires Lookup(a, q).Some? && Lookup(b, q).Some? && (Lookup(erasedA, q).Some? <==> Lookup(erasedB, q).Some?)
    requires Show(Lookup(a, q).value) == Show(Lookup(b, q).value) || Lookup(erasedA, q).None?
    requires Lookup(erasedA, q).Some? && !Lookup(a, q).value.Obj? ==> Lookup(erasedA, q) == Lookup(a, q)
    requires Lookup(erasedB, q).Some? && !Lookup(b, q).value.Obj? ==> Lookup(erasedB, q) == Lookup(b, q)
    ensures AnnotationAgrees(a, b, erasedA, erasedB, q)
  {
    hide Lookup, Show;
  }

  lemma LookupStep(v: Value, first: string, rest: Pointers.Path)
    ensures rest != [] ==> Lookup(v, [first] + rest) == Lookup(Field(v, first), rest)
    ensures Lookup(v, [first]) == if v.Obj? && first in v.fields then Some(v.fields[first]) else None
  {
    assert ([first] + rest)[1..] == rest;
    assert [first][1..] == [];
    if rest != [] { assert Lookup(Null, rest) == None; }
  }

  /** A path of three keys, or of five, read one field after the other. */
  lemma LookupAnnotation(v: Value, key: string)
    ensures Lookup(v, CRD_ANNOTATIONS + [key]) == Lookup(Field(Field(v, "metadata"), "annotations"), [key])
    ensures Lookup(v, POD_ANNOTATIONS + [key]) ==
            Lookup(Field(TemplateMeta(Field(v, "spec")), "annotations"), [key])
  {
    AnnotationSteps(v, key);
    var template := Field(Field(v, "spec"), "template");
    AnnotationSteps(template, key);
    var rest := CRD_ANNOTATIONS + [key];
    assert POD_ANNOTATIONS + [key] == ["spec"] + (["template"] + rest);
    LookupStep(v, "spec", ["template"] + rest);
    LookupStep(Field(v, "spec"), "template", rest);
  }

  lemma AnnotationSteps(v: Value, key: string)
    ensures Lookup(v, CRD_ANNOTATIONS + [key]) == Lookup(Field(Field(v, "metadata"), "annotations"), [key])
  {
    assert CRD_ANNOTATIONS + [key] == ["metadata"] + (["annotations"] + [key]);
    LookupStep(v, "metadata", ["annotations"] + [key]);
    LookupStep(Field(v, "metadata"), "annotations", [key]);
  }

  lemma SharedAnnotation(metaA: Value, metaB: Value, prefix: string, key: string)
    requires Lookup(Field(metaA, "annotations"), [key]).Some? && Lookup(Field(metaB, "annotations"), [key]).Some?
    ensures var x := Lookup(Field(metaA, "annotations"), [key]).value;
            var y := Lookup(Field(metaB, "annotations"), [key]).value;
            Show(x) != Show(y) ==> AnnotationPointer(prefix, key) in AnnotationDiffs(metaA, metaB, prefix)
  {
    hide Show, AnnotationPointer;
    LookupStep(Field(metaA, "annotations"), key, []);
    LookupStep(Field(metaB, "annotations"), key, []);
  }

  lemma CrdDiffsListed(a: Resource, b: Resource)
    requires a.id.kind == "CustomResourceDefinition"
    ensures AnnotationDiffs(a.Metadata(), b.Metadata(), "/metadata/annotations") <= PointerDiffs(a, b)
  {
    hide AnnotationDiffs;
  }

  /** Annotations of a CRD that both renders have, and whose key has no `~`, agree once the pointers
      are erased. */
  lemma CrdAnnotationsAgree(a: Resource, b: Resource, key: string)
    requires a.id.kind == "CustomResourceDefinition" && '~' !in key
    requires Lookup(a.raw, CRD_ANNOTATIONS + [key]).Some? && Lookup(b.raw, CRD_ANNOTATIONS + [key]).Some?
    ensures var ptrs := InOrder(PointerDiffs(a, b));
            AnnotationAgrees(a.raw, b.raw, Pointers.Erase(a.raw, ptrs), Pointers.Erase(b.raw, ptrs),
                             CRD_ANNOTATIONS + [key])
  {
    hide AnnotationDiffs, AnnotationPointer, Show, Lookup, AnnotationAgrees;
    CrdPrefix();
    LookupAnnotation(a.raw, key);
    LookupAnnotation(b.raw, key);
    SharedAnnotation(a.Metadata(), b.Metadata(), "/metadata/annotations", key);
    CrdDiffsListed(a, b);
    hide PointerDiffs, InOrder, Pointers.Erase;
    AnnotationErased(a.raw, b.raw, PointerDiffs(a, b), CRD_ANNOTATIONS, key);
  }

  /** The same for the pod template of a Deployment or StatefulSet. */
  lemma PodAnnotationsAgree(a: Resource, b: Resource, key: string)
    requires (a.id.kind == "Deployment" || a.id.kind == "StatefulSet") && '~' !in key
    requires Lookup(a.raw, POD_ANNOTATIONS + [key]).Some? && Lookup(b.raw, POD_ANNOTATIONS + [key]).Some?
    ensures var ptrs := InOrder(PointerDiffs(a, b));
            AnnotationAgrees(a.raw, b.raw, Pointers.Erase(a.raw, ptrs), Pointers.Erase(b.raw, ptrs),
                             POD_ANNOTATIONS + [key])
  {
    hide AnnotationDiffs, AnnotationPointer, Show, Lookup, AnnotationAgrees;
    PodPrefix();
    LookupAnnotation(a.raw, key);
    LookupAnnotation(b.raw, key);
    SharedAnnotation(TemplateMeta(a.Spec()), TemplateMeta(b.Spec()), TEMPLATE_ANNOTATIONS, key);
    AnnotationErased(a.raw, b.raw, PointerDiffs(a, b), POD_ANNOTATIONS, key);
  }
}
