/** Diffing several renders of one chart into ignore rules
    (pkg/ignoregen/ignoregen.go:612-850). */
module RenderDiff {
  import opened Text
  import opened Json
  import opened Rules
  import opened Manifest
  import Pointers

  // ---------- comparing two resources ----------

  /** Go's `%v` of a decoded value. */
  function Show(v: Value): string
    decreases v, 1
  {
    match v
    case Null => "<nil>"
    case Bool(b) => if b then "true" else "false"
    case Num(text) => text
    case Str(s) => s
    case Arr(items) => "[" + ShowItems(v, 0) + "]"
    case Obj(m) => "map[" + ShowFields(v, InOrder(m.Keys)) + "]"
  }

  function ShowItems(whole: Value, from: nat): string
    requires whole.Arr? && from <= |whole.items|
    decreases whole, 0, |whole.items| - from
  {
    if from == |whole.items| then ""
    else (if from == 0 then "" else " ") + Show(whole.items[from]) + ShowItems(whole, from + 1)
  }

  function ShowFields(whole: Value, keys: seq<string>): string
    requires whole.Obj? && forall k :: k in keys ==> k in whole.fields
    decreases whole, 0, |keys|
  {
    if keys == [] then ""
    else keys[0] + ":" + Show(whole.fields[keys[0]]) + (if |keys| == 1 then "" else " " + ShowFields(whole, keys[1..]))
  }

  /** The pointer written for an annotation: only `/` is escaped. */
  function AnnotationPointer(prefix: string, key: string): string {
    prefix + "/" + Pointers.ReplaceAll(key, '/', "~1")
  }

  /** Annotations that both sides have and that print differently. */
  function AnnotationDiffs(metaA: Value, metaB: Value, prefix: string): set<string> {
    var a, b := Field(metaA, "annotations"), Field(metaB, "annotations");
    if !a.Obj? || !b.Obj? then {}
    else
      set k | k in a.fields && k in b.fields && Show(a.fields[k]) != Show(b.fields[k]) :: AnnotationPointer(prefix, k)
  }

  method DiffAnnotations(metaA: Value, metaB: Value, prefix: string) returns (diffs: seq<string>)
    ensures Elems(diffs) == AnnotationDiffs(metaA, metaB, prefix)
  {
    diffs := [];
    var a, b := Field(metaA, "annotations"), Field(metaB, "annotations");
    if !a.Obj? || !b.Obj? {
      return;
    }
    var todo := a.fields.Keys;
    while todo != {}
      invariant todo <= a.fields.Keys
      invariant Elems(diffs) == set k | k in a.fields && k !in todo && k in b.fields &&
                                        Show(a.fields[k]) != Show(b.fields[k]) :: AnnotationPointer(prefix, k)
    {
      var k :| k in todo;
      todo := todo - {k};
      if k in b.fields && Show(a.fields[k]) != Show(b.fields[k]) {
        ElemsAppend(diffs, [AnnotationPointer(prefix, k)]);
        diffs := diffs + [AnnotationPointer(prefix, k)];
      }
    }
  }

  const TEMPLATE_ANNOTATIONS := "/spec/template/metadata/annotations"

  function TemplateMeta(spec: Value): Value {
    Field(Field(spec, "template"), "metadata")
  }

  /** Both webhooks carry a CA bundle, and the bundles differ. */
  predicate WebhookDiffers(a: Value, b: Value) {
    var x := AsString(Field(Field(a, "clientConfig"), "caBundle"));
    var y := AsString(Field(Field(b, "clientConfig"), "caBundle"));
    x != "" && y != "" && x != y
  }

  function Items(v: Value): seq<Value> {
    if v.Arr? then v.items else []
  }

  predicate CaBundleDiffs(a: Value, b: Value) {
    var x, y := Items(Field(a, "webhooks")), Items(Field(b, "webhooks"));
    |x| == |y| && exists i :: 0 <= i < |x| && WebhookDiffers(x[i], y[i])
  }

  method HasWebhookCaBundleDiff(a: Value, b: Value) returns (differs: bool)
    ensures differs <==> CaBundleDiffs(a, b)
  {
    var x, y := Items(Field(a, "webhooks")), Items(Field(b, "webhooks"));
    if |x| != |y| {
      return false;
    }
    for i := 0 to |x|
      invariant forall j :: 0 <= j < i ==> !WebhookDiffers(x[j], y[j])
    {
      var whA, whB := x[i], y[i];
      if !whA.Obj? || !whB.Obj? {
        continue;
      }
      var ccA, ccB := Field(whA, "clientConfig"), Field(whB, "clientConfig");
      if !ccA.Obj? || !ccB.Obj? {
        continue;
      }
      var cbA, cbB := AsString(Field(ccA, "caBundle")), AsString(Field(ccB, "caBundle"));
      if cbA != "" && cbB != "" && cbA != cbB {
        return true;
      }
    }
    return false;
  }

  predicate HasAPICaBundleDiff(specA: Value, specB: Value) {
    var x, y := AsString(Field(specA, "caBundle")), AsString(Field(specB, "caBundle"));
    x != "" && y != "" && x != y
  }

  const WEBHOOK_EXPRESSION := ".webhooks[].clientConfig.caBundle"

  predicate IsWebhookConfiguration(kind: string) {
    kind == "MutatingWebhookConfiguration" || kind == "ValidatingWebhookConfiguration"
  }

  /** The pointers that the difference between two renders of one resource calls for. */
  function PointerDiffs(a: Resource, b: Resource): set<string> {
    var kind := a.id.kind;
    if kind == "Secret" || kind == "ConfigMap" then
      (if a.Data() != b.Data() then {"/data"} else {}) +
      (if Field(a.raw, "stringData") != Field(b.raw, "stringData") then {"/data", "/stringData"} else {})
    else if kind == "APIService" then
      if HasAPICaBundleDiff(a.Spec(), b.Spec()) then {"/spec/caBundle"} else {}
    else if kind == "Deployment" || kind == "StatefulSet" then
      AnnotationDiffs(TemplateMeta(a.Spec()), TemplateMeta(b.Spec()), TEMPLATE_ANNOTATIONS)
    else if kind == "CustomResourceDefinition" then
      (if a.Spec() != b.Spec() then {"/spec"} else {}) +
      AnnotationDiffs(a.Metadata(), b.Metadata(), "/metadata/annotations")
    else {}
  }

  predicate ExpressionDiffs(a: Resource, b: Resource) {
    IsWebhookConfiguration(a.id.kind) && CaBundleDiffs(a.raw, b.raw)
  }

  // ---------- the rules of several renders ----------

  type Render = map<string, Resource>

  /** All pointers for one key of render 0, over the renders `from..to`. */
  ghost function PointersFor(renders: seq<Render>, key: string, to: nat): set<string>
    requires renders != [] && key in renders[0] && to <= |renders|
  {
    set i, p | 1 <= i < to && key in renders[i] && p in PointerDiffs(renders[0][key], renders[i][key]) :: p
  }

  ghost predicate ExpressionFor(renders: seq<Render>, key: string, to: nat)
    requires renders != [] && key in renders[0] && to <= |renders|
  {
    exists i :: 1 <= i < to && key in renders[i] && ExpressionDiffs(renders[0][key], renders[i][key])
  }

  /** The rule for one key of render 0. */
  ghost function RuleFor(renders: seq<Render>, key: string): Rule
    requires renders != [] && key in renders[0]
  {
    Rule(renders[0][key].id, InOrder(PointersFor(renders, key, |renders|)),
         if ExpressionFor(renders, key, |renders|) then [WEBHOOK_EXPRESSION] else [])
  }

  ghost predicate HasDiff(renders: seq<Render>, key: string) {
    renders != [] && key in renders[0] &&
    (PointersFor(renders, key, |renders|) != {} || ExpressionFor(renders, key, |renders|))
  }

  /** A rule under construction; `jsonPointers` and `jqExprs` never repeat an entry. */
  datatype Draft = Draft(id: ResourceId, jsonPointers: seq<string>, jqExprs: seq<string>)

  function AddString(s: seq<string>, x: string): (r: seq<string>)
    requires NoDup(s)
    ensures NoDup(r) && Elems(r) == Elems(s) + {x}
  {
    if x in s then s
    else
      ElemsAppend(s, [x]);
      s + [x]
  }

  lemma AddExpression(s: seq<string>)
    requires s == [] || s == [WEBHOOK_EXPRESSION]
    ensures NoDup(s) && AddString(s, WEBHOOK_EXPRESSION) == [WEBHOOK_EXPRESSION]
  {
  }

  method AddPointers(draft: Draft, pointers: seq<string>) returns (r: Draft)
    requires NoDup(draft.jsonPointers)
    ensures r.id == draft.id && r.jqExprs == draft.jqExprs
    ensures NoDup(r.jsonPointers) && Elems(r.jsonPointers) == Elems(draft.jsonPointers) + Elems(pointers)
  {
    r := draft;
    for i := 0 to |pointers|
      invariant r.id == draft.id && r.jqExprs == draft.jqExprs
      invariant NoDup(r.jsonPointers) && Elems(r.jsonPointers) == Elems(draft.jsonPointers) + Elems(pointers[..i])
    {
      assert pointers[..i+1] == pointers[..i] + [pointers[i]];
      ElemsAppend(pointers[..i], [pointers[i]]);
      r := r.(jsonPointers := AddString(r.jsonPointers, pointers[i]));
    }
    assert pointers[..|pointers|] == pointers;
  }

  /** What a draft holds after comparing render 0 with the renders below `to`. */
  ghost predicate DraftHolds(draft: Draft, renders: seq<Render>, key: string, to: nat)
    requires renders != [] && key in renders[0] && to <= |renders|
  {
    draft.id == renders[0][key].id &&
    NoDup(draft.jsonPointers) && Elems(draft.jsonPointers) == PointersFor(renders, key, to) &&
    draft.jqExprs == if ExpressionFor(renders, key, to) then [WEBHOOK_EXPRESSION] else []
  }

  /** Compare two renders of one resource, adding to its draft. */
  method Compare(res1: Resource, res2: Resource, draft: Draft) returns (r: Draft)
    requires NoDup(draft.jsonPointers)
    requires draft.jqExprs == [] || draft.jqExprs == [WEBHOOK_EXPRESSION]
    ensures r.id == draft.id && NoDup(r.jsonPointers)
    ensures Elems(r.jsonPointers) == Elems(draft.jsonPointers) + PointerDiffs(res1, res2)
    ensures r.jqExprs == if ExpressionDiffs(res1, res2) then [WEBHOOK_EXPRESSION] else draft.jqExprs
  {
    hide AnnotationDiffs, CaBundleDiffs, HasAPICaBundleDiff, TemplateMeta, Field, AddString;
    r := draft;
    var kind := res1.id.kind;
    if kind == "Secret" || kind == "ConfigMap" {
      if res1.Data() != res2.Data() {
        r := AddPointers(r, ["/data"]);
      }
      if Field(res1.raw, "stringData") != Field(res2.raw, "stringData") {
        r := AddPointers(r, ["/data", "/stringData"]);
      }
    }
    if IsWebhookConfiguration(kind) {
      var differs := HasWebhookCaBundleDiff(res1.raw, res2.raw);
      if differs {
        AddExpression(r.jqExprs);
        r := r.(jqExprs := AddString(r.jqExprs, WEBHOOK_EXPRESSION));
      }
    }
    if kind == "APIService" {
      if HasAPICaBundleDiff(res1.Spec(), res2.Spec()) {
        r := AddPointers(r, ["/spec/caBundle"]);
      }
    }
    if kind == "Deployment" || kind == "StatefulSet" {
      var ptrs := DiffAnnotations(TemplateMeta(res1.Spec()), TemplateMeta(res2.Spec()), TEMPLATE_ANNOTATIONS);
      r := AddPointers(r, ptrs);
    }
    if kind == "CustomResourceDefinition" {
      if res1.Spec() != res2.Spec() {
        r := AddPointers(r, ["/spec"]);
      }
      var ptrs := DiffAnnotations(res1.Metadata(), res2.Metadata(), "/metadata/annotations");
      r := AddPointers(r, ptrs);
    }
  }

  lemma ComparedOneMore(renders: seq<Render>, key: string, i: nat, before: Draft, after: Draft)
    requires renders != [] && key in renders[0] && 1 <= i < |renders|
    requires DraftHolds(before, renders, key, i)
    requires if key !in renders[i] then after == before
             else after.id == before.id && NoDup(after.jsonPointers) &&
                  Elems(after.jsonPointers) ==
                    Elems(before.jsonPointers) + PointerDiffs(renders[0][key], renders[i][key]) &&
                  after.jqExprs ==
                    if ExpressionDiffs(renders[0][key], renders[i][key]) then [WEBHOOK_EXPRESSION] else before.jqExprs
    ensures DraftHolds(after, renders, key, i + 1)
  {
    var added := if key in renders[i] then PointerDiffs(renders[0][key], renders[i][key]) else {};
    assert PointersFor(renders, key, i + 1) == PointersFor(renders, key, i) + added;
  }

  /** Kind and name, the order of the output; ties are in no particular order. */
  function SortKey(r: Rule): string { r.id.kind + r.id.name }

  ghost predicate SortedByKindName(rules: seq<Rule>) {
    forall i, j :: 0 <= i < j < |rules| ==>
      Leq(rules[i].id.kind + rules[i].id.name, rules[j].id.kind + rules[j].id.name)
  }

  function InsertRule(x: Rule, s: seq<Rule>): (r: seq<Rule>)
    ensures multiset(r) == multiset{x} + multiset(s)
  {
    if s == [] || Leq(SortKey(x), SortKey(s[0])) then [x] + s
    else
      assert s == [s[0]] + s[1..];
      [s[0]] + InsertRule(x, s[1..])
  }

  lemma {:induction false} InsertRuleSorted(x: Rule, s: seq<Rule>)
    requires SortedByKindName(s)
    ensures SortedByKindName(InsertRule(x, s))
  {
    var r := InsertRule(x, s);
    if s == [] {
    } else if Leq(SortKey(x), SortKey(s[0])) {
      forall j | 0 < j < |r| ensures Leq(SortKey(x), SortKey(r[j])) {
        if j > 1 && SortKey(x) != SortKey(s[0]) && SortKey(s[0]) != SortKey(s[j-1]) {
          LessTransitive(SortKey(x), SortKey(s[0]), SortKey(s[j-1]));
        }
      }
    } else {
      InsertRuleSorted(x, s[1..]);
      LessTotal(SortKey(x), SortKey(s[0]));
      var t := InsertRule(x, s[1..]);
      forall j | 0 <= j < |t| ensures Leq(SortKey(s[0]), SortKey(t[j])) {
        assert t[j] in multiset(t);
        assert t[j] == x || t[j] in s[1..];
      }
    }
  }

  /** `sort.Slice` by kind and name, as far as the program relies on it. */
  function SortRules(s: seq<Rule>): (r: seq<Rule>)
    ensures multiset(r) == multiset(s)
  {
    if s == [] then []
    else
      assert s == [s[0]] + s[1..];
      InsertRule(s[0], SortRules(s[1..]))
  }

  lemma {:induction false} SortRulesSorted(s: seq<Rule>)
    ensures SortedByKindName(SortRules(s))
  {
    if s != [] {
      SortRulesSorted(s[1..]);
      InsertRuleSorted(s[0], SortRules(s[1..]));
    }
  }

  lemma SortRulesKeeps(s: seq<Rule>)
    requires NoDup(s)
    ensures NoDup(SortRules(s)) && forall x :: x in SortRules(s) <==> x in s
  {
    var r := SortRules(s);
    forall x ensures x in r <==> x in s {
      assert x in r <==> x in multiset(r);
      assert x in s <==> x in multiset(s);
    }
    forall x ensures multiset(r)[x] <= 1 { NoDupMultiset(s, x); }
    MultisetNoDup(r);
  }

  /** The rules made so far: one for every finished key that differs. */
  ghost predicate RulesCover(rules: seq<Rule>, renders: seq<Render>, done: set<string>)
    requires renders != [] && done <= renders[0].Keys
  {
    (forall r :: r in rules <==> exists key :: key in done && HasDiff(renders, key) && r == RuleFor(renders, key)) &&
    NoDup(rules)
  }

  method FindIgnoreDifferences(renders: seq<Render>) returns (rules: seq<Rule>)
    requires forall i :: 0 <= i < |renders| ==> WellKeyed(renders[i])
    ensures |renders| < 2 ==> rules == []
    ensures |renders| >= 2 ==> RulesCover(rules, renders, renders[0].Keys) && SortedByKindName(rules)
  {
    hide HasDiff, RuleFor, PointersFor, ExpressionFor;
    rules := [];
    if |renders| < 2 {
      return;
    }
    var todo := renders[0].Keys;
    while todo != {}
      invariant todo <= renders[0].Keys
      invariant RulesCover(rules, renders, renders[0].Keys - todo)
    {
      var key :| key in todo;
      var draft := DraftForKey(renders, key);
      if |draft.jsonPointers| != 0 || |draft.jqExprs| != 0 {
        var r := Rule(draft.id, Sort(draft.jsonPointers), draft.jqExprs);
        FinishedDraft(draft, renders, key);
        NewRule(rules, renders, renders[0].Keys - todo, key);
        rules := rules + [r];
      } else {
        NoRule(rules, renders, renders[0].Keys - todo, key);
      }
      assert renders[0].Keys - todo + {key} == renders[0].Keys - (todo - {key});
      todo := todo - {key};
    }
    assert renders[0].Keys - {} == renders[0].Keys;
    SortRulesSorted(rules);
    SortRulesKeeps(rules);
    rules := SortRules(rules);
  }

  lemma FinishedDraft(draft: Draft, renders: seq<Render>, key: string)
    requires renders != [] && key in renders[0] && DraftHolds(draft, renders, key, |renders|)
    ensures Rule(draft.id, Sort(draft.jsonPointers), draft.jqExprs) == RuleFor(renders, key)
  {
    SortIsInOrder(draft.jsonPointers);
  }

  /** The inner loop: render 0 against every later render, for one key. */
  method DraftForKey(renders: seq<Render>, key: string) returns (draft: Draft)
    requires renders != [] && key in renders[0]
    ensures DraftHolds(draft, renders, key, |renders|)
    ensures HasDiff(renders, key) <==> draft.jsonPointers != [] || draft.jqExprs != []
  {
    draft := Draft(renders[0][key].id, [], []);
    for i := 1 to |renders|
      invariant DraftHolds(draft, renders, key, i)
    {
      ghost var before := draft;
      if key in renders[i] {
        draft := Compare(renders[0][key], renders[i][key], draft);
      }
      ComparedOneMore(renders, key, i, before, draft);
    }
    assert draft.jsonPointers != [] ==> draft.jsonPointers[0] in Elems(draft.jsonPointers);
  }

  lemma NewRule(rules: seq<Rule>, renders: seq<Render>, done: set<string>, key: string)
    requires renders != [] && WellKeyed(renders[0]) && done <= renders[0].Keys
    requires key in renders[0] && key !in done && HasDiff(renders, key)
    requires RulesCover(rules, renders, done)
    ensures RulesCover(rules + [RuleFor(renders, key)], renders, done + {key})
  {
    forall r | r in rules ensures r != RuleFor(renders, key) {
      var k :| k in done && r == RuleFor(renders, k);
      assert Key(renders[0][k].id) == k && Key(renders[0][key].id) == key;
    }
    forall i | 0 <= i < |rules| ensures rules[i] != RuleFor(renders, key) { assert rules[i] in rules; }
  }

  lemma NoRule(rules: seq<Rule>, renders: seq<Render>, done: set<string>, key: string)
    requires renders != [] && done <= renders[0].Keys
    requires key in renders[0] && !HasDiff(renders, key)
    requires RulesCover(rules, renders, done)
    ensures RulesCover(rules, renders, done + {key})
  {
  }

  // ---------- what the rules mean ----------

  /** Everything that the difference between two renders of one resource asks to ignore. */
  ghost function DiffTargets(a: Resource, b: Resource): set<Target> {
    (set p | p in PointerDiffs(a, b) :: Pointer(p)) +
    (if ExpressionDiffs(a, b) then {Expression(WEBHOOK_EXPRESSION)} else {})
  }

  /** Some later render of the resource under this key differs from render 0 by this target. */
  ghost predicate Differs(renders: seq<Render>, key: string, t: Target) {
    renders != [] && key in renders[0] &&
    exists i :: 1 <= i < |renders| && key in renders[i] && t in DiffTargets(renders[0][key], renders[i][key])
  }

  lemma RuleTargets(renders: seq<Render>, key: string, t: Target)
    requires renders != [] && key in renders[0]
    ensures t in Targets(RuleFor(renders, key)) <==> Differs(renders, key, t)
    ensures Differs(renders, key, t) ==> HasDiff(renders, key)
  {
    hide PointerDiffs, ExpressionDiffs;
    var r := RuleFor(renders, key);
    var all := PointersFor(renders, key, |renders|);
    match t {
      case Pointer(p) =>
        assert p in r.jsonPointers <==> p in Elems(r.jsonPointers);
        assert t in Targets(r) <==> p in all;
        if p in all {
          var i :| 1 <= i < |renders| && key in renders[i] && p in PointerDiffs(renders[0][key], renders[i][key]);
          assert t in DiffTargets(renders[0][key], renders[i][key]);
        }
      case Expression(e) =>
        assert t in Targets(r) <==> e in r.jqPathExpressions;
        if ExpressionFor(renders, key, |renders|) {
          var i :| 1 <= i < |renders| && key in renders[i] && ExpressionDiffs(renders[0][key], renders[i][key]);
          if e == WEBHOOK_EXPRESSION { assert t in DiffTargets(renders[0][key], renders[i][key]); }
        }
    }
  }

  ghost predicate SlashFreeRender(render: Render) {
    WellKeyed(render) && forall key :: key in render ==> SlashFree(render[key].id)
  }

  /** The rules ignore, resource by resource, exactly the differences between render 0 and the
      later renders of the same resource. */
  lemma RulesMeanDifferences(rules: seq<Rule>, renders: seq<Render>, id: ResourceId, t: Target)
    requires renders != [] && RulesCover(rules, renders, renders[0].Keys)
    requires forall i :: 0 <= i < |renders| ==> SlashFreeRender(renders[i])
    ensures (id, t) in Meaning(rules) <==>
            exists a, b, i :: 1 <= i < |renders| && a in renders[0].Values && b in renders[i].Values &&
                              a.id == b.id == id && t in DiffTargets(a, b)
  {
    hide RuleFor, HasDiff, DiffTargets;
    if (id, t) in Meaning(rules) {
      var r :| r in rules && r.id == id && t in Targets(r);
      var key :| key in renders[0] && HasDiff(renders, key) && r == RuleFor(renders, key);
      RuleTargets(renders, key, t);
      RuleForId(renders, key);
      var i :| 1 <= i < |renders| && key in renders[i] && t in DiffTargets(renders[0][key], renders[i][key]);
      KeyInjective(renders[0][key].id, renders[i][key].id);
      assert renders[0][key] in renders[0].Values && renders[i][key] in renders[i].Values;
    }
    if a, b, i :| 1 <= i < |renders| && a in renders[0].Values && b in renders[i].Values &&
                  a.id == b.id == id && t in DiffTargets(a, b)
    {
      var key :| key in renders[0] && renders[0][key] == a;
      var k :| k in renders[i] && renders[i][k] == b;
      assert k == Key(b.id) == Key(a.id) == key;
      assert Differs(renders, key, t);
      RuleTargets(renders, key, t);
      RuleForId(renders, key);
      assert RuleFor(renders, key) in rules;
    }
  }

  lemma RuleForId(renders: seq<Render>, key: string)
    requires renders != [] && key in renders[0]
    ensures RuleFor(renders, key).id == renders[0][key].id
  {
  }

  /** One rule for each resource; every rule ignores something and lists its pointers once, sorted. */
  lemma RulesWellFormed(rules: seq<Rule>, renders: seq<Render>)
    requires renders != [] && WellKeyed(renders[0]) && RulesCover(rules, renders, renders[0].Keys)
    ensures forall i, j :: 0 <= i < j < |rules| ==> rules[i].id != rules[j].id
    ensures forall r :: r in rules ==> Targets(r) != {} && Ascending(r.jsonPointers)
  {
    forall i, j | 0 <= i < j < |rules| ensures rules[i].id != rules[j].id {
      assert rules[i] in rules && rules[j] in rules;
      var a :| a in renders[0] && HasDiff(renders, a) && rules[i] == RuleFor(renders, a);
      var b :| b in renders[0] && HasDiff(renders, b) && rules[j] == RuleFor(renders, b);
      assert Key(renders[0][a].id) == a && Key(renders[0][b].id) == b;
    }
    forall r | r in rules ensures Targets(r) != {} && Ascending(r.jsonPointers) {
      var a :| a in renders[0] && HasDiff(renders, a) && r == RuleFor(renders, a);
      InOrderAscending(PointersFor(renders, a, |renders|));
      if p :| p in PointersFor(renders, a, |renders|) {
        assert p in Elems(r.jsonPointers);
        assert Pointer(p) in Targets(r);
      } else {
        assert WEBHOOK_EXPRESSION in r.jqPathExpressions;
        assert Expression(WEBHOOK_EXPRESSION) in Targets(r);
      }
    }
  }

  // ---------- algebra ----------

  lemma DiffSelf(a: Resource)
    ensures PointerDiffs(a, a) == {} && !ExpressionDiffs(a, a)
  {
  }

  lemma DiffSymmetric(a: Resource, b: Resource)
    requires a.id == b.id
    ensures PointerDiffs(a, b) == PointerDiffs(b, a) && ExpressionDiffs(a, b) == ExpressionDiffs(b, a)
  {
    AnnotationsSymmetric(TemplateMeta(a.Spec()), TemplateMeta(b.Spec()), TEMPLATE_ANNOTATIONS);
    AnnotationsSymmetric(a.Metadata(), b.Metadata(), "/metadata/annotations");
    var x, y := Items(Field(a.raw, "webhooks")), Items(Field(b.raw, "webhooks"));
    if |x| == |y| {
      forall i | 0 <= i < |x| ensures WebhookDiffers(x[i], y[i]) == WebhookDiffers(y[i], x[i]) {}
    }
  }

  lemma AnnotationsSymmetric(a: Value, b: Value, prefix: string)
    ensures AnnotationDiffs(a, b, prefix) == AnnotationDiffs(b, a, prefix)
  {
  }

  /** A render compared with itself gives no rules. */
  lemma SelfDiffEmpty(rules: seq<Rule>, render: Render)
    requires RulesCover(rules, [render, render], render.Keys)
    ensures rules == []
  {
    hide PointerDiffs, ExpressionDiffs, HasDiff;
    if rules != [] {
      assert rules[0] in rules;
      var key :| key in render && HasDiff([render, render], key);
      DiffSelf(render[key]);
      PairRule(render, render, key);
      assert false;
    }
  }

  lemma PairRule(a: Render, b: Render, key: string)
    requires key in a
    ensures HasDiff([a, b], key) <==>
            key in b && (PointerDiffs(a[key], b[key]) != {} || ExpressionDiffs(a[key], b[key]))
    ensures key in b ==>
              RuleFor([a, b], key) == Rule(a[key].id, InOrder(PointerDiffs(a[key], b[key])),
                                           if ExpressionDiffs(a[key], b[key]) then [WEBHOOK_EXPRESSION] else [])
  {
    hide PointerDiffs, ExpressionDiffs;
    var renders := [a, b];
    if key in b {
      assert renders[0] == a && renders[1] == b;
      forall p ensures p in PointersFor(renders, key, 2) <==> p in PointerDiffs(a[key], b[key]) {}
      assert PointersFor(renders, key, 2) == PointerDiffs(a[key], b[key]);
      assert ExpressionFor(renders, key, 2) <==> ExpressionDiffs(renders[0][key], renders[1][key]);
    } else {
      assert PointersFor(renders, key, 2) == {};
    }
  }

  /** Swapping two renders gives the same rules. */
  lemma SwapSameRules(rules: seq<Rule>, swapped: seq<Rule>, a: Render, b: Render, r: Rule)
    requires SlashFreeRender(a) && SlashFreeRender(b)
    requires RulesCover(rules, [a, b], a.Keys) && RulesCover(swapped, [b, a], b.Keys)
    ensures r in rules <==> r in swapped
  {
    if r in rules { SwapOneWay(rules, swapped, a, b, r); }
    if r in swapped { SwapOneWay(swapped, rules, b, a, r); }
  }

  lemma SwapOneWay(rules: seq<Rule>, swapped: seq<Rule>, a: Render, b: Render, r: Rule)
    requires SlashFreeRender(a) && SlashFreeRender(b)
    requires RulesCover(rules, [a, b], a.Keys) && RulesCover(swapped, [b, a], b.Keys)
    requires r in rules
    ensures r in swapped
  {
    var key :| key in a && HasDiff([a, b], key) && r == RuleFor([a, b], key);
    PairRule(a, b, key);
    PairRule(b, a, key);
    KeyInjective(a[key].id, b[key].id);
    DiffSymmetric(a[key], b[key]);
  }

  /** One more render never takes a pointer or an expression away. */
  lemma AppendMonotone(rules: seq<Rule>, longer: seq<Rule>, renders: seq<Render>, render: Render)
    requires renders != []
    requires RulesCover(rules, renders, renders[0].Keys)
    requires RulesCover(longer, renders + [render], renders[0].Keys)
    ensures Meaning(rules) <= Meaning(longer)
  {
    hide RuleFor, HasDiff, DiffTargets;
    var more := renders + [render];
    forall r, t | r in rules && t in Targets(r) ensures (r.id, t) in Meaning(longer) {
      var key :| key in renders[0] && HasDiff(renders, key) && r == RuleFor(renders, key);
      RuleTargets(renders, key, t);
      var i :| 1 <= i < |renders| && key in renders[i] && t in DiffTargets(renders[0][key], renders[i][key]);
      assert more[0] == renders[0] && more[i] == renders[i];
      assert Differs(more, key, t);
      RuleTargets(more, key, t);
      RuleForId(renders, key);
      RuleForId(more, key);
      assert RuleFor(more, key) in longer;
    }
  }
}
