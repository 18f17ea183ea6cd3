/** Ignore rules, what a list of them means, and `dedupeRules`
    (pkg/ignoregen/ignoregen.go:386-431). */
module Rules {
  import opened Text
  import Pointers

  datatype ResourceId = ResourceId(group: string, kind: string, namespace: string, name: string)

  /** argov1a1.ResourceIgnoreDifferences. */
  datatype Rule = Rule(id: ResourceId, jsonPointers: seq<string>, jqPathExpressions: seq<string>)

  /** One thing a rule ignores on its resource. */
  datatype Target = Pointer(p: string) | Expression(e: string)

  function Key(id: ResourceId): string {
    id.group + "/" + id.kind + "/" + id.namespace + "/" + id.name
  }

  predicate SlashFree(id: ResourceId) {
    '/' !in id.group && '/' !in id.kind && '/' !in id.namespace
  }

  lemma CutAtSlash(a: string, x: string, b: string, y: string)
    requires '/' !in a && '/' !in b
    requires a + "/" + x == b + "/" + y
    ensures a == b && x == y
  {
    Pointers.FirstTokenEnds(a, "/" + x);
    Pointers.FirstTokenEnds(b, "/" + y);
    assert a + "/" + x == a + ("/" + x) && b + "/" + y == b + ("/" + y);
    assert (a + "/" + x)[|a|+1..] == x && (b + "/" + y)[|b|+1..] == y;
  }

  /** Keys tell resources apart when group, kind and namespace have no slash. */
  lemma KeyInjective(a: ResourceId, b: ResourceId)
    requires SlashFree(a) && SlashFree(b)
    requires Key(a) == Key(b)
    ensures a == b
  {
    var a2, b2 := a.namespace + "/" + a.name, b.namespace + "/" + b.name;
    var a1, b1 := a.kind + "/" + a2, b.kind + "/" + b2;
    assert Key(a) == a.group + "/" + a1 && Key(b) == b.group + "/" + b1;
    CutAtSlash(a.group, a1, b.group, b1);
    CutAtSlash(a.kind, a2, b.kind, b2);
    CutAtSlash(a.namespace, a.name, b.namespace, b.name);
  }

  ghost function Targets(r: Rule): set<Target> {
    (set p | p in r.jsonPointers :: Pointer(p)) + (set e | e in r.jqPathExpressions :: Expression(e))
  }

  /** Everything a list of rules ignores, resource by resource. */
  ghost function Meaning(rules: seq<Rule>): set<(ResourceId, Target)> {
    set r, t | r in rules && t in Targets(r) :: (r.id, t)
  }

  lemma MeaningAppend(a: seq<Rule>, b: seq<Rule>)
    ensures Meaning(a + b) == Meaning(a) + Meaning(b)
  {
  }

  // ---------- merging ----------

  /** The sorted union without repeats. */
  function Union(a: seq<string>, b: seq<string>): seq<string> {
    InOrder((set x | x in a) + (set x | x in b))
  }

  method UnionStrings(a: seq<string>, b: seq<string>) returns (out: seq<string>)
    ensures out == Union(a, b)
  {
    var seen: set<string> := {};
    out := [];
    var all := a + b;
    for i := 0 to |all|
      invariant seen == Elems(all[..i]) == Elems(out)
      invariant NoDup(out)
    {
      assert all[..i+1] == all[..i] + [all[i]];
      if all[i] !in seen {
        seen := seen + {all[i]};
        out := out + [all[i]];
      }
    }
    assert all[..|all|] == all;
    assert Elems(out) == (set x | x in a) + (set x | x in b);
    SortIsInOrder(out);
    out := Sort(out);
  }

  function Find(rules: seq<Rule>, key: string): Option<nat> {
    if rules == [] then None
    else if Key(rules[0].id) == key then Some(0)
    else match Find(rules[1..], key) case Some(i) => Some(i + 1) case None => None
  }

  lemma {:induction false} FindSound(rules: seq<Rule>, key: string)
    ensures match Find(rules, key)
            case Some(i) => i < |rules| && Key(rules[i].id) == key && forall j :: 0 <= j < i ==> Key(rules[j].id) != key
            case None => forall j :: 0 <= j < |rules| ==> Key(rules[j].id) != key
  {
    if rules != [] { FindSound(rules[1..], key); }
  }

  /** One more rule: merged into the rule that already has its key, or appended. */
  function Merge(out: seq<Rule>, r: Rule): seq<Rule> {
    FindSound(out, Key(r.id));
    match Find(out, Key(r.id))
    case None => out + [r]
    case Some(i) =>
      out[i := Rule(out[i].id, Union(out[i].jsonPointers, r.jsonPointers),
                    Union(out[i].jqPathExpressions, r.jqPathExpressions))]
  }

  function Dedupe(rules: seq<Rule>): seq<Rule> {
    if rules == [] then [] else Merge(Dedupe(rules[..|rules|-1]), rules[|rules|-1])
  }

  method DedupeRules(rules: seq<Rule>) returns (out: seq<Rule>)
    ensures out == Dedupe(rules)
  {
    hide Find, Union, Key;
    var index: map<string, nat> := map[];
    out := [];
    for n := 0 to |rules|
      invariant out == Dedupe(rules[..n])
      invariant forall i :: 0 <= i < |out| ==> Key(out[i].id) in index && index[Key(out[i].id)] == i
      invariant forall k :: k in index ==> index[k] < |out| && Key(out[index[k]].id) == k
    {
      assert rules[..n+1][..n] == rules[..n];
      var r := rules[n];
      var key := Key(r.id);
      FindSound(out, key);
      if key !in index {
        index := index[key := |out|];
        out := out + [r];
      } else {
        var i := index[key];
        var pointers := UnionStrings(out[i].jsonPointers, r.jsonPointers);
        var expressions := UnionStrings(out[i].jqPathExpressions, r.jqPathExpressions);
        out := out[i := Rule(out[i].id, pointers, expressions)];
      }
    }
    assert rules[..|rules|] == rules;
  }

  // ---------- one rule per resource, in order of first appearance ----------

  function KeysOf(rules: seq<Rule>): (keys: seq<string>)
    ensures |keys| == |rules|
  {
    seq(|rules|, i requires 0 <= i < |rules| => Key(rules[i].id))
  }

  function FirstAppearances(keys: seq<string>): seq<string> {
    if keys == [] then []
    else
      var before, last := keys[..|keys|-1], keys[|keys|-1];
      if last in before then FirstAppearances(before) else FirstAppearances(before) + [last]
  }

  lemma {:induction false} FirstAppearancesNoDup(keys: seq<string>)
    ensures NoDup(FirstAppearances(keys)) && Elems(FirstAppearances(keys)) == Elems(keys)
  {
    if keys != [] {
      var before, last := keys[..|keys|-1], keys[|keys|-1];
      FirstAppearancesNoDup(before);
      assert keys == before + [last];
      assert Elems(keys) == Elems(before) + {last};
      var f := FirstAppearances(before);
      assert Elems(f + [last]) == Elems(f) + {last};
      assert last in f <==> last in Elems(f);
    }
  }

  /** The output has exactly one rule for each key of the input, in order of first appearance. */
  lemma {:induction false} DedupeKeys(rules: seq<Rule>)
    ensures KeysOf(Dedupe(rules)) == FirstAppearances(KeysOf(rules))
    ensures NoDup(KeysOf(Dedupe(rules)))
  {
    FirstAppearancesNoDup(KeysOf(rules));
    if rules != [] {
      var before, r := rules[..|rules|-1], rules[|rules|-1];
      DedupeKeys(before);
      FirstAppearancesNoDup(KeysOf(before));
      assert KeysOf(rules) == KeysOf(before) + [Key(r.id)];
      assert KeysOf(rules)[..|rules|-1] == KeysOf(before);
      var out := Dedupe(before);
      FindSound(out, Key(r.id));
      if Find(out, Key(r.id)).None? {
        assert Key(r.id) !in KeysOf(out);
        assert Key(r.id) !in Elems(KeysOf(before));
        assert KeysOf(out + [r]) == KeysOf(out) + [Key(r.id)];
      } else {
        var i := Find(out, Key(r.id)).value;
        assert KeysOf(out)[i] == Key(r.id);
        assert Key(r.id) in Elems(KeysOf(before));
        assert KeysOf(Dedupe(rules)) == KeysOf(out);
      }
    }
  }

  lemma {:induction false} DedupeDistinct(rules: seq<Rule>)
    requires NoDup(KeysOf(rules))
    ensures Dedupe(rules) == rules
  {
    hide Key, Find, Union;
    if rules != [] {
      var before, r := rules[..|rules|-1], rules[|rules|-1];
      assert KeysOf(before) == KeysOf(rules)[..|rules|-1];
      DedupeDistinct(before);
      FindSound(before, Key(r.id));
      forall i | 0 <= i < |before| ensures Key(before[i].id) != Key(r.id) {
        assert KeysOf(rules)[i] != KeysOf(rules)[|rules|-1];
      }
      assert rules == before + [r];
    }
  }

  /** A second application changes nothing. */
  lemma DedupeIdempotent(rules: seq<Rule>)
    ensures Dedupe(Dedupe(rules)) == Dedupe(rules)
  {
    DedupeKeys(rules);
    DedupeDistinct(Dedupe(rules));
  }

  // ---------- meaning ----------

  /** The resource the first rule with this key names. */
  ghost function FirstId(rules: seq<Rule>, key: string): ResourceId
    requires Find(rules, key).Some?
  {
    FindSound(rules, key);
    rules[Find(rules, key).value].id
  }

  ghost function Relabelled(rules: seq<Rule>): set<(ResourceId, Target)> {
    set r, t | r in rules && Find(rules, Key(r.id)).Some? && t in Targets(r) :: (FirstId(rules, Key(r.id)), t)
  }

  lemma {:induction false} FindAppend(rules: seq<Rule>, r: Rule, key: string)
    ensures Find(rules + [r], key) ==
            match Find(rules, key)
            case Some(i) => Some(i)
            case None => if Key(r.id) == key then Some(|rules|) else None
  {
    if rules == [] {
      assert rules + [r] == [r];
      assert [r][1..] == [];
    } else {
      FindAppend(rules[1..], r, key);
      assert (rules + [r])[1..] == rules[1..] + [r];
    }
  }

  lemma FindMember(rules: seq<Rule>, r: Rule)
    requires r in rules
    ensures Find(rules, Key(r.id)).Some?
  {
    FindSound(rules, Key(r.id));
  }

  lemma TargetsOfUnion(id: ResourceId, a: Rule, b: Rule)
    ensures Targets(Rule(id, Union(a.jsonPointers, b.jsonPointers), Union(a.jqPathExpressions, b.jqPathExpressions))) ==
            Targets(a) + Targets(b)
  {
    var p, e := Union(a.jsonPointers, b.jsonPointers), Union(a.jqPathExpressions, b.jqPathExpressions);
    assert forall x :: x in p <==> x in Elems(p);
    assert forall x :: x in e <==> x in Elems(e);
  }

  /** What merging does to meaning: the merged rule's targets land on the resource named first. */
  lemma MergeMeaning(out: seq<Rule>, r: Rule)
    ensures Find(out, Key(r.id)).None? ==> Meaning(Merge(out, r)) == Meaning(out) + Meaning([r])
    ensures Find(out, Key(r.id)).Some? ==>
              Meaning(Merge(out, r)) == Meaning(out) + set t | t in Targets(r) :: (FirstId(out, Key(r.id)), t)
  {
    FindSound(out, Key(r.id));
    match Find(out, Key(r.id)) {
      case None => MeaningAppend(out, [r]);
      case Some(i) =>
        TargetsOfUnion(out[i].id, out[i], r);
        var merged := Merge(out, r);
        assert Targets(merged[i]) == Targets(out[i]) + Targets(r);
        var added := set t | t in Targets(r) :: (out[i].id, t);
        forall x | x in Meaning(out) + added ensures x in Meaning(merged) {
          if x in Meaning(out) {
            var j :| 0 <= j < |out| && x.0 == out[j].id && x.1 in Targets(out[j]);
            assert merged[j] in merged && x.1 in Targets(merged[j]);
          } else {
            assert merged[i] in merged;
          }
        }
        forall x | x in Meaning(merged) ensures x in Meaning(out) + added {
          var j :| 0 <= j < |merged| && x.0 == merged[j].id && x.1 in Targets(merged[j]);
          assert out[j] in out;
        }
    }
  }

  lemma RelabelledAppend(rules: seq<Rule>, r: Rule)
    ensures Find(rules + [r], Key(r.id)).Some?
    ensures Relabelled(rules + [r]) ==
            Relabelled(rules) + set t | t in Targets(r) :: (FirstId(rules + [r], Key(r.id)), t)
  {
    var all := rules + [r];
    FindMember(all, r);
    forall q | q in rules ensures Find(all, Key(q.id)) == Find(rules, Key(q.id)) && Find(all, Key(q.id)).Some?
                                  && FirstId(all, Key(q.id)) == FirstId(rules, Key(q.id))
    {
      FindAppend(rules, r, Key(q.id));
      FindMember(rules, q);
      FindSound(rules, Key(q.id));
    }
    assert forall q :: q in all <==> q in rules || q == r;
  }

  lemma {:induction false} FindByKeys(a: seq<Rule>, b: seq<Rule>, key: string)
    requires |a| == |b| && forall i :: 0 <= i < |a| ==> a[i].id == b[i].id
    ensures Find(a, key) == Find(b, key)
  {
    if a != [] { FindByKeys(a[1..], b[1..], key); }
  }

  lemma MergeFirstId(out: seq<Rule>, r: Rule, key: string)
    ensures Find(Merge(out, r), key) == Find(out + [r], key)
    ensures Find(out + [r], key).Some? ==> FirstId(Merge(out, r), key) == FirstId(out + [r], key)
  {
    FindSound(out, Key(r.id));
    FindAppend(out, r, key);
    FindSound(out, key);
    match Find(out, Key(r.id))
    case None =>
    case Some(i) => FindByKeys(Merge(out, r), out, key);
  }

  lemma {:induction false} FirstIdKept(rules: seq<Rule>, key: string)
    ensures Find(Dedupe(rules), key).Some? <==> Find(rules, key).Some?
    ensures Find(rules, key).Some? ==> FirstId(Dedupe(rules), key) == FirstId(rules, key)
  {
    if rules != [] {
      var before, r := rules[..|rules|-1], rules[|rules|-1];
      assert rules == before + [r];
      var out := Dedupe(before);
      FirstIdKept(before, key);
      MergeFirstId(out, r, key);
      FindAppend(out, r, key);
      FindAppend(before, r, key);
      FindSound(before, key);
      FindSound(out, key);
    }
  }

  /** In general: every target ends up on the resource that the first rule with its key names. */
  lemma {:induction false} DedupeRelabels(rules: seq<Rule>)
    ensures Meaning(Dedupe(rules)) == Relabelled(rules)
  {
    if rules != [] {
      var before, r := rules[..|rules|-1], rules[|rules|-1];
      assert rules == before + [r];
      DedupeRelabels(before);
      MergeMeaning(Dedupe(before), r);
      RelabelledAppend(before, r);
      FirstIdKept(before, Key(r.id));
      FindAppend(before, r, Key(r.id));
      FindSound(before, Key(r.id));
      FindSound(rules, Key(r.id));
    }
  }

  /** Every rule that ignores something names the same resource as the first rule with its key. */
  ghost predicate NoKeyClash(rules: seq<Rule>) {
    forall r :: r in rules && Targets(r) != {} ==>
      Find(rules, Key(r.id)).Some? && FirstId(rules, Key(r.id)) == r.id
  }

  lemma NoClashRelabels(rules: seq<Rule>)
    requires NoKeyClash(rules)
    ensures Relabelled(rules) == Meaning(rules)
  {
    forall r, t | r in rules && t in Targets(r)
      ensures Find(rules, Key(r.id)).Some? && FirstId(rules, Key(r.id)) == r.id
    {
    }
    forall x | x in Meaning(rules) ensures x in Relabelled(rules) {
      var r :| r in rules && x.0 == r.id && x.1 in Targets(r);
      assert FirstId(rules, Key(r.id)) == r.id;
    }
  }

  /** A rule whose key is taken loses its own targets. */
  lemma ClashLoses(rules: seq<Rule>, r: Rule, t: Target)
    requires r in rules && t in Targets(r)
    requires Find(rules, Key(r.id)).Some? && FirstId(rules, Key(r.id)) != r.id
    ensures (r.id, t) in Meaning(rules) && (r.id, t) !in Relabelled(rules)
  {
    forall q | q in rules && Find(rules, Key(q.id)).Some? ensures FirstId(rules, Key(q.id)) != r.id {
      FindSound(rules, Key(q.id));
    }
  }

  /** Deduplication ignores exactly what the input ignores if and only if no key clashes. */
  lemma DedupeMeaning(rules: seq<Rule>)
    ensures Meaning(Dedupe(rules)) == Meaning(rules) <==> NoKeyClash(rules)
  {
    DedupeRelabels(rules);
    if NoKeyClash(rules) {
      NoClashRelabels(rules);
    } else {
      var r :| r in rules && Targets(r) != {} &&
               !(Find(rules, Key(r.id)).Some? && FirstId(rules, Key(r.id)) == r.id);
      FindMember(rules, r);
      var t :| t in Targets(r);
      ClashLoses(rules, r, t);
    }
  }

  lemma SlashFreeNoClash(rules: seq<Rule>)
    requires forall r :: r in rules ==> SlashFree(r.id)
    ensures NoKeyClash(rules)
  {
    forall r | r in rules
      ensures Find(rules, Key(r.id)).Some? && FirstId(rules, Key(r.id)) == r.id
    {
      FindMember(rules, r);
      FindSound(rules, Key(r.id));
      KeyInjective(FirstId(rules, Key(r.id)), r.id);
    }
  }

  /** With slash-free groups, kinds and namespaces deduplication preserves meaning. */
  lemma DedupePreservesMeaning(rules: seq<Rule>)
    requires forall r :: r in rules ==> SlashFree(r.id)
    ensures Meaning(Dedupe(rules)) == Meaning(rules)
  {
    SlashFreeNoClash(rules);
    DedupeMeaning(rules);
  }

  /** Two different resources with one key: the second one's rule is lost. */
  lemma KeyClashExample()
    ensures var a := Rule(ResourceId("", "a/b", "c", "d"), ["/spec"], []);
            var b := Rule(ResourceId("", "a", "b/c", "d"), ["/data"], []);
            Meaning(Dedupe([a, b])) != Meaning([a, b])
  {
    var a := Rule(ResourceId("", "a/b", "c", "d"), ["/spec"], []);
    var b := Rule(ResourceId("", "a", "b/c", "d"), ["/data"], []);
    assert Key(a.id) == Key(b.id);
    assert Find([a, b], Key(b.id)) == Some(0);
    assert Pointer("/data") in Targets(b);
    DedupeMeaning([a, b]);
  }
}
