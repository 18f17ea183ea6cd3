/** What each rule that `dedupeRules` gives says, told from the rules it was given
    (pkg/ignoregen/ignoregen.go:386-431). */
module MergedRules {
  import opened Text
  import opened Rules

  /** The output rule speaks for the rules with its key: it names the resource of the first of them and
      lists what any of them lists. It is their only one, unchanged, or its lists are ascending. */
  ghost predicate MergedFrom(rules: seq<Rule>, out: Rule) {
    Gathers(rules, out) &&
    (exists i :: FirstWithKey(rules, Key(out.id), i) && rules[i].id == out.id) &&
    (OnlyWithKey(rules, out) || (Ascending(out.jsonPointers) && Ascending(out.jqPathExpressions)))
  }

  ghost predicate Gathers(rules: seq<Rule>, out: Rule) {
    (forall p :: p in out.jsonPointers <==>
       exists r :: r in rules && Key(r.id) == Key(out.id) && p in r.jsonPointers) &&
    (forall e :: e in out.jqPathExpressions <==>
       exists r :: r in rules && Key(r.id) == Key(out.id) && e in r.jqPathExpressions)
  }

  ghost predicate FirstWithKey(rules: seq<Rule>, key: string, i: int) {
    0 <= i < |rules| && Key(rules[i].id) == key && forall j :: 0 <= j < i ==> Key(rules[j].id) != key
  }

  ghost predicate OnlyWithKey(rules: seq<Rule>, out: Rule) {
    exists i :: 0 <= i < |rules| && rules[i] == out &&
                forall j :: 0 <= j < |rules| && Key(rules[j].id) == Key(out.id) ==> j == i
  }

  lemma UnionAscending(a: seq<string>, b: seq<string>)
    ensures Ascending(Union(a, b)) && forall x :: x in Union(a, b) <==> x in a || x in b
  {
    var all := (set x | x in a) + (set x | x in b);
    InOrderAscending(all);
    assert forall x :: x in Union(a, b) <==> x in Elems(Union(a, b));
  }

  lemma FirstWithKeyKept(rules: seq<Rule>, r: Rule, key: string, i: int)
    requires FirstWithKey(rules, key, i)
    ensures FirstWithKey(rules + [r], key, i)
  {
  }

  lemma OnlyWithKeyKept(rules: seq<Rule>, r: Rule, out: Rule)
    requires OnlyWithKey(rules, out) && Key(r.id) != Key(out.id)
    ensures OnlyWithKey(rules + [r], out)
  {
    var n :| 0 <= n < |rules| && rules[n] == out &&
             forall j :: 0 <= j < |rules| && Key(rules[j].id) == Key(out.id) ==> j == n;
    assert (rules + [r])[n] == out;
  }

  /** A rule with another key leaves it alone. */
  lemma OtherKeyKeeps(rules: seq<Rule>, r: Rule, out: Rule)
    requires MergedFrom(rules, out) && Key(r.id) != Key(out.id)
    ensures MergedFrom(rules + [r], out)
  {
    assert Gathers(rules + [r], out) by { assert forall q :: q in rules + [r] <==> q in rules || q == r; }
    hide Key, Ascending, Gathers, OnlyWithKey;
    var i :| FirstWithKey(rules, Key(out.id), i) && rules[i].id == out.id;
    FirstWithKeyKept(rules, r, Key(out.id), i);
    if OnlyWithKey(rules, out) { OnlyWithKeyKept(rules, r, out); }
  }

  lemma SameKeyJoins(rules: seq<Rule>, r: Rule, out: Rule)
    requires MergedFrom(rules, out) && Key(r.id) == Key(out.id)
    ensures MergedFrom(rules + [r], Rule(out.id, Union(out.jsonPointers, r.jsonPointers),
                                         Union(out.jqPathExpressions, r.jqPathExpressions)))
  {
    hide Key, Ascending, Union;
    var all := rules + [r];
    assert forall q :: q in all <==> q in rules || q == r;
    UnionAscending(out.jsonPointers, r.jsonPointers);
    UnionAscending(out.jqPathExpressions, r.jqPathExpressions);
    var i :| FirstWithKey(rules, Key(out.id), i) && rules[i].id == out.id;
    FirstWithKeyKept(rules, r, Key(out.id), i);
  }

  lemma NewKeyStands(rules: seq<Rule>, r: Rule)
    requires forall q :: q in rules ==> Key(q.id) != Key(r.id)
    ensures MergedFrom(rules + [r], r)
  {
    hide Key, Ascending;
    var all := rules + [r];
    assert forall q :: q in all <==> q in rules || q == r;
    assert all[|rules|] == r;
    assert FirstWithKey(all, Key(r.id), |rules|);
  }

  /** What each rule of the output says, told from the input. */
  lemma {:induction false} MergedExactly(rules: seq<Rule>, n: nat)
    requires n < |Dedupe(rules)|
    ensures MergedFrom(rules, Dedupe(rules)[n])
  {
    hide MergedFrom, Key;
    var before, r := rules[..|rules|-1], rules[|rules|-1];
    var out := Dedupe(before);
    assert rules == before + [r];
    FindSound(out, Key(r.id));
    if n < |out| { MergedExactly(before, n); }
    match Find(out, Key(r.id)) {
      case None =>
        if n < |out| {
          OtherKeyKeeps(before, r, out[n]);
        } else {
          forall q | q in before ensures Key(q.id) != Key(r.id) {
            FindMember(before, q);
            FirstIdKept(before, Key(r.id));
          }
          NewKeyStands(before, r);
        }
      case Some(i) =>
        if n == i {
          SameKeyJoins(before, r, out[n]);
        } else {
          DedupeKeys(before);
          assert KeysOf(out)[n] != KeysOf(out)[i];
          OtherKeyKeeps(before, r, out[n]);
        }
    }
  }
}
