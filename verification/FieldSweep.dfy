/** Pointers to explicit nulls and to zero values, and what erasing them achieves
    (pkg/ignoregen/ignoregen.go:233-256, 314-360). */
module FieldSweep {
  import opened Text
  import opened Json
  import opened Pointers
  import opened Rules
  import opened Manifest

  /** The two families of fields that never survive a round trip through the API server. */
  datatype Sweep = Nulls | Zeros

  /** Nulls; or false, an empty object, an empty array. Zero strings and numbers stay. */
  predicate Qualifies(sweep: Sweep, v: Value) {
    match sweep
    case Nulls => v.Null?
    case Zeros => v == Bool(false) || v == Obj(map[]) || v == Arr([])
  }

  /** The paths of all qualifying fields that are reachable through maps. */
  ghost function Paths(sweep: Sweep, v: Value): set<Path>
    decreases v
  {
    match v
    case Obj(m) =>
      (set k | k in m && Qualifies(sweep, m[k]) :: [k]) + (set k, p | k in m && p in Paths(sweep, m[k]) :: [k] + p)
    case _ => {}
  }

  /** The value without its qualifying fields. Decided on the original values, so a map that
      becomes empty stays. */
  ghost function Pruned(sweep: Sweep, v: Value): Value
    decreases v
  {
    match v
    case Obj(m) => Obj(map k | k in m && !Qualifies(sweep, m[k]) :: Pruned(sweep, m[k]))
    case _ => v
  }

  /** A path is listed exactly when it leads to a qualifying field. */
  lemma {:induction false} PathsExact(sweep: Sweep, v: Value, q: Path)
    ensures q in Paths(sweep, v) <==> q != [] && Lookup(v, q).Some? && Qualifies(sweep, Lookup(v, q).value)
    decreases |q|
  {
    if q != [] && v.Obj? && q[0] in v.fields {
      var k, tail := q[0], q[1..];
      assert q == [k] + tail;
      PathsExact(sweep, v.fields[k], tail);
      if tail == [] {
        assert q == [k];
      }
      if q in Paths(sweep, v) && tail != [] {
        var k', p :| k' in v.fields && p in Paths(sweep, v.fields[k']) && q == [k'] + p;
        assert k' == k && p == tail;
      }
    }
  }

  lemma NoEmptyPath(sweep: Sweep, v: Value)
    ensures [] !in Paths(sweep, v)
  {
    PathsExact(sweep, v, []);
  }

  lemma PathsBelow(sweep: Sweep, v: Value, k: string)
    requires v.Obj? && k in v.fields
    ensures Below(Paths(sweep, v), k) == Paths(sweep, v.fields[k])
  {
    var all := Paths(sweep, v);
    forall p | p in Below(all, k) ensures p in Paths(sweep, v.fields[k]) {
      var q :| q in all && |q| > 1 && q[0] == k && p == q[1..];
      PathsExact(sweep, v, q);
      PathsExact(sweep, v.fields[k], p);
    }
    NoEmptyPath(sweep, v.fields[k]);
    forall p | p in Paths(sweep, v.fields[k]) ensures p in Below(all, k) {
      assert ([k] + p)[1..] == p && [k] + p in all;
    }
  }

  lemma PathsOneKey(sweep: Sweep, v: Value, k: string)
    requires v.Obj? && k in v.fields
    ensures [k] in Paths(sweep, v) <==> Qualifies(sweep, v.fields[k])
  {
    PathsExact(sweep, v, [k]);
    assert [k][1..] == [];
  }

  /** Erasing the listed fields gives the pruned value, and changes the pruned value no more. */
  lemma {:induction false} EraseGivesPruned(sweep: Sweep, v: Value)
    ensures EraseSet(v, Paths(sweep, v)) == Pruned(sweep, v)
    ensures EraseSet(Pruned(sweep, v), Paths(sweep, v)) == Pruned(sweep, v)
    decreases v
  {
    if v.Obj? {
      var all, pruned := Paths(sweep, v), Pruned(sweep, v);
      forall k | k in v.fields ensures [k] in all <==> Qualifies(sweep, v.fields[k]) { PathsOneKey(sweep, v, k); }
      forall k | k in pruned.fields
        ensures EraseSet(v.fields[k], Below(all, k)) == EraseSet(pruned.fields[k], Below(all, k)) == pruned.fields[k]
      {
        PathsBelow(sweep, v, k);
        EraseGivesPruned(sweep, v.fields[k]);
      }
      hide EraseSet, Paths, Below, Qualifies;
      EraseSetIs(v, all, pruned.fields);
      EraseSetIs(pruned, all, pruned.fields);
    }
  }

  /** A field is removed exactly when it qualifies itself; everything else keeps its value. */
  lemma {:induction false} PrunedRemovesOnly(sweep: Sweep, v: Value, q: Path)
    requires Lookup(v, q).Some?
    ensures Lookup(Pruned(sweep, v), q).None? <==> q != [] && Qualifies(sweep, Lookup(v, q).value)
    ensures Lookup(Pruned(sweep, v), q).Some? && !Lookup(v, q).value.Obj? ==>
              Lookup(Pruned(sweep, v), q) == Lookup(v, q)
  {
    EraseGivesPruned(sweep, v);
    EraseSetLookup(v, Paths(sweep, v), q);
    PathsExact(sweep, v, q);
    assert q[..|q|] == q;
    forall n | 1 <= n < |q| ensures q[..n] !in Paths(sweep, v) {
      PathsExact(sweep, v, q[..n]);
      if q[..n] in Paths(sweep, v) { BelowQualifyingIsNothing(sweep, v, q, n); }
    }
  }

  lemma {:induction false} BelowQualifyingIsNothing(sweep: Sweep, v: Value, q: Path, n: nat)
    requires n < |q| && Lookup(v, q[..n]).Some? && Qualifies(sweep, Lookup(v, q[..n]).value)
    ensures Lookup(v, q).None?
    decreases n
  {
    if n > 0 {
      assert q[..n][1..] == q[1..][..n-1];
      BelowQualifyingIsNothing(sweep, v.fields[q[0]], q[1..], n - 1);
    }
  }

  // ---------- the pointers, gathered in any map order ----------

  ghost function PointersTo(prefix: string, paths: set<Path>): set<string> {
    set p | p in paths :: prefix + Encode(p)
  }

  /** The paths that start with one of some keys. */
  ghost function PathsUnder(sweep: Sweep, v: Value, keys: set<string>): set<Path> {
    set p | p in Paths(sweep, v) && p != [] && p[0] in keys
  }

  lemma PathsUnderKey(sweep: Sweep, v: Value, k: string)
    requires v.Obj? && k in v.fields
    ensures PathsUnder(sweep, v, {k}) ==
            (if Qualifies(sweep, v.fields[k]) then {[k]} else {}) + set p | p in Paths(sweep, v.fields[k]) :: [k] + p
  {
    forall q ensures q in PathsUnder(sweep, v, {k}) <==>
                     (q == [k] && Qualifies(sweep, v.fields[k])) ||
                     (exists p :: p in Paths(sweep, v.fields[k]) && q == [k] + p)
    {
      PathsOneKey(sweep, v, k);
      if q in PathsUnder(sweep, v, {k}) && q != [k] {
        assert q == [k] + q[1..] && q[1..] in Below(Paths(sweep, v), k);
        PathsBelow(sweep, v, k);
      }
    }
  }

  lemma PointersUnderKey(sweep: Sweep, prefix: string, v: Value, k: string)
    requires v.Obj? && k in v.fields
    ensures var p := prefix + "/" + EscapeJSONPointer(k);
            PointersTo(prefix, PathsUnder(sweep, v, {k})) ==
            (if Qualifies(sweep, v.fields[k]) then {p} else {}) + PointersTo(p, Paths(sweep, v.fields[k]))
  {
    var p := prefix + "/" + EscapeJSONPointer(k);
    PathsUnderKey(sweep, v, k);
    forall q: Path ensures prefix + Encode([k] + q) == p + Encode(q) {
      assert ([k] + q)[1..] == q;
      Assoc(prefix, "/" + EscapeJSONPointer(k), Encode(q));
      Assoc(prefix, "/", EscapeJSONPointer(k));
    }
    assert Encode([]) == "" && [k] + [] == [k] && p + "" == p;
    var below, inside := Paths(sweep, v.fields[k]), PathsUnder(sweep, v, {k});
    forall s | s in PointersTo(p, below) ensures s in PointersTo(prefix, inside) {
      var q :| q in below && s == p + Encode(q);
      assert [k] + q in inside && s == prefix + Encode([k] + q);
    }
    if Qualifies(sweep, v.fields[k]) {
      assert [k] in inside && p == prefix + Encode([k]);
    }
  }

  lemma PointersDisjoint(prefix: string, a: set<Path>, b: set<Path>)
    requires a !! b
    ensures PointersTo(prefix, a) !! PointersTo(prefix, b)
  {
    forall s | s in PointersTo(prefix, a) && s in PointersTo(prefix, b) ensures false {
      var p :| p in a && s == prefix + Encode(p);
      var q :| q in b && s == prefix + Encode(q);
      assert s[|prefix|..] == Encode(p) == Encode(q);
      EncodeInjective(p, q);
    }
  }

  lemma NoDupAppend<T>(a: seq<T>, b: seq<T>)
    requires NoDup(a) && NoDup(b) && Elems(a) !! Elems(b)
    ensures NoDup(a + b)
  {
    forall i, j | 0 <= i < j < |a + b| ensures (a + b)[i] != (a + b)[j] {
      assert i < |a| ==> a[i] in Elems(a);
      assert j >= |a| ==> b[j - |a|] in Elems(b);
    }
  }

  /** One loop step: the pointers for one more key join those for the keys already done. */
  lemma SweepStep(sweep: Sweep, prefix: string, v: Value, done: set<string>, k: string,
                  ptrs: seq<string>, more: seq<string>)
    requires v.Obj? && k in v.fields && k !in done
    requires NoDup(ptrs) && Elems(ptrs) == PointersTo(prefix, PathsUnder(sweep, v, done))
    requires NoDup(more) && Elems(more) == PointersTo(prefix, PathsUnder(sweep, v, {k}))
    ensures NoDup(ptrs + more) && Elems(ptrs + more) == PointersTo(prefix, PathsUnder(sweep, v, done + {k}))
  {
    var a, b := PathsUnder(sweep, v, done), PathsUnder(sweep, v, {k});
    assert PathsUnder(sweep, v, done + {k}) == a + b;
    PointersDisjoint(prefix, a, b);
    NoDupAppend(ptrs, more);
    ElemsAppend(ptrs, more);
    assert PointersTo(prefix, a + b) == PointersTo(prefix, a) + PointersTo(prefix, b);
  }

  lemma SweepDone(sweep: Sweep, prefix: string, v: Value)
    requires v.Obj?
    ensures PathsUnder(sweep, v, v.fields.Keys) == Paths(sweep, v)
    ensures PathsUnder(sweep, v, {}) == {}
  {
    forall p | p in Paths(sweep, v) ensures p != [] && p[0] in v.fields { PathsExact(sweep, v, p); }
  }

  /** `nullPointers`: every null field's pointer once, in whatever order the map yields. */
  method NullPointers(prefix: string, v: Value) returns (ptrs: seq<string>)
    requires v.Obj?
    ensures NoDup(ptrs) && Elems(ptrs) == PointersTo(prefix, Paths(Nulls, v))
    decreases v
  {
    ptrs := [];
    var todo := v.fields.Keys;
    SweepDone(Nulls, prefix, v);
    while todo != {}
      invariant todo <= v.fields.Keys
      invariant NoDup(ptrs)
      invariant Elems(ptrs) == PointersTo(prefix, PathsUnder(Nulls, v, v.fields.Keys - todo))
    {
      var k :| k in todo;
      var p := prefix + "/" + EscapeJSONPointer(k);
      PointersUnderKey(Nulls, prefix, v, k);
      var more: seq<string> := [];
      match v.fields[k] {
        case Null => more := [p];
        case Obj(_) => more := NullPointers(p, v.fields[k]);
        case _ =>
      }
      SweepStep(Nulls, prefix, v, v.fields.Keys - todo, k, ptrs, more);
      ptrs := ptrs + more;
      assert v.fields.Keys - todo + {k} == v.fields.Keys - (todo - {k});
      todo := todo - {k};
    }
    assert v.fields.Keys - todo == v.fields.Keys;
  }

  lemma ZeroCases(v: Value)
    ensures Qualifies(Zeros, v) <==> (v.Bool? && !v.b) || (v.Obj? && |v.fields| == 0) || (v.Arr? && |v.items| == 0)
    ensures Qualifies(Zeros, v) || !v.Obj? ==> Paths(Zeros, v) == {}
  {
    if v.Obj? && |v.fields| == 0 {
      assert v.fields == map[];
    }
  }

  /** `ZeroValuePointers`: every false, empty-object or empty-array field's pointer once. */
  method ZeroValuePointers(prefix: string, v: Value) returns (ptrs: seq<string>)
    requires v.Obj?
    ensures NoDup(ptrs) && Elems(ptrs) == PointersTo(prefix, Paths(Zeros, v))
    decreases v
  {
    hide Paths, PathsUnder, Qualifies;
    ptrs := [];
    var todo := v.fields.Keys;
    SweepDone(Zeros, prefix, v);
    assert v.fields.Keys - todo == {};
    while todo != {}
      invariant todo <= v.fields.Keys
      invariant NoDup(ptrs)
      invariant Elems(ptrs) == PointersTo(prefix, PathsUnder(Zeros, v, v.fields.Keys - todo))
    {
      var k :| k in todo;
      var p := prefix + "/" + EscapeJSONPointer(k);
      PointersUnderKey(Zeros, prefix, v, k);
      ZeroCases(v.fields[k]);
      var more: seq<string> := [];
      match v.fields[k] {
        case Bool(b) =>
          if !b { more := [p]; }
        case Obj(m) =>
          if |m| == 0 { more := [p]; } else { more := ZeroValuePointers(p, v.fields[k]); }
        case Arr(items) =>
          if |items| == 0 { more := [p]; }
        case _ =>
      }
      assert PointersTo(p, {}) == {};
      SweepStep(Zeros, prefix, v, v.fields.Keys - todo, k, ptrs, more);
      ptrs := ptrs + more;
      assert v.fields.Keys - todo + {k} == v.fields.Keys - (todo - {k});
      todo := todo - {k};
    }
    assert v.fields.Keys - todo == v.fields.Keys;
  }

  // ---------- rules for a resource's spec ----------

  /** The sorted pointer list the rule builders write for a spec: the same for every map order. */
  ghost function SpecPointers(sweep: Sweep, spec: Value): (ptrs: seq<string>)
    ensures Elems(ptrs) == PointersTo("/spec", Paths(sweep, spec))
  {
    InOrder(PointersTo("/spec", Paths(sweep, spec)))
  }

  lemma SpecPrefix()
    ensures "/spec" == Encode(["spec"])
  {
    assert OnePass("spec") == "spec";
    EscapeIsOnePass("spec");
    hide OnePass, EscapeJSONPointer;
    assert ["spec"][1..] == [];
  }

  /** Each listed pointer, read by the standard, is the path of one qualifying spec field, and
      each qualifying spec field is listed. The list is strictly ascending, so none is repeated. */
  lemma SpecPointersExact(sweep: Sweep, spec: Value, path: Path)
    ensures Ascending(SpecPointers(sweep, spec))
    ensures (exists s :: s in SpecPointers(sweep, spec) && Decode(s) == Some(["spec"] + path)) <==>
            path != [] && Lookup(spec, path).Some? && Qualifies(sweep, Lookup(spec, path).value)
    ensures forall s :: s in SpecPointers(sweep, spec) ==>
              exists p :: p in Paths(sweep, spec) && Decode(s) == Some(["spec"] + p)
  {
    var ptrs := SpecPointers(sweep, spec);
    InOrderAscending(PointersTo("/spec", Paths(sweep, spec)));
    PathsExact(sweep, spec, path);
    forall s | s in ptrs ensures exists p :: p in Paths(sweep, spec) && Decode(s) == Some(["spec"] + p) {
      assert s in Elems(ptrs);
      var p :| p in Paths(sweep, spec) && s == "/spec" + Encode(p);
      DecodeSpec(p);
    }
    if s :| s in ptrs && Decode(s) == Some(["spec"] + path) {
      var p :| p in Paths(sweep, spec) && Decode(s) == Some(["spec"] + p);
      assert (["spec"] + p)[1..] == p && (["spec"] + path)[1..] == path;
    }
    if path in Paths(sweep, spec) {
      DecodeSpec(path);
      assert "/spec" + Encode(path) in Elems(ptrs);
    }
  }

  /** The same in terms of the values alone: a null rule lists exactly the fields that are null, a
      zero-value rule exactly those that are false, an empty object or an empty array. */
  lemma SpecPointersTold(spec: Value, path: Path)
    requires path != []
    ensures (exists s :: s in SpecPointers(Nulls, spec) && Decode(s) == Some(["spec"] + path)) <==>
            Lookup(spec, path) == Some(Null)
    ensures (exists s :: s in SpecPointers(Zeros, spec) && Decode(s) == Some(["spec"] + path)) <==>
            Lookup(spec, path) == Some(Bool(false)) || Lookup(spec, path) == Some(Obj(map[])) ||
            Lookup(spec, path) == Some(Arr([]))
  {
    SpecPointersExact(Nulls, spec, path);
    SpecPointersExact(Zeros, spec, path);
    hide SpecPointers, Decode, Lookup;
  }

  lemma DecodeSpec(p: Path)
    ensures Decode("/spec" + Encode(p)) == Some(["spec"] + p)
  {
    SpecPrefix();
    EncodeAppend(["spec"], p);
    DecodeEncode(["spec"] + p);
  }

  lemma SpecPaths(sweep: Sweep, spec: Value)
    ensures PathsOf(SpecPointers(sweep, spec)) == set p | p in Paths(sweep, spec) :: ["spec"] + p
  {
    var ptrs := SpecPointers(sweep, spec);
    forall p | p in Paths(sweep, spec) ensures ["spec"] + p in PathsOf(ptrs) {
      DecodeSpec(p);
      assert "/spec" + Encode(p) in Elems(ptrs);
    }
    forall q | q in PathsOf(ptrs) ensures exists p :: p in Paths(sweep, spec) && q == ["spec"] + p {
      var s :| s in ptrs && Decode(s) == Some(q);
      assert s in Elems(ptrs);
      var p :| p in Paths(sweep, spec) && s == "/spec" + Encode(p);
      DecodeSpec(p);
    }
  }

  lemma BelowPrefixed(key: string, paths: set<Path>, k: string)
    requires [] !in paths
    ensures var all := set p | p in paths :: [key] + p;
            [k] !in all && Below(all, k) == if k == key then paths else {}
  {
    var all := set p | p in paths :: [key] + p;
    forall p: Path ensures ([key] + p)[1..] == p {}
    if k == key {
      forall p | p in paths ensures p in Below(all, k) { assert [key] + p in all; }
    }
  }

  /** Erasing paths inside one field of an object. */
  lemma EraseInField(raw: Value, key: string, paths: set<Path>)
    requires raw.Obj? && key in raw.fields && [] !in paths
    ensures EraseSet(raw, set p | p in paths :: [key] + p) ==
            Obj(raw.fields[key := EraseSet(raw.fields[key], paths)])
  {
    var all := set p | p in paths :: [key] + p;
    hide Below, EraseSet;
    forall k ensures [k] !in all && Below(all, k) == if k == key then paths else {} {
      BelowPrefixed(key, paths, k);
    }
    forall k | k in raw.fields && k != key ensures EraseSet(raw.fields[k], {}) == raw.fields[k] {
      EraseSetEmpty(raw.fields[k]);
    }
    EraseSetIs(raw, all, raw.fields[key := EraseSet(raw.fields[key], paths)]);
  }

  /** What the rules are for: once their pointers are erased, the rendered resource and the
      resource whose spec lost its qualifying fields on the way are equal. */
  lemma SweepRulesAgree(sweep: Sweep, raw: Value)
    requires raw.Obj? && Field(raw, "spec").Obj?
    ensures var spec := raw.fields["spec"];
            var ptrs := SpecPointers(sweep, spec);
            var live := Obj(raw.fields["spec" := Pruned(sweep, spec)]);
            Erase(raw, ptrs) == Erase(live, ptrs) == live
  {
    var spec := raw.fields["spec"];
    var live := Obj(raw.fields["spec" := Pruned(sweep, spec)]);
    var ptrs := SpecPointers(sweep, spec);
    SpecPaths(sweep, spec);
    NoEmptyPath(sweep, spec);
    EraseIsEraseSet(raw, ptrs);
    EraseIsEraseSet(live, ptrs);
    EraseInField(raw, "spec", Paths(sweep, spec));
    EraseInField(live, "spec", Paths(sweep, spec));
    EraseGivesPruned(sweep, spec);
    hide *;
    assert live.fields["spec" := live.fields["spec"]] == live.fields;
  }

  /** The null rule of one resource, if its spec has a null anywhere. */
  ghost predicate IsNullRule(res: Resource, r: Rule) {
    res.Spec().Obj? && Paths(Nulls, res.Spec()) != {} && r == Rule(res.id, SpecPointers(Nulls, res.Spec()), [])
  }

  /** `nullFieldRules` over the parsed resources, which it visits in any order. */
  method NullFieldRules(resources: map<string, Resource>) returns (rules: seq<Rule>)
    ensures forall r :: r in rules <==> exists key :: key in resources && IsNullRule(resources[key], r)
  {
    hide Paths, SpecPointers, PointersTo;
    rules := [];
    var todo := resources.Keys;
    while todo != {}
      invariant todo <= resources.Keys
      invariant forall r :: r in rules ==> exists key :: key in resources && IsNullRule(resources[key], r)
      invariant forall key, r :: key in resources && key !in todo && IsNullRule(resources[key], r) ==> r in rules
    {
      var key :| key in todo;
      var res := resources[key];
      todo := todo - {key};
      if res.Spec().Obj? {
        var ptrs := NullPointers("/spec", res.Spec());
        SweptRule(Nulls, res.Spec(), ptrs);
        if |ptrs| != 0 {
          var r := Rule(res.id, Sort(ptrs), []);
          assert IsNullRule(resources[key], r);
          rules := rules + [r];
        }
      }
    }
  }

  lemma SweptPointers(sweep: Sweep, spec: Value)
    ensures SpecPointers(sweep, spec) == [] <==> Paths(sweep, spec) == {}
  {
    var ptrs := SpecPointers(sweep, spec);
    if p :| p in Paths(sweep, spec) {
      assert "/spec" + Encode(p) in Elems(ptrs);
    }
    if ptrs != [] {
      assert ptrs[0] in Elems(ptrs);
    }
  }

  lemma SweptRule(sweep: Sweep, spec: Value, ptrs: seq<string>)
    requires NoDup(ptrs) && Elems(ptrs) == PointersTo("/spec", Paths(sweep, spec))
    ensures Sort(ptrs) == SpecPointers(sweep, spec)
    ensures ptrs == [] <==> Paths(sweep, spec) == {}
  {
    SortIsInOrder(ptrs);
    if p :| p in Paths(sweep, spec) {
      assert "/spec" + Encode(p) in Elems(ptrs);
    }
    if ptrs != [] {
      assert ptrs[0] in Elems(ptrs);
    }
  }
}
