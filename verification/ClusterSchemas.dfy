/** The rules over the schema cache, told from what the cluster answered
    (pkg/controller/helmrelease_controller.go:139-180, 213-329). */
module ClusterSchemas {
  import opened Text
  import opened Json
  import opened Rules
  import opened SchemaCache
  import Pointers
  import FieldSweep

  // ---------- what a CRD declares, read from the CRD itself ----------

  const SPEC_SCHEMA: seq<string> := ["schema", "openAPIV3Schema", "properties", "spec"]

  /** The CRD's first entry of `spec.versions` with this name. */
  ghost predicate IsVersion(crd: Value, version: string, i: nat) {
    var versions := Lookup(crd, ["spec", "versions"]);
    versions.Some? && versions.value.Arr? && i < |versions.value.items| &&
    NamesVersion(versions.value.items[i], version) &&
    forall j :: 0 <= j < i ==> !NamesVersion(versions.value.items[j], version)
  }

  predicate NamesVersion(entry: Value, version: string) {
    entry.Obj? && TextAt(entry, ["name"]) == version
  }

  /** The CRD's entry for the version does not keep unknown fields and does not declare the field, or
      the CRD has no entry for the version. */
  ghost predicate Prunes(crd: Value, version: string, field: string) {
    forall i: nat :: IsVersion(crd, version, i) ==>
      var entry := Lookup(crd, ["spec", "versions"]).value.items[i];
      Lookup(entry, SPEC_SCHEMA + ["x-kubernetes-preserve-unknown-fields"]) != Some(Bool(true)) &&
      Lookup(entry, SPEC_SCHEMA + ["properties", field]).None?
  }

  lemma {:induction false} FirstNamedIs(versions: seq<Value>, name: string)
    ensures match FirstNamed(versions, name)
            case Some(v) => exists i :: 0 <= i < |versions| && versions[i] == v && NamesVersion(v, name) &&
                                        forall j :: 0 <= j < i ==> !NamesVersion(versions[j], name)
            case None => forall i :: 0 <= i < |versions| ==> !NamesVersion(versions[i], name)
  {
    if versions != [] {
      LookupOne(versions[0], "name");
      FirstNamedIs(versions[1..], name);
      if !NamesVersion(versions[0], name) && FirstNamed(versions[1..], name).Some? {
        var i :| 0 <= i < |versions[1..]| && versions[1..][i] == FirstNamed(versions[1..], name).value &&
                 forall j :: 0 <= j < i ==> !NamesVersion(versions[1..][j], name);
        assert versions[i + 1] == versions[1..][i];
        forall j | 0 <= j < i + 1 ensures !NamesVersion(versions[j], name) {
          if j > 0 { assert versions[j] == versions[1..][j - 1]; }
        }
      }
    }
  }

  lemma SpecSchemaIs(entry: Value, field: string)
    ensures var schema := SpecSchema(entry);
            schema.found &&
            (schema.preserveUnknown <==>
              Lookup(entry, SPEC_SCHEMA + ["x-kubernetes-preserve-unknown-fields"]) == Some(Bool(true))) &&
            (!schema.preserveUnknown ==>
              (field in schema.fields <==> Lookup(entry, SPEC_SCHEMA + ["properties", field]).Some?))
  {
    var at := Lookup(entry, SPEC_SCHEMA);
    LookupAppend(entry, SPEC_SCHEMA, ["x-kubernetes-preserve-unknown-fields"]);
    LookupAppend(entry, SPEC_SCHEMA, ["properties", field]);
    if at.Some? {
      LookupOne(at.value, "x-kubernetes-preserve-unknown-fields");
      LookupOne(at.value, "properties");
      assert ["properties", field] == ["properties"] + [field];
      LookupCons(at.value, "properties", [field]);
      LookupOne(Field(at.value, "properties"), field);
    }
    assert SPEC_SCHEMA == ["schema", "openAPIV3Schema", "properties", "spec"];
    hide Lookup;
  }

  /** Reading a CRD: the undeclared fields of a spec are those that the CRD itself prunes. */
  lemma SchemaReadsCRD(crd: Value, version: string, field: string)
    ensures var schema := SchemaOf(crd, version);
            schema.found && (!schema.preserveUnknown && field !in schema.fields <==> Prunes(crd, version, field))
  {
    var at := Lookup(crd, ["spec", "versions"]);
    var versions := ItemsAt(crd, ["spec", "versions"]);
    FirstNamedIs(versions, version);
    match FirstNamed(versions, version) {
      case Some(entry) =>
        var i :| 0 <= i < |versions| && versions[i] == entry && NamesVersion(entry, version) &&
                 forall j :: 0 <= j < i ==> !NamesVersion(versions[j], version);
        assert IsVersion(crd, version, i);
        assert forall j: nat :: IsVersion(crd, version, j) ==> j == i;
        SpecSchemaIs(entry, field);
      case None =>
        assert forall i: nat :: !IsVersion(crd, version, i);
    }
    hide Lookup, SpecSchema, NamesVersion, SPEC_SCHEMA;
  }

  /** The paths of an undeclared-field rule, told from the CRD that the cluster gave. */
  lemma GoneByCRD(spec: Value, crd: Value, version: string)
    requires spec.Obj?
    ensures Gone(Undeclared, spec, SchemaOf(crd, version)) ==
            set f | f in spec.fields && Prunes(crd, version, f) :: ["spec", f]
  {
    SchemaReadsCRD(crd, version, "");
    forall f ensures !SchemaOf(crd, version).preserveUnknown && f !in SchemaOf(crd, version).fields <==>
                     Prunes(crd, version, f)
    {
      SchemaReadsCRD(crd, version, f);
    }
    hide SchemaOf, Prunes;
  }

  /** One of the lookups, at most ten minutes before the rule's own, was answered with a CRD, and the
      rule names exactly the top-level spec fields that this CRD prunes in the looked-up version. */
  ghost predicate PrunedByCluster(history: seq<Query>, n: nat, r: Rule)
    requires n < |history|
  {
    exists j: nat, crd ::
      j <= n && history[j].answer == Found(crd) && 0 <= history[n].now - history[j].now <= 600 &&
      CacheKey(history[j].obj) == CacheKey(history[n].obj) && history[n].obj.spec.Obj? && r.id == history[n].obj.id &&
      r.id.group != "" &&
      Pointers.PathsOf(r.jsonPointers) ==
        set f | f in history[n].obj.spec.fields && Prunes(crd, history[j].obj.version, f) :: ["spec", f]
  }

  lemma RecordedPrunes(history: seq<Query>, m: nat, schema: Schema, r: Rule)
    requires m < |history| && RecentlyRecorded(history, m, schema) && Names(Undeclared, r, history[m].obj, schema)
    ensures PrunedByCluster(history, m, r) && Pointers.PathsOf(r.jsonPointers) != {}
  {
    var j: nat :| j <= m && RecordedBy(history, j, CacheKey(history[m].obj), schema, history[m].now);
    assert history[j].answer.Found?;
    hide SchemaOf, Prunes, Gone, Pointers.PathsOf;
    GoneByCRD(history[m].obj.spec, history[j].answer.crd, history[j].obj.version);
  }

  lemma {:induction false} DuePrunes(prior: seq<Query>, queries: seq<Query>, r: Rule)
    requires RecentlyDue(Undeclared, prior, queries, r)
    ensures exists m: nat :: |prior| <= m < |prior + queries| && PrunedByCluster(prior + queries, m, r)
    ensures Pointers.PathsOf(r.jsonPointers) != {}
  {
    hide RecentlyRecorded, Names, PrunedByCluster, Pointers.PathsOf;
    var history := prior + queries;
    var n: nat, schema :| n < |queries| && RecentlyRecorded(history, |prior| + n, schema) &&
                          Names(Undeclared, r, queries[n].obj, schema);
    assert history[|prior| + n] == queries[n];
    RecordedPrunes(history, |prior| + n, schema, r);
  }

  /** Whatever was looked up before: each undeclared-field rule names exactly the spec fields that a CRD
      given at most ten minutes earlier prunes, read from that CRD. A kind without a CRD, and a version
      that keeps unknown fields, get no rule. */
  lemma {:induction false} UndeclaredByCluster(prior: seq<Query>, queries: seq<Query>, r: Rule)
    requires Monotone(prior + queries) && r in RulesFrom(EntriesAfterAll(map[], prior), queries, Undeclared)
    ensures exists m: nat :: |prior| <= m < |prior + queries| && PrunedByCluster(prior + queries, m, r)
    ensures Pointers.PathsOf(r.jsonPointers) != {}
  {
    hide *;
    RulesSound(Undeclared, prior, queries, r);
    DuePrunes(prior, queries, r);
  }

  /** Conversely, an object of a group other than the core one whose schema is not cached, and for which
      the cluster gives a CRD that prunes one of its spec fields, gets a rule that names the field. */
  lemma UndeclaredFieldNamed(entries: Entries, queries: seq<Query>, n: nat, crd: Value, f: string)
    requires n < |queries| && queries[n].answer == Found(crd)
    requires !Fresh(EntriesAfterAll(entries, queries[..n]), CacheKey(queries[n].obj), queries[n].now)
    requires var obj := queries[n].obj;
             obj.id.group != "" && obj.spec.Obj? && f in obj.spec.fields && Prunes(crd, obj.version, f)
    ensures exists r :: r in RulesFrom(entries, queries, Undeclared) && r.id == queries[n].obj.id &&
                        ["spec", f] in Pointers.PathsOf(r.jsonPointers)
  {
    var q, met := queries[n], EntriesAfterAll(entries, queries[..n]);
    GoneByCRD(q.obj.spec, crd, q.obj.version);
    assert Result(met, q) == Some(SchemaOf(crd, q.obj.version));
    assert ["spec", f] in Gone(Undeclared, q.obj.spec, SchemaOf(crd, q.obj.version));
    assert Due(Undeclared, met, q);
    hide *;
    RulesComplete(Undeclared, entries, queries, n);
    var r :| r in RulesFrom(entries, queries, Undeclared) && Names(Undeclared, r, q.obj, Result(met, q).value);
    NamesPaths(Undeclared, r, q.obj, Result(met, q).value);
  }

  lemma NamesPaths(family: Family, r: Rule, obj: RenderedObject, schema: Schema)
    requires Names(family, r, obj, schema)
    ensures obj.spec.Obj? && r.id == obj.id && Pointers.PathsOf(r.jsonPointers) == Gone(family, obj.spec, schema)
  {
  }

  // ---------- zero values, by the cluster ----------

  /** Some lookup of the kind, at most ten minutes earlier, was answered with a CRD, and the rule names
      exactly the spec fields that are false, an empty object or an empty array. */
  ghost predicate ZeroesByCluster(history: seq<Query>, n: nat, r: Rule)
    requires n < |history|
  {
    (exists j: nat :: j <= n && GaveCRD(history, j, n)) &&
    r.id == history[n].obj.id && r.id.group != "" &&
    forall path :: path in Pointers.PathsOf(r.jsonPointers) <==> IsZeroField(history[n].obj.spec, path)
  }

  ghost predicate GaveCRD(history: seq<Query>, j: nat, n: nat)
    requires j <= n < |history|
  {
    history[j].answer.Found? && 0 <= history[n].now - history[j].now <= 600 &&
    CacheKey(history[j].obj) == CacheKey(history[n].obj)
  }

  predicate IsZeroField(spec: Value, path: Pointers.Path) {
    |path| > 1 && path[0] == "spec" &&
    (Lookup(spec, path[1..]) == Some(Bool(false)) || Lookup(spec, path[1..]) == Some(Obj(map[])) ||
     Lookup(spec, path[1..]) == Some(Arr([])))
  }

  lemma ZeroGone(spec: Value, schema: Schema, path: Pointers.Path)
    requires spec.Obj? && schema.found
    ensures path in Gone(ZeroValued, spec, schema) <==> IsZeroField(spec, path)
  {
    if path != [] {
      FieldSweep.PathsExact(FieldSweep.Zeros, spec, path[1..]);
      assert path == [path[0]] + path[1..];
    }
    FieldSweep.NoEmptyPath(FieldSweep.Zeros, spec);
    assert forall p: Pointers.Path :: (["spec"] + p)[1..] == p;
    hide FieldSweep.Paths, Lookup;
  }

  lemma RecordedZeroes(history: seq<Query>, m: nat, schema: Schema, r: Rule)
    requires m < |history| && RecentlyRecorded(history, m, schema) && Names(ZeroValued, r, history[m].obj, schema)
    ensures ZeroesByCluster(history, m, r)
  {
    var j: nat :| j <= m && RecordedBy(history, j, CacheKey(history[m].obj), schema, history[m].now);
    assert GaveCRD(history, j, m);
    forall path ensures path in Pointers.PathsOf(r.jsonPointers) <==> IsZeroField(history[m].obj.spec, path) {
      ZeroGone(history[m].obj.spec, schema, path);
    }
  }

  /** Whatever was looked up before: each zero-value rule belongs to a kind for which the cluster gave a
      CRD at most ten minutes earlier, and names exactly the zero values of the object's spec. */
  lemma {:induction false} ZeroValuedByCluster(prior: seq<Query>, queries: seq<Query>, r: Rule)
    requires Monotone(prior + queries) && r in RulesFrom(EntriesAfterAll(map[], prior), queries, ZeroValued)
    ensures exists m: nat :: |prior| <= m < |prior + queries| && ZeroesByCluster(prior + queries, m, r)
  {
    hide *;
    RulesSound(ZeroValued, prior, queries, r);
    DueZeroes(prior, queries, r);
  }

  lemma DueZeroes(prior: seq<Query>, queries: seq<Query>, r: Rule)
    requires RecentlyDue(ZeroValued, prior, queries, r)
    ensures exists m: nat :: |prior| <= m < |prior + queries| && ZeroesByCluster(prior + queries, m, r)
  {
    hide RecentlyRecorded, Names, ZeroesByCluster;
    var history := prior + queries;
    var n: nat, schema :| n < |queries| && RecentlyRecorded(history, |prior| + n, schema) &&
                          Names(ZeroValued, r, queries[n].obj, schema);
    assert history[|prior| + n] == queries[n];
    RecordedZeroes(history, |prior| + n, schema, r);
  }

  // ---------- what is remembered, and for how long ----------

  /** Kinds share an entry only when they agree in group, version and kind. */
  lemma CacheKeyExactly(a: RenderedObject, b: RenderedObject)
    requires '/' !in a.id.group && '/' !in a.version && '/' !in b.id.group && '/' !in b.version
    ensures CacheKey(a) == CacheKey(b) <==>
            a.id.group == b.id.group && a.version == b.version && a.id.kind == b.id.kind
  {
    if CacheKey(a) == CacheKey(b) {
      var a1, b1 := a.version + "/" + a.id.kind, b.version + "/" + b.id.kind;
      assert CacheKey(a) == a.id.group + "/" + a1 && CacheKey(b) == b.id.group + "/" + b1;
      CutAtSlash(a.id.group, a1, b.id.group, b1);
      CutAtSlash(a.version, a.id.kind, b.version, b.id.kind);
    }
  }

  /** After a lookup that asked the cluster and was answered, a second one for the same kind gets the same
      schema for ten minutes, whatever the cluster would say by then, and asks again from then on. */
  lemma AnsweredForTenMinutes(entries: Entries, first: Query, second: Query)
    requires first.obj.id.group != "" && first.obj.spec.Obj? && first.obj.spec.fields != map[]
    requires !Fresh(entries, CacheKey(first.obj), first.now) && CacheKey(second.obj) == CacheKey(first.obj)
    requires first.answer.Found? || first.answer.NotFound?
    ensures Result(EntriesAfterAll(entries, [first]), second) ==
            if second.now - first.now <= 600 then Fetched(first) else Fetched(second)
  {
    assert [first][..0] == [];
    assert EntriesAfterAll(entries, []) == entries;
    assert |first.obj.spec.fields| != 0;
  }
}
