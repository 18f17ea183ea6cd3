/** CRD schemas fetched through a cache, and the rules for spec fields that do not survive in the
    cluster (pkg/controller/helmrelease_controller.go:139-180, 213-329). */
module SchemaCache {
  import opened Text
  import opened Json
  import opened Rules
  import Pointers
  import FieldSweep

  /** `found` is false when no CRD backs the kind. */
  datatype Schema = Schema(found: bool, preserveUnknown: bool, fields: set<string>)

  datatype Entry = Entry(schema: Schema, fetchedAt: int)

  /** Ten minutes, in seconds. */
  const CRD_SCHEMA_CACHE_TTL := 600

  /** A rendered resource that has a spec. */
  datatype RenderedObject = RenderedObject(id: ResourceId, version: string, spec: Value)

  function CacheKey(obj: RenderedObject): string {
    obj.id.group + "/" + obj.version + "/" + obj.id.kind
  }

  /** What the cluster says about a kind: the REST mapper knows no such kind; reading the CRD
      fails; there is no CRD; or the CRD. */
  datatype Answer = NoMapping | GetFailed | NotFound | Found(crd: Value)

  // ---------- reading a CRD ----------

  function ItemsAt(v: Value, path: seq<string>): seq<Value> {
    match Lookup(v, path)
    case Some(Arr(items)) => items
    case _ => []
  }

  /** The first entry of `spec.versions` with this name. */
  function FirstNamed(versions: seq<Value>, name: string): Option<Value> {
    if versions == [] then None
    else if versions[0].Obj? && AsString(Field(versions[0], "name")) == name then Some(versions[0])
    else FirstNamed(versions[1..], name)
  }

  function SpecSchema(version: Value): Schema {
    var spec := match Lookup(version, ["schema", "openAPIV3Schema", "properties", "spec"])
                case Some(Obj(m)) => Obj(m)
                case _ => Obj(map[]);
    if Field(spec, "x-kubernetes-preserve-unknown-fields") == Bool(true) then Schema(true, true, {})
    else
      var props := Field(spec, "properties");
      Schema(true, false, if props.Obj? then props.fields.Keys else {})
  }

  /** The schema a CRD declares for one version of its kind. */
  function SchemaOf(crd: Value, version: string): Schema {
    match FirstNamed(ItemsAt(crd, ["spec", "versions"]), version)
    case Some(v) => SpecSchema(v)
    case None => Schema(true, false, {})
  }

  method ReadSchema(crd: Value, version: string) returns (entry: Schema)
    ensures entry == SchemaOf(crd, version)
  {
    entry := Schema(true, false, {});
    var versions := ItemsAt(crd, ["spec", "versions"]);
    for i := 0 to |versions|
      invariant entry == Schema(true, false, {})
      invariant FirstNamed(versions, version) == FirstNamed(versions[i..], version)
    {
      assert versions[i..][0] == versions[i] && versions[i..][1..] == versions[i+1..];
      var vm := versions[i];
      if !vm.Obj? {
        continue;
      }
      if AsString(Field(vm, "name")) != version {
        continue;
      }
      return SpecSchema(vm);
    }
  }

  // ---------- the cache ----------

  type Entries = map<string, Entry>

  predicate Fresh(entries: Entries, key: string, now: int) {
    key in entries && now - entries[key].fetchedAt <= CRD_SCHEMA_CACHE_TTL
  }

  class CrdSchemaCache {
    var entries: Entries

    constructor ()
      ensures entries == map[]
    {
      entries := map[];
    }

    method Get(key: string, now: int) returns (schema: Option<Schema>)
      ensures schema == if Fresh(entries, key, now) then Some(entries[key].schema) else None
    {
      if key !in entries || now - entries[key].fetchedAt > CRD_SCHEMA_CACHE_TTL {
        return None;
      }
      return Some(entries[key].schema);
    }

    method Put(key: string, schema: Schema, now: int)
      modifies this
      ensures entries == old(entries)[key := Entry(schema, now)]
    {
      entries := entries[key := Entry(schema, now)];
    }

    /** `lookupCRDSchema`; `None` is an error. */
    method LookupCRDSchema(q: Query) returns (schema: Option<Schema>)
      modifies this
      ensures schema == Result(old(entries), q) && entries == EntriesAfter(old(entries), q)
    {
      var key := CacheKey(q.obj);
      schema := Get(key, q.now);
      if schema.Some? {
        return;
      }
      match q.answer {
        case NoMapping => return None;
        case GetFailed => return None;
        case NotFound =>
          Put(key, Schema(false, false, {}), q.now);
          return Some(Schema(false, false, {}));
        case Found(crd) =>
          var entry := ReadSchema(crd, q.obj.version);
          Put(key, entry, q.now);
          return Some(entry);
      }
    }

    /** The inner loop: the spec fields that the schema does not declare, in any order, then sorted. */
    method UndeclaredPointers(spec: Value, schema: Schema) returns (ptrs: seq<string>)
      requires spec.Obj?
      ensures ptrs == InOrder(FieldPointers(spec.fields.Keys - schema.fields))
    {
      ptrs := [];
      var todo := spec.fields.Keys;
      ghost var listed: set<string> := {};
      while todo != {}
        invariant todo <= spec.fields.Keys
        invariant listed == spec.fields.Keys - todo - schema.fields
        invariant NoDup(ptrs) && Elems(ptrs) == FieldPointers(listed)
      {
        var field :| field in todo;
        if field !in schema.fields {
          AddField(ptrs, listed, field);
          ptrs := ptrs + ["/spec/" + Pointers.EscapeJSONPointer(field)];
          listed := listed + {field};
        }
        todo := todo - {field};
      }
      assert listed == spec.fields.Keys - schema.fields;
      SortIsInOrder(ptrs);
      ptrs := Sort(ptrs);
    }

    method UndeclaredSpecFieldRules(queries: seq<Query>) returns (rules: seq<Rule>)
      modifies this
      ensures rules == RulesFrom(old(entries), queries, Undeclared) && entries == EntriesAfterAll(old(entries), queries)
    {
      rules := [];
      for i := 0 to |queries|
        invariant rules == RulesFrom(old(entries), queries[..i], Undeclared)
        invariant entries == EntriesAfterAll(old(entries), queries[..i])
      {
        assert queries[..i+1][..i] == queries[..i];
        var q := queries[i];
        if Skipped(q.obj) {
          continue;
        }
        var entry := LookupCRDSchema(q);
        if entry.None? || !entry.value.found || entry.value.preserveUnknown {
          continue;
        }
        var ptrs := UndeclaredPointers(q.obj.spec, entry.value);
        if |ptrs| == 0 {
          continue;
        }
        rules := rules + [Rule(q.obj.id, ptrs, [])];
      }
      assert queries[..|queries|] == queries;
    }

    method ZeroValueSpecFieldRules(queries: seq<Query>) returns (rules: seq<Rule>)
      modifies this
      ensures rules == RulesFrom(old(entries), queries, ZeroValued) && entries == EntriesAfterAll(old(entries), queries)
    {
      rules := [];
      for i := 0 to |queries|
        invariant rules == RulesFrom(old(entries), queries[..i], ZeroValued)
        invariant entries == EntriesAfterAll(old(entries), queries[..i])
      {
        assert queries[..i+1][..i] == queries[..i];
        var q := queries[i];
        if Skipped(q.obj) {
          continue;
        }
        var entry := LookupCRDSchema(q);
        if entry.None? || !entry.value.found {
          continue;
        }
        var ptrs := FieldSweep.ZeroValuePointers("/spec", q.obj.spec);
        FieldSweep.SweptRule(FieldSweep.Zeros, q.obj.spec, ptrs);
        assert FieldSweep.SpecPointers(FieldSweep.Zeros, q.obj.spec) == [] <==> ptrs == [] by {
          FieldSweep.SweptPointers(FieldSweep.Zeros, q.obj.spec);
        }
        if |ptrs| == 0 {
          continue;
        }
        rules := rules + [Rule(q.obj.id, Sort(ptrs), [])];
      }
      assert queries[..|queries|] == queries;
    }
  }

  // ---------- lookups as a specification ----------

  /** One lookup: the object, the clock, and what the cluster would answer at that moment. */
  datatype Query = Query(obj: RenderedObject, now: int, answer: Answer)

  /** Core kinds and objects without spec fields are not looked up. */
  predicate Skipped(obj: RenderedObject) {
    obj.id.group == "" || !obj.spec.Obj? || |obj.spec.fields| == 0
  }

  /** What fetching from the cluster would record. */
  function Fetched(q: Query): Option<Schema> {
    match q.answer
    case NotFound => Some(Schema(false, false, {}))
    case Found(crd) => Some(SchemaOf(crd, q.obj.version))
    case _ => None
  }

  function Result(entries: Entries, q: Query): Option<Schema> {
    if Fresh(entries, CacheKey(q.obj), q.now) then Some(entries[CacheKey(q.obj)].schema) else Fetched(q)
  }

  function EntriesAfter(entries: Entries, q: Query): Entries {
    if Fresh(entries, CacheKey(q.obj), q.now) || Fetched(q).None? then entries
    else entries[CacheKey(q.obj) := Entry(Fetched(q).value, q.now)]
  }

  function EntriesAfterAll(entries: Entries, queries: seq<Query>): Entries {
    if queries == [] then entries
    else
      var before, last := EntriesAfterAll(entries, queries[..|queries|-1]), queries[|queries|-1];
      if Skipped(last.obj) then before else EntriesAfter(before, last)
  }

  /** The two families of rules that need the schema. */
  datatype Family = Undeclared | ZeroValued

  function FieldPointers(fields: set<string>): set<string> {
    set f | f in fields :: "/spec/" + Pointers.EscapeJSONPointer(f)
  }

  /** The sorted pointers a schema calls for. */
  ghost function PointersFor(family: Family, spec: Value, schema: Schema): seq<string>
    requires spec.Obj?
  {
    match family
    case Undeclared =>
      if !schema.found || schema.preserveUnknown then [] else InOrder(FieldPointers(spec.fields.Keys - schema.fields))
    case ZeroValued => if !schema.found then [] else FieldSweep.SpecPointers(FieldSweep.Zeros, spec)
  }

  ghost function RuleOf(family: Family, entries: Entries, q: Query): seq<Rule> {
    if Skipped(q.obj) || Result(entries, q).None? then []
    else
      var ptrs := PointersFor(family, q.obj.spec, Result(entries, q).value);
      if ptrs == [] then [] else [Rule(q.obj.id, ptrs, [])]
  }

  ghost function RulesFrom(entries: Entries, queries: seq<Query>, family: Family): seq<Rule> {
    if queries == [] then []
    else
      var before, last := queries[..|queries|-1], queries[|queries|-1];
      RulesFrom(entries, before, family) + RuleOf(family, EntriesAfterAll(entries, before), last)
  }

  lemma AddField(ptrs: seq<string>, fields: set<string>, field: string)
    requires NoDup(ptrs) && Elems(ptrs) == FieldPointers(fields) && field !in fields
    ensures var more := ptrs + ["/spec/" + Pointers.EscapeJSONPointer(field)];
            NoDup(more) && Elems(more) == FieldPointers(fields + {field})
  {
    var p := "/spec/" + Pointers.EscapeJSONPointer(field);
    forall f | f in fields ensures "/spec/" + Pointers.EscapeJSONPointer(f) != p {
      if "/spec/" + Pointers.EscapeJSONPointer(f) == p {
        assert ("/spec/" + Pointers.EscapeJSONPointer(f))[6..] == Pointers.EscapeJSONPointer(f);
        assert p[6..] == Pointers.EscapeJSONPointer(field);
        Pointers.EscapeBijective(f, "");
        Pointers.EscapeBijective(field, "");
      }
    }
    forall i | 0 <= i < |ptrs| ensures ptrs[i] != p { assert ptrs[i] in Elems(ptrs); }
    ElemsAppend(ptrs, [p]);
  }

  // ---------- how old a schema can be ----------

  /** The clock never runs backwards. */
  ghost predicate Monotone(history: seq<Query>) {
    forall i, j :: 0 <= i <= j < |history| ==> history[i].now <= history[j].now
  }

  /** Query `j` fetched this schema from the cluster, at most ten minutes before `now`. */
  ghost predicate RecordedBy(history: seq<Query>, j: nat, key: string, schema: Schema, now: int) {
    j < |history| && !Skipped(history[j].obj) && CacheKey(history[j].obj) == key &&
    Fetched(history[j]) == Some(schema) && 0 <= now - history[j].now <= CRD_SCHEMA_CACHE_TTL
  }

  ghost predicate RecentlyRecorded(history: seq<Query>, n: nat, schema: Schema)
    requires n < |history|
  {
    exists j: nat :: j <= n && RecordedBy(history, j, CacheKey(history[n].obj), schema, history[n].now)
  }

  /** Every cached entry was fetched by some query of the history, and stamped with its time. */
  lemma {:induction false} EntriesRecorded(history: seq<Query>, key: string)
    requires key in EntriesAfterAll(map[], history)
    ensures var e := EntriesAfterAll(map[], history)[key];
            exists j :: 0 <= j < |history| && !Skipped(history[j].obj) && CacheKey(history[j].obj) == key &&
                        Fetched(history[j]) == Some(e.schema) && history[j].now == e.fetchedAt
  {
    var n := |history| - 1;
    var before, last := history[..n], history[n];
    var entries := EntriesAfterAll(map[], before);
    if key in entries && entries[key] == EntriesAfterAll(map[], history)[key] {
      EntriesRecorded(before, key);
      var j :| 0 <= j < n && !Skipped(before[j].obj) && CacheKey(before[j].obj) == key &&
               Fetched(before[j]) == Some(entries[key].schema) && before[j].now == entries[key].fetchedAt;
      assert history[j] == before[j];
    } else {
      assert CacheKey(last.obj) == key && Fetched(last).Some? && !Skipped(last.obj);
    }
  }

  /** In every history with a monotone clock, a lookup either returns a schema that the cluster
      gave for the same key at most ten minutes earlier, or fails because the cluster fails now:
      a failed lookup is never remembered. */
  lemma LookupFresh(history: seq<Query>, n: nat)
    requires Monotone(history) && n < |history| && !Skipped(history[n].obj)
    ensures var q := history[n];
            match Result(EntriesAfterAll(map[], history[..n]), q)
            case Some(schema) => RecentlyRecorded(history, n, schema)
            case None => q.answer.NoMapping? || q.answer.GetFailed?
  {
    var q, before := history[n], history[..n];
    var key, entries := CacheKey(q.obj), EntriesAfterAll(map[], before);
    if Fresh(entries, key, q.now) {
      EntriesRecorded(before, key);
      var j :| 0 <= j < |before| && !Skipped(before[j].obj) && CacheKey(before[j].obj) == key &&
               Fetched(before[j]) == Some(entries[key].schema) && before[j].now == entries[key].fetchedAt;
      assert before[j] == history[j];
      assert RecordedBy(history, j, key, entries[key].schema, q.now);
    } else if Fetched(q).Some? {
      assert RecordedBy(history, n, key, Fetched(q).value, q.now);
    }
  }

  // ---------- what the undeclared-field pointers do ----------

  lemma FieldPointerDecodes(field: string)
    ensures Pointers.Decode("/spec/" + Pointers.EscapeJSONPointer(field)) == Some(["spec", field])
  {
    FieldSweep.DecodeSpec([field]);
    assert [field][1..] == [];
    assert Pointers.Encode([field]) == "/" + Pointers.EscapeJSONPointer(field);
    Assoc("/spec", "/", Pointers.EscapeJSONPointer(field));
    assert "/spec" + "/" == "/spec/";
    assert ["spec"] + [field] == ["spec", field];
  }

  ghost function SpecFields(fields: set<string>): set<Pointers.Path> {
    set f | f in fields :: ["spec", f]
  }

  lemma FieldPaths(fields: set<string>)
    ensures Pointers.PathsOf(InOrder(FieldPointers(fields))) == SpecFields(fields)
  {
    var ptrs := InOrder(FieldPointers(fields));
    assert forall s :: s in ptrs <==> s in Elems(ptrs);
    forall f | f in fields ensures ["spec", f] in Pointers.PathsOf(ptrs) {
      FieldPointerDecodes(f);
      assert "/spec/" + Pointers.EscapeJSONPointer(f) in ptrs;
    }
    forall p | p in Pointers.PathsOf(ptrs) ensures exists f :: f in fields && p == ["spec", f] {
      var s :| s in ptrs && Pointers.Decode(s) == Some(p);
      var f :| f in fields && s == "/spec/" + Pointers.EscapeJSONPointer(f);
      FieldPointerDecodes(f);
    }
  }

  lemma EraseTopFields(spec: Value, gone: set<string>)
    requires spec.Obj?
    ensures Pointers.EraseSet(spec, set f | f in gone :: [f]) ==
            Obj(map k | k in spec.fields && k !in gone :: spec.fields[k])
  {
    var paths := set f | f in gone :: [f];
    forall k ensures Pointers.Below(paths, k) == {} {}
    forall k ensures [k] in paths <==> k in gone {}
    forall k | k in spec.fields ensures Pointers.EraseSet(spec.fields[k], {}) == spec.fields[k] {
      Pointers.EraseSetEmpty(spec.fields[k]);
    }
  }

  /** Erasing the pointers leaves exactly the fields the schema declares, with their values. */
  lemma OnlyDeclaredRemain(raw: Value, schema: Schema)
    requires raw.Obj? && Field(raw, "spec").Obj? && schema.found && !schema.preserveUnknown
    ensures var spec := raw.fields["spec"];
            Pointers.Erase(raw, PointersFor(Undeclared, spec, schema)) ==
            Obj(raw.fields["spec" := Obj(map k | k in spec.fields && k in schema.fields :: spec.fields[k])])
  {
    var spec := raw.fields["spec"];
    var gone := spec.fields.Keys - schema.fields;
    var paths := set f | f in gone :: [f];
    FieldPaths(gone);
    Pointers.EraseIsEraseSet(raw, InOrder(FieldPointers(gone)));
    PrefixedFields(gone);
    FieldSweep.EraseInField(raw, "spec", paths);
    hide Pointers.EraseSet, Pointers.Erase, InOrder;
    EraseTopFields(spec, gone);
    assert (map k | k in spec.fields && k !in gone :: spec.fields[k]) ==
           (map k | k in spec.fields && k in schema.fields :: spec.fields[k]);
  }

  lemma PrefixedFields(gone: set<string>)
    ensures var paths := set f | f in gone :: [f];
            SpecFields(gone) == set p | p in paths :: ["spec"] + p
  {
    var paths := set f | f in gone :: [f];
    forall f | f in gone ensures ["spec"] + [f] == ["spec", f] && [f] in paths {}
  }

  // ---------- the rules of any call, whatever was looked up before ----------

  lemma {:induction false} EntriesAppend(entries: Entries, a: seq<Query>, b: seq<Query>)
    ensures EntriesAfterAll(entries, a + b) == EntriesAfterAll(EntriesAfterAll(entries, a), b)
  {
    if b == [] {
      assert a + b == a;
    } else {
      EntriesAppend(entries, a, b[..|b|-1]);
      assert (a + b)[..|a + b|-1] == a + b[..|b|-1];
    }
  }

  /** The paths that the family's rule for a spec is to ignore, by a schema. */
  ghost function Gone(family: Family, spec: Value, schema: Schema): set<Pointers.Path>
    requires spec.Obj?
  {
    if !schema.found then {}
    else
      match family
      case Undeclared =>
        if schema.preserveUnknown then {} else SpecFields(spec.fields.Keys - schema.fields)
      case ZeroValued => set p | p in FieldSweep.Paths(FieldSweep.Zeros, spec) :: ["spec"] + p
  }

  /** The rule of an object: its pointers, sorted and read by the standard, are these paths, of which
      there is one at least. */
  ghost predicate Names(family: Family, r: Rule, obj: RenderedObject, schema: Schema) {
    obj.id.group != "" && obj.spec.Obj? && Gone(family, obj.spec, schema) != {} &&
    r.id == obj.id && r.jqPathExpressions == [] && Ascending(r.jsonPointers) &&
    Pointers.PathsOf(r.jsonPointers) == Gone(family, obj.spec, schema)
  }

  lemma PointersExact(family: Family, spec: Value, schema: Schema)
    requires spec.Obj?
    ensures var ptrs := PointersFor(family, spec, schema);
            Ascending(ptrs) && Pointers.PathsOf(ptrs) == Gone(family, spec, schema) &&
            (ptrs == [] <==> Gone(family, spec, schema) == {})
  {
    match family
    case Undeclared =>
      if schema.found && !schema.preserveUnknown { UndeclaredExact(spec, schema); }
    case ZeroValued =>
      if schema.found { ZeroValuedExact(spec); }
  }

  lemma UndeclaredExact(spec: Value, schema: Schema)
    requires spec.Obj?
    ensures var fields := spec.fields.Keys - schema.fields;
            var ptrs := InOrder(FieldPointers(fields));
            Ascending(ptrs) && Pointers.PathsOf(ptrs) == SpecFields(fields) &&
            (ptrs == [] <==> SpecFields(fields) == {})
  {
    var fields := spec.fields.Keys - schema.fields;
    FieldPaths(fields);
    InOrderAscending(FieldPointers(fields));
    SomeFields(fields);
    if f :| f in fields { assert ["spec", f] in SpecFields(fields); }
  }

  lemma ZeroValuedExact(spec: Value)
    ensures var ptrs := FieldSweep.SpecPointers(FieldSweep.Zeros, spec);
            var paths := set p | p in FieldSweep.Paths(FieldSweep.Zeros, spec) :: ["spec"] + p;
            Ascending(ptrs) && Pointers.PathsOf(ptrs) == paths && (ptrs == [] <==> paths == {})
  {
    FieldSweep.SpecPaths(FieldSweep.Zeros, spec);
    FieldSweep.SpecPointersExact(FieldSweep.Zeros, spec, []);
    FieldSweep.SweptPointers(FieldSweep.Zeros, spec);
    var paths := set p | p in FieldSweep.Paths(FieldSweep.Zeros, spec) :: ["spec"] + p;
    if p :| p in FieldSweep.Paths(FieldSweep.Zeros, spec) { assert ["spec"] + p in paths; }
  }

  lemma SomeFields(fields: set<string>)
    ensures InOrder(FieldPointers(fields)) == [] <==> fields == {}
  {
    var ptrs := InOrder(FieldPointers(fields));
    if f :| f in fields {
      assert "/spec/" + Pointers.EscapeJSONPointer(f) in Elems(ptrs);
    } else if ptrs != [] {
      assert ptrs[0] in Elems(ptrs);
    }
  }

  /** A looked-up object for which the schema leaves something to ignore. */
  ghost predicate Due(family: Family, entries: Entries, q: Query) {
    !Skipped(q.obj) && Result(entries, q).Some? && Gone(family, q.obj.spec, Result(entries, q).value) != {}
  }

  lemma RuleOfExact(family: Family, entries: Entries, q: Query, r: Rule)
    ensures Due(family, entries, q) <==> RuleOf(family, entries, q) != []
    ensures r in RuleOf(family, entries, q) ==>
              Due(family, entries, q) && Names(family, r, q.obj, Result(entries, q).value)
  {
    if !Skipped(q.obj) && Result(entries, q).Some? {
      PointersExact(family, q.obj.spec, Result(entries, q).value);
    }
    hide Gone, PointersFor, Result, Pointers.PathsOf;
  }

  lemma RecordedLonger(history: seq<Query>, longer: seq<Query>, n: nat, schema: Schema)
    requires history <= longer && n < |history| && RecentlyRecorded(history, n, schema)
    ensures RecentlyRecorded(longer, n, schema)
  {
    var j: nat :| j <= n && RecordedBy(history, j, CacheKey(history[n].obj), schema, history[n].now);
    assert RecordedBy(longer, j, CacheKey(longer[n].obj), schema, longer[n].now);
  }

  /** The rule names exactly the paths to ignore of one of the call's objects, by a schema that the
      cluster gave for its kind at most ten minutes earlier. */
  ghost predicate RecentlyDue(family: Family, prior: seq<Query>, queries: seq<Query>, r: Rule) {
    exists n: nat, schema ::
      n < |queries| && RecentlyRecorded(prior + queries, |prior| + n, schema) &&
      Names(family, r, queries[n].obj, schema)
  }

  lemma DueLonger(family: Family, prior: seq<Query>, queries: seq<Query>, r: Rule)
    requires queries != [] && RecentlyDue(family, prior, queries[..|queries|-1], r)
    ensures RecentlyDue(family, prior, queries, r)
  {
    hide Names;
    var before := queries[..|queries|-1];
    var m: nat, schema :|
      m < |before| && RecentlyRecorded(prior + before, |prior| + m, schema) && Names(family, r, before[m].obj, schema);
    RecordedLonger(prior + before, prior + queries, |prior| + m, schema);
    assert before[m] == queries[m];
  }

  lemma LastDue(family: Family, prior: seq<Query>, queries: seq<Query>, r: Rule)
    requires queries != [] && Monotone(prior + queries)
    requires r in RuleOf(family, EntriesAfterAll(map[], prior + queries[..|queries|-1]), queries[|queries|-1])
    ensures RecentlyDue(family, prior, queries, r)
  {
    hide RuleOf, Names, Monotone, RecentlyRecorded, EntriesAfterAll, Gone;
    var history, n := prior + queries, |queries| - 1;
    assert history[..|prior| + n] == prior + queries[..n];
    assert history[|prior| + n] == queries[n];
    RuleOfExact(family, EntriesAfterAll(map[], history[..|prior| + n]), queries[n], r);
    LookupFresh(history, |prior| + n);
  }

  /** Whatever was looked up before, on a monotone clock each rule of a call names exactly the
      paths to ignore of one of its objects, by a schema the cluster gave for its kind at most ten
      minutes earlier. */
  lemma {:induction false} RulesSound(family: Family, prior: seq<Query>, queries: seq<Query>, r: Rule)
    requires Monotone(prior + queries) && r in RulesFrom(EntriesAfterAll(map[], prior), queries, family)
    ensures RecentlyDue(family, prior, queries, r)
  {
    hide RuleOf, RecentlyDue, EntriesAfterAll;
    var entries, n := EntriesAfterAll(map[], prior), |queries| - 1;
    var before := queries[..n];
    assert (prior + queries)[..|prior| + n] == prior + before;
    if r in RulesFrom(entries, before, family) {
      RulesSound(family, prior, before, r);
      DueLonger(family, prior, queries, r);
    } else {
      EntriesAppend(map[], prior, before);
      LastDue(family, prior, queries, r);
    }
  }

  /** Conversely, whatever is cached, each looked-up object of a call with paths to ignore gets a
      rule that names them. */
  lemma {:induction false} RulesComplete(family: Family, entries: Entries, queries: seq<Query>, n: nat)
    requires n < |queries| && Due(family, EntriesAfterAll(entries, queries[..n]), queries[n])
    ensures exists r :: r in RulesFrom(entries, queries, family) &&
                        Names(family, r, queries[n].obj,
                              Result(EntriesAfterAll(entries, queries[..n]), queries[n]).value)
  {
    hide Names, RuleOf, Due, Result, EntriesAfterAll;
    var met, last := EntriesAfterAll(entries, queries[..n]), |queries| - 1;
    if n < last {
      assert queries[..last][..n] == queries[..n];
      RulesComplete(family, entries, queries[..last], n);
    } else {
      RuleOfExact(family, met, queries[n], Rule(queries[n].obj.id, [], []));
      var r := RuleOf(family, met, queries[n])[0];
      RuleOfExact(family, met, queries[n], r);
      assert r in RuleOf(family, met, queries[n]);
      assert r in RulesFrom(entries, queries, family);
    }
  }
}
