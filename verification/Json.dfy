/** Decoded YAML or JSON values, as `map[string]any` and friends hold them. */
module Json {
  import opened Text

  /** A number is kept as Go prints the float64 (`%v`). That text is different for different
      numbers, so equality here is equality of the marshalled JSON. */
  datatype Value =
    | Null
    | Bool(b: bool)
    | Num(text: string)
    | Str(s: string)
    | Arr(items: seq<Value>)
    | Obj(fields: map<string, Value>)

  /** `m[key]` on a Go map: nil when the key is absent or the map is nil. */
  function Field(v: Value, key: string): Value {
    if v.Obj? && key in v.fields then v.fields[key] else Null
  }

  /** `x, _ := v.(string)`. */
  function AsString(v: Value): string {
    if v.Str? then v.s else ""
  }

  /** The value a path of map keys leads to. Arrays are never entered. */
  function Lookup(v: Value, path: seq<string>): Option<Value>
    decreases |path|
  {
    if path == [] then Some(v)
    else if v.Obj? && path[0] in v.fields then Lookup(v.fields[path[0]], path[1..])
    else None
  }

  /** The text at a path; empty where there is none. */
  function TextAt(v: Value, path: seq<string>): string {
    match Lookup(v, path)
    case Some(Str(s)) => s
    case _ => ""
  }

  lemma LookupOne(v: Value, key: string)
    ensures Lookup(v, [key]) == if v.Obj? && key in v.fields then Some(v.fields[key]) else None
    ensures TextAt(v, [key]) == AsString(Field(v, key))
  {
    assert [key][1..] == [];
  }

  /** A path read one field after the other. */
  lemma LookupCons(v: Value, key: string, rest: seq<string>)
    requires rest != []
    ensures Lookup(v, [key] + rest) == Lookup(Field(v, key), rest)
  {
    assert ([key] + rest)[1..] == rest;
    assert Lookup(Null, rest) == None;
  }

  lemma {:induction false} LookupAppend(v: Value, path: seq<string>, rest: seq<string>)
    ensures Lookup(v, path + rest) ==
            match Lookup(v, path) case Some(w) => Lookup(w, rest) case None => None
  {
    if path == [] {
      assert path + rest == rest;
    } else if v.Obj? && path[0] in v.fields {
      LookupAppend(v.fields[path[0]], path[1..], rest);
      assert (path + rest)[1..] == path[1..] + rest;
    }
  }
}
