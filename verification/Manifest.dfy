/** Multi-document manifests, line by line: splitting at `---` lines, parsing into keyed
    resources, and collecting the CRDs a chart ships
    (pkg/ignoregen/ignoregen.go:201-231, 515-541, 561-610). */
module Manifest {
  import opened Text
  import opened Json
  import opened Rules

  /** A text as its lines; the empty text has no lines. */
  type Lines = seq<string>

  // ---------- whitespace ----------

  /** `\s` within a line, as Go's regexp package reads it. */
  predicate IsBlankChar(c: char) {
    c == ' ' || c == '\t' || c == '\U{C}' || c == '\r'
  }

  /** unicode.IsSpace. */
  predicate IsSpace(c: char) {
    IsBlankChar(c) || c == '\n' || c == '\U{B}' || c == '\U{85}' || c == '\U{A0}' || c == '\U{1680}' ||
    '\U{2000}' <= c <= '\U{200A}' || c == '\U{2028}' || c == '\U{2029}' || c == '\U{202F}' ||
    c == '\U{205F}' || c == '\U{3000}'
  }

  function TrimLeft(s: string): (r: string)
    ensures |r| <= |s| && (r != "" ==> !IsSpace(r[0]))
  {
    if s != "" && IsSpace(s[0]) then TrimLeft(s[1..]) else s
  }

  function TrimRight(s: string): (r: string)
    ensures r <= s && (r != "" ==> !IsSpace(r[|r|-1]))
  {
    if s != "" && IsSpace(s[|s|-1]) then TrimRight(s[..|s|-1]) else s
  }

  function DropBlankFront(text: Lines): (r: Lines)
    ensures |r| <= |text| && (r != [] ==> TrimLeft(r[0]) != "")
  {
    if text != [] && TrimLeft(text[0]) == "" then DropBlankFront(text[1..]) else text
  }

  function DropBlankBack(text: Lines): (r: Lines)
    ensures r <= text && (r != [] ==> TrimRight(r[|r|-1]) != "")
  {
    if text != [] && TrimRight(text[|text|-1]) == "" then DropBlankBack(text[..|text|-1]) else text
  }

  function TrimFront(text: Lines): (r: Lines)
    ensures |r| <= |text|
  {
    var t := DropBlankFront(text);
    if t == [] then [] else t[0 := TrimLeft(t[0])]
  }

  function TrimBack(text: Lines): (r: Lines)
    ensures |r| <= |text|
  {
    var t := DropBlankBack(text);
    if t == [] then [] else t[|t|-1 := TrimRight(t[|t|-1])]
  }

  /** `strings.TrimSpace`. */
  function Trim(text: Lines): (r: Lines)
    ensures |r| <= |text|
  {
    TrimBack(TrimFront(text))
  }

  // ---------- splitting ----------

  /** A line that `(?m)^---\s*$` matches. */
  predicate IsSeparator(line: string) {
    |line| >= 3 && line[..3] == "---" && forall i :: 3 <= i < |line| ==> IsBlankChar(line[i])
  }

  /** How one more line in front changes the parts. */
  function Prepend(line: string, parts: seq<Lines>): seq<Lines>
    requires parts != []
  {
    if IsSeparator(line) then [[]] + parts else [[line] + parts[0]] + parts[1..]
  }

  function Split(text: Lines): (parts: seq<Lines>)
    ensures parts != []
  {
    if text == [] then [[]]
    else
      Prepend(text[0], Split(text[1..]))
  }

  function Kept(part: Lines): (docs: seq<Lines>)
    ensures |docs| <= 1
  {
    if Trim(part) == [] then [] else [Trim(part)]
  }

  /** Trim each part and drop the blank ones. */
  function Tidy(parts: seq<Lines>): seq<Lines> {
    FlatMap(Kept, parts)
  }

  /** The documents of a manifest. */
  function Docs(text: Lines): seq<Lines> {
    Tidy(Split(text))
  }

  /** `strings.Join(texts, "\n---\n")`. */
  function Join(texts: seq<Lines>): Lines {
    if texts == [] then []
    else if |texts| == 1 then texts[0]
    else texts[0] + (["---"] + Join(texts[1..]))
  }

  function DocsOfAll(texts: seq<Lines>): seq<Lines> {
    FlatMap(Docs, texts)
  }

  lemma SplitJoined(a: Lines, b: Lines)
    ensures Split(a + (["---"] + b)) == Split(a) + Split(b)
  {
    SplitsExactly(a, "---", b);
  }

  lemma SplitPrepend(line: string, parts: seq<Lines>, more: seq<Lines>)
    requires parts != []
    ensures Prepend(line, parts + more) == Prepend(line, parts) + more
  {
    if IsSeparator(line) {
      Assoc([[]], parts, more);
    } else {
      assert (parts + more)[1..] == parts[1..] + more;
      Assoc([[line] + parts[0]], parts[1..], more);
    }
  }

  /** Splitting what was joined gives each text's own documents, in order, for all texts. */
  lemma {:induction false} JoinRoundTrip(texts: seq<Lines>)
    ensures Docs(Join(texts)) == DocsOfAll(texts)
  {
    if texts == [] {
      FlatMapOne(Kept, []);
    } else if |texts| == 1 {
      assert texts == [texts[0]];
      FlatMapOne(Docs, texts[0]);
    } else {
      JoinRoundTrip(texts[1..]);
      SplitJoined(texts[0], Join(texts[1..]));
      FlatMapAppend(Kept, Split(texts[0]), Split(Join(texts[1..])));
    }
  }

  // ---------- a document on its own ----------

  function Separators(text: Lines): nat {
    if text == [] then 0 else (if IsSeparator(text[0]) then 1 else 0) + Separators(text[1..])
  }

  function LineCount(parts: seq<Lines>): nat {
    if parts == [] then 0 else |parts[0]| + LineCount(parts[1..])
  }

  lemma {:induction false} SplitLineCount(text: Lines)
    ensures LineCount(Split(text)) + Separators(text) == |text|
    ensures Separators(text) == 0 ==> Split(text) == [text]
  {
    if text != [] {
      SplitLineCount(text[1..]);
      assert text == [text[0]] + text[1..];
    }
  }

  /** Three dashes at the start of the line, and nothing but blanks after them. */
  ghost predicate Dashes(line: string) {
    "---" <= line && forall i :: 3 <= i < |line| ==> line[i] in " \t\r\U{C}"
  }

  lemma SeparatorIsDashes(line: string)
    ensures IsSeparator(line) <==> Dashes(line)
  {
    forall c: char ensures c in " \t\r\U{C}" <==> IsBlankChar(c) {}
    hide IsBlankChar;
  }

  /** A text is cut at every line of dashes and nowhere else: the two laws determine the parts. */
  lemma {:induction false} SplitsExactly(a: Lines, line: string, b: Lines)
    ensures Dashes(line) ==> Split(a + ([line] + b)) == Split(a) + Split(b)
    ensures (forall l :: l in a ==> !Dashes(l)) ==> Split(a) == [a]
  {
    var rest := [line] + b;
    SeparatorIsDashes(line);
    if a == [] {
      assert a + rest == rest && rest[1..] == b;
    } else {
      SplitsExactly(a[1..], line, b);
      SeparatorIsDashes(a[0]);
      assert (a + rest)[1..] == a[1..] + rest;
      SplitPrepend(a[0], Split(a[1..]), Split(b));
      assert a == [a[0]] + a[1..];
      hide Dashes, IsSeparator;
    }
  }

  lemma {:induction false} TidyLineCount(parts: seq<Lines>)
    ensures LineCount(Tidy(parts)) <= LineCount(parts)
  {
    if parts != [] {
      TidyLineCount(parts[1..]);
      if Kept(parts[0]) != [] {
        assert Tidy(parts)[0] == Trim(parts[0]) && Tidy(parts)[1..] == Tidy(parts[1..]);
      } else {
        assert Tidy(parts) == Tidy(parts[1..]);
      }
    }
  }

  lemma {:induction false} SeparatorsMember(text: Lines)
    ensures Separators(text) == 0 <==> forall line :: line in text ==> !IsSeparator(line)
  {
    if text != [] {
      SeparatorsMember(text[1..]);
      assert forall line :: line in text <==> line == text[0] || line in text[1..];
    }
  }

  lemma TrimOfTrimmed(text: Lines)
    ensures Trim(Trim(text)) == Trim(text)
  {
    hide IsSpace;
    var t := TrimFront(text);
    var r := TrimBack(t);
    if r != [] {
      var kept := DropBlankBack(t);
      assert kept[0] == t[0];
      if |kept| == 1 { TrimRightKeepsFront(t[0]); }
      assert r[0] != "" && !IsSpace(r[0][0]);
      var last := r[|r|-1];
      assert last != "" && !IsSpace(last[|last|-1]);
    }
  }

  lemma {:induction false} TrimRightKeepsFront(s: string)
    requires s != "" && !IsSpace(s[0])
    ensures TrimRight(s) != "" && TrimRight(s)[0] == s[0]
  {
    if IsSpace(s[|s|-1]) { TrimRightKeepsFront(s[..|s|-1]); }
  }

  lemma NoSeparatorAlone(doc: Lines)
    requires doc != [] && Trim(doc) == doc && Separators(doc) == 0
    ensures Docs(doc) == [doc]
  {
    SplitLineCount(doc);
    FlatMapOne(Kept, doc);
  }

  lemma AloneNoSeparator(doc: Lines)
    requires Docs(doc) == [doc]
    ensures Separators(doc) == 0
  {
    SplitLineCount(doc);
    TidyLineCount(Split(doc));
    assert [doc][1..] == [];
    assert LineCount([doc]) == |doc|;
  }

  /** A trimmed document splits into itself exactly when no line of it is a separator. It can
      have one only where trimming uncovered an indented or padded `---`. */
  lemma DocStandsAlone(text: Lines)
    requires Trim(text) != []
    ensures Docs(Trim(text)) == [Trim(text)] <==> forall line :: line in Trim(text) ==> !IsSeparator(line)
  {
    var doc := Trim(text);
    TrimOfTrimmed(text);
    SeparatorsMember(doc);
    if Docs(doc) == [doc] { AloneNoSeparator(doc); }
    if Separators(doc) == 0 { NoSeparatorAlone(doc); }
  }

  /** No trimmed document of the text has a separator line. */
  ghost predicate Clean(text: Lines) {
    forall doc :: doc in Docs(text) ==> forall line :: line in doc ==> !IsSeparator(line)
  }

  lemma {:induction false} TidyTrimmed(parts: seq<Lines>, doc: Lines)
    requires doc in Tidy(parts)
    ensures doc != [] && exists part :: part in parts && Trim(part) == doc
  {
    if doc in Tidy(parts[1..]) {
      TidyTrimmed(parts[1..], doc);
      var part :| part in parts[1..] && Trim(part) == doc;
      assert part in parts;
    } else {
      assert parts[0] in parts && Trim(parts[0]) == doc;
    }
  }

  lemma CleanDoc(text: Lines, doc: Lines)
    requires Clean(text) && doc in Docs(text)
    ensures Docs(doc) == [doc]
  {
    TidyTrimmed(Split(text), doc);
    var part :| part in Split(text) && Trim(part) == doc;
    DocStandsAlone(part);
  }

  // ---------- parsing ----------

  datatype Resource = Resource(id: ResourceId, version: string, raw: Value) {
    function Data(): Value { Field(raw, "data") }
    function Spec(): Value { Field(raw, "spec") }
    function Metadata(): Value { Field(raw, "metadata") }
  }

  /** YAML decoding, taken as given: `None` when it fails. */
  type Decoder = Lines -> Option<Value>

  function BeforeSlash(s: string): string {
    if s == "" || s[0] == '/' then "" else [s[0]] + BeforeSlash(s[1..])
  }

  /** The resource a decoded document describes; `None` without a kind and a name. */
  function ResourceOf(v: Value): Option<Resource> {
    var apiVersion := AsString(Field(v, "apiVersion"));
    var kind := AsString(Field(v, "kind"));
    var metadata := Field(v, "metadata");
    var name := AsString(Field(metadata, "name"));
    var ns := AsString(Field(metadata, "namespace"));
    if kind == "" || name == "" then None
    else
      var group := BeforeSlash(apiVersion);
      if |group| < |apiVersion| then Some(Resource(ResourceId(group, kind, ns, name), apiVersion[|group|+1..], v))
      else Some(Resource(ResourceId("", kind, ns, name), apiVersion, v))
  }

  function Parse(decode: Decoder, doc: Lines): Option<Resource> {
    match decode(doc)
    case None => None
    case Some(v) => ResourceOf(v)
  }

  /** What a decoded document says of the resource: a kind and a name, which are texts and not empty;
      a namespace, which may be missing; and an apiVersion, which is the version alone, or the group up
      to the first slash and the version after it. */
  predicate Describes(v: Value, r: Resource) {
    var api := TextAt(v, ["apiVersion"]);
    TextAt(v, ["kind"]) != "" && TextAt(v, ["metadata", "name"]) != "" &&
    r.id.kind == TextAt(v, ["kind"]) && r.id.name == TextAt(v, ["metadata", "name"]) &&
    r.id.namespace == TextAt(v, ["metadata", "namespace"]) && r.raw == v &&
    (if '/' in api then '/' !in r.id.group && api == r.id.group + "/" + r.version
     else r.id.group == "" && api == r.version)
  }

  lemma {:induction false} BeforeSlashCuts(s: string)
    ensures '/' !in s ==> BeforeSlash(s) == s
    ensures '/' in s ==> |BeforeSlash(s)| < |s| && s == BeforeSlash(s) + "/" + s[|BeforeSlash(s)| + 1..]
    ensures '/' !in BeforeSlash(s)
  {
    if s != "" && s[0] != '/' {
      var tail := s[1..];
      var front := BeforeSlash(tail);
      assert s == [s[0]] + tail;
      BeforeSlashCuts(tail);
      assert BeforeSlash(s) == [s[0]] + front;
      hide BeforeSlash;
      if '/' in tail {
        assert s[|front| + 2..] == tail[|front| + 1..];
        Assoc([s[0]], front + "/", tail[|front| + 1..]);
        Assoc([s[0]], front, "/");
      }
    }
  }

  lemma BeforeSlashIs(s: string, group: string, version: string)
    requires '/' !in group && s == group + "/" + version
    ensures BeforeSlash(s) == group && s[|group| + 1..] == version
  {
    BeforeSlashCuts(s);
    assert s[|group|] == '/';
    var cut := BeforeSlash(s);
    CutAtSlash(group, version, cut, s[|cut| + 1..]);
  }

  lemma MetadataText(v: Value, key: string)
    ensures TextAt(v, ["metadata", key]) == AsString(Field(Field(v, "metadata"), key))
  {
    assert ["metadata", key] == ["metadata"] + [key];
    LookupCons(v, "metadata", [key]);
    LookupOne(Field(v, "metadata"), key);
  }

  /** Parsing a document gives a resource exactly when the decoded document describes it. */
  lemma ParsedExactly(decode: Decoder, doc: Lines, r: Resource)
    ensures Parse(decode, doc) == Some(r) <==> decode(doc).Some? && Describes(decode(doc).value, r)
  {
    if decode(doc).Some? {
      var v := decode(doc).value;
      LookupOne(v, "apiVersion");
      LookupOne(v, "kind");
      MetadataText(v, "name");
      MetadataText(v, "namespace");
      var api := AsString(Field(v, "apiVersion"));
      BeforeSlashCuts(api);
      if '/' !in r.id.group && api == r.id.group + "/" + r.version { BeforeSlashIs(api, r.id.group, r.version); }
      hide TextAt, Field, AsString, BeforeSlash, Lookup;
    }
  }

  /** The keyed resources of a list of documents; a later document replaces an earlier one. */
  function Keyed(decode: Decoder, docs: seq<Lines>): map<string, Resource> {
    if docs == [] then map[]
    else
      var before := Keyed(decode, docs[..|docs|-1]);
      match Parse(decode, docs[|docs|-1])
      case None => before
      case Some(r) => before[Key(r.id) := r]
  }

  method ParseResources(decode: Decoder, rendered: Lines) returns (resources: map<string, Resource>)
    ensures resources == Keyed(decode, Docs(rendered))
  {
    hide Docs, ResourceOf, Key;
    resources := map[];
    var docs := Docs(rendered);
    for i := 0 to |docs|
      invariant resources == Keyed(decode, docs[..i])
    {
      assert docs[..i+1][..i] == docs[..i];
      match decode(docs[i]) {
        case None =>
        case Some(v) =>
          var r := ResourceOf(v);
          if r.Some? {
            resources := resources[Key(r.value.id) := r.value];
          }
      }
    }
    assert docs[..|docs|] == docs;
  }

  /** Document `i` is the last one that describes a resource with this key. */
  ghost predicate LastWith(decode: Decoder, docs: seq<Lines>, key: string, i: nat) {
    i < |docs| && HasKey(Parse(decode, docs[i]), key) &&
    forall j :: i < j < |docs| ==> !HasKey(Parse(decode, docs[j]), key)
  }

  predicate HasKey(r: Option<Resource>, key: string) {
    r.Some? && Key(r.value.id) == key
  }

  /** A key holds the last document's resource that has it, and only such keys are held. */
  lemma {:induction false} KeyedIsLast(decode: Decoder, docs: seq<Lines>, key: string)
    ensures key in Keyed(decode, docs) ==>
              exists i: nat ::
                LastWith(decode, docs, key, i) && Parse(decode, docs[i]) == Some(Keyed(decode, docs)[key])
    ensures key !in Keyed(decode, docs) ==> forall i :: 0 <= i < |docs| ==> !HasKey(Parse(decode, docs[i]), key)
  {
    hide Parse, Key;
    if docs != [] {
      var n := |docs| - 1;
      var before := docs[..n];
      KeyedIsLast(decode, before, key);
      if HasKey(Parse(decode, docs[n]), key) {
        assert LastWith(decode, docs, key, n);
      } else {
        assert key in Keyed(decode, docs) <==> key in Keyed(decode, before);
        if key in Keyed(decode, before) {
          var i: nat :|
            LastWith(decode, before, key, i) && Parse(decode, before[i]) == Some(Keyed(decode, before)[key]);
          assert LastWith(decode, docs, key, i) by {
            forall j | i < j < |docs| ensures !HasKey(Parse(decode, docs[j]), key) {
              if j < n { assert before[j] == docs[j]; }
            }
          }
        } else {
          forall i | 0 <= i < |docs| ensures !HasKey(Parse(decode, docs[i]), key) {
            if i < n { assert before[i] == docs[i]; }
          }
        }
      }
    }
  }

  /** Every entry is stored under its own key. */
  ghost predicate WellKeyed(resources: map<string, Resource>) {
    forall key :: key in resources ==> Key(resources[key].id) == key
  }

  lemma KeyedWellKeyed(decode: Decoder, docs: seq<Lines>)
    ensures WellKeyed(Keyed(decode, docs))
  {
    forall key | key in Keyed(decode, docs) ensures Key(Keyed(decode, docs)[key].id) == key {
      KeyedIsLast(decode, docs, key);
    }
  }
}
