/** Argo CD's resource warnings and the rules derived from them, and the compare-options
    annotation (pkg/controller/helmrelease_controller.go:80-91, 728-835). */
module Warnings {
  import opened Text
  import opened Rules
  import Manifest

  // ---------- searching ----------

  predicate HasPrefix(s: string, prefix: string) {
    |prefix| <= |s| && s[..|prefix|] == prefix
  }

  /** `strings.Index`. */
  function Index(s: string, sep: string): Option<nat> {
    if HasPrefix(s, sep) then Some(0)
    else if s == "" then None
    else match Index(s[1..], sep) case Some(i) => Some(i + 1) case None => None
  }

  /** `sep` occurs at `i` and nowhere before. */
  ghost predicate FirstAt(s: string, sep: string, i: nat) {
    i <= |s| && HasPrefix(s[i..], sep) && forall j :: 0 <= j < i ==> !HasPrefix(s[j..], sep)
  }

  lemma {:induction false} IndexFirst(s: string, sep: string)
    ensures match Index(s, sep)
            case Some(i) => FirstAt(s, sep, i)
            case None => forall j :: 0 <= j <= |s| ==> !HasPrefix(s[j..], sep)
  {
    assert s[0..] == s;
    if !HasPrefix(s, sep) && s != "" {
      IndexFirst(s[1..], sep);
      forall j | 1 <= j <= |s| ensures s[j..] == s[1..][j-1..] {}
    }
  }

  lemma FirstAtUnique(s: string, sep: string, i: nat, j: nat)
    requires FirstAt(s, sep, i) && FirstAt(s, sep, j)
    ensures i == j
  {
  }

  /** The part before the first `/`, and the part after it if there is one. */
  function Cut(s: string): (string, Option<string>) {
    var before := Manifest.BeforeSlash(s);
    if |before| < |s| then (before, Some(s[|before|+1..])) else (s, None)
  }

  lemma {:induction false} CutSlash(s: string)
    ensures var (before, after) := Cut(s);
            '/' !in before && s == match after case Some(rest) => before + "/" + rest case None => before
  {
    if s != "" && s[0] != '/' { CutSlash(s[1..]); }
  }

  lemma {:induction false} CutOf(before: string, rest: string)
    requires '/' !in before
    ensures Cut(before + "/" + rest) == (before, Some(rest))
    ensures Cut(before) == (before, None)
  {
    if before == "" {
      assert before + "/" + rest == "/" + rest;
    } else {
      CutOf(before[1..], rest);
      assert (before + "/" + rest)[1..] == before[1..] + "/" + rest;
      assert before == [before[0]] + before[1..];
    }
  }

  // ---------- RepeatedResourceWarning ----------

  const RESOURCE_PREFIX := "Resource "
  const APPEARED := " appeared "

  /** The message Argo CD prints for a resource that appears more than once. */
  function PrintRepeated(id: ResourceId, tail: string): string {
    RESOURCE_PREFIX + (Key(id) + (APPEARED + tail))
  }

  /** `strings.SplitN(key, "/", 4)` with its checks. */
  function ParseKey(key: string): Option<ResourceId> {
    match Cut(key)
    case (group, Some(rest1)) => (
      match Cut(rest1)
      case (kind, Some(rest2)) => (
        match Cut(rest2)
        case (namespace, Some(name)) =>
          if kind == "" || name == "" then None else Some(ResourceId(group, kind, namespace, name))
        case _ => None)
      case _ => None)
    case _ => None
  }

  function ParseRepeatedResourceWarning(message: string): Option<ResourceId> {
    if !HasPrefix(message, RESOURCE_PREFIX) then None
    else
      var rest := message[|RESOURCE_PREFIX|..];
      match Index(rest, APPEARED)
      case None => None
      case Some(i) => if i <= |rest| then ParseKey(rest[..i]) else None
  }

  /** A key that the printed form determines. */
  predicate Printable(id: ResourceId) {
    SlashFree(id) && id.kind != "" && id.name != ""
  }

  lemma ParseKeyInverts(key: string, id: ResourceId)
    ensures ParseKey(key) == Some(id) <==> Printable(id) && key == Key(id)
  {
    var tail2 := id.namespace + "/" + id.name;
    var tail1 := id.kind + "/" + tail2;
    assert Key(id) == id.group + "/" + tail1;
    if SlashFree(id) {
      CutOf(id.group, tail1);
      CutOf(id.kind, tail2);
      CutOf(id.namespace, id.name);
    }
    if ParseKey(key) == Some(id) {
      CutSlash(key);
      var rest1 := Cut(key).1.value;
      CutSlash(rest1);
      CutSlash(Cut(rest1).1.value);
    }
  }

  /** The message is the print of this key, and the marker does not occur any earlier. */
  ghost predicate RepeatedWith(message: string, id: ResourceId, tail: string) {
    message == PrintRepeated(id, tail) && FirstAt(Key(id) + (APPEARED + tail), APPEARED, |Key(id)|)
  }

  lemma RepeatedIsPrinted(message: string, id: ResourceId)
    requires ParseRepeatedResourceWarning(message) == Some(id)
    ensures Printable(id) && exists tail :: RepeatedWith(message, id, tail)
  {
    hide ParseKey, Printable, Index, Key;
    var rest := message[|RESOURCE_PREFIX|..];
    IndexFirst(rest, APPEARED);
    var i := Index(rest, APPEARED).value;
    ParseKeyInverts(rest[..i], id);
    var tail := rest[i + |APPEARED|..];
    assert rest[i..] == APPEARED + tail;
    assert rest == Key(id) + (APPEARED + tail);
    assert RepeatedWith(message, id, tail);
  }

  lemma PrintedIsRead(message: string, id: ResourceId, tail: string)
    requires Printable(id) && RepeatedWith(message, id, tail)
    ensures ParseRepeatedResourceWarning(message) == Some(id)
  {
    hide ParseKey, Printable, Index, Key;
    var rest := message[|RESOURCE_PREFIX|..];
    assert rest == Key(id) + (APPEARED + tail);
    IndexFirst(rest, APPEARED);
    assert HasPrefix(rest[|Key(id)|..], APPEARED);
    FirstAtUnique(rest, APPEARED, Index(rest, APPEARED).value, |Key(id)|);
    assert rest[..|Key(id)|] == Key(id);
    ParseKeyInverts(Key(id), id);
  }

  /** The parser succeeds exactly on the printed messages of printable keys in which the marker
      does not already occur, and then returns the printed key. */
  lemma RepeatedInverts(message: string, id: ResourceId)
    ensures ParseRepeatedResourceWarning(message) == Some(id) <==>
            Printable(id) && exists tail :: RepeatedWith(message, id, tail)
  {
    hide Printable, ParseRepeatedResourceWarning, RepeatedWith;
    if ParseRepeatedResourceWarning(message) == Some(id) { RepeatedIsPrinted(message, id); }
    if tail :| Printable(id) && RepeatedWith(message, id, tail) { PrintedIsRead(message, id, tail); }
  }

  /** No blank in front of a marker that starts with a blank: the first occurrence is where it was put. */
  lemma MarkerFirst(key: string, marker: string, tail: string)
    requires ' ' !in key && marker != "" && marker[0] == ' '
    ensures FirstAt(key + (marker + tail), marker, |key|)
  {
    var s := key + (marker + tail);
    assert s[|key|..] == marker + tail;
    forall j | 0 <= j < |key| ensures !HasPrefix(s[j..], marker) {
      assert s[j..][0] == key[j];
      assert key[j] in key;
    }
  }

  /** Every printed message of a printable key without blanks is read back, whatever its tail;
      the name may contain slashes. */
  lemma RepeatedRoundTrip(id: ResourceId, tail: string)
    requires Printable(id) && ' ' !in Key(id)
    ensures ParseRepeatedResourceWarning(PrintRepeated(id, tail)) == Some(id)
  {
    MarkerFirst(Key(id), APPEARED, tail);
    PrintedIsRead(PrintRepeated(id, tail), id, tail);
  }

  // ---------- SharedResourceWarning ----------

  const SHARED := " is part of applications "

  function PrintShared(kind: string, name: string, tail: string): string {
    (kind + "/" + name) + (SHARED + tail)
  }

  function ParseSharedResourceWarning(message: string): Option<(string, string)> {
    match Index(message, SHARED)
    case None => None
    case Some(i) =>
      if i > |message| then None
      else
        match Cut(message[..i])
        case (kind, Some(name)) => if kind == "" || name == "" then None else Some((kind, name))
        case _ => None
  }

  predicate PrintableName(kind: string, name: string) {
    '/' !in kind && kind != "" && name != ""
  }

  /** The message is the print of this kind and name, and the marker does not occur any earlier. */
  ghost predicate SharedWith(message: string, kind: string, name: string, tail: string) {
    message == PrintShared(kind, name, tail) &&
    FirstAt((kind + "/" + name) + (SHARED + tail), SHARED, |kind + "/" + name|)
  }

  lemma SharedIsPrinted(message: string, kind: string, name: string)
    requires ParseSharedResourceWarning(message) == Some((kind, name))
    ensures PrintableName(kind, name) && exists tail :: SharedWith(message, kind, name, tail)
  {
    hide Index, Cut;
    IndexFirst(message, SHARED);
    var i := Index(message, SHARED).value;
    CutSlash(message[..i]);
    var tail := message[i + |SHARED|..];
    MarkerAt(message, SHARED, i, tail);
    assert message == PrintShared(kind, name, tail);
    assert SharedWith(message, kind, name, tail);
  }

  lemma MarkerAt(message: string, marker: string, i: nat, tail: string)
    requires FirstAt(message, marker, i) && i + |marker| <= |message| && tail == message[i + |marker|..]
    ensures message == message[..i] + (marker + tail)
  {
    assert message[i..] == marker + tail;
  }

  lemma PrintedNameIsRead(message: string, kind: string, name: string, tail: string)
    requires PrintableName(kind, name) && SharedWith(message, kind, name, tail)
    ensures ParseSharedResourceWarning(message) == Some((kind, name))
  {
    hide Index, Cut;
    var key := kind + "/" + name;
    IndexFirst(message, SHARED);
    assert HasPrefix(message[|key|..], SHARED);
    FirstAtUnique(message, SHARED, Index(message, SHARED).value, |key|);
    assert message[..|key|] == key;
    CutOf(kind, name);
  }

  /** The parser succeeds exactly on the printed messages in which the marker does not already
      occur, and then returns the printed kind and name. */
  lemma SharedInverts(message: string, kind: string, name: string)
    ensures ParseSharedResourceWarning(message) == Some((kind, name)) <==>
            PrintableName(kind, name) && exists tail :: SharedWith(message, kind, name, tail)
  {
    hide ParseSharedResourceWarning, SharedWith;
    if ParseSharedResourceWarning(message) == Some((kind, name)) { SharedIsPrinted(message, kind, name); }
    if tail :| PrintableName(kind, name) && SharedWith(message, kind, name, tail) {
      PrintedNameIsRead(message, kind, name, tail);
    }
  }

  lemma SharedRoundTrip(kind: string, name: string, tail: string)
    requires PrintableName(kind, name) && ' ' !in kind && ' ' !in name
    ensures ParseSharedResourceWarning(PrintShared(kind, name, tail)) == Some((kind, name))
  {
    MarkerFirst(kind + "/" + name, SHARED, tail);
    PrintedNameIsRead(PrintShared(kind, name, tail), kind, name, tail);
  }

  // ---------- rules from an Application's conditions ----------

  datatype Condition = Condition(type_: string, message: string)

  const REPEATED_RESOURCE := "RepeatedResourceWarning"
  const SHARED_RESOURCE := "SharedResourceWarning"
  const CONTESTED_POINTERS: seq<string> := ["/spec", "/metadata/labels", "/metadata/annotations"]

  /** The first resource of the inventory with this kind and name. */
  function LookupResourceKey(resources: seq<ResourceId>, kind: string, name: string): Option<ResourceId> {
    if resources == [] then None
    else if resources[0].kind == kind && resources[0].name == name then Some(resources[0])
    else LookupResourceKey(resources[1..], kind, name)
  }

  lemma {:induction false} LookupSound(resources: seq<ResourceId>, kind: string, name: string)
    ensures match LookupResourceKey(resources, kind, name)
            case Some(id) => id in resources && id.kind == kind && id.name == name
            case None => forall id :: id in resources ==> id.kind != kind || id.name != name
  {
    if resources != [] { LookupSound(resources[1..], kind, name); }
  }

  /** The resource a condition contests, if it names one. */
  function Contested(c: Condition, resources: seq<ResourceId>): Option<ResourceId> {
    if c.type_ == REPEATED_RESOURCE then ParseRepeatedResourceWarning(c.message)
    else if c.type_ == SHARED_RESOURCE then
      match ParseSharedResourceWarning(c.message)
      case Some((kind, name)) => LookupResourceKey(resources, kind, name)
      case None => None
    else None
  }

  function ContestedRules(conditions: seq<Condition>, resources: seq<ResourceId>): seq<Rule> {
    if conditions == [] then []
    else
      ContestedRules(conditions[..|conditions|-1], resources) +
      match Contested(conditions[|conditions|-1], resources)
      case Some(id) => [Rule(id, CONTESTED_POINTERS, [])]
      case None => []
  }

  method SharedResourceIgnoreRules(conditions: seq<Condition>, resources: seq<ResourceId>) returns (rules: seq<Rule>)
    ensures rules == ContestedRules(conditions, resources)
  {
    rules := [];
    for i := 0 to |conditions|
      invariant rules == ContestedRules(conditions[..i], resources)
    {
      assert conditions[..i+1][..i] == conditions[..i];
      var c := conditions[i];
      var key: Option<ResourceId>;
      if c.type_ == REPEATED_RESOURCE {
        key := ParseRepeatedResourceWarning(c.message);
      } else if c.type_ == SHARED_RESOURCE {
        match ParseSharedResourceWarning(c.message) {
          case Some((kind, name)) => key := LookupResourceKey(resources, kind, name);
          case None => key := None;
        }
      } else {
        continue;
      }
      if key.None? {
        continue;
      }
      rules := rules + [Rule(key.value, CONTESTED_POINTERS, [])];
    }
    assert conditions[..|conditions|] == conditions;
  }

  /** A rule exists exactly for the resources that some condition contests, and a shared warning
      only ever contests a resource of the Application's own inventory. */
  lemma {:induction false} ContestedExactly(conditions: seq<Condition>, resources: seq<ResourceId>, r: Rule)
    ensures r in ContestedRules(conditions, resources) <==>
            r == Rule(r.id, CONTESTED_POINTERS, []) &&
            exists c :: c in conditions && Contested(c, resources) == Some(r.id)
    ensures forall c :: c in conditions && c.type_ == SHARED_RESOURCE && Contested(c, resources).Some? ==>
              Contested(c, resources).value in resources
  {
    if conditions != [] {
      var before, last := conditions[..|conditions|-1], conditions[|conditions|-1];
      ContestedExactly(before, resources, r);
      assert forall c :: c in conditions <==> c in before || c == last;
      match ParseSharedResourceWarning(last.message) {
        case Some((kind, name)) => LookupSound(resources, kind, name);
        case None =>
      }
    }
  }

  // ---------- compare options ----------

  const SERVER_SIDE_DIFF := "ServerSideDiff="
  const SERVER_SIDE_DIFF_ON := SERVER_SIDE_DIFF + "true"

  /** `strings.Split(opts, ",")`. */
  function SplitOptions(s: string): (parts: seq<string>)
    ensures parts != []
  {
    if s == "" then [""]
    else
      var rest := SplitOptions(s[1..]);
      if s[0] == ',' then [""] + rest else [[s[0]] + rest[0]] + rest[1..]
  }

  function TrimSpace(s: string): string {
    Manifest.TrimRight(Manifest.TrimLeft(s))
  }

  ghost predicate Blank(s: string) {
    forall i :: 0 <= i < |s| ==> Manifest.IsSpace(s[i])
  }

  /** `s` is `t` with blanks around it. */
  ghost predicate Wraps(s: string, i: nat, t: string) {
    i + |t| <= |s| && s[i..i+|t|] == t && Blank(s[..i]) && Blank(s[i+|t|..])
  }

  lemma {:induction false} TrimLeftWraps(s: string)
    ensures var r := Manifest.TrimLeft(s); s[|s|-|r|..] == r && Blank(s[..|s|-|r|])
  {
    if s != "" && Manifest.IsSpace(s[0]) {
      TrimLeftWraps(s[1..]);
      var r := Manifest.TrimLeft(s);
      assert s[..|s|-|r|] == [s[0]] + s[1..][..|s|-1-|r|];
    }
  }

  lemma {:induction false} TrimRightWraps(s: string)
    ensures var r := Manifest.TrimRight(s); Blank(s[|r|..])
  {
    if s != "" && Manifest.IsSpace(s[|s|-1]) {
      TrimRightWraps(s[..|s|-1]);
      var r := Manifest.TrimRight(s);
      assert s[|r|..] == s[..|s|-1][|r|..] + [s[|s|-1]];
    }
  }

  /** Trimming takes away the blanks around a text and nothing else. */
  lemma TrimExactly(s: string, t: string)
    requires t != "" && !Manifest.IsSpace(t[0]) && !Manifest.IsSpace(t[|t|-1])
    ensures TrimSpace(s) == t <==> exists i: nat :: Wraps(s, i, t)
    ensures TrimSpace(s) == "" <==> Blank(s)
  {
    hide Manifest.IsSpace;
    var left, r := Manifest.TrimLeft(s), TrimSpace(s);
    var from := |s| - |left|;
    TrimLeftWraps(s);
    TrimRightWraps(left);
    assert s[from..][..|r|] == s[from..from+|r|] == r;
    assert s[from..][|r|..] == s[from+|r|..];
    assert Wraps(s, from, r);
    if i: nat :| Wraps(s, i, t) { WrapsOnce(s, from, r, i, t); }
    if r != "" { InkWithin(s, from, r, from); }
    if r == "" { assert s == s[..from] + s[from+|r|..]; }
  }

  /** What is not blank lies within the wrapped text. */
  lemma InkWithin(s: string, i: nat, r: string, k: nat)
    requires Wraps(s, i, r) && k < |s| && !Manifest.IsSpace(s[k])
    ensures i <= k < i + |r| && !Blank(s)
  {
    assert forall j :: 0 <= j < i ==> s[..i][j] == s[j];
    assert forall j :: i + |r| <= j < |s| ==> s[j] == s[i+|r|..][j-i-|r|];
  }

  lemma WrapsOnce(s: string, i: nat, r: string, j: nat, t: string)
    requires Wraps(s, i, r) && Wraps(s, j, t)
    requires r != "" ==> !Manifest.IsSpace(r[0]) && !Manifest.IsSpace(r[|r|-1])
    requires t != "" && !Manifest.IsSpace(t[0]) && !Manifest.IsSpace(t[|t|-1])
    ensures i == j && r == t
  {
    hide Manifest.IsSpace;
    assert s[j] == t[0] && s[j+|t|-1] == t[|t|-1];
    InkWithin(s, i, r, j);
    InkWithin(s, i, r, j + |t| - 1);
    assert s[i] == r[0] && s[i+|r|-1] == r[|r|-1];
    InkWithin(s, j, t, i);
    InkWithin(s, j, t, i + |r| - 1);
  }

  /** Some option sets ServerSideDiff, to whatever value. */
  predicate SetsServerSideDiff(opts: string) {
    exists i :: 0 <= i < |SplitOptions(opts)| && HasPrefix(TrimSpace(SplitOptions(opts)[i]), SERVER_SIDE_DIFF)
  }

  function WithServerSideDiff(opts: string): string {
    if SetsServerSideDiff(opts) then opts
    else if TrimSpace(opts) == "" then SERVER_SIDE_DIFF_ON
    else opts + "," + SERVER_SIDE_DIFF_ON
  }

  lemma {:induction false} SplitAppend(a: string, b: string)
    ensures SplitOptions(a + "," + b) == SplitOptions(a) + SplitOptions(b)
  {
    var s := a + "," + b;
    if a == "" {
      assert s[1..] == b;
    } else {
      SplitAppend(a[1..], b);
      assert s[1..] == a[1..] + "," + b;
      var rest := SplitOptions(a[1..]);
      assert (rest + SplitOptions(b))[1..] == rest[1..] + SplitOptions(b);
      if s[0] == ',' {
        Assoc([""], rest, SplitOptions(b));
      } else {
        Assoc([[s[0]] + rest[0]], rest[1..], SplitOptions(b));
      }
    }
  }

  lemma {:induction false} SplitOne(s: string)
    requires ',' !in s
    ensures SplitOptions(s) == [s]
  {
    if s != "" {
      SplitOne(s[1..]);
      assert s == [s[0]] + s[1..];
    }
  }

  lemma TrimNothing(s: string)
    requires s != "" && !Manifest.IsSpace(s[0]) && !Manifest.IsSpace(s[|s|-1])
    ensures TrimSpace(s) == s
  {
  }

  lemma OnIsOneOption()
    ensures ',' !in SERVER_SIDE_DIFF_ON
    ensures SERVER_SIDE_DIFF_ON[0] == 'S' && SERVER_SIDE_DIFF_ON[|SERVER_SIDE_DIFF_ON|-1] == 'e'
  {
  }

  lemma OnSetsIt()
    ensures HasPrefix(TrimSpace(SERVER_SIDE_DIFF_ON), SERVER_SIDE_DIFF)
    ensures SplitOptions(SERVER_SIDE_DIFF_ON) == [SERVER_SIDE_DIFF_ON]
  {
    hide TrimSpace, SplitOptions;
    OnIsOneOption();
    TrimNothing(SERVER_SIDE_DIFF_ON);
    SplitOne(SERVER_SIDE_DIFF_ON);
  }

  lemma ResultSetsIt(opts: string)
    ensures SetsServerSideDiff(WithServerSideDiff(opts))
  {
    OnSetsIt();
    hide TrimSpace, SplitOptions;
    SplitAppend(opts, SERVER_SIDE_DIFF_ON);
    var parts := SplitOptions(WithServerSideDiff(opts));
    if !SetsServerSideDiff(opts) {
      assert parts[|parts|-1] == SERVER_SIDE_DIFF_ON;
    }
  }

  /** The result always sets ServerSideDiff, keeps every option that was there, leaves a choice
      the user made alone, and asking again changes nothing. */
  lemma ServerSideDiffSet(opts: string)
    ensures SetsServerSideDiff(WithServerSideDiff(opts))
    ensures WithServerSideDiff(WithServerSideDiff(opts)) == WithServerSideDiff(opts)
    ensures SetsServerSideDiff(opts) ==> WithServerSideDiff(opts) == opts
    ensures TrimSpace(opts) != "" ==> SplitOptions(opts) <= SplitOptions(WithServerSideDiff(opts))
  {
    hide TrimSpace, SplitOptions, SetsServerSideDiff;
    ResultSetsIt(opts);
    SplitAppend(opts, SERVER_SIDE_DIFF_ON);
  }
}
