/** Argo CD's warnings and the compare-options annotation, told from their texts
    (pkg/controller/helmrelease_controller.go:80-91, 728-835). */
module WarningTexts {
  import opened Text
  import opened Rules
  import opened Warnings
  import Manifest

  // ---------- messages ----------

  /** The message of a repeated resource, whatever follows the marker. */
  lemma RepeatedMessage(id: ResourceId, tail: string)
    requires '/' !in id.group && '/' !in id.kind && '/' !in id.namespace && id.kind != "" && id.name != ""
    requires ' ' !in id.group && ' ' !in id.kind && ' ' !in id.namespace && ' ' !in id.name
    ensures var key := id.group + "/" + id.kind + "/" + id.namespace + "/" + id.name;
            ParseRepeatedResourceWarning("Resource " + key + " appeared " + tail) == Some(id)
  {
    RepeatedRoundTrip(id, tail);
    var key := id.group + "/" + id.kind + "/" + id.namespace + "/" + id.name;
    hide ParseRepeatedResourceWarning, Key;
    Assoc("Resource " + key, " appeared ", tail);
    Assoc("Resource ", key, " appeared " + tail);
  }

  /** The message of a shared resource, whatever follows the marker. */
  lemma SharedMessage(kind: string, name: string, tail: string)
    requires '/' !in kind && kind != "" && name != "" && ' ' !in kind && ' ' !in name
    ensures ParseSharedResourceWarning(kind + "/" + name + " is part of applications " + tail) == Some((kind, name))
  {
    SharedRoundTrip(kind, name, tail);
    assert kind + "/" + name + " is part of applications " + tail == PrintShared(kind, name, tail);
  }

  /** The condition repeats the resource: the text between the prefix and the first marker is its key. */
  ghost predicate Repeats(c: Condition, id: ResourceId) {
    c.type_ == "RepeatedResourceWarning" && "Resource " <= c.message &&
    '/' !in id.group && '/' !in id.kind && '/' !in id.namespace && id.kind != "" && id.name != "" &&
    exists n: nat :: Marks(c.message[9..], " appeared ", n,
                           id.group + "/" + id.kind + "/" + id.namespace + "/" + id.name)
  }

  /** The first occurrence of the marker is at `n`, after `front`. */
  ghost predicate Marks(s: string, marker: string, n: nat, front: string) {
    n <= |s| && s[..n] == front && FirstAt(s, marker, n)
  }

  /** The condition shares the resource: the text before the first marker is its kind and name, and it is
      the first resource of the inventory that has them. */
  ghost predicate Shares(c: Condition, resources: seq<ResourceId>, id: ResourceId) {
    c.type_ == "SharedResourceWarning" && '/' !in id.kind && id.kind != "" && id.name != "" &&
    (exists n: nat :: Marks(c.message, " is part of applications ", n, id.kind + "/" + id.name)) &&
    FirstOfName(resources, id)
  }

  ghost predicate FirstOfName(resources: seq<ResourceId>, id: ResourceId) {
    exists i :: 0 <= i < |resources| && resources[i] == id &&
                forall j :: 0 <= j < i ==> resources[j].kind != id.kind || resources[j].name != id.name
  }

  lemma {:induction false} LookupFirst(resources: seq<ResourceId>, kind: string, name: string, id: ResourceId)
    ensures LookupResourceKey(resources, kind, name) == Some(id) <==>
            id.kind == kind && id.name == name && FirstOfName(resources, id)
  {
    if resources != [] {
      var rest := resources[1..];
      LookupFirst(rest, kind, name, id);
      if resources[0].kind != id.kind || resources[0].name != id.name {
        if FirstOfName(resources, id) {
          var i :| 0 <= i < |resources| && resources[i] == id &&
                   forall j :: 0 <= j < i ==> resources[j].kind != id.kind || resources[j].name != id.name;
          assert rest[i-1] == id;
        }
        if FirstOfName(rest, id) {
          var i :| 0 <= i < |rest| && rest[i] == id &&
                   forall j :: 0 <= j < i ==> rest[j].kind != id.kind || rest[j].name != id.name;
          assert resources[i+1] == id;
          assert forall j :: 0 < j < i + 1 ==> resources[j] == rest[j-1];
        }
      }
    }
  }

  lemma RepeatsExactly(c: Condition, id: ResourceId)
    requires c.type_ == "RepeatedResourceWarning"
    ensures ParseRepeatedResourceWarning(c.message) == Some(id) <==> Repeats(c, id)
  {
    RepeatedInverts(c.message, id);
    hide ParseRepeatedResourceWarning, FirstAt;
    if tail :| RepeatedWith(c.message, id, tail) {
      assert c.message[9..] == Key(id) + (" appeared " + tail);
      assert Marks(c.message[9..], " appeared ", |Key(id)|, Key(id));
    }
    if Repeats(c, id) {
      var rest := c.message[9..];
      var n: nat :| Marks(rest, " appeared ", n, Key(id));
      MarkerRest(rest, " appeared ", n);
      assert RepeatedWith(c.message, id, rest[n + 10..]);
    }
  }

  lemma MarkerRest(s: string, marker: string, n: nat)
    requires FirstAt(s, marker, n)
    ensures n + |marker| <= |s| && s == s[..n] + (marker + s[n + |marker|..])
  {
    assert s[n..] == marker + s[n + |marker|..];
  }

  lemma SharesExactly(c: Condition, resources: seq<ResourceId>, id: ResourceId)
    requires c.type_ == "SharedResourceWarning"
    ensures Contested(c, resources) == Some(id) <==> Shares(c, resources, id)
  {
    hide LookupResourceKey, FirstOfName, FirstAt, ParseSharedResourceWarning;
    SharedInverts(c.message, id.kind, id.name);
    match ParseSharedResourceWarning(c.message) {
      case Some((kind, name)) => LookupFirst(resources, kind, name, id);
      case None =>
    }
    if tail :| SharedWith(c.message, id.kind, id.name, tail) {
      var key := id.kind + "/" + id.name;
      assert Marks(c.message, " is part of applications ", |key|, key);
    }
    if n: nat :| Marks(c.message, " is part of applications ", n, id.kind + "/" + id.name) {
      MarkerRest(c.message, " is part of applications ", n);
      assert PrintableName(id.kind, id.name) ==>
        SharedWith(c.message, id.kind, id.name, c.message[n + |" is part of applications "|..]);
    }
  }

  /** The rules, told from the conditions' own texts. */
  lemma ContestedTold(conditions: seq<Condition>, resources: seq<ResourceId>, r: Rule)
    ensures r in ContestedRules(conditions, resources) <==>
            r.jsonPointers == ["/spec", "/metadata/labels", "/metadata/annotations"] && r.jqPathExpressions == [] &&
            exists c :: c in conditions && (Repeats(c, r.id) || Shares(c, resources, r.id))
  {
    ContestedExactly(conditions, resources, r);
    forall c ensures Contested(c, resources) == Some(r.id) <==> Repeats(c, r.id) || Shares(c, resources, r.id) {
      if c.type_ == "RepeatedResourceWarning" { RepeatsExactly(c, r.id); }
      if c.type_ == "SharedResourceWarning" { SharesExactly(c, resources, r.id); }
    }
    hide Contested, Repeats, Shares, ContestedRules;
  }

  // ---------- compare options ----------

  /** An option that sets ServerSideDiff starts at `i`, with blanks up to `k`. */
  ghost predicate OptionSets(opts: string, i: nat, k: nat) {
    i <= k <= |opts| && (i > 0 ==> opts[i-1] == ',') && Blank(opts[i..k]) && "ServerSideDiff=" <= opts[k..]
  }

  lemma OneOption(part: string)
    ensures HasPrefix(TrimSpace(part), SERVER_SIDE_DIFF) <==> exists k: nat :: OptionSets(part, 0, k)
  {
    var left := Manifest.TrimLeft(part);
    var from, r := |part| - |left|, TrimSpace(part);
    TrimLeftWraps(part);
    TrimRightWraps(left);
    assert part[0..from] == part[..from];
    assert Wraps(part, from, r) by { assert left[|r|..] == part[from+|r|..]; }
    if HasPrefix(r, SERVER_SIDE_DIFF) { assert OptionSets(part, 0, from); }
    if k: nat :| OptionSets(part, 0, k) { OptionTrimmed(part, from, r, k); }
  }

  /** What is not blank comes after what is. */
  lemma InkAfter(s: string, k: nat, i: nat)
    requires k <= |s| && i < |s| && Blank(s[..k]) && !Manifest.IsSpace(s[i])
    ensures k <= i
  {
    assert forall j :: 0 <= j < k ==> s[j] == s[..k][j];
  }

  lemma OptionTrimmed(part: string, i: nat, r: string, k: nat)
    requires Wraps(part, i, r) && OptionSets(part, 0, k)
    requires r != "" ==> !Manifest.IsSpace(r[0])
    ensures i == k && HasPrefix(r, "ServerSideDiff=")
  {
    assert part[k] == part[k..][0] == 'S' && part[k+14] == part[k..][14] == '=';
    InkWithin(part, i, r, k);
    InkWithin(part, i, r, k + 14);
    assert part[0..k] == part[..k];
    assert part[i] == r[0];
    InkAfter(part, k, i);
    hide Manifest.IsSpace;
    assert |r| >= 15;
    assert r == part[k..][..|r|];
    assert r[..15] == part[k..][..15];
  }

  lemma {:induction false} FirstComma(s: string) returns (n: nat)
    requires ',' in s
    ensures n < |s| && s[n] == ',' && ',' !in s[..n]
  {
    if s[0] == ',' {
      n := 0;
    } else {
      n := FirstComma(s[1..]);
      assert s[..n+1] == [s[0]] + s[1..][..n];
      n := n + 1;
    }
  }

  lemma SplitCases(a: string, b: string)
    requires ',' !in a
    ensures SetsServerSideDiff(a + "," + b) <==>
            HasPrefix(TrimSpace(a), SERVER_SIDE_DIFF) || SetsServerSideDiff(b)
  {
    SplitOne(a);
    SplitAppend(a, b);
    hide TrimSpace, HasPrefix, SplitOptions;
    var parts := SplitOptions(b);
    assert ([a] + parts)[0] == a && forall i :: 0 <= i < |parts| ==> ([a] + parts)[i+1] == parts[i];
  }

  lemma AfterFront(front: string, b: string, i: nat, k: nat)
    requires i <= k <= |b|
    ensures (front + b)[|front|+k..] == b[k..] && (front + b)[|front|+i..|front|+k] == b[i..k]
  {
  }

  lemma OptionWithin(a: string, b: string, i: nat, k: nat)
    requires ',' !in a && OptionSets(a + "," + b, i, k)
    ensures if i <= |a| then OptionSets(a, 0, k) && i == 0 else OptionSets(b, i - |a| - 1, k - |a| - 1)
  {
    var s := a + "," + b;
    if i <= |a| {
      assert s[|a|] == ',';
      assert forall j :: i <= j < k ==> s[j] == s[i..k][j-i];
      var on := "ServerSideDiff=";
      assert forall j :: 0 <= j < 15 ==> s[k+j] == s[k..][j] == on[j];
      assert ',' !in on;
      assert k + 15 <= |a|;
      assert s[k..][..15] == a[k..][..15] == on;
      assert forall j :: 0 <= j < |a| ==> s[j] != ',';
      assert s[i..k] == a[i..k];
    } else {
      AfterFront(a + ",", b, i - |a| - 1, k - |a| - 1);
    }
  }

  lemma OptionKept(a: string, b: string, k: nat)
    requires OptionSets(a, 0, k)
    ensures OptionSets(a + "," + b, 0, k)
  {
    var s := a + "," + b;
    assert s[0..k] == a[0..k];
    assert s[k..] == a[k..] + ("," + b);
  }

  lemma OptionShifted(a: string, b: string, i: nat, k: nat)
    requires OptionSets(b, i, k)
    ensures OptionSets(a + "," + b, |a| + 1 + i, |a| + 1 + k)
  {
    var s := a + "," + b;
    AfterFront(a + ",", b, i, k);
  }

  lemma SetsAlone(opts: string)
    requires ',' !in opts
    ensures SetsServerSideDiff(opts) <==> exists i: nat, k: nat :: OptionSets(opts, i, k)
  {
    SplitOne(opts);
    OneOption(opts);
    hide TrimSpace, HasPrefix, SplitOptions, Blank;
    assert SplitOptions(opts)[0] == opts;
    assert forall j :: 0 <= j < |opts| ==> opts[j] != ',';
    assert forall i: nat, k: nat :: OptionSets(opts, i, k) ==> i == 0;
  }

  lemma OptionsAppend(a: string, b: string)
    requires ',' !in a
    ensures (exists i: nat, k: nat :: OptionSets(a + "," + b, i, k)) <==>
            (exists k: nat :: OptionSets(a, 0, k)) || (exists i: nat, k: nat :: OptionSets(b, i, k))
  {
    hide OptionSets;
    if i: nat, k: nat :| OptionSets(a + "," + b, i, k) { OptionWithin(a, b, i, k); }
    if k: nat :| OptionSets(a, 0, k) { OptionKept(a, b, k); }
    if i: nat, k: nat :| OptionSets(b, i, k) { OptionShifted(a, b, i, k); }
  }

  /** Some option sets ServerSideDiff: told from the text, between commas. */
  lemma {:induction false} SetsExactly(opts: string)
    ensures SetsServerSideDiff(opts) <==> exists i: nat, k: nat :: OptionSets(opts, i, k)
    decreases |opts|
  {
    if ',' !in opts {
      SetsAlone(opts);
    } else {
      var n := FirstComma(opts);
      var a, b := opts[..n], opts[n+1..];
      assert opts == a + "," + b;
      hide *;
      SetsExactly(b);
      OneOption(a);
      SplitCases(a, b);
      OptionsAppend(a, b);
    }
  }

  lemma OptionAppended(opts: string)
    ensures opts + "," + SERVER_SIDE_DIFF_ON == opts + ",ServerSideDiff=true" && SERVER_SIDE_DIFF_ON != ""
  {
    assert "," + SERVER_SIDE_DIFF_ON == ",ServerSideDiff=true";
    Assoc(opts, ",", SERVER_SIDE_DIFF_ON);
  }

  /** The annotation: kept when some option sets ServerSideDiff, else the option is appended. */
  lemma ServerSideDiffTold(opts: string)
    ensures var on := WithServerSideDiff(opts);
            if exists i: nat, k: nat :: OptionSets(opts, i, k) then on == opts
            else if Blank(opts) then on == "ServerSideDiff=true"
            else on == opts + ",ServerSideDiff=true"
  {
    SetsExactly(opts);
    TrimExactly(opts, "x");
    hide SetsServerSideDiff, TrimSpace, Blank, OptionSets, Wraps;
    OptionAppended(opts);
  }
}
