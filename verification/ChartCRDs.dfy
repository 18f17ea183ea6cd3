/** The CRDs a chart ships: collecting their documents and listing their names
    (pkg/ignoregen/ignoregen.go:197-231, 515-541). */
module ChartCRDs {
  import opened Text
  import opened Json
  import opened Manifest

  const OVERSIZED_CRD_BYTES := 200 * 1024

  predicate IsCRD(r: Resource) {
    r.id.kind == "CustomResourceDefinition"
  }

  ghost function CrdNamesOf(resources: map<string, Resource>): set<string> {
    set k | k in resources && IsCRD(resources[k]) :: resources[k].id.name
  }

  /** What is taken as given about document text: YAML decoding and the length in bytes. */
  datatype Encoding = Encoding(decode: Decoder, size: Lines -> nat) {

    /** The CRD names that parsing a text on its own yields. */
    ghost function NamesIn(text: Lines): set<string> {
      CrdNamesOf(Keyed(decode, Docs(text)))
    }

    ghost function OversizedNamesIn(text: Lines): set<string> {
      if size(text) > OVERSIZED_CRD_BYTES then NamesIn(text) else {}
    }

    /** The CRD that one document decodes to, if it does. */
    ghost function CrdOf(doc: Lines): set<string> {
      match Parse(decode, doc)
      case Some(r) => if IsCRD(r) then {r.id.name} else {}
      case None => {}
    }

    /** The CRDs a text contains, document by document. */
    ghost function CrdsOf(text: Lines): set<string> {
      Gather(CrdOf, Docs(text))
    }
  }

  method CrdNames(enc: Encoding, text: Lines) returns (names: seq<string>)
    ensures Elems(names) == enc.NamesIn(text)
  {
    names := [];
    var resources := ParseResources(enc.decode, text);
    var todo := resources.Keys;
    while todo != {}
      invariant todo <= resources.Keys
      invariant forall n :: n in names ==> n in CrdNamesOf(resources)
      invariant forall k :: k in resources && k !in todo && IsCRD(resources[k]) ==> resources[k].id.name in names
    {
      var k :| k in todo;
      if IsCRD(resources[k]) {
        names := names + [resources[k].id.name];
      }
      todo := todo - {k};
    }
  }

  method HelmCRDNames(enc: Encoding, crdManifest: Lines)
    returns (names: seq<string>, oversized: seq<string>, oversizedDocs: map<string, Lines>)
    ensures Sorted(names) && Elems(names) == Gather(enc.NamesIn, Docs(crdManifest))
    ensures Sorted(oversized) && Elems(oversized) == oversizedDocs.Keys
    ensures oversizedDocs.Keys == Gather(enc.OversizedNamesIn, Docs(crdManifest))
    ensures forall n :: n in oversizedDocs ==> HoldsOversized(enc, Docs(crdManifest), oversizedDocs[n], n)
  {
    hide Encoding.NamesIn, Docs, HoldsOversized;
    names, oversized, oversizedDocs := [], [], map[];
    var docs := Docs(crdManifest);
    for i := 0 to |docs|
      invariant Elems(names) == Gather(enc.NamesIn, docs[..i])
      invariant Elems(oversized) == oversizedDocs.Keys == Gather(enc.OversizedNamesIn, docs[..i])
      invariant forall n :: n in oversizedDocs ==> HoldsOversized(enc, docs[..i], oversizedDocs[n], n)
    {
      var doc := docs[i];
      GatherTo(enc.NamesIn, docs, i);
      GatherTo(enc.OversizedNamesIn, docs, i);
      var found := CrdNames(enc, doc);
      ElemsAppend(names, found);
      names := names + found;
      if enc.size(doc) > OVERSIZED_CRD_BYTES {
        ElemsAppend(oversized, found);
        oversized := oversized + found;
        oversizedDocs := RecordDoc(enc, docs[..i], doc, found, oversizedDocs);
      } else {
        forall n | n in oversizedDocs ensures HoldsOversized(enc, docs[..i] + [doc], oversizedDocs[n], n) {
          HeldOn(enc, docs[..i], doc, oversizedDocs[n], n);
        }
      }
      assert docs[..i+1] == docs[..i] + [doc];
    }
    assert docs[..|docs|] == docs;
    SortSorted(names);
    SortSorted(oversized);
    ElemsOfMultiset(names, Sort(names));
    ElemsOfMultiset(oversized, Sort(oversized));
    names, oversized := Sort(names), Sort(oversized);
  }

  /** The text is the last document of the list that is oversized and holds the CRD. */
  ghost predicate HoldsOversized(enc: Encoding, docs: seq<Lines>, doc: Lines, name: string) {
    exists i :: LastOversized(enc, docs, i, name) && docs[i] == doc
  }

  ghost predicate LastOversized(enc: Encoding, docs: seq<Lines>, i: int, name: string) {
    0 <= i < |docs| && name in enc.OversizedNamesIn(docs[i]) &&
    forall j :: i < j < |docs| ==> name !in enc.OversizedNamesIn(docs[j])
  }

  lemma HeldOn(enc: Encoding, docs: seq<Lines>, doc: Lines, held: Lines, name: string)
    requires HoldsOversized(enc, docs, held, name) && name !in enc.OversizedNamesIn(doc)
    ensures HoldsOversized(enc, docs + [doc], held, name)
  {
    hide Encoding.OversizedNamesIn;
    var i :| LastOversized(enc, docs, i, name) && docs[i] == held;
    assert LastOversized(enc, docs + [doc], i, name);
  }

  lemma HeldAnew(enc: Encoding, docs: seq<Lines>, doc: Lines, name: string)
    requires name in enc.OversizedNamesIn(doc)
    ensures HoldsOversized(enc, docs + [doc], doc, name)
  {
    assert LastOversized(enc, docs + [doc], |docs|, name);
  }

  /** One more document: an oversized one replaces what was held for its CRDs. */
  function RecordDoc(enc: Encoding, ghost docs: seq<Lines>, doc: Lines, found: seq<string>, known: map<string, Lines>)
    : (all: map<string, Lines>)
    requires Elems(found) == enc.OversizedNamesIn(doc)
    requires forall n :: n in known ==> HoldsOversized(enc, docs, known[n], n)
    ensures all.Keys == known.Keys + Elems(found)
    ensures forall n :: n in all ==> HoldsOversized(enc, docs + [doc], all[n], n)
  {
    hide Encoding.OversizedNamesIn, HoldsOversized;
    var added := map n | n in found :: doc;
    assert forall n :: n in found ==> n in Elems(found);
    assert forall n :: n in added ==> HoldsOversized(enc, docs + [doc], doc, n) by {
      forall n | n in added ensures HoldsOversized(enc, docs + [doc], doc, n) { HeldAnew(enc, docs, doc, n); }
    }
    assert forall n :: n in known && n !in added ==> HoldsOversized(enc, docs + [doc], known[n], n) by {
      forall n | n in known && n !in added ensures HoldsOversized(enc, docs + [doc], known[n], n) {
        assert n !in Elems(found);
        HeldOn(enc, docs, doc, known[n], n);
      }
    }
    known + added
  }

  lemma GatherTo<A>(f: A -> set<string>, s: seq<A>, i: nat)
    requires i < |s|
    ensures Gather(f, s[..i+1]) == Gather(f, s[..i]) + f(s[i])
  {
    assert s[..i+1] == s[..i] + [s[i]];
    GatherStep(f, s[..i], s[i]);
  }

  /** The texts that `renderChart` joins: every crds/ file as it is, then each document of the
      rendered manifest that holds a CRD not seen before. */
  method CollectCRDs(enc: Encoding, crdFiles: seq<Lines>, rendered: Lines)
    returns (crdDocs: seq<Lines>, ghost extra: seq<Lines>)
    ensures crdDocs == crdFiles + extra
    ensures forall d :: d in extra ==> d in Docs(rendered) && !(enc.NamesIn(d) <= Gather(enc.NamesIn, crdFiles))
    ensures Gather(enc.NamesIn, crdDocs) == Gather(enc.NamesIn, crdFiles) + Gather(enc.NamesIn, Docs(rendered))
  {
    hide Encoding.NamesIn, Docs;
    crdDocs, extra := [], [];
    var crdNames: set<string> := {};
    for i := 0 to |crdFiles|
      invariant crdDocs == crdFiles[..i]
      invariant crdNames == Gather(enc.NamesIn, crdFiles[..i])
    {
      GatherTo(enc.NamesIn, crdFiles, i);
      crdDocs := crdDocs + [crdFiles[i]];
      var found := CrdNames(enc, crdFiles[i]);
      crdNames := crdNames + set n | n in found;
    }
    assert crdFiles[..|crdFiles|] == crdFiles;
    ghost var fromFiles := crdNames;
    var docs := Docs(rendered);
    for i := 0 to |docs|
      invariant crdDocs == crdFiles + extra
      invariant crdNames == Gather(enc.NamesIn, crdDocs)
      invariant crdNames == fromFiles + Gather(enc.NamesIn, docs[..i])
      invariant forall d :: d in extra ==> d in docs && !(enc.NamesIn(d) <= fromFiles)
    {
      GatherTo(enc.NamesIn, docs, i);
      var found := CrdNames(enc, docs[i]);
      ghost var more;
      crdDocs, crdNames, more := CollectDoc(enc, docs[i], found, crdDocs, crdNames);
      Assoc(crdFiles, extra, more);
      extra := extra + more;
    }
    assert docs[..|docs|] == docs;
  }

  /** The inner loop of `CollectCRDs`: the CRDs that one rendered document holds. */
  method CollectDoc(enc: Encoding, doc: Lines, found: seq<string>, crdDocs0: seq<Lines>, crdNames0: set<string>)
    returns (crdDocs: seq<Lines>, crdNames: set<string>, ghost more: seq<Lines>)
    requires Elems(found) == enc.NamesIn(doc)
    requires crdNames0 == Gather(enc.NamesIn, crdDocs0)
    ensures crdDocs == crdDocs0 + more
    ensures forall d :: d in more ==> d == doc && !(enc.NamesIn(doc) <= crdNames0)
    ensures crdNames == Gather(enc.NamesIn, crdDocs) == crdNames0 + enc.NamesIn(doc)
  {
    hide Encoding.NamesIn, Gather;
    crdDocs, crdNames, more := crdDocs0, crdNames0, [];
    for k := 0 to |found|
      invariant crdDocs == crdDocs0 + more
      invariant forall d :: d in more ==> d == doc && !(Elems(found) <= crdNames0)
      invariant crdNames == crdNames0 + Elems(found[..k])
      invariant Gather(enc.NamesIn, crdDocs) == if more == [] then crdNames0 else crdNames0 + Elems(found)
      invariant more == [] ==> crdNames == crdNames0
    {
      assert found[..k+1] == found[..k] + [found[k]];
      ElemsAppend(found[..k], [found[k]]);
      if found[k] !in crdNames {
        assert found[k] in Elems(found);
        GatherStep(enc.NamesIn, crdDocs, doc);
        Assoc(crdDocs0, more, [doc]);
        crdNames := crdNames + {found[k]};
        crdDocs, more := crdDocs + [doc], more + [doc];
      }
    }
    assert found[..|found|] == found;
  }

  // ---------- exactly the chart's CRDs ----------

  lemma KeyedOne(decode: Decoder, doc: Lines)
    ensures Keyed(decode, [doc]) ==
            match Parse(decode, doc) case None => map[] case Some(r) => map[Rules.Key(r.id) := r]
  {
    var none: seq<Lines> := [doc][..0];
    assert none == [];
    assert Keyed(decode, none) == map[];
  }

  lemma NamesInDoc(enc: Encoding, doc: Lines)
    requires Docs(doc) == [doc]
    ensures enc.NamesIn(doc) == enc.CrdOf(doc)
  {
    KeyedOne(enc.decode, doc);
    match Parse(enc.decode, doc)
    case None =>
    case Some(r) => OneCrdName(Rules.Key(r.id), r);
  }

  /** Which CRD a document is, and when it is oversized, told from what it decodes to: its kind is the CRD
      kind, it has this name, and it takes more than 200 KiB. */
  lemma CrdTold(enc: Encoding, doc: Lines, n: string)
    ensures n in enc.CrdOf(doc) <==>
            enc.decode(doc).Some? && TextAt(enc.decode(doc).value, ["kind"]) == "CustomResourceDefinition" &&
            n != "" && TextAt(enc.decode(doc).value, ["metadata", "name"]) == n
    ensures Docs(doc) == [doc] ==>
              (n in enc.OversizedNamesIn(doc) <==> n in enc.CrdOf(doc) && enc.size(doc) > 204800)
  {
    if enc.decode(doc).Some? { ParsedText(enc.decode, doc); }
    if Docs(doc) == [doc] { NamesInDoc(enc, doc); }
    hide TextAt, Docs;
  }

  lemma ParsedText(decode: Decoder, doc: Lines)
    requires decode(doc).Some?
    ensures var kind, name := TextAt(decode(doc).value, ["kind"]), TextAt(decode(doc).value, ["metadata", "name"]);
            match Parse(decode, doc)
            case Some(r) => kind != "" && name != "" && r.id.kind == kind && r.id.name == name
            case None => kind == "" || name == ""
  {
    var v := decode(doc).value;
    LookupOne(v, "kind");
    MetadataText(v, "name");
  }

  lemma OneCrdName(key: string, r: Resource)
    ensures CrdNamesOf(map[key := r]) == if IsCRD(r) then {r.id.name} else {}
  {
    assert key in map[key := r];
  }

  lemma {:induction false} GatherSame<A>(f: A -> set<string>, g: A -> set<string>, s: seq<A>)
    requires forall x :: x in s ==> f(x) == g(x)
    ensures Gather(f, s) == Gather(g, s)
  {
    if s != [] { GatherSame(f, g, s[..|s|-1]); }
  }

  lemma CleanNames(enc: Encoding, text: Lines)
    requires Clean(text)
    ensures Gather(enc.NamesIn, Docs(text)) == enc.CrdsOf(text)
  {
    forall d | d in Docs(text) ensures enc.NamesIn(d) == enc.CrdOf(d) {
      CleanDoc(text, d);
      NamesInDoc(enc, d);
    }
    GatherSame(enc.NamesIn, enc.CrdOf, Docs(text));
  }

  /** A whole-file parse finds no CRD that a document of the file does not hold. */
  lemma FileNamesWithinDocs(enc: Encoding, text: Lines)
    ensures enc.NamesIn(text) <= enc.CrdsOf(text)
  {
    var docs := Docs(text);
    var keyed := Keyed(enc.decode, docs);
    forall n | n in CrdNamesOf(keyed) ensures n in enc.CrdsOf(text) {
      var key :| key in keyed && IsCRD(keyed[key]) && keyed[key].id.name == n;
      KeyedIsLast(enc.decode, docs, key);
      var i: nat :| LastWith(enc.decode, docs, key, i) && Parse(enc.decode, docs[i]) == Some(keyed[key]);
      assert n in enc.CrdOf(docs[i]);
      GatherMember(enc.CrdOf, docs, n);
    }
  }

  lemma {:induction false} GatherFlat(f: Lines -> set<string>, texts: seq<Lines>, n: string)
    ensures n in Gather(f, DocsOfAll(texts)) <==> exists t :: t in texts && n in Gather(f, Docs(t))
  {
    if texts != [] {
      var rest := texts[1..];
      GatherFlat(f, rest, n);
      GatherAppend(f, Docs(texts[0]), DocsOfAll(rest));
      assert forall t :: t in texts <==> t == texts[0] || t in rest;
    }
  }

  lemma {:induction false} GatherAppend<A>(f: A -> set<string>, a: seq<A>, b: seq<A>)
    ensures Gather(f, a + b) == Gather(f, a) + Gather(f, b)
  {
    if b == [] {
      assert a + b == a;
    } else {
      var before, last := b[..|b|-1], b[|b|-1];
      GatherAppend(f, a, before);
      assert a + b == (a + before) + [last];
      GatherStep(f, a + before, last);
    }
  }

  /** Reading back the joined CRD texts lists exactly the chart's CRDs: those in its crds/ files
      and those in its rendered manifest. Trimming must not uncover a separator in any document.
      `extra` is what `CollectCRDs` appends to the files. */
  lemma CollectedNamesExact(enc: Encoding, crdFiles: seq<Lines>, rendered: Lines, extra: seq<Lines>)
    requires Clean(rendered) && forall t :: t in crdFiles ==> Clean(t)
    requires forall d :: d in extra ==> d in Docs(rendered)
    requires Gather(enc.NamesIn, crdFiles + extra) ==
             Gather(enc.NamesIn, crdFiles) + Gather(enc.NamesIn, Docs(rendered))
    ensures Gather(enc.NamesIn, Docs(Join(crdFiles + extra))) ==
            Gather(enc.CrdsOf, crdFiles) + enc.CrdsOf(rendered)
  {
    var all, texts := enc.NamesIn, crdFiles + extra;
    JoinRoundTrip(texts);
    CleanNames(enc, rendered);
    var got, want := Gather(all, DocsOfAll(texts)), Gather(enc.CrdsOf, crdFiles) + enc.CrdsOf(rendered);
    forall n ensures n in got <==> n in want {
      GatherFlat(all, texts, n);
      GatherMember(enc.CrdsOf, crdFiles, n);
      if n in got {
        var t :| t in texts && n in Gather(all, Docs(t));
        InOneText(enc, crdFiles, rendered, extra, t, n);
      }
      if n in Gather(enc.CrdsOf, crdFiles) {
        var i :| 0 <= i < |crdFiles| && n in enc.CrdsOf(crdFiles[i]);
        CleanNames(enc, crdFiles[i]);
        assert crdFiles[i] in texts;
      } else if n in want {
        InExtra(enc, crdFiles, rendered, extra, n);
      }
    }
  }

  lemma InOneText(enc: Encoding, crdFiles: seq<Lines>, rendered: Lines, extra: seq<Lines>, t: Lines, n: string)
    requires Clean(rendered) && forall f :: f in crdFiles ==> Clean(f)
    requires forall d :: d in extra ==> d in Docs(rendered)
    requires t in crdFiles + extra && n in Gather(enc.NamesIn, Docs(t))
    ensures n in Gather(enc.CrdsOf, crdFiles) || n in enc.CrdsOf(rendered)
  {
    if t in crdFiles {
      CleanNames(enc, t);
      GatherMember(enc.CrdsOf, crdFiles, n);
    } else {
      CleanDoc(rendered, t);
      assert [t][..0] == [];
      NamesInDoc(enc, t);
      GatherMember(enc.CrdOf, Docs(rendered), n);
    }
  }

  lemma InExtra(enc: Encoding, crdFiles: seq<Lines>, rendered: Lines, extra: seq<Lines>, n: string)
    requires Clean(rendered)
    requires forall d :: d in extra ==> d in Docs(rendered)
    requires n in Gather(enc.NamesIn, crdFiles + extra) && n !in Gather(enc.CrdsOf, crdFiles)
    ensures exists t :: t in crdFiles + extra && n in Gather(enc.NamesIn, Docs(t))
  {
    var texts := crdFiles + extra;
    GatherMember(enc.NamesIn, texts, n);
    var i :| 0 <= i < |texts| && n in enc.NamesIn(texts[i]);
    if i < |crdFiles| {
      FileNamesWithinDocs(enc, crdFiles[i]);
      GatherMember(enc.CrdsOf, crdFiles, n);
      assert false;
    } else {
      CleanDoc(rendered, texts[i]);
      FlatGather(enc.NamesIn, texts[i]);
      assert texts[i] in texts;
    }
  }

  lemma FlatGather(f: Lines -> set<string>, doc: Lines)
    ensures Gather(f, [doc]) == f(doc)
  {
    assert [doc][..0] == [];
  }
}
