/** JSON pointers (RFC 6901): the escaping `ignoregen` uses, the standard's own reading
    of a pointer, and what it means to erase the fields that pointers name. */
module Pointers {
  import opened Text
  import opened Json

  type Path = seq<string>

  // ---------- escaping ----------

  /** `strings.ReplaceAll` for a pattern of one character. */
  function ReplaceAll(s: string, pattern: char, replacement: string): string {
    if s == "" then ""
    else (if s[0] == pattern then replacement else [s[0]]) + ReplaceAll(s[1..], pattern, replacement)
  }

  function EscapeJSONPointer(s: string): string {
    ReplaceAll(ReplaceAll(s, '~', "~0"), '/', "~1")
  }

  /** Replacing a pattern of two characters, left to right, without overlaps. */
  function ReplacePair(s: string, first: char, second: char, replacement: char): string {
    if |s| < 2 then s
    else if s[0] == first && s[1] == second then [replacement] + ReplacePair(s[2..], first, second, replacement)
    else [s[0]] + ReplacePair(s[1..], first, second, replacement)
  }

  /** Section 4 of RFC 6901: first `~1` becomes `/`, then `~0` becomes `~`. */
  function Unescape(token: string): string {
    ReplacePair(ReplacePair(token, '~', '1', '/'), '~', '0', '~')
  }

  /** Section 3 of RFC 6901: a reference token has no `/`, and `~` only before `0` or `1`. */
  predicate ValidToken(t: string) {
    if t == "" then true
    else if t[0] == '~' then |t| >= 2 && (t[1] == '0' || t[1] == '1') && ValidToken(t[2..])
    else t[0] != '/' && ValidToken(t[1..])
  }

  function EscapeChar(c: char): string {
    if c == '~' then "~0" else if c == '/' then "~1" else [c]
  }

  /** The escape in one pass over the characters. */
  function OnePass(s: string): string {
    if s == "" then "" else EscapeChar(s[0]) + OnePass(s[1..])
  }

  lemma ReplaceAllStep(c: char, s: string, pattern: char, replacement: string)
    ensures ReplaceAll([c] + s, pattern, replacement) ==
            (if c == pattern then replacement else [c]) + ReplaceAll(s, pattern, replacement)
  {
    assert ([c] + s)[1..] == s;
  }

  lemma {:induction false} EscapeIsOnePass(s: string)
    ensures EscapeJSONPointer(s) == OnePass(s)
  {
    if s != "" {
      EscapeIsOnePass(s[1..]);
      var tail := ReplaceAll(s[1..], '~', "~0");
      if s[0] == '~' {
        ReplaceAllStep('0', tail, '/', "~1");
        ReplaceAllStep('~', ['0'] + tail, '/', "~1");
        assert "~0" + tail == ['~'] + (['0'] + tail);
      } else {
        ReplaceAllStep(s[0], tail, '/', "~1");
      }
    }
  }

  /** Decoding in one pass, for a token that section 3 allows. */
  function Decoded(t: string): string
    requires ValidToken(t)
  {
    if t == "" then ""
    else if t[0] == '~' then [if t[1] == '0' then '~' else '/'] + Decoded(t[2..])
    else [t[0]] + Decoded(t[1..])
  }

  lemma {:induction false} UnescapeIsDecoded(t: string)
    requires ValidToken(t)
    ensures Unescape(t) == Decoded(t)
  {
    if t == "" {
    } else if t[0] == '~' {
      UnescapeIsDecoded(t[2..]);
      var u := ReplacePair(t[2..], '~', '1', '/');
      if t[1] == '0' {
        PairSkips('0', t[2..], '~', '1', '/');
        assert t[1..] == ['0'] + t[2..];
        assert ReplacePair(t, '~', '1', '/') == ['~', '0'] + u;
        assert (['~', '0'] + u)[2..] == u;
      } else {
        assert ReplacePair(t, '~', '1', '/') == ['/'] + u;
        PairSkips('/', u, '~', '0', '~');
      }
    } else {
      UnescapeIsDecoded(t[1..]);
      PairSkips(t[0], t[1..], '~', '1', '/');
      PairSkips(t[0], ReplacePair(t[1..], '~', '1', '/'), '~', '0', '~');
      assert t == [t[0]] + t[1..];
    }
  }

  lemma PairSkips(c: char, s: string, first: char, second: char, replacement: char)
    requires c != first
    ensures ReplacePair([c] + s, first, second, replacement) == [c] + ReplacePair(s, first, second, replacement)
  {
    assert ([c] + s)[1..] == s;
  }

  lemma {:induction false} OnePassDecodes(s: string)
    ensures ValidToken(OnePass(s)) && Decoded(OnePass(s)) == s
  {
    if s != "" {
      OnePassDecodes(s[1..]);
      var t := OnePass(s);
      assert t[|EscapeChar(s[0])|..] == OnePass(s[1..]);
    }
  }

  lemma {:induction false} DecodedEncodes(t: string)
    requires ValidToken(t)
    ensures OnePass(Decoded(t)) == t
  {
    if t == "" {
    } else if t[0] == '~' {
      DecodedEncodes(t[2..]);
      assert Decoded(t)[1..] == Decoded(t[2..]);
      assert t == t[..2] + t[2..];
    } else {
      DecodedEncodes(t[1..]);
      assert Decoded(t)[1..] == Decoded(t[1..]);
    }
  }

  /** Escaping is a bijection between all strings and the tokens the standard allows. */
  lemma EscapeBijective(s: string, token: string)
    ensures ValidToken(EscapeJSONPointer(s)) && Unescape(EscapeJSONPointer(s)) == s
    ensures ValidToken(token) ==> EscapeJSONPointer(Unescape(token)) == token
  {
    EscapeIsOnePass(s);
    OnePassDecodes(s);
    UnescapeIsDecoded(OnePass(s));
    if ValidToken(token) {
      UnescapeIsDecoded(token);
      DecodedEncodes(token);
      EscapeIsOnePass(Decoded(token));
    }
  }

  lemma {:induction false} ValidTokenNoSlash(t: string)
    requires ValidToken(t)
    ensures '/' !in t
  {
    if t == "" {
    } else if t[0] == '~' {
      ValidTokenNoSlash(t[2..]);
      assert t == [t[0], t[1]] + t[2..];
    } else {
      ValidTokenNoSlash(t[1..]);
      assert t == [t[0]] + t[1..];
    }
  }

  // ---------- pointers and paths ----------

  /** The pointer the program writes for a path of map keys. */
  function Encode(p: Path): string {
    if p == [] then "" else "/" + EscapeJSONPointer(p[0]) + Encode(p[1..])
  }

  function FirstToken(s: string): string {
    if s == "" || s[0] == '/' then "" else [s[0]] + FirstToken(s[1..])
  }

  lemma {:induction false} FirstTokenBound(s: string)
    ensures |FirstToken(s)| <= |s|
    ensures |FirstToken(s)| < |s| ==> s[|FirstToken(s)|] == '/'
  {
    if s != "" && s[0] != '/' { FirstTokenBound(s[1..]); }
  }

  /** Sections 3 and 4 of RFC 6901: `/` starts each reference token, and each token is
      unescaped. `None` for a string that is not a JSON pointer. */
  function Decode(s: string): Option<Path>
    decreases |s|
  {
    if s == "" then Some([])
    else if s[0] != '/' then None
    else
      var token := FirstToken(s[1..]);
      FirstTokenBound(s[1..]);
      match Decode(s[1 + |token|..])
      case None => None
      case Some(rest) => if ValidToken(token) then Some([Unescape(token)] + rest) else None
  }

  lemma {:induction false} FirstTokenEnds(token: string, rest: string)
    requires '/' !in token
    requires rest == "" || rest[0] == '/'
    ensures FirstToken(token + rest) == token
  {
    if token == "" {
      assert token + rest == rest;
    } else {
      FirstTokenEnds(token[1..], rest);
      assert (token + rest)[1..] == token[1..] + rest;
      assert token == [token[0]] + token[1..];
    }
  }

  /** Decoding one token in front of the rest of a pointer. */
  lemma DecodeStep(token: string, rest: string)
    requires '/' !in token
    requires rest == "" || rest[0] == '/'
    ensures Decode("/" + token + rest) ==
            if ValidToken(token) && Decode(rest).Some? then Some([Unescape(token)] + Decode(rest).value) else None
  {
    var s := "/" + token + rest;
    FirstTokenEnds(token, rest);
    assert s[1..] == token + rest;
    assert s[1 + |token|..] == rest;
  }

  lemma EncodeStarts(p: Path)
    ensures Encode(p) == "" || Encode(p)[0] == '/'
  {
  }

  /** Reading back a pointer the program wrote gives the path it was written for. */
  lemma {:induction false} DecodeEncode(p: Path)
    ensures Decode(Encode(p)) == Some(p)
  {
    if p != [] {
      DecodeEncode(p[1..]);
      var token := EscapeJSONPointer(p[0]);
      EscapeBijective(p[0], "");
      ValidTokenNoSlash(token);
      EncodeStarts(p[1..]);
      DecodeStep(token, Encode(p[1..]));
      assert p == [p[0]] + p[1..];
    }
  }

  lemma EncodeInjective(p: Path, q: Path)
    requires Encode(p) == Encode(q)
    ensures p == q
  {
    DecodeEncode(p);
    DecodeEncode(q);
  }

  lemma {:induction false} EncodeAppend(p: Path, q: Path)
    ensures Encode(p + q) == Encode(p) + Encode(q)
  {
    if p == [] {
      assert p + q == q;
    } else {
      var head := "/" + EscapeJSONPointer(p[0]);
      calc {
        Encode(p + q);
        { assert (p + q)[1..] == p[1..] + q; }
        head + Encode(p[1..] + q);
        { EncodeAppend(p[1..], q); }
        head + (Encode(p[1..]) + Encode(q));
        (head + Encode(p[1..])) + Encode(q);
        Encode(p) + Encode(q);
      }
    }
  }

  // ---------- erasing ----------

  /** Remove the field a path names, if there is one. */
  function EraseOne(v: Value, p: Path): Value
    decreases |p|
  {
    if p == [] || !v.Obj? || p[0] !in v.fields then v
    else if |p| == 1 then Obj(v.fields - {p[0]})
    else Obj(v.fields[p[0] := EraseOne(v.fields[p[0]], p[1..])])
  }

  /** Remove, one pointer after the other, every field the pointers name. */
  function Erase(v: Value, pointers: seq<string>): Value
    decreases |pointers|
  {
    if pointers == [] then v
    else
      Erase(match Decode(pointers[0]) case Some(p) => EraseOne(v, p) case None => v, pointers[1..])
  }

  ghost function Below(paths: set<Path>, key: string): set<Path> {
    set p | p in paths && |p| > 1 && p[0] == key :: p[1..]
  }

  /** Remove all at once the fields that a set of paths names. */
  ghost function EraseSet(v: Value, paths: set<Path>): Value
    decreases v
  {
    match v
    case Obj(m) => Obj(map k | k in m && [k] !in paths :: EraseSet(m[k], Below(paths, k)))
    case _ => v
  }

  /** Erasing, described field by field. */
  lemma EraseSetIs(v: Value, paths: set<Path>, left: map<string, Value>)
    requires v.Obj? && forall k :: k in left <==> k in v.fields && [k] !in paths
    requires forall k :: k in left ==> EraseSet(v.fields[k], Below(paths, k)) == left[k]
    ensures EraseSet(v, paths) == Obj(left)
  {
    hide Below;
  }

  ghost function PathsOf(pointers: seq<string>): set<Path> {
    set s | s in pointers && Decode(s).Some? :: Decode(s).value
  }

  lemma {:induction false} EraseSetEmpty(v: Value)
    ensures EraseSet(v, {}) == v
    decreases v
  {
    if v.Obj? {
      forall k | k in v.fields ensures EraseSet(v.fields[k], Below({}, k)) == v.fields[k] {
        assert Below({}, k) == {};
        EraseSetEmpty(v.fields[k]);
      }
    }
  }

  lemma {:induction false} EraseOneThenSet(v: Value, p: Path, paths: set<Path>)
    ensures EraseSet(EraseOne(v, p), paths) == EraseSet(v, paths + {p})
    decreases v
  {
    if v.Obj? {
      var all := paths + {p};
      forall k ensures p == [] || |p| == 1 || k != p[0] ==> Below(all, k) == Below(paths, k) {}
      if p != [] && p[0] in v.fields && |p| > 1 {
        var k := p[0];
        assert p != [k];
        assert Below(all, k) == Below(paths, k) + {p[1..]};
        EraseOneThenSet(v.fields[k], p[1..], Below(paths, k));
      }
      var a, b := EraseSet(EraseOne(v, p), paths), EraseSet(v, all);
      forall k ensures k in a.fields <==> k in b.fields {
        assert [k] in all <==> [k] in paths || p == [k];
      }
      assert a.fields == b.fields;
    }
  }

  /** The order of erasing does not matter: a list of pointers means its set of paths. */
  lemma {:induction false} EraseIsEraseSet(v: Value, pointers: seq<string>)
    ensures Erase(v, pointers) == EraseSet(v, PathsOf(pointers))
    decreases |pointers|
  {
    if pointers == [] {
      assert PathsOf(pointers) == {};
      EraseSetEmpty(v);
    } else {
      var rest := pointers[1..];
      match Decode(pointers[0]) {
        case Some(p) =>
          EraseIsEraseSet(EraseOne(v, p), rest);
          EraseOneThenSet(v, p, PathsOf(rest));
          assert PathsOf(pointers) == PathsOf(rest) + {p} by {
            assert forall s :: s in pointers <==> s == pointers[0] || s in rest;
          }
        case None =>
          EraseIsEraseSet(v, rest);
          assert PathsOf(pointers) == PathsOf(rest) by {
            assert forall s :: s in pointers <==> s == pointers[0] || s in rest;
          }
      }
    }
  }

  /** No nonempty prefix of the path is listed. */
  ghost predicate Untouched(paths: set<Path>, q: Path) {
    forall n :: 1 <= n <= |q| ==> q[..n] !in paths
  }

  lemma UntouchedStep(paths: set<Path>, q: Path)
    requires q != []
    ensures Untouched(paths, q) <==> [q[0]] !in paths && Untouched(Below(paths, q[0]), q[1..])
  {
    var k, tail := q[0], q[1..];
    assert q[..1] == [k];
    forall n | 1 <= n <= |tail| ensures tail[..n] in Below(paths, k) <==> q[..n+1] in paths {
      assert q[..n+1] == [k] + tail[..n];
      assert q[..n+1][1..] == tail[..n];
      if tail[..n] in Below(paths, k) {
        var p :| p in paths && |p| > 1 && p[0] == k && p[1..] == tail[..n];
        assert p == [k] + p[1..];
      }
    }
    hide Below;
    if !Untouched(paths, q) && [k] !in paths {
      var n :| 1 <= n <= |q| && q[..n] in paths;
      assert tail[..n-1] in Below(paths, k);
    }
  }

  /** A path survives exactly when none of its nonempty prefixes is erased. */
  lemma {:induction false} EraseSetLookup(v: Value, paths: set<Path>, q: Path)
    ensures Lookup(EraseSet(v, paths), q).Some? <==> Lookup(v, q).Some? && Untouched(paths, q)
    ensures Lookup(EraseSet(v, paths), q).Some? && !Lookup(v, q).value.Obj? ==>
              Lookup(EraseSet(v, paths), q) == Lookup(v, q)
    decreases |q|
  {
    if q != [] && v.Obj? && q[0] in v.fields {
      EraseSetLookup(v.fields[q[0]], Below(paths, q[0]), q[1..]);
      UntouchedStep(paths, q);
      hide Below, Untouched;
    }
  }
}
