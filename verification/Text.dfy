/** Strings the way the program uses them: Go's order, character by character, `sort.Strings`,
    and searching and splitting. */
module Text {

  datatype Option<+T> = None | Some(value: T)

  // ---------- order ----------

  /** Go's `<` on strings. */
  predicate Less(a: string, b: string) {
    if b == "" then false
    else if a == "" then true
    else if a[0] == b[0] then Less(a[1..], b[1..])
    else a[0] < b[0]
  }

  predicate Leq(a: string, b: string) {
    a == b || Less(a, b)
  }

  /** The order itself: a string comes after its prefixes, and two strings that are not prefixes of one
      another are ordered by the first character in which they differ. */
  lemma {:induction false} LessExactly(p: string, c: char, x: string, d: char, y: string)
    ensures Less(p, p + [c] + x)
    ensures c < d ==> Less(p + [c] + x, p + [d] + y) && !Less(p + [d] + y, p + [c] + x)
  {
    var a, b := p + [c] + x, p + [d] + y;
    if p != "" {
      LessExactly(p[1..], c, x, d, y);
      assert a[1..] == p[1..] + [c] + x && b[1..] == p[1..] + [d] + y;
    }
  }

  lemma {:induction false} LessIrreflexive(a: string)
    ensures !Less(a, a)
  {
    if a != "" {
      LessIrreflexive(a[1..]);
    }
  }

  lemma {:induction false} LessTransitive(a: string, b: string, c: string)
    requires Less(a, b) && Less(b, c)
    ensures Less(a, c)
  {
    if a != "" && a[0] == b[0] == c[0] {
      LessTransitive(a[1..], b[1..], c[1..]);
    }
  }

  lemma {:induction false} LessTotal(a: string, b: string)
    ensures Less(a, b) || a == b || Less(b, a)
  {
    if a != "" && b != "" && a[0] == b[0] {
      LessTotal(a[1..], b[1..]);
      assert a == [a[0]] + a[1..] && b == [b[0]] + b[1..];
    }
  }

  lemma LessAsymmetric(a: string, b: string)
    requires Less(a, b)
    ensures !Less(b, a) && a != b
  {
    LessIrreflexive(a);
    if Less(b, a) {
      LessTransitive(a, b, a);
    }
  }

  // ---------- sorted sequences ----------

  ghost function Elems<T>(s: seq<T>): set<T> {
    set x | x in s
  }

  lemma ElemsAppend<T>(a: seq<T>, b: seq<T>)
    ensures Elems(a + b) == Elems(a) + Elems(b)
  {
  }

  ghost predicate NoDup<T>(s: seq<T>) {
    forall i, j :: 0 <= i < j < |s| ==> s[i] != s[j]
  }

  ghost predicate Sorted(s: seq<string>) {
    forall i, j :: 0 <= i < j < |s| ==> Leq(s[i], s[j])
  }

  /** Sorted with no repeats: the canonical listing of a set. */
  ghost predicate Ascending(s: seq<string>) {
    forall i, j :: 0 <= i < j < |s| ==> Less(s[i], s[j])
  }

  function Insert(x: string, s: seq<string>): (r: seq<string>)
    ensures multiset(r) == multiset{x} + multiset(s)
  {
    if s == [] || Leq(x, s[0]) then [x] + s
    else
      assert s == [s[0]] + s[1..];
      [s[0]] + Insert(x, s[1..])
  }

  /** `sort.Strings`. */
  function Sort(s: seq<string>): (r: seq<string>)
    ensures multiset(r) == multiset(s)
  {
    if s == [] then []
    else
      assert s == [s[0]] + s[1..];
      Insert(s[0], Sort(s[1..]))
  }

  lemma {:induction false} InsertSorted(x: string, s: seq<string>)
    requires Sorted(s)
    ensures Sorted(Insert(x, s))
  {
    var r := Insert(x, s);
    if s == [] {
    } else if Leq(x, s[0]) {
      forall j | 0 < j < |r| ensures Leq(x, r[j]) {
        if j > 1 && x != s[0] && s[0] != s[j-1] {
          LessTransitive(x, s[0], s[j-1]);
        }
      }
    } else {
      InsertSorted(x, s[1..]);
      LessTotal(x, s[0]);
      var t := Insert(x, s[1..]);
      forall j | 0 <= j < |t| ensures Leq(s[0], t[j]) {
        assert t[j] in multiset(t);
        assert t[j] == x || t[j] in s[1..];
      }
    }
  }

  lemma {:induction false} SortSorted(s: seq<string>)
    ensures Sorted(Sort(s))
  {
    if s != [] {
      SortSorted(s[1..]);
      InsertSorted(s[0], Sort(s[1..]));
    }
  }

  lemma SortedHead(s: seq<string>, x: string)
    requires Sorted(s) && x in s
    ensures Leq(s[0], x)
  {
  }

  /** A sorted arrangement is determined by its contents. */
  lemma {:induction false} SortedUnique(a: seq<string>, b: seq<string>)
    requires Sorted(a) && Sorted(b)
    requires multiset(a) == multiset(b)
    ensures a == b
  {
    if a == [] {
      assert |multiset(b)| == 0;
    } else {
      assert b != [] by { assert |multiset(a)| > 0; }
      SameHead(a, b);
      SameTail(a, b);
      SortedUnique(a[1..], b[1..]);
      assert a == [a[0]] + a[1..] && b == [b[0]] + b[1..];
    }
  }

  lemma SameHead(a: seq<string>, b: seq<string>)
    requires a != [] && b != []
    requires Sorted(a) && Sorted(b)
    requires multiset(a) == multiset(b)
    ensures a[0] == b[0]
  {
    assert a[0] in multiset(b) && b[0] in multiset(a);
    SortedHead(a, b[0]);
    SortedHead(b, a[0]);
    if a[0] != b[0] { LessAsymmetric(a[0], b[0]); }
  }

  lemma SameTail<T>(a: seq<T>, b: seq<T>)
    requires a != [] && b != [] && a[0] == b[0]
    requires multiset(a) == multiset(b)
    ensures multiset(a[1..]) == multiset(b[1..])
  {
    assert a == [a[0]] + a[1..] && b == [b[0]] + b[1..];
    assert multiset(a[1..]) == multiset(a) - multiset{a[0]};
    assert multiset(b[1..]) == multiset(b) - multiset{b[0]};
  }

  lemma ElemsOfMultiset<T>(a: seq<T>, b: seq<T>)
    requires multiset(a) == multiset(b)
    ensures Elems(a) == Elems(b)
  {
    forall x ensures x in a <==> x in b {
      assert x in a <==> x in multiset(a);
      assert x in b <==> x in multiset(b);
    }
  }

  lemma {:induction false} NoDupMultiset<T>(s: seq<T>, x: T)
    requires NoDup(s)
    ensures multiset(s)[x] == if x in s then 1 else 0
  {
    if s != [] {
      assert s == [s[0]] + s[1..];
      assert NoDup(s[1..]);
      NoDupMultiset(s[1..], x);
    }
  }

  lemma {:induction false} MultisetNoDup<T>(s: seq<T>)
    requires forall x :: multiset(s)[x] <= 1
    ensures NoDup(s)
  {
    if s != [] {
      assert s == [s[0]] + s[1..];
      forall x ensures multiset(s[1..])[x] <= 1 { assert multiset(s)[x] <= 1; }
      MultisetNoDup(s[1..]);
      assert multiset(s)[s[0]] == 1 + multiset(s[1..])[s[0]];
      assert s[0] !in multiset(s[1..]);
    }
  }

  /** Sorting a listing without repeats gives the canonical listing of its set. */
  lemma SortAscending(s: seq<string>)
    requires NoDup(s)
    ensures Ascending(Sort(s)) && Elems(Sort(s)) == Elems(s)
  {
    var r := Sort(s);
    SortSorted(s);
    ElemsOfMultiset(s, r);
    forall x ensures multiset(r)[x] <= 1 { NoDupMultiset(s, x); }
    MultisetNoDup(r);
  }

  lemma {:induction false} AscendingUnique(a: seq<string>, b: seq<string>)
    requires Ascending(a) && Ascending(b) && Elems(a) == Elems(b)
    ensures a == b
  {
    AscendingNoDup(a);
    AscendingNoDup(b);
    forall x ensures multiset(a)[x] == multiset(b)[x] {
      NoDupMultiset(a, x);
      NoDupMultiset(b, x);
      assert x in a <==> x in Elems(a);
      assert x in b <==> x in Elems(b);
    }
    assert multiset(a) == multiset(b);
    SortedUnique(a, b);
  }

  lemma AscendingNoDup(a: seq<string>)
    requires Ascending(a)
    ensures NoDup(a) && Sorted(a)
  {
    forall i, j | 0 <= i < j < |a| ensures a[i] != a[j] { LessAsymmetric(a[i], a[j]); }
  }

  lemma Assoc<T>(a: seq<T>, b: seq<T>, c: seq<T>)
    ensures (a + b) + c == a + (b + c)
  {
  }

  function FlatMap<A, B>(f: A -> seq<B>, s: seq<A>): seq<B> {
    if s == [] then [] else f(s[0]) + FlatMap(f, s[1..])
  }

  lemma FlatMapOne<A, B>(f: A -> seq<B>, x: A)
    ensures FlatMap(f, [x]) == f(x)
  {
    assert [x][1..] == [];
    assert f(x) + [] == f(x);
  }

  lemma {:induction false} FlatMapAppend<A, B>(f: A -> seq<B>, a: seq<A>, b: seq<A>)
    ensures FlatMap(f, a + b) == FlatMap(f, a) + FlatMap(f, b)
  {
    if a == [] {
      assert a + b == b;
    } else {
      FlatMapAppend(f, a[1..], b);
      assert (a + b)[1..] == a[1..] + b;
      Assoc(f(a[0]), FlatMap(f, a[1..]), FlatMap(f, b));
    }
  }

  /** The union of `f` over a sequence. */
  ghost function Gather<A>(f: A -> set<string>, s: seq<A>): set<string> {
    if s == [] then {} else Gather(f, s[..|s|-1]) + f(s[|s|-1])
  }

  lemma GatherStep<A>(f: A -> set<string>, s: seq<A>, x: A)
    ensures Gather(f, s + [x]) == Gather(f, s) + f(x)
  {
    assert (s + [x])[..|s|] == s;
  }

  lemma {:induction false} GatherMember<A>(f: A -> set<string>, s: seq<A>, n: string)
    ensures n in Gather(f, s) <==> exists i :: 0 <= i < |s| && n in f(s[i])
  {
    if s != [] {
      var before := s[..|s|-1];
      GatherMember(f, before, n);
      assert forall i :: 0 <= i < |before| ==> before[i] == s[i];
    }
  }

  // ---------- the least element of a set, and a set in order ----------

  predicate IsLeast(x: string, s: set<string>) {
    x in s && forall y :: y in s ==> Leq(x, y)
  }

  lemma LeastUnique(x: string, y: string, s: set<string>)
    requires IsLeast(x, s) && IsLeast(y, s)
    ensures x == y
  {
    if x != y { LessAsymmetric(x, y); }
  }

  lemma LeastsAgree(s: set<string>)
    ensures forall x, y :: IsLeast(x, s) && IsLeast(y, s) ==> x == y
  {
    forall x, y | IsLeast(x, s) && IsLeast(y, s) ensures x == y { LeastUnique(x, y, s); }
  }

  lemma {:induction false} LeastExists(s: set<string>)
    requires s != {}
    ensures exists x :: IsLeast(x, s)
  {
    var x :| x in s;
    if s == {x} {
      assert IsLeast(x, s);
    } else {
      LeastExists(s - {x});
      var y :| IsLeast(y, s - {x});
      LessTotal(x, y);
      if Less(y, x) {
        assert IsLeast(y, s);
      } else {
        forall z | z in s ensures Leq(x, z) {
          if z != x {
            assert Leq(y, z);
            if z != y && y != x { LessTransitive(x, y, z); }
          }
        }
        assert IsLeast(x, s);
      }
    }
  }

  function Least(s: set<string>): (x: string)
    requires s != {}
    ensures IsLeast(x, s)
  {
    LeastExists(s);
    LeastsAgree(s);
    var x :| x in s && IsLeast(x, s);
    x
  }

  /** The canonical listing of a set of strings. */
  function InOrder(s: set<string>): (r: seq<string>)
    ensures Elems(r) == s
  {
    if s == {} then []
    else
      var x := Least(s);
      var t := InOrder(s - {x});
      assert Elems([x] + t) == {x} + Elems(t);
      [x] + t
  }

  lemma {:induction false} InOrderAscending(s: set<string>)
    ensures Ascending(InOrder(s))
  {
    if s != {} {
      var x := Least(s);
      var t := InOrder(s - {x});
      InOrderAscending(s - {x});
      forall j | 0 <= j < |t| ensures Less(x, t[j]) { assert t[j] in Elems(t); }
    }
  }

  /** Any order of gathering, once sorted, is the canonical listing. */
  lemma SortIsInOrder(s: seq<string>)
    requires NoDup(s)
    ensures Sort(s) == InOrder(Elems(s))
  {
    SortAscending(s);
    InOrderAscending(Elems(s));
    AscendingUnique(Sort(s), InOrder(Elems(s)));
  }
}
