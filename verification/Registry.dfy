/** The registry that elects one owner per CRD
    (pkg/controller/helmrelease_controller.go:182-211, 333-346). */
module Registry {
  import opened Text

  type Record = map<string, set<string>>

  /** The releases recorded as shipping a CRD. */
  function Shippers(byRelease: Record, crd: string): set<string> {
    set r | r in byRelease && crd in byRelease[r]
  }

  /** The elected owner: the least release that ships the CRD, or none. */
  function OwnerOf(byRelease: Record, crd: string): string {
    if Shippers(byRelease, crd) == {} then "" else Least(Shippers(byRelease, crd))
  }

  /** One step of the election: what visiting one more release that ships the CRD does. */
  function VisitStep(owner: string, release: string): string {
    if owner == "" || Less(release, owner) then release else owner
  }

  class HelmCRDRegistry {
    var byRelease: Record

    constructor ()
      ensures byRelease == map[]
    {
      byRelease := map[];
    }

    method Remove(release: string)
      modifies this
      ensures byRelease == old(byRelease) - {release}
    {
      byRelease := byRelease - {release};
    }

    method Set(release: string, crds: seq<string>)
      modifies this
      ensures byRelease == old(byRelease)[release := Elems(crds)]
    {
      var s: set<string> := {};
      for i := 0 to |crds|
        invariant s == Elems(crds[..i]) && byRelease == old(byRelease)
      {
        assert crds[..i+1] == crds[..i] + [crds[i]];
        s := s + {crds[i]};
      }
      assert crds[..|crds|] == crds;
      byRelease := byRelease[release := s];
    }

    /** The map is visited in any order. */
    method Owner(crd: string) returns (owner: string)
      ensures "" !in byRelease ==> owner == OwnerOf(byRelease, crd)
    {
      owner := "";
      var todo := byRelease.Keys;
      while todo != {}
        invariant todo <= byRelease.Keys
        invariant owner == "" || owner in Shippers(byRelease, crd)
        invariant "" !in byRelease ==>
                    forall r :: r in Shippers(byRelease, crd) && r !in todo ==> owner != "" && Leq(owner, r)
      {
        var release :| release in todo;
        todo := todo - {release};
        if crd !in byRelease[release] {
          continue;
        }
        if owner != "" { VisitKeepsLeast(owner, release); }
        owner := VisitStep(owner, release);
      }
      if "" !in byRelease && Shippers(byRelease, crd) != {} {
        LeastUnique(owner, OwnerOf(byRelease, crd), Shippers(byRelease, crd));
      }
    }
  }

  lemma VisitKeepsLeast(owner: string, release: string)
    requires owner != ""
    ensures var next := VisitStep(owner, release);
            Leq(next, release) && forall r :: Leq(owner, r) ==> Leq(next, r)
  {
    LessTotal(release, owner);
    if Less(release, owner) {
      forall r | Leq(owner, r) ensures Leq(release, r) {
        if r != owner { LessTransitive(release, owner, r); }
      }
    }
  }

  /** Why keys must not be empty: the empty owner means none, so an empty key would be elected
      or passed over depending on the order of the visit. */
  lemma EmptyKeyDependsOnOrder(release: string)
    requires release != ""
    ensures VisitStep(VisitStep("", release), "") == "" && VisitStep(VisitStep("", ""), release) == release
  {
  }

  // ---------- whole histories ----------

  datatype Op = SetOp(release: string, crds: seq<string>) | RemoveOp(release: string)

  function After(ops: seq<Op>): Record {
    if ops == [] then map[]
    else
      var before, last := After(ops[..|ops|-1]), ops[|ops|-1];
      match last
      case SetOp(r, crds) => before[r := set c | c in crds]
      case RemoveOp(r) => before - {r}
  }

  /** Operation `i` recorded that the release ships the CRD, and no later one is about the release. */
  ghost predicate RecordedAt(ops: seq<Op>, i: int, release: string, crd: string) {
    0 <= i < |ops| && ops[i].SetOp? && ops[i].release == release && crd in ops[i].crds &&
    forall j :: i < j < |ops| ==> ops[j].release != release
  }

  /** The last operation on a release recorded that it ships the CRD. */
  ghost predicate LastRecorded(ops: seq<Op>, release: string, crd: string) {
    exists i :: RecordedAt(ops, i, release, crd)
  }

  lemma {:induction false} RecordedIsLast(ops: seq<Op>, release: string, crd: string)
    ensures release in Shippers(After(ops), crd) <==> LastRecorded(ops, release, crd)
  {
    if ops != [] {
      var n := |ops| - 1;
      var before := ops[..n];
      RecordedIsLast(before, release, crd);
      if ops[n].release == release {
        assert RecordedAt(ops, n, release, crd) <==> ops[n].SetOp? && crd in ops[n].crds;
        assert forall i :: RecordedAt(ops, i, release, crd) ==> i == n;
      } else {
        forall i ensures RecordedAt(ops, i, release, crd) <==> RecordedAt(before, i, release, crd) {
          RecordedBefore(ops, i, release, crd);
        }
        assert release in Shippers(After(ops), crd) <==> release in Shippers(After(before), crd);
      }
    }
  }

  lemma RecordedBefore(ops: seq<Op>, i: int, release: string, crd: string)
    requires ops != [] && ops[|ops|-1].release != release
    ensures RecordedAt(ops, i, release, crd) <==> RecordedAt(ops[..|ops|-1], i, release, crd)
  {
    var before := ops[..|ops|-1];
    assert forall j :: 0 <= j < |before| ==> before[j] == ops[j];
  }

  /** After any history with non-empty release keys the owner of a CRD is the least of the
      releases last recorded as shipping it, and none exactly when there is no such release. */
  lemma OwnerIsLeastRecorded(ops: seq<Op>, crd: string)
    requires forall op :: op in ops ==> op.release != ""
    ensures var owner := OwnerOf(After(ops), crd);
            (owner == "" <==> forall r :: !LastRecorded(ops, r, crd)) &&
            (owner != "" ==> LastRecorded(ops, owner, crd) &&
                             forall r :: LastRecorded(ops, r, crd) ==> Leq(owner, r))
  {
    var shippers := Shippers(After(ops), crd);
    forall r ensures r in shippers <==> LastRecorded(ops, r, crd) { RecordedIsLast(ops, r, crd); }
    if shippers != {} {
      var owner := OwnerOf(After(ops), crd);
      assert owner in shippers;
      var i :| RecordedAt(ops, i, owner, crd);
      assert ops[i] in ops;
    }
  }
}
