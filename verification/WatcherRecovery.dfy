/**
 When a scan that starts from any state at all leaves a mirror. A scan that breaks a limit records
 entries without copying them, so a later scan does not start from a mirror.
 */
module WatcherRecovery {
  import opened WatcherModel
  import opened WatcherWalk
  import opened WatcherMirror
  import opened WatcherLimits

  /** Some entry strictly below `p` is copied. */
  ghost predicate CopiedBelow(record: Record, vs: seq<Visit>, p: Path) {
    exists i :: 0 <= i < |vs| && NeedsUpdate(record, vs[i]) && p < vs[i].path
  }

  /** The copies leave the image of `v`: it is copied and what the target holds there gives way, or it
      is there already, or it is a missing directory that a copy below it creates. */
  ghost predicate CompletedAt(record: Record, t: Target, vs: seq<Visit>, v: Visit) {
    if NeedsUpdate(record, v) then
      v.path in t ==> if v.node.Dir? then t[v.path] == DirCopy else CanCopy(t, v)
    else if v.path in t then t[v.path] == Image(v.node)
    else v.node.Dir? && CopiedBelow(record, vs, v.path)
  }

  ghost predicate Completed(record: Record, t: Target, vs: seq<Visit>) {
    t.Keys <= ListingOf(vs).Keys && forall i :: 0 <= i < |vs| ==> CompletedAt(record, t, vs, vs[i])
  }

  // ---------------------------------------------------------------- copies that nothing blocks

  /** What the target holds where an entry goes gives way to it. */
  predicate GivesWay(record: Record, t: Target, v: Visit) {
    v.path in t ==>
      if v.node.Dir? then t[v.path] == DirCopy else NeedsUpdate(record, v) ==> CanCopy(t, v)
  }

  ghost predicate Unblocked(record: Record, t: Target, vs: seq<Visit>) {
    forall i :: 0 <= i < |vs| ==> GivesWay(record, t, vs[i])
  }

  /** Nothing is in the way of copying `v`. */
  predicate Clear(t: Target, v: Visit) {
    && (v.path == [] ==> v.node.Dir?)
    && (forall k :: 0 <= k < |v.path| && v.path[..k] in t ==> t[v.path[..k]] == DirCopy)
    && (v.path in t ==> if v.node.Dir? then t[v.path] == DirCopy else CanCopy(t, v))
  }

  /** One copy that nothing blocks: the entry and its missing ancestors appear. */
  lemma ClearUpdate(t: Target, v: Visit, p: Path)
    requires Clear(t, v)
    ensures p in UpdatedTarget(t, v) <==> p in t || p <= v.path
    ensures p in UpdatedTarget(t, v) ==>
              UpdatedTarget(t, v)[p] == if p == v.path then Image(v.node) else if p in t then t[p] else DirCopy
  {
    if v.node.Dir? {
      assert v.path[..|v.path|] == v.path;
      ClearMkdir(t, v.path, v.path, p);
    } else {
      ClearMkdir(t, Parent(v.path), v.path, p);
      ClearMkdir(t, Parent(v.path), v.path, v.path);
      assert p <= v.path <==> p == v.path || p <= Parent(v.path) by {
        PrefixOfParent(v.path, p);
      }
    }
  }

  lemma PrefixOfParent(q: Path, p: Path)
    requires q != []
    ensures p <= q <==> p == q || p <= Parent(q)
  {
    if p <= q && p != q {
      assert p == q[..|p|] == Parent(q)[..|p|];
    }
  }

  lemma ClearMkdir(t: Target, d: Path, q: Path, p: Path)
    requires d <= q && forall k :: 0 <= k <= |d| && q[..k] in t ==> t[q[..k]] == DirCopy
    ensures CanMkdir(t, d)
    ensures p in Mkdirs(t, d) <==> p in t || p <= d
    ensures p in Mkdirs(t, d) ==> Mkdirs(t, d)[p] == if p in t then t[p] else DirCopy
  {
    forall k | 0 <= k <= |d| ensures d[..k] == q[..k] {
    }
    if p <= d {
      assert p == d[..|p|];
    }
  }

  // ---------------------------------------------------------------- all copies

  /** Some copied entry is at or below `p`. */
  ghost predicate CopiedFrom(record: Record, vs: seq<Visit>, p: Path) {
    exists i :: 0 <= i < |vs| && NeedsUpdate(record, vs[i]) && p <= vs[i].path
  }

  /** What the copies leave at `p` when nothing blocks them. */
  ghost predicate Result(record: Record, t: Target, vs: seq<Visit>, after: Target, p: Path) {
    && (p in after <==> p in t || CopiedFrom(record, vs, p))
    && (p in after ==>
          if p in ListingOf(vs) && NeedsUpdate(record, Visit(p, ListingOf(vs)[p])) then after[p] == Image(ListingOf(vs)[p])
          else after[p] == if p in t then t[p] else DirCopy)
  }

  ghost predicate Results(record: Record, t: Target, vs: seq<Visit>, after: Target) {
    forall p :: Result(record, t, vs, after, p)
  }

  lemma {:induction false} UnblockedCopies(record: Record, t: Target, vs: seq<Visit>)
    requires IsTree(vs) && Unblocked(record, t, vs)
    ensures Results(record, t, vs, UpdatedAll(t, Changed(record, vs)))
  {
    if vs == [] {
    } else {
      var rest := vs[..|vs| - 1];
      PrefixIsTree(vs);
      assert Unblocked(record, t, rest) by {
        assert forall i :: 0 <= i < |rest| ==> rest[i] == vs[i];
      }
      UnblockedCopies(record, t, rest);
      CopiesOfLast(record, t, vs);
      forall p ensures Result(record, t, vs, UpdatedAll(t, Changed(record, vs)), p) {
        OneMoreCopy(record, t, vs, UpdatedAll(t, Changed(record, rest)), p);
      }
    }
  }

  lemma OneMoreCopy(record: Record, t: Target, vs: seq<Visit>, t1: Target, p: Path)
    requires IsTree(vs) && vs != [] && Unblocked(record, t, vs) && Results(record, t, vs[..|vs| - 1], t1)
    ensures var v := vs[|vs| - 1];
            Result(record, t, vs, if NeedsUpdate(record, v) then UpdatedTarget(t1, v) else t1, p)
  {
    var rest, v := vs[..|vs| - 1], vs[|vs| - 1];
    CopiedFromLast(record, vs, p);
    if NeedsUpdate(record, v) {
      LastIsClear(record, t, vs, t1);
      ClearUpdate(t1, v, p);
      ResultAfterCopy(record, t, vs, t1, UpdatedTarget(t1, v), p);
    } else {
      ResultWithoutCopy(record, t, vs, t1, p);
    }
  }

  lemma ResultAfterCopy(record: Record, t: Target, vs: seq<Visit>, t1: Target, t2: Target, p: Path)
    requires Distinct(vs) && vs != [] && NeedsUpdate(record, vs[|vs| - 1])
    requires Result(record, t, vs[..|vs| - 1], t1, p)
    requires CopiedFrom(record, vs, p) <==> CopiedFrom(record, vs[..|vs| - 1], p) || p <= vs[|vs| - 1].path
    requires p in t2 <==> p in t1 || p <= vs[|vs| - 1].path
    requires p in t2 ==>
               t2[p] == if p == vs[|vs| - 1].path then Image(vs[|vs| - 1].node) else if p in t1 then t1[p] else DirCopy
    ensures Result(record, t, vs, t2, p)
  {
    var rest, v := vs[..|vs| - 1], vs[|vs| - 1];
    assert ListingOf(vs) == ListingOf(rest)[v.path := v.node];
    if p != v.path && p in ListingOf(rest) && NeedsUpdate(record, Visit(p, ListingOf(rest)[p])) {
      ListedCopied(record, rest, p);
    }
  }

  /** A listed path that is copied is there afterwards. */
  lemma ListedCopied(record: Record, vs: seq<Visit>, p: Path)
    requires p in ListingOf(vs) && NeedsUpdate(record, Visit(p, ListingOf(vs)[p]))
    ensures CopiedFrom(record, vs, p)
  {
    ListedIsVisited(vs, p);
    var i :| 0 <= i < |vs| && vs[i] == Visit(p, ListingOf(vs)[p]);
    assert p <= vs[i].path;
  }

  lemma ResultWithoutCopy(record: Record, t: Target, vs: seq<Visit>, t1: Target, p: Path)
    requires Distinct(vs) && vs != [] && !NeedsUpdate(record, vs[|vs| - 1])
    requires Result(record, t, vs[..|vs| - 1], t1, p)
    requires CopiedFrom(record, vs, p) <==> CopiedFrom(record, vs[..|vs| - 1], p)
    ensures Result(record, t, vs, t1, p)
  {
    LastAgrees(record, vs);
    assert ListingOf(vs) == ListingOf(vs[..|vs| - 1])[vs[|vs| - 1].path := vs[|vs| - 1].node];
  }

  lemma CopiedFromLast(record: Record, vs: seq<Visit>, p: Path)
    requires vs != []
    ensures CopiedFrom(record, vs, p) <==>
            CopiedFrom(record, vs[..|vs| - 1], p) || (NeedsUpdate(record, vs[|vs| - 1]) && p <= vs[|vs| - 1].path)
  {
    var rest := vs[..|vs| - 1];
    assert forall i :: 0 <= i < |rest| ==> rest[i] == vs[i];
  }

  /** Nothing is in the way of the last copy once the others are done. */
  lemma LastIsClear(record: Record, t: Target, vs: seq<Visit>, t1: Target)
    requires IsTree(vs) && vs != [] && Unblocked(record, t, vs) && NeedsUpdate(record, vs[|vs| - 1])
    requires Results(record, t, vs[..|vs| - 1], t1)
    ensures Clear(t1, vs[|vs| - 1])
  {
    var rest, v := vs[..|vs| - 1], vs[|vs| - 1];
    forall k | 0 <= k < |v.path| && v.path[..k] in t1 ensures t1[v.path[..k]] == DirCopy {
      LastPrefixListed(vs, k);
      ListedGivesWay(record, t, rest, v.path[..k]);
      assert Result(record, t, rest, t1, v.path[..k]);
    }
    assert GivesWay(record, t, v);
    LastIsNotAbove(record, vs);
    assert Result(record, t, rest, t1, v.path);
    LastAgrees(record, vs);
  }

  lemma ListedGivesWay(record: Record, t: Target, rest: seq<Visit>, q: Path)
    requires Unblocked(record, t, rest) && q in ListingOf(rest)
    ensures GivesWay(record, t, Visit(q, ListingOf(rest)[q]))
  {
    ListedIsVisited(rest, q);
  }

  /** What lies above a path of the tree is a directory of the tree. */
  lemma AboveIsListed(vs: seq<Visit>, q: Path, p: Path)
    requires Ordered(vs) && q in ListingOf(vs) && p <= q
    ensures p in ListingOf(vs) && (p != q ==> ListingOf(vs)[p].Dir?)
  {
    assert p == q[..|p|];
    if |p| < |q| {
      PrefixListed(vs, q, |p|);
    } else {
      assert p == q;
    }
  }

  /** No earlier visit is at or below the last one. */
  lemma LastIsNotAbove(record: Record, vs: seq<Visit>)
    requires IsTree(vs) && vs != []
    ensures !CopiedFrom(record, vs[..|vs| - 1], vs[|vs| - 1].path)
  {
    var rest, p := vs[..|vs| - 1], vs[|vs| - 1].path;
    LastAgrees(record, vs);
    PrefixIsTree(vs);
    forall i | 0 <= i < |rest| ensures !(p <= rest[i].path) {
      VisitedIsListed(rest, i);
      if p <= rest[i].path {
        AboveIsListed(rest, rest[i].path, p);
        assert false;
      }
    }
  }

  // ---------------------------------------------------------------- both directions

  lemma CompletedIsUnblocked(record: Record, t: Target, vs: seq<Visit>)
    requires Completed(record, t, vs)
    ensures Unblocked(record, t, vs)
  {
    forall i | 0 <= i < |vs| ensures GivesWay(record, t, vs[i]) {
      assert CompletedAt(record, t, vs, vs[i]);
    }
  }

  /** At a path of the tree the copies leave its image. */
  lemma CompletedGivesImageAt(record: Record, t: Target, vs: seq<Visit>, p: Path)
    requires IsTree(vs) && Completed(record, t, vs) && p in ListingOf(vs)
    ensures var after := UpdatedAll(t, Changed(record, vs)); p in after && after[p] == Image(ListingOf(vs)[p])
  {
    CompletedIsUnblocked(record, t, vs);
    UnblockedCopies(record, t, vs);
    assert Result(record, t, vs, UpdatedAll(t, Changed(record, vs)), p);
    ListedIsVisited(vs, p);
    var i :| 0 <= i < |vs| && vs[i] == Visit(p, ListingOf(vs)[p]);
    assert CompletedAt(record, t, vs, vs[i]);
    if NeedsUpdate(record, vs[i]) {
      assert p <= vs[i].path;
      assert CopiedFrom(record, vs, p);
    } else if p !in t {
      var j :| 0 <= j < |vs| && NeedsUpdate(record, vs[j]) && p < vs[j].path;
      assert CopiedFrom(record, vs, p);
    }
  }

  /** Nothing appears outside the tree. */
  lemma CompletedStaysInside(record: Record, t: Target, vs: seq<Visit>, p: Path)
    requires IsTree(vs) && Completed(record, t, vs) && p in UpdatedAll(t, Changed(record, vs))
    ensures p in ListingOf(vs)
  {
    CompletedIsUnblocked(record, t, vs);
    UnblockedCopies(record, t, vs);
    assert Result(record, t, vs, UpdatedAll(t, Changed(record, vs)), p);
    if p !in t {
      var i :| 0 <= i < |vs| && NeedsUpdate(record, vs[i]) && p <= vs[i].path;
      VisitedIsListed(vs, i);
      AboveIsListed(vs, vs[i].path, p);
    }
  }

  lemma SameAsImage(after: Target, l: Listing)
    requires forall p :: p in l ==> p in after && after[p] == Image(l[p])
    requires forall p :: p in after ==> p in l
    ensures after == ImageOf(l)
  {
  }

  lemma CompletedGivesImage(record: Record, t: Target, vs: seq<Visit>)
    requires IsTree(vs) && Completed(record, t, vs)
    ensures UpdatedAll(t, Changed(record, vs)) == ImageOf(ListingOf(vs))
  {
    forall p | p in ListingOf(vs)
      ensures p in UpdatedAll(t, Changed(record, vs)) && UpdatedAll(t, Changed(record, vs))[p] == Image(ListingOf(vs)[p])
    {
      CompletedGivesImageAt(record, t, vs, p);
    }
    forall p | p in UpdatedAll(t, Changed(record, vs)) ensures p in ListingOf(vs) {
      CompletedStaysInside(record, t, vs, p);
    }
    SameAsImage(UpdatedAll(t, Changed(record, vs)), ListingOf(vs));
  }

  /** What appears was copied, or lies above a copied entry. */
  lemma {:induction false} AppearsAbove(t: Target, us: seq<Visit>, p: Path)
    requires p in UpdatedAll(t, us) && p !in t
    ensures exists u :: u in us && p <= u.path
  {
    if us == [] {
    } else {
      var rest, last := us[..|us| - 1], us[|us| - 1];
      assert last in us;
      if p in UpdatedAll(t, rest) {
        AppearsAbove(t, rest, p);
        var u :| u in rest && p <= u.path;
        assert u in us;
      } else {
        assert p <= last.path;
      }
    }
  }

  lemma ImageNeedsCompletedAt(record: Record, t: Target, vs: seq<Visit>, i: nat)
    requires IsTree(vs) && i < |vs| && UpdatedAll(t, Changed(record, vs)) == ImageOf(ListingOf(vs))
    ensures CompletedAt(record, t, vs, vs[i])
  {
    var us, v := Changed(record, vs), vs[i];
    VisitedIsListed(vs, i);
    if v.path in t {
      CopiesRespectKinds(t, us, v.path);
      if UpdatedAll(t, us)[v.path] != t[v.path] {
        var u :| u in us && CopiedOver(t, us, v.path, u);
        ChangedIs(record, vs, u);
        var j :| 0 <= j < |vs| && vs[j] == u;
        VisitedIsListed(vs, j);
        assert u == v;
      }
    } else if !NeedsUpdate(record, v) {
      AppearsAbove(t, us, v.path);
      var u :| u in us && v.path <= u.path;
      ChangedIs(record, vs, u);
      var j :| 0 <= j < |vs| && vs[j] == u;
      VisitedIsListed(vs, j);
      AboveIsListed(vs, u.path, v.path);
    }
  }

  lemma ImageNeedsCompleted(record: Record, t: Target, vs: seq<Visit>)
    requires IsTree(vs) && UpdatedAll(t, Changed(record, vs)) == ImageOf(ListingOf(vs))
    ensures Completed(record, t, vs)
  {
    forall p | p in t ensures p in ListingOf(vs) {
      CopiesRespectKinds(t, Changed(record, vs), p);
    }
    forall i | 0 <= i < |vs| ensures CompletedAt(record, t, vs, vs[i]) {
      ImageNeedsCompletedAt(record, t, vs, i);
    }
  }

  /** From any state, whatever happened before: a scan leaves a mirror of the tree exactly when no
      recorded path is merely found through a link, and after pruning the target holds nothing but
      paths of the tree and every entry is completed. */
  lemma MirrorsFromExactly(s: State, vs: seq<Visit>)
    requires IsTree(vs)
    ensures Mirrors(Scanned(s, vs), ListingOf(vs)) <==>
            && (forall p :: p in s.record && Exists(ListingOf(vs), p) ==> p in ListingOf(vs))
            && Completed(PrunedRecord(s.record, ListingOf(vs)), PrunedTarget(s.target, Gone(s.record, ListingOf(vs))), vs)
  {
    var l := ListingOf(vs);
    var record, t := PrunedRecord(s.record, l), PrunedTarget(s.target, Gone(s.record, l));
    RecordExactly(s, vs);
    if Completed(record, t, vs) {
      CompletedGivesImage(record, t, vs);
    }
    if Scanned(s, vs).target == ImageOf(l) {
      ImageNeedsCompleted(record, t, vs);
    }
  }

  /** A recorded file or link that the target lacks is not copied as long as it leads somewhere and is
      no newer than recorded, so no scan mirrors the tree. */
  lemma UncopiedStays(f: State, vs: seq<Visit>, j: nat)
    requires IsTree(vs) && j < |vs| && !vs[j].node.Dir? && !Dangling(vs[j].node)
    requires vs[j].path in f.record && f.record[vs[j].path] >= vs[j].node.modified && vs[j].path !in f.target
    ensures !Mirrors(Scanned(f, vs), ListingOf(vs))
  {
    var l := ListingOf(vs);
    StaysUncopied(f, vs, j);
    NotCompleted(PrunedRecord(f.record, l), PrunedTarget(f.target, Gone(f.record, l)), vs, j);
    MirrorsFromExactly(f, vs);
  }

  lemma StaysUncopied(f: State, vs: seq<Visit>, j: nat)
    requires Ordered(vs) && j < |vs| && !vs[j].node.Dir? && !Dangling(vs[j].node)
    requires vs[j].path in f.record && f.record[vs[j].path] >= vs[j].node.modified
    ensures !NeedsUpdate(PrunedRecord(f.record, ListingOf(vs)), vs[j])
  {
    ListingClosed(vs);
    VisitedIsListed(vs, j);
    ListedExists(ListingOf(vs), vs[j].path);
  }

  lemma NotCompleted(record: Record, t: Target, vs: seq<Visit>, j: nat)
    requires j < |vs| && !vs[j].node.Dir? && !NeedsUpdate(record, vs[j]) && vs[j].path !in t
    ensures !Completed(record, t, vs)
  {
    assert !CompletedAt(record, t, vs, vs[j]);
  }

  /** So it is with what a failed scan recorded and did not copy. */
  lemma LostByFailure(s: State, vs: seq<Visit>, k: nat, later: seq<Visit>, i: nat, j: nat)
    requires Distinct(vs) && IsTree(later) && i < k <= |vs| && j < |later| && later[j] == vs[i]
    requires !vs[i].node.Dir? && !Dangling(vs[i].node) && vs[i].path !in s.target
    ensures !Mirrors(Scanned(Failed(s, vs, k), later), ListingOf(later))
  {
    RecordedBy(PrunedRecord(s.record, ListingOf(vs)), vs, k, i);
    UncopiedStays(Failed(s, vs, k), later, j);
  }

  /** A prefix of a walk records the times of its visits. */
  lemma RecordedBy(record: Record, vs: seq<Visit>, k: nat, i: nat)
    requires Distinct(vs) && i < k <= |vs|
    ensures vs[i].path in Recorded(record, vs[..k]) && Recorded(record, vs[..k])[vs[i].path] == vs[i].node.modified
  {
    RecordedIs(record, vs[..k]);
    assert vs[..k][i] == vs[i];
    VisitedIsListed(vs[..k], i);
  }
}
