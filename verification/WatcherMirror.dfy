/**
 The mirror theorem: when one scan carries a mirror of the old tree over to the new tree,
 and what that means for runs of scans.
 */
module WatcherMirror {
  import opened WatcherModel
  import opened WatcherWalk

  function Times(l: Listing): Record {
    map p | p in l :: l[p].modified
  }

  function ImageOf(l: Listing): Target {
    map p | p in l :: Image(l[p])
  }

  /** The record holds exactly the tree's paths and times, the target is its path-for-path image. */
  ghost predicate Mirrors(s: State, l: Listing) {
    s.record == Times(l) && s.target == ImageOf(l)
  }

  /** The walk of a directory: ordered, and no file or link at the mount point itself. */
  ghost predicate IsTree(vs: seq<Visit>) {
    Ordered(vs) && forall i :: 0 <= i < |vs| && vs[i].path == [] ==> vs[i].node.Dir?
  }

  /** Two files with the same content, two links with the same destination, or two directories. */
  predicate Alike(a: Node, b: Node) {
    match a
    case File(_, _, content) => b.File? && b.content == content
    case Link(_, _, to, _, _) => b.Link? && b.to == to
    case Dir(_, _) => b.Dir?
  }

  /** Copies tell apart exactly what is not alike. */
  lemma AlikeExactly(a: Node, b: Node)
    ensures Image(a) == Image(b) <==> Alike(a, b)
  {
  }

  /** The change from `a` to `b` at one path is one a scan can follow: `b` is a dangling link, or they are
      alike, or `b` is newer and a file replaces a file or a link replaces no directory. */
  predicate CarriesAt(a: Node, b: Node) {
    || Dangling(b)
    || Alike(a, b)
    || (!b.Dir? && b.modified > a.modified && ((a.File? && b.File?) || (b.Link? && !a.Dir?)))
  }

  ghost predicate Carries(l0: Listing, l1: Listing) {
    forall p :: p in l0 && p in l1 ==> CarriesAt(l0[p], l1[p])
  }

  // ---------------------------------------------------------------- recording

  lemma {:induction false} RecordedIs(record: Record, vs: seq<Visit>)
    ensures Recorded(record, vs) == record + Times(ListingOf(vs))
  {
    if vs == [] {
    } else {
      RecordedIs(record, vs[..|vs| - 1]);
    }
  }

  lemma {:induction false} ChangedIs(record: Record, vs: seq<Visit>, v: Visit)
    requires Distinct(vs)
    ensures v in Changed(record, vs) <==> v in vs && NeedsUpdate(record, v)
  {
    if vs == [] {
    } else {
      var rest, last := vs[..|vs| - 1], vs[|vs| - 1];
      ChangedIs(record, rest, v);
      LastAgrees(record, vs);
      assert vs == rest + [last];
    }
  }

  /** At the path of the last visit the record is still the one the scan started from. */
  lemma LastAgrees(record: Record, vs: seq<Visit>)
    requires Distinct(vs) && vs != []
    ensures NeedsUpdate(Recorded(record, vs[..|vs| - 1]), vs[|vs| - 1]) == NeedsUpdate(record, vs[|vs| - 1])
    ensures vs[|vs| - 1].path !in ListingOf(vs[..|vs| - 1])
  {
    var rest, last := vs[..|vs| - 1], vs[|vs| - 1];
    RecordedIs(record, rest);
    if last.path in ListingOf(rest) {
      ListedIsVisited(rest, last.path);
      assert false;
    }
  }

  // ---------------------------------------------------------------- copying forward

  /** What a target must offer before the copies of `vs` so that all of them succeed. */
  ghost predicate Ready(record: Record, t: Target, vs: seq<Visit>) {
    && (forall i :: 0 <= i < |vs| && vs[i].path !in record ==> vs[i].path !in t)
    && (forall i :: 0 <= i < |vs| && vs[i].path in record ==>
          if NeedsUpdate(record, vs[i]) then CanCopy(t, vs[i])
          else vs[i].path in t && t[vs[i].path] == Image(vs[i].node))
  }

  /** Copying one entry whose parents are all directories in the target. */
  lemma UpdateOne(t: Target, v: Visit)
    requires v.path == [] ==> v.node.Dir?
    requires forall k :: 0 <= k < |v.path| ==> v.path[..k] in t && t[v.path[..k]] == DirCopy
    requires if v.node.Dir? then v.path !in t else CanCopy(t, v)
    ensures UpdatedTarget(t, v) == t[v.path := Image(v.node)]
  {
    if v.node.Dir? {
      forall k | 0 <= k <= |v.path| && v.path[..k] in t ensures t[v.path[..k]] == DirCopy {
        assert v.path[..|v.path|] == v.path;
      }
      assert v.path[..|v.path|] == v.path;
      assert Mkdirs(t, v.path) == t[v.path := DirCopy];
    } else {
      var parent := v.path[..|v.path| - 1];
      assert forall k :: 0 <= k <= |parent| ==> parent[..k] == v.path[..k];
      assert CanMkdir(t, parent) && Mkdirs(t, parent) == t;
    }
  }

  /** The last visit of a walk, copied after all earlier ones. */
  lemma UpdateLast(record: Record, t: Target, vs: seq<Visit>)
    requires IsTree(vs) && vs != [] && Ready(record, t, vs)
    ensures var t1, v := t + ImageOf(ListingOf(vs[..|vs| - 1])), vs[|vs| - 1];
            (if NeedsUpdate(record, v) then UpdatedTarget(t1, v) else t1) == t1[v.path := Image(v.node)]
  {
    var rest, v := vs[..|vs| - 1], vs[|vs| - 1];
    var t1 := t + ImageOf(ListingOf(rest));
    LastAgrees(record, vs);
    if NeedsUpdate(record, v) {
      forall k | 0 <= k < |v.path| ensures v.path[..k] in t1 && t1[v.path[..k]] == DirCopy {
        LastPrefixListed(vs, k);
      }
      UpdateOne(t1, v);
    }
  }

  lemma AddThenUpdate(t: Target, l: Listing, v: Visit)
    ensures t + ImageOf(l[v.path := v.node]) == (t + ImageOf(l))[v.path := Image(v.node)]
  {}

  /** The copies of a walk are those of the walk without its last visit, then perhaps that one. */
  lemma CopiesOfLast(record: Record, t: Target, vs: seq<Visit>)
    requires Distinct(vs) && vs != []
    ensures var t1, v := UpdatedAll(t, Changed(record, vs[..|vs| - 1])), vs[|vs| - 1];
            UpdatedAll(t, Changed(record, vs)) == if NeedsUpdate(record, v) then UpdatedTarget(t1, v) else t1
  {
    LastAgrees(record, vs);
    var before := Changed(record, vs[..|vs| - 1]);
    var us := Changed(record, vs);
    if NeedsUpdate(record, vs[|vs| - 1]) {
      assert us == before + [vs[|vs| - 1]] && us[..|us| - 1] == before;
    } else {
      assert us == before;
    }
  }

  /** Each copy finds its parents in place, so all copies together complete the image. */
  lemma {:induction false} UpdateAll(record: Record, t: Target, vs: seq<Visit>)
    requires IsTree(vs) && Ready(record, t, vs)
    ensures UpdatedAll(t, Changed(record, vs)) == t + ImageOf(ListingOf(vs))
  {
    if vs == [] {
      assert t + ImageOf(ListingOf(vs)) == t;
    } else {
      var rest, v := vs[..|vs| - 1], vs[|vs| - 1];
      PrefixIsTree(vs);
      assert Ready(record, t, rest) by {
        assert forall i :: 0 <= i < |rest| ==> rest[i] == vs[i];
      }
      UpdateAll(record, t, rest);
      UpdateLast(record, t, vs);
      CopiesOfLast(record, t, vs);
      AddThenUpdate(t, ListingOf(rest), v);
    }
  }

  lemma PrefixIsTree(vs: seq<Visit>)
    requires IsTree(vs) && vs != []
    ensures IsTree(vs[..|vs| - 1])
  {
    var rest := vs[..|vs| - 1];
    forall i | 0 <= i < |rest| && rest[i].path != [] ensures HasParentBefore(rest, i) {
      assert HasParentBefore(vs, i);
      var j :| 0 <= j < i && vs[j].node.Dir? && vs[j].path == vs[i].path[..|vs[i].path| - 1];
      assert rest[j] == vs[j];
    }
  }

  lemma LastParentListed(vs: seq<Visit>)
    requires IsTree(vs) && vs != [] && vs[|vs| - 1].path != []
    ensures var rest, p := vs[..|vs| - 1], vs[|vs| - 1].path;
            p[..|p| - 1] in ListingOf(rest) && ListingOf(rest)[p[..|p| - 1]].Dir?
  {
    var rest := vs[..|vs| - 1];
    assert HasParentBefore(vs, |vs| - 1);
    var j :| 0 <= j < |vs| - 1 && vs[j].node.Dir? && vs[j].path == vs[|vs| - 1].path[..|vs[|vs| - 1].path| - 1];
    assert rest[j] == vs[j];
    VisitedIsListed(rest, j);
  }

  lemma LastPrefixListed(vs: seq<Visit>, k: nat)
    requires IsTree(vs) && vs != [] && k < |vs[|vs| - 1].path|
    ensures vs[|vs| - 1].path[..k] in ListingOf(vs[..|vs| - 1])
    ensures ListingOf(vs[..|vs| - 1])[vs[|vs| - 1].path[..k]].Dir?
  {
    LastParentListed(vs);
    PrefixIsTree(vs);
    AboveParent(vs[..|vs| - 1], vs[|vs| - 1].path, k);
  }

  lemma AboveParent(vs: seq<Visit>, p: Path, k: nat)
    requires Ordered(vs) && k < |p| && p[..|p| - 1] in ListingOf(vs) && ListingOf(vs)[p[..|p| - 1]].Dir?
    ensures p[..k] in ListingOf(vs) && ListingOf(vs)[p[..k]].Dir?
  {
    var parent := p[..|p| - 1];
    DirPrefixListed(vs, parent, k);
    assert parent[..k] == p[..k];
  }

  lemma DirPrefixListed(vs: seq<Visit>, d: Path, k: nat)
    requires Ordered(vs) && d in ListingOf(vs) && ListingOf(vs)[d].Dir? && k <= |d|
    ensures d[..k] in ListingOf(vs) && ListingOf(vs)[d[..k]].Dir?
  {
    if k < |d| {
      PrefixListed(vs, d, k);
    } else {
      assert d[..k] == d;
    }
  }

  // ---------------------------------------------------------------- pruning

  /** If a path exists, so does every prefix of it. */
  lemma PrefixExists(l: Listing, p: Path, q: Path)
    requires Closed(l) && Exists(l, p) && q <= p
    ensures Exists(l, q)
  {
    var m := |q|;
    assert q == p[..m];
    if m < |p| {
      if p !in l || l[p].Link? {
        var k :| 0 <= k <= |p| && p[..k] in l && Reaches(l[p[..k]], p[k..]);
        if m < k {
          assert p[..k][..m] == p[..m];
        } else {
          assert p[..m][..k] == p[..k];
          assert p[..m][k..] <= p[k..];
        }
      }
    } else {
      assert p[..m] == p;
    }
  }

  /** A listed path exists unless it is a dangling link. */
  lemma ListedExists(l: Listing, p: Path)
    requires Closed(l) && p in l
    ensures Exists(l, p) <==> !Dangling(l[p])
  {
    assert p[..|p|] == p && p[|p|..] == [];
  }

  /** Pruning the image of a tree drops exactly the paths that no longer exist. */
  lemma PruneExact(l0: Listing, l1: Listing)
    requires Closed(l0) && Closed(l1)
    ensures var t := PrunedTarget(ImageOf(l0), Gone(Times(l0), l1));
            forall p :: p in t <==> p in l0 && Exists(l1, p)
  {
    var gone := Gone(Times(l0), l1);
    var image := ImageOf(l0);
    forall p | p in l0 && Exists(l1, p) ensures !exists q :: q in gone && Covers(image, q, p) {
      forall q | q in gone ensures !Covers(image, q, p) {
        if q <= p {
          PrefixExists(l1, p, q);
        }
      }
    }
    forall p | p in l0 && !Exists(l1, p) ensures exists q :: q in gone && Covers(image, q, p) {
      assert p in gone && Covers(image, p, p);
    }
  }

  /** A path that exists but is not in the tree is found through a link above it. */
  lemma ThroughLink(l: Listing, p: Path) returns (k: nat)
    requires Exists(l, p) && p !in l
    ensures k < |p| && p[..k] in l && l[p[..k]].Link? && !Dangling(l[p[..k]])
  {
    k :| 0 <= k <= |p| && p[..k] in l && Reaches(l[p[..k]], p[k..]);
    assert p[..|p|] == p;
  }

  /** Under `Carries` a recorded path that still exists is in the new tree: a directory has not
      turned into a link that leads somewhere. */
  lemma KeptIsListed(l0: Listing, l1: Listing, p: Path)
    requires Closed(l0) && Closed(l1) && Carries(l0, l1) && p in l0 && Exists(l1, p)
    ensures p in l1
  {
    if p !in l1 {
      var k := ThroughLink(l1, p);
      assert false;
    }
  }

  // ---------------------------------------------------------------- the theorem for one scan

  lemma CarriesGivesMirror(s: State, l0: Listing, vs: seq<Visit>)
    requires IsTree(vs) && Closed(l0) && Mirrors(s, l0) && Carries(l0, ListingOf(vs))
    ensures Mirrors(Scanned(s, vs), ListingOf(vs))
  {
    var l1 := ListingOf(vs);
    ListingClosed(vs);
    var record, t := PrunedRecord(Times(l0), l1), PrunedTarget(ImageOf(l0), Gone(Times(l0), l1));
    PrunedIsListed(l0, l1);
    assert UpdatedAll(t, Changed(record, vs)) == ImageOf(l1) by {
      ReadyAfterPrune(l0, vs);
      UpdateAll(record, t, vs);
      Absorbed(t, ImageOf(l1));
    }
    assert Recorded(record, vs) == Times(l1) by {
      RecordedIs(record, vs);
      Absorbed(record, Times(l1));
    }
  }

  lemma Absorbed<K, V>(a: map<K, V>, b: map<K, V>)
    requires a.Keys <= b.Keys
    ensures a + b == b
  {}

  lemma PrunedIsListed(l0: Listing, l1: Listing)
    requires Closed(l0) && Closed(l1) && Carries(l0, l1)
    ensures PrunedRecord(Times(l0), l1).Keys <= l1.Keys
    ensures PrunedTarget(ImageOf(l0), Gone(Times(l0), l1)).Keys <= l1.Keys
  {
    PruneExact(l0, l1);
    forall p | p in l0 && Exists(l1, p) ensures p in l1 {
      KeptIsListed(l0, l1, p);
    }
  }

  lemma ReadyAfterPrune(l0: Listing, vs: seq<Visit>)
    requires IsTree(vs) && Closed(l0) && Carries(l0, ListingOf(vs))
    ensures Ready(PrunedRecord(Times(l0), ListingOf(vs)), PrunedTarget(ImageOf(l0), Gone(Times(l0), ListingOf(vs))), vs)
  {
    var l1 := ListingOf(vs);
    ListingClosed(vs);
    PruneExact(l0, l1);
    var record, t := PrunedRecord(Times(l0), l1), PrunedTarget(ImageOf(l0), Gone(Times(l0), l1));
    forall i | 0 <= i < |vs| && vs[i].path in record
      ensures if NeedsUpdate(record, vs[i]) then CanCopy(t, vs[i])
              else vs[i].path in t && t[vs[i].path] == Image(vs[i].node)
    {
      VisitedIsListed(vs, i);
      ListedExists(l1, vs[i].path);
      assert CarriesAt(l0[vs[i].path], vs[i].node);
    }
  }

  /** An entry of the target stays, and changes only by a copy that its kind admits. */
  lemma {:induction false} CopiesRespectKinds(t: Target, us: seq<Visit>, p: Path)
    requires p in t
    ensures p in UpdatedAll(t, us)
    ensures UpdatedAll(t, us)[p] == t[p]
            || exists u :: u in us && CopiedOver(t, us, p, u)
  {
    if us == [] {
    } else {
      var rest, last := us[..|us| - 1], us[|us| - 1];
      CopiesRespectKinds(t, rest, p);
      assert last in us;
      if UpdatedAll(t, us)[p] != UpdatedAll(t, rest)[p] {
        assert CopiedOver(t, us, p, last);
      } else if UpdatedAll(t, us)[p] != t[p] {
        var u :| u in rest && CopiedOver(t, rest, p, u);
        assert u in us && CopiedOver(t, us, p, u);
      }
    }
  }

  ghost predicate CopiedOver(t: Target, us: seq<Visit>, p: Path, u: Visit)
    requires p in t
  {
    && u.path == p && !u.node.Dir? && t[p] != DirCopy && (u.node.File? ==> t[p].FileCopy?)
    && p in UpdatedAll(t, us) && UpdatedAll(t, us)[p] == Image(u.node)
  }

  /** What is listed for copying is an entry of the tree. */
  lemma ChangedIsListed(record: Record, vs: seq<Visit>, u: Visit)
    requires Distinct(vs) && u in Changed(record, vs)
    ensures u.path in ListingOf(vs) && ListingOf(vs)[u.path] == u.node && NeedsUpdate(record, u)
  {
    ChangedIs(record, vs, u);
    var i :| 0 <= i < |vs| && vs[i] == u;
    VisitedIsListed(vs, i);
  }

  lemma MirrorNeedsCarries(s: State, l0: Listing, vs: seq<Visit>, p: Path)
    requires IsTree(vs) && Closed(l0) && Mirrors(s, l0) && Mirrors(Scanned(s, vs), ListingOf(vs))
    requires p in l0 && p in ListingOf(vs)
    ensures CarriesAt(l0[p], ListingOf(vs)[p])
  {
    var l1 := ListingOf(vs);
    ListingClosed(vs);
    ListedExists(l1, p);
    if !Dangling(l1[p]) {
      PruneExact(l0, l1);
      var record, t := PrunedRecord(s.record, l1), PrunedTarget(s.target, Gone(s.record, l1));
      var us := Changed(record, vs);
      CopiesRespectKinds(t, us, p);
      AlikeExactly(l0[p], l1[p]);
      if !Alike(l0[p], l1[p]) {
        var u :| u in us && CopiedOver(t, us, p, u);
        ChangedIsListed(record, vs, u);
      }
    }
  }

  /** One scan: a mirror of the old tree becomes a mirror of the new tree exactly when every change
      between them is one the scan can follow. */
  lemma ScanMirrorsExactly(s: State, l0: Listing, vs: seq<Visit>)
    requires IsTree(vs) && Closed(l0) && Mirrors(s, l0)
    ensures Mirrors(Scanned(s, vs), ListingOf(vs)) <==> Carries(l0, ListingOf(vs))
  {
    if Carries(l0, ListingOf(vs)) {
      CarriesGivesMirror(s, l0, vs);
    }
    if Mirrors(Scanned(s, vs), ListingOf(vs)) {
      forall p | p in l0 && p in ListingOf(vs) ensures CarriesAt(l0[p], ListingOf(vs)[p]) {
        MirrorNeedsCarries(s, l0, vs, p);
      }
    }
  }

  // ---------------------------------------------------------------- runs

  ghost predicate IsSource(root: Node) {
    root.Dir? && WellFormed(root)
  }

  lemma SourceIsTree(root: Node)
    requires IsSource(root)
    ensures IsTree(Walk([], root))
  {
    WalkOrdered(root);
    WalkBelow([], root);
  }

  /** What the agent holds after scanning the given source trees in turn, starting from nothing. */
  function StateAfter(roots: seq<Node>): State {
    if roots == [] then State(map[], map[])
    else Scanned(StateAfter(roots[..|roots| - 1]), Walk([], roots[|roots| - 1]))
  }

  /** The tree seen by the last scan, or nothing. */
  function LastListing(roots: seq<Node>): Listing {
    if roots == [] then map[] else ListingOf(Walk([], roots[|roots| - 1]))
  }

  /** Every scan of the run stays within the limits. */
  predicate AllSucceed(roots: seq<Node>) {
    roots == [] ||
    (AllSucceed(roots[..|roots| - 1])
     && ScanSucceeds(StateAfter(roots[..|roots| - 1]), Walk([], roots[|roots| - 1])))
  }

  /** The mirror holds now and after every earlier scan. */
  ghost predicate AlwaysMirrors(roots: seq<Node>) {
    Mirrors(StateAfter(roots), LastListing(roots)) && (roots == [] || AlwaysMirrors(roots[..|roots| - 1]))
  }

  /** `holds` relates every tree of the run to the one before it. */
  ghost predicate EachStep(holds: (Listing, Listing) -> bool, roots: seq<Node>) {
    roots == [] ||
    (holds(LastListing(roots[..|roots| - 1]), LastListing(roots)) && EachStep(holds, roots[..|roots| - 1]))
  }

  /** Over any run of successful scans the agent mirrors the source after every scan exactly when
      every change between consecutive scans is one a scan can follow. */
  lemma {:induction false} RunMirrorsExactly(roots: seq<Node>)
    requires forall r :: r in roots ==> IsSource(r)
    requires AllSucceed(roots)
    ensures AlwaysMirrors(roots) <==> EachStep(Carries, roots)
  {
    if roots == [] {
      assert StateAfter([]).record == Times(map[]) && StateAfter([]).target == ImageOf(map[]);
    } else {
      RunMirrorsExactly(roots[..|roots| - 1]);
      if Mirrors(StateAfter(roots[..|roots| - 1]), LastListing(roots[..|roots| - 1])) {
        LastStep(roots);
      }
    }
  }

  lemma LastStep(roots: seq<Node>)
    requires roots != [] && forall r :: r in roots ==> IsSource(r)
    requires Mirrors(StateAfter(roots[..|roots| - 1]), LastListing(roots[..|roots| - 1]))
    ensures Mirrors(StateAfter(roots), LastListing(roots)) <==>
            Carries(LastListing(roots[..|roots| - 1]), LastListing(roots))
  {
    var before := roots[..|roots| - 1];
    SourceIsTree(roots[|roots| - 1]);
    if before != [] {
      SourceIsTree(before[|before| - 1]);
      ListingClosed(Walk([], before[|before| - 1]));
    }
    ScanMirrorsExactly(StateAfter(before), LastListing(before), Walk([], roots[|roots| - 1]));
  }

  /** Paths keep their kind, and a change of content raises the modification time. */
  ghost predicate Steady(l0: Listing, l1: Listing) {
    forall p :: p in l0 && p in l1 ==>
      && (l0[p].File? <==> l1[p].File?) && (l0[p].Dir? <==> l1[p].Dir?)
      && (!Alike(l0[p], l1[p]) ==> l1[p].modified > l0[p].modified)
  }

  lemma {:induction false} SteadyCarries(roots: seq<Node>)
    requires EachStep(Steady, roots)
    ensures EachStep(Carries, roots)
  {
    if roots == [] {
    } else {
      SteadyCarries(roots[..|roots| - 1]);
    }
  }

  /** The mirror holds after every scan of a run in which the source changes steadily. */
  lemma SteadyRunMirrors(roots: seq<Node>)
    requires forall r :: r in roots ==> IsSource(r)
    requires AllSucceed(roots) && EachStep(Steady, roots)
    ensures AlwaysMirrors(roots)
  {
    SteadyCarries(roots);
    RunMirrorsExactly(roots);
  }
}
