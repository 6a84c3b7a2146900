/**
 The shape of the walk of a tree, and how the effects of a scan compose along it.
 */
module WatcherWalk {
  import opened WatcherModel

  // ---------------------------------------------------------------- order of the walk

  /** No path is visited twice, and a directory is visited before what it holds. */
  ghost predicate Ordered(vs: seq<Visit>) {
    && Distinct(vs)
    && (forall i :: 0 <= i < |vs| && vs[i].path != [] ==> HasParentBefore(vs, i))
  }

  ghost predicate Distinct(vs: seq<Visit>) {
    forall i, j :: 0 <= i < j < |vs| ==> vs[i].path != vs[j].path
  }

  ghost predicate HasParentBefore(vs: seq<Visit>, i: nat)
    requires i < |vs| && vs[i].path != []
  {
    exists j :: 0 <= j < i && vs[j].node.Dir? && vs[j].path == vs[i].path[..|vs[i].path| - 1]
  }

  /** A walk from `path` starts there and stays strictly below afterwards. */
  lemma {:induction false} WalkBelow(path: Path, n: Node)
    ensures Walk(path, n) != [] && Walk(path, n)[0] == Visit(path, n)
    ensures forall i :: 0 < i < |Walk(path, n)| ==> |path| < |Walk(path, n)[i].path| && path <= Walk(path, n)[i].path
    decreases n, 0
  {
    if n.Dir? {
      EntriesBelow(path, n.entries);
    }
  }

  lemma {:induction false} EntriesBelow(path: Path, entries: seq<Entry>)
    ensures forall v :: v in WalkEntries(path, entries) ==>
              |path| < |v.path| && path <= v.path && exists e :: e in entries && e.name == v.path[|path|]
    decreases entries, 0
  {
    if entries == [] {
    } else {
      var last := entries[|entries| - 1];
      var before := entries[..|entries| - 1];
      EntriesBelow(path, before);
      WalkBelow(path + [last.name], last.node);
      var tail := Walk(path + [last.name], last.node);
      forall v | v in WalkEntries(path, entries)
        ensures |path| < |v.path| && path <= v.path && exists e :: e in entries && e.name == v.path[|path|]
      {
        if v in WalkEntries(path, before) {
          var e :| e in before && e.name == v.path[|path|];
          assert e in entries;
        } else {
          var i :| 0 <= i < |tail| && tail[i] == v;
          assert path + [last.name] <= v.path;
          assert last in entries && last.name == v.path[|path|];
        }
      }
    }
  }

  lemma {:induction false} WalkDistinct(path: Path, n: Node)
    requires WellFormed(n)
    ensures Distinct(Walk(path, n))
    decreases n, 0
  {
    if n.Dir? {
      EntriesDistinct(path, n.entries);
      EntriesBelow(path, n.entries);
    }
  }

  lemma {:induction false} EntriesDistinct(path: Path, entries: seq<Entry>)
    requires forall i, j :: 0 <= i < j < |entries| ==> entries[i].name != entries[j].name
    requires forall i :: 0 <= i < |entries| ==> WellFormed(entries[i].node)
    ensures Distinct(WalkEntries(path, entries))
    decreases entries, 0
  {
    if entries == [] {
    } else {
      var last := entries[|entries| - 1];
      var before := entries[..|entries| - 1];
      EntriesDistinct(path, before);
      EntriesBelow(path, before);
      WalkDistinct(path + [last.name], last.node);
      WalkBelow(path + [last.name], last.node);
      var a, b := WalkEntries(path, before), Walk(path + [last.name], last.node);
      forall v, w | v in a && w in b ensures v.path != w.path {
        assert path + [last.name] <= w.path;
        assert w.path[|path|] == last.name;
        var e :| e in before && e.name == v.path[|path|];
      }
      var all := WalkEntries(path, entries);
      assert all == a + b;
      forall i, j | 0 <= i < j < |all| ensures all[i].path != all[j].path {
        if i < |a| <= j {
          assert all[i] in a && all[j] in b;
        }
      }
    }
  }

  ghost predicate ParentsFirst(vs: seq<Visit>) {
    forall i :: 0 < i < |vs| ==> vs[i].path != [] && HasParentBefore(vs, i)
  }

  /** Below the start, every visit comes after the visit of its parent directory. */
  lemma {:induction false} WalkParents(path: Path, n: Node)
    ensures ParentsFirst(Walk(path, n))
    decreases n, 0
  {
    if n.Dir? {
      EntriesParents(path, n, n.entries);
    }
  }

  lemma {:induction false} EntriesParents(path: Path, n: Node, entries: seq<Entry>)
    requires n.Dir?
    ensures ParentsFirst([Visit(path, n)] + WalkEntries(path, entries))
    decreases entries, 0
  {
    if entries == [] {
    } else {
      var last := entries[|entries| - 1];
      var before := entries[..|entries| - 1];
      var a := [Visit(path, n)] + WalkEntries(path, before);
      var b := Walk(path + [last.name], last.node);
      assert [Visit(path, n)] + WalkEntries(path, entries) == a + b;
      EntriesParents(path, n, before);
      WalkParents(path + [last.name], last.node);
      WalkBelow(path + [last.name], last.node);
      ParentsConcat(a, b);
    }
  }

  /** Appending the walk of an entry of the directory that starts `a`. */
  lemma ParentsConcat(a: seq<Visit>, b: seq<Visit>)
    requires a != [] && b != [] && ParentsFirst(a) && ParentsFirst(b)
    requires a[0].node.Dir? && b[0].path != [] && b[0].path[..|b[0].path| - 1] == a[0].path
    ensures ParentsFirst(a + b)
  {
    var vs := a + b;
    forall i | 0 < i < |vs| ensures vs[i].path != [] && HasParentBefore(vs, i) {
      if i < |a| {
        assert HasParentBefore(a, i);
        var j :| 0 <= j < i && a[j].node.Dir? && a[j].path == a[i].path[..|a[i].path| - 1];
        assert vs[j] == a[j];
      } else if i == |a| {
        assert vs[0] == a[0] && vs[i] == b[0];
      } else {
        var m := i - |a|;
        assert HasParentBefore(b, m) && vs[i] == b[m];
        var j :| 0 <= j < m && b[j].node.Dir? && b[j].path == b[m].path[..|b[m].path| - 1];
        assert vs[|a| + j] == b[j];
      }
    }
  }

  /** The walk of a well-formed tree from its mount point is ordered. */
  lemma WalkOrdered(root: Node)
    requires WellFormed(root)
    ensures Ordered(Walk([], root))
  {
    WalkDistinct([], root);
    WalkParents([], root);
    WalkBelow([], root);
  }

  // ---------------------------------------------------------------- the listing

  lemma {:induction false} ListedIsVisited(vs: seq<Visit>, p: Path)
    requires p in ListingOf(vs)
    ensures exists i :: 0 <= i < |vs| && vs[i] == Visit(p, ListingOf(vs)[p])
  {
    var last := vs[|vs| - 1];
    if p == last.path {
      assert last == Visit(p, ListingOf(vs)[p]);
    } else {
      ListedIsVisited(vs[..|vs| - 1], p);
      var i :| 0 <= i < |vs| - 1 && vs[..|vs| - 1][i] == Visit(p, ListingOf(vs)[p]);
      assert vs[i] == Visit(p, ListingOf(vs)[p]);
    }
  }

  lemma {:induction false} VisitedIsListed(vs: seq<Visit>, i: nat)
    requires Distinct(vs) && i < |vs|
    ensures vs[i].path in ListingOf(vs) && ListingOf(vs)[vs[i].path] == vs[i].node
  {
    if i == |vs| - 1 {
    } else {
      VisitedIsListed(vs[..|vs| - 1], i);
      assert vs[..|vs| - 1][i] == vs[i];
    }
  }

  /** A tree has as many listed paths as visits. */
  lemma {:induction false} ListingSize(vs: seq<Visit>)
    requires Distinct(vs)
    ensures |ListingOf(vs)| == |vs|
  {
    if vs == [] {
    } else {
      var rest := vs[..|vs| - 1];
      var p := vs[|vs| - 1].path;
      ListingSize(rest);
      if p in ListingOf(rest) {
        ListedIsVisited(rest, p);
        assert false;
      }
      assert ListingOf(vs).Keys == ListingOf(rest).Keys + {p};
    }
  }

  /** Every proper prefix of a listed path is listed as a directory. */
  ghost predicate Closed(l: Listing) {
    forall p, k {:trigger p[..k]} :: p in l && 0 <= k < |p| ==> p[..k] in l && l[p[..k]].Dir?
  }

  lemma {:induction false} ParentListed(vs: seq<Visit>, p: Path)
    requires Ordered(vs) && p in ListingOf(vs) && p != []
    ensures p[..|p| - 1] in ListingOf(vs) && ListingOf(vs)[p[..|p| - 1]].Dir?
  {
    ListedIsVisited(vs, p);
    var i :| 0 <= i < |vs| && vs[i] == Visit(p, ListingOf(vs)[p]);
    assert HasParentBefore(vs, i);
    var j :| 0 <= j < i && vs[j].node.Dir? && vs[j].path == vs[i].path[..|vs[i].path| - 1];
    VisitedIsListed(vs, j);
  }

  lemma {:induction false} PrefixListed(vs: seq<Visit>, p: Path, k: nat)
    requires Ordered(vs) && p in ListingOf(vs) && k < |p|
    ensures p[..k] in ListingOf(vs) && ListingOf(vs)[p[..k]].Dir?
    decreases |p|
  {
    var parent := p[..|p| - 1];
    ParentListed(vs, p);
    if k == |parent| {
      assert p[..k] == parent;
    } else {
      PrefixListed(vs, parent, k);
      assert parent[..k] == p[..k];
    }
  }

  lemma ListingClosed(vs: seq<Visit>)
    requires Ordered(vs)
    ensures Closed(ListingOf(vs))
  {
    forall p, k | p in ListingOf(vs) && 0 <= k < |p|
      ensures p[..k] in ListingOf(vs) && ListingOf(vs)[p[..k]].Dir?
    {
      PrefixListed(vs, p, k);
    }
  }

  // ---------------------------------------------------------------- composition

  lemma {:induction false} RecordedConcat(record: Record, a: seq<Visit>, b: seq<Visit>)
    ensures Recorded(record, a + b) == Recorded(Recorded(record, a), b)
  {
    if b == [] {
      assert a + b == a;
    } else {
      var c := b[..|b| - 1];
      assert (a + b)[..|a + b| - 1] == a + c;
      RecordedConcat(record, a, c);
    }
  }

  lemma {:induction false} ChangedConcat(record: Record, a: seq<Visit>, b: seq<Visit>)
    ensures Changed(record, a + b) == Changed(record, a) + Changed(Recorded(record, a), b)
  {
    if b == [] {
      assert a + b == a;
    } else {
      var c := b[..|b| - 1];
      assert (a + b)[..|a + b| - 1] == a + c;
      ChangedConcat(record, a, c);
      RecordedConcat(record, a, c);
    }
  }

  lemma {:induction false} TotalSizeConcat(a: seq<Visit>, b: seq<Visit>)
    ensures TotalSize(a + b) == TotalSize(a) + TotalSize(b)
  {
    if b == [] {
      assert a + b == a;
    } else {
      var c := b[..|b| - 1];
      assert (a + b)[..|a + b| - 1] == a + c;
      TotalSizeConcat(a, c);
    }
  }

  lemma {:induction false} FitsCountConcat(record: Record, a: seq<Visit>, b: seq<Visit>)
    ensures FitsCount(record, a + b) <==> FitsCount(record, a) && FitsCount(Recorded(record, a), b)
  {
    if b == [] {
      assert a + b == a;
    } else {
      var c := b[..|b| - 1];
      assert (a + b)[..|a + b| - 1] == a + c;
      FitsCountConcat(record, a, c);
      RecordedConcat(record, a, b);
    }
  }
}
