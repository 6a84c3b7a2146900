/**
 When a scan stays within the limits, and what a second scan of an unchanged source does.
 */
module WatcherLimits {
  import opened WatcherModel
  import opened WatcherWalk
  import opened WatcherMirror

  function PathsOf(vs: seq<Visit>): set<Path> {
    ListingOf(vs).Keys
  }

  /** The walk up to and including its last file or link; empty if there is none. */
  function UpToLastLeaf(vs: seq<Visit>): seq<Visit> {
    if vs == [] then []
    else if vs[|vs| - 1].node.Dir? then UpToLastLeaf(vs[..|vs| - 1])
    else vs
  }

  function Leaves(vs: seq<Visit>): nat {
    if vs == [] then 0
    else Leaves(vs[..|vs| - 1]) + (if vs[|vs| - 1].node.Dir? then 0 else 1)
  }

  lemma RecordedKeys(record: Record, vs: seq<Visit>)
    ensures Recorded(record, vs).Keys == record.Keys + PathsOf(vs)
    ensures |Recorded(record, vs)| == |record.Keys + PathsOf(vs)|
  {
    RecordedIs(record, vs);
    assert |Recorded(record, vs)| == |Recorded(record, vs).Keys|;
  }

  lemma SubsetSize<T>(a: set<T>, b: set<T>)
    requires a <= b
    ensures |a| <= |b|
  {
    assert b == a + (b - a);
  }

  lemma {:induction false} UpToLastLeafIsPrefix(vs: seq<Visit>)
    ensures UpToLastLeaf(vs) <= vs
    ensures PathsOf(UpToLastLeaf(vs)) <= PathsOf(vs)
    ensures Leaves(UpToLastLeaf(vs)) == Leaves(vs)
  {
    if vs != [] && vs[|vs| - 1].node.Dir? {
      UpToLastLeafIsPrefix(vs[..|vs| - 1]);
    }
  }

  /** The entry limit as a caller can check it beforehand: the known paths together with the paths
      visited up to the last file or link number at most 16. */
  lemma {:induction false} FitsCountExactly(record: Record, vs: seq<Visit>)
    ensures FitsCount(record, vs) <==>
            Leaves(vs) == 0 || |record.Keys + PathsOf(UpToLastLeaf(vs))| <= MAX_ENTRIES
  {
    if vs == [] {
    } else {
      var rest := vs[..|vs| - 1];
      FitsCountExactly(record, rest);
      RecordedKeys(record, vs);
      UpToLastLeafIsPrefix(rest);
      SubsetSize(record.Keys + PathsOf(UpToLastLeaf(rest)), record.Keys + PathsOf(vs));
    }
  }

  /** A successful scan has seen at most 16 files and links, of at most 1 MiB together. */
  lemma SuccessBoundsLeaves(s: State, vs: seq<Visit>)
    requires Distinct(vs) && ScanSucceeds(s, vs)
    ensures Leaves(vs) <= 16 && TotalSize(vs) <= 1_048_576
  {
    var record := PrunedRecord(s.record, ListingOf(vs));
    var upTo := UpToLastLeaf(vs);
    FitsCountExactly(record, vs);
    UpToLastLeafIsPrefix(vs);
    LeavesBound(upTo);
    ListingSize(upTo);
    SubsetSize(PathsOf(upTo), record.Keys + PathsOf(upTo));
  }

  lemma {:induction false} LeavesBound(vs: seq<Visit>)
    ensures Leaves(vs) <= |vs|
  {
    if vs == [] {
    } else {
      LeavesBound(vs[..|vs| - 1]);
    }
  }

  /** A tree of at most 16 entries and 1 MiB is always accepted, whatever was recorded before, as
      long as no recorded path leads through a link of the tree. */
  lemma SmallTreeSucceeds(s: State, vs: seq<Visit>)
    requires Ordered(vs) && |vs| <= 16 && TotalSize(vs) <= 1_048_576
    requires forall p :: p in s.record && Exists(ListingOf(vs), p) ==> p in ListingOf(vs)
    ensures ScanSucceeds(s, vs)
  {
    var record := PrunedRecord(s.record, ListingOf(vs));
    FitsCountExactly(record, vs);
    UpToLastLeafIsPrefix(vs);
    ListingSize(vs);
    assert record.Keys <= PathsOf(vs);
    SubsetSize(record.Keys + PathsOf(UpToLastLeaf(vs)), PathsOf(vs));
  }

  /** Directories alone are never refused, however many there are. */
  lemma DirectoriesAreNotCounted(s: State, vs: seq<Visit>)
    requires Leaves(vs) == 0
    ensures ScanSucceeds(s, vs)
  {
    FitsCountExactly(PrunedRecord(s.record, ListingOf(vs)), vs);
    NoLeavesNoSize(vs);
  }

  lemma {:induction false} NoLeavesNoSize(vs: seq<Visit>)
    requires Leaves(vs) == 0
    ensures TotalSize(vs) == 0
  {
    if vs == [] {
    } else {
      NoLeavesNoSize(vs[..|vs| - 1]);
    }
  }

  // ---------------------------------------------------------------- a second scan

  function DanglingCount(vs: seq<Visit>): nat {
    if vs == [] then 0
    else DanglingCount(vs[..|vs| - 1]) + (if Dangling(vs[|vs| - 1].node) then 1 else 0)
  }

  /** The record holds every path of the tree with its time, and beside them only paths that are found
      through a link of the tree. */
  ghost predicate Rests(record: Record, l: Listing) {
    && (forall p :: p in l ==> p in record && record[p] == l[p].modified)
    && (forall p :: p in record ==> p in l || Exists(l, p))
  }

  /** So every scan leaves it, whatever was recorded before. */
  lemma ScannedRests(s: State, vs: seq<Visit>)
    ensures Rests(Scanned(s, vs).record, ListingOf(vs))
  {
    RecordedIs(PrunedRecord(s.record, ListingOf(vs)), vs);
  }

  /** Only a dangling link needs a copy once vanished paths are pruned from such a record. */
  lemma RecordedNeeds(record: Record, vs: seq<Visit>, i: nat)
    requires Ordered(vs) && i < |vs| && Rests(record, ListingOf(vs))
    ensures NeedsUpdate(PrunedRecord(record, ListingOf(vs)), vs[i]) <==> Dangling(vs[i].node)
  {
    ListingClosed(vs);
    VisitedIsListed(vs, i);
    ListedExists(ListingOf(vs), vs[i].path);
  }

  lemma RescanCount(record: Record, vs: seq<Visit>)
    requires Ordered(vs) && Rests(record, ListingOf(vs))
    ensures |Changed(PrunedRecord(record, ListingOf(vs)), vs)| == DanglingCount(vs)
  {
    var pruned := PrunedRecord(record, ListingOf(vs));
    forall i | 0 <= i < |vs| ensures NeedsUpdate(pruned, vs[i]) == Dangling(vs[i].node) {
      RecordedNeeds(record, vs, i);
    }
    ChangedCount(pruned, vs);
  }

  lemma RescanRecord(record: Record, vs: seq<Visit>)
    requires Rests(record, ListingOf(vs))
    ensures Recorded(PrunedRecord(record, ListingOf(vs)), vs) == record
  {
    RecordedIs(PrunedRecord(record, ListingOf(vs)), vs);
  }

  lemma RescanPrunes(record: Record, vs: seq<Visit>)
    requires Ordered(vs) && Rests(record, ListingOf(vs)) && DanglingCount(vs) == 0
    ensures Gone(record, ListingOf(vs)) == {}
  {
    var l := ListingOf(vs);
    ListingClosed(vs);
    forall p | p in record ensures Exists(l, p) {
      if p in l {
        ListedIsVisited(vs, p);
        var i :| 0 <= i < |vs| && vs[i] == Visit(p, l[p]);
        NoDangling(vs, i);
        ListedExists(l, p);
      }
    }
  }

  /** Rescanning an unchanged source from such a record copies its dangling links, nothing else. */
  lemma RescanFromRest(s: State, vs: seq<Visit>)
    requires Ordered(vs) && Rests(s.record, ListingOf(vs))
    ensures UpdateCount(s, vs) == DanglingCount(vs)
    ensures Scanned(s, vs).record == s.record
    ensures DanglingCount(vs) == 0 ==> Scanned(s, vs) == s
  {
    RescanCount(s.record, vs);
    RescanRecord(s.record, vs);
    if DanglingCount(vs) == 0 {
      RescanPrunes(s.record, vs);
      assert PrunedTarget(s.target, {}) == s.target;
      assert Changed(PrunedRecord(s.record, ListingOf(vs)), vs) == [];
    }
  }

  /** After a scan, whatever was there before it, scanning the unchanged source again reports its dangling
      links and keeps the record; without dangling links it changes nothing. */
  lemma RescanUpdates(s0: State, vs: seq<Visit>)
    requires Ordered(vs)
    ensures var s := Scanned(s0, vs);
            && UpdateCount(s, vs) == DanglingCount(vs)
            && Scanned(s, vs).record == s.record
            && (DanglingCount(vs) == 0 ==> Scanned(s, vs) == s)
  {
    ScannedRests(s0, vs);
    RescanFromRest(Scanned(s0, vs), vs);
  }

  lemma {:induction false} ChangedCount(record: Record, vs: seq<Visit>)
    requires Distinct(vs)
    requires forall i :: 0 <= i < |vs| ==> NeedsUpdate(record, vs[i]) == Dangling(vs[i].node)
    ensures |Changed(record, vs)| == DanglingCount(vs)
  {
    if vs == [] {
    } else {
      ChangedCount(record, vs[..|vs| - 1]);
      LastAgrees(record, vs);
    }
  }

  lemma {:induction false} NoDangling(vs: seq<Visit>, i: nat)
    requires i < |vs| && DanglingCount(vs) == 0
    ensures !Dangling(vs[i].node)
  {
    if i == |vs| - 1 {
    } else {
      NoDangling(vs[..|vs| - 1], i);
    }
  }

  lemma {:induction false} VisitIsPath(vs: seq<Visit>, i: nat)
    requires i < |vs|
    ensures vs[i].path in PathsOf(vs)
  {
    if i == |vs| - 1 {
    } else {
      VisitIsPath(vs[..|vs| - 1], i);
    }
  }

  /** Every file and link is visited up to the last of them. */
  lemma {:induction false} LeafIsUpToLast(vs: seq<Visit>, i: nat)
    requires i < |vs| && !vs[i].node.Dir?
    ensures vs[i].path in PathsOf(UpToLastLeaf(vs))
  {
    if vs[|vs| - 1].node.Dir? {
      LeafIsUpToLast(vs[..|vs| - 1], i);
    } else {
      VisitIsPath(vs, i);
    }
  }

  /** What is pruned of a recorded tree is visited again before the last file or link. */
  lemma PathIsRevisited(vs: seq<Visit>, p: Path)
    requires Ordered(vs) && p in PathsOf(vs) && !Exists(ListingOf(vs), p)
    ensures p in PathsOf(UpToLastLeaf(vs))
  {
    ListingClosed(vs);
    ListedExists(ListingOf(vs), p);
    ListedIsVisited(vs, p);
    var i :| 0 <= i < |vs| && vs[i] == Visit(p, ListingOf(vs)[p]);
    LeafIsUpToLast(vs, i);
  }

  lemma PrunedIsRevisited(record: Record, vs: seq<Visit>)
    requires Ordered(vs) && Rests(record, ListingOf(vs))
    ensures PrunedRecord(record, ListingOf(vs)).Keys + PathsOf(UpToLastLeaf(vs)) == record.Keys
  {
    UpToLastLeafIsPrefix(vs);
    forall p | p in record && !Exists(ListingOf(vs), p) ensures p in PathsOf(UpToLastLeaf(vs)) {
      PathIsRevisited(vs, p);
    }
  }

  lemma RescanFitsExactly(s: State, vs: seq<Visit>)
    requires Ordered(vs) && Rests(s.record, ListingOf(vs))
    ensures ScanSucceeds(s, vs) <==> TotalSize(vs) <= MAX_SIZE && (Leaves(vs) == 0 || |s.record| <= MAX_ENTRIES)
  {
    PrunedIsRevisited(s.record, vs);
    assert |s.record| == |s.record.Keys|;
    FitsCountExactly(PrunedRecord(s.record, ListingOf(vs)), vs);
  }

  /** After a scan everything recorded counts against the limit, directories and paths found through a link
      included: the unchanged source is accepted again exactly when it is within the size limit and has
      no files and links or the record has at most 16 paths. */
  lemma RescanSucceedsExactly(s0: State, vs: seq<Visit>)
    requires Ordered(vs)
    ensures var s := Scanned(s0, vs);
            ScanSucceeds(s, vs) <==> TotalSize(vs) <= MAX_SIZE && (Leaves(vs) == 0 || |s.record| <= MAX_ENTRIES)
  {
    ScannedRests(s0, vs);
    RescanFitsExactly(Scanned(s0, vs), vs);
  }

  /** If the record is exactly the tree, that is exactly when the tree has at most 16 entries. */
  lemma RescanOfTree(s: State, vs: seq<Visit>)
    requires Ordered(vs) && s.record == Times(ListingOf(vs))
    ensures ScanSucceeds(s, vs) <==> TotalSize(vs) <= MAX_SIZE && (Leaves(vs) == 0 || |vs| <= MAX_ENTRIES)
  {
    RescanFitsExactly(s, vs);
    ListingSize(vs);
    assert s.record.Keys == PathsOf(vs);
    assert |s.record| == |s.record.Keys| && |PathsOf(vs)| == |ListingOf(vs)|;
  }

  /** After a successful scan the record is exactly the tree's paths and times, unless a recorded
      path is still found through a link of the tree. */
  lemma RecordExactly(s: State, vs: seq<Visit>)
    ensures Scanned(s, vs).record == Times(ListingOf(vs)) <==>
            forall p :: p in s.record && Exists(ListingOf(vs), p) ==> p in ListingOf(vs)
  {
    var l := ListingOf(vs);
    var record := PrunedRecord(s.record, l);
    RecordedIs(record, vs);
    assert Scanned(s, vs).record == record + Times(l);
    if forall p :: p in s.record && Exists(l, p) ==> p in l {
      Absorbed(record, Times(l));
    }
    if record + Times(l) == Times(l) {
      forall p | p in s.record && Exists(l, p) ensures p in l {
        assert p in record + Times(l);
      }
    }
  }
}
