/**
 Sources with which a failed scan loses entries: one file too many, removed again before the next scan.
 */
module WatcherLoss {
  import opened WatcherModel
  import opened WatcherWalk
  import opened WatcherMirror
  import opened WatcherLimits
  import opened WatcherRecovery

  const START := State(map[], map[])

  /** A walk that first breaks the entry limit at its last visit. */
  lemma OneTooMany(vs: seq<Visit>)
    requires IsTree(vs) && |vs| == MAX_ENTRIES + 1 && !vs[MAX_ENTRIES].node.Dir?
    ensures FailsAfter(START, vs, |vs|, TooManyFiles) && !ScanSucceeds(START, vs)
  {
    var rest := vs[..MAX_ENTRIES];
    assert PrunedRecord(START.record, ListingOf(vs)) == map[];
    PrefixIsTree(vs);
    ListingSize(vs);
    ListingSize(rest);
    assert |PathsOf(vs)| == |ListingOf(vs)| && |PathsOf(rest)| == |ListingOf(rest)|;
    EmptyFitsExactly(vs);
    EmptyFitsExactly(rest);
    UpToLastLeafIsPrefix(rest);
    SubsetSize(PathsOf(UpToLastLeaf(rest)), PathsOf(rest));
    assert vs[..|vs|] == vs && vs[..|vs| - 1] == rest;
  }

  lemma EmptyFitsExactly(vs: seq<Visit>)
    ensures FitsCount(map[], vs) <==> Leaves(vs) == 0 || |PathsOf(UpToLastLeaf(vs))| <= MAX_ENTRIES
  {
    FitsCountExactly(map[], vs);
    var none: Record := map[];
    assert none.Keys + PathsOf(UpToLastLeaf(vs)) == PathsOf(UpToLastLeaf(vs));
  }

  /** Without its last entry the tree is accepted after the failure. */
  lemma AcceptedWithoutLast(vs: seq<Visit>)
    requires IsTree(vs) && |vs| == MAX_ENTRIES + 1 && TotalSize(vs) <= MAX_SIZE
    ensures ScanSucceeds(Failed(START, vs, |vs|), vs[..MAX_ENTRIES])
  {
    var f, rest := Failed(START, vs, |vs|), vs[..MAX_ENTRIES];
    PrefixIsTree(vs);
    assert vs[..|vs| - 1] == rest && vs[..|vs|] == vs;
    RecordedIs(PrunedRecord(START.record, ListingOf(vs)), vs);
    forall p | p in f.record && Exists(ListingOf(rest), p) ensures p in ListingOf(rest) {
      if p !in ListingOf(rest) {
        LastIsNotThroughLink(vs);
        assert false;
      }
    }
    SmallTreeSucceeds(f, rest);
  }

  /** The last entry of a walk is not found in the rest of it through a link. */
  lemma LastIsNotThroughLink(vs: seq<Visit>)
    requires IsTree(vs) && vs != []
    ensures vs[|vs| - 1].path in ListingOf(vs[..|vs| - 1]) || !Exists(ListingOf(vs[..|vs| - 1]), vs[|vs| - 1].path)
  {
    var l, p := ListingOf(vs[..|vs| - 1]), vs[|vs| - 1].path;
    if p !in l && Exists(l, p) {
      var k := ThroughLink(l, p);
      LastPrefixListed(vs, k);
      assert false;
    }
  }

  /** A tree with one entry too many is recorded and not copied; once that entry is gone a scan succeeds,
      and none of the files and links that were there all along is copied. */
  lemma FailureLoses(vs: seq<Visit>, i: nat)
    requires IsTree(vs) && |vs| == MAX_ENTRIES + 1 && !vs[MAX_ENTRIES].node.Dir? && TotalSize(vs) <= MAX_SIZE
    requires i < MAX_ENTRIES && !vs[i].node.Dir? && !Dangling(vs[i].node)
    ensures var failed, later := Failed(START, vs, |vs|), vs[..MAX_ENTRIES];
            && FailsAfter(START, vs, |vs|, TooManyFiles) && !ScanSucceeds(START, vs)
            && ScanSucceeds(START, later) && ScanSucceeds(failed, later)
            && !Mirrors(Scanned(failed, later), ListingOf(later))
  {
    OneTooMany(vs);
    AcceptedWithoutLast(vs);
    PrefixIsTree(vs);
    assert vs[..|vs| - 1] == vs[..MAX_ENTRIES];
    SmallTreeSucceeds(START, vs[..MAX_ENTRIES]);
    LostByFailure(START, vs, |vs|, vs[..MAX_ENTRIES], i, i);
  }

  // ---------------------------------------------------------------- a directory of small files

  function Name(i: nat): string {
    seq(i + 1, _ => 'a')
  }

  const SMALL := File(0, 0, "x")

  function Files(n: nat): seq<Entry> {
    seq(n, i requires 0 <= i < n => Entry(Name(i), SMALL))
  }

  /** A directory with `n` files. */
  function Folder(n: nat): Node {
    Dir(0, Files(n))
  }

  lemma {:induction false} FilesWalk(n: nat, k: nat)
    requires k <= n
    ensures WalkEntries([], Files(n)[..k]) == seq(k, i requires 0 <= i < k => Visit([Name(i)], SMALL))
  {
    if k == 0 {
    } else {
      FilesWalk(n, k - 1);
      var entries := Files(n)[..k];
      assert entries[..k - 1] == Files(n)[..k - 1];
      assert entries[k - 1] == Entry(Name(k - 1), SMALL);
      assert [] + [Name(k - 1)] == [Name(k - 1)];
    }
  }

  lemma FolderWalk(n: nat)
    ensures |Walk([], Folder(n))| == n + 1
    ensures forall i :: 0 < i <= n ==> Walk([], Folder(n))[i] == Visit([Name(i - 1)], SMALL)
    ensures Walk([], Folder(n))[0] == Visit([], Folder(n))
  {
    FilesWalk(n, n);
    assert Files(n)[..n] == Files(n);
  }

  lemma FolderIsSource(n: nat)
    ensures IsSource(Folder(n))
  {
    var es := Files(n);
    forall i, j | 0 <= i < j < n ensures es[i].name != es[j].name {
      assert |es[i].name| != |es[j].name|;
    }
  }

  lemma {:induction false} NoSize(vs: seq<Visit>)
    requires forall i :: 0 <= i < |vs| ==> vs[i].node.Dir? || vs[i].node == SMALL
    ensures TotalSize(vs) == 0
  {
    if vs == [] {
    } else {
      NoSize(vs[..|vs| - 1]);
    }
  }

  /** Without links only the paths of the tree exist. */
  lemma NoLinks(vs: seq<Visit>, p: Path)
    requires (forall i :: 0 <= i < |vs| ==> !vs[i].node.Link?) && Exists(ListingOf(vs), p)
    ensures p in ListingOf(vs)
  {
    var l := ListingOf(vs);
    if p !in l {
      var k := ThroughLink(l, p);
      ListedIsVisited(vs, p[..k]);
      assert false;
    }
  }

  lemma FolderFails(n: nat)
    requires n == MAX_ENTRIES
    ensures var before := Walk([], Folder(n));
            |before| == n + 1 && IsTree(before) && FailsAfter(START, before, n + 1, TooManyFiles) && !ScanSucceeds(START, before)
  {
    FolderIsSource(n);
    SourceIsTree(Folder(n));
    FolderWalk(n);
    OneTooMany(Walk([], Folder(n)));
  }

  lemma FolderSucceeds(s: State, n: nat)
    requires n < MAX_ENTRIES
    ensures IsTree(Walk([], Folder(n))) && ScanSucceeds(s, Walk([], Folder(n)))
  {
    var after := Walk([], Folder(n));
    FolderIsSource(n);
    SourceIsTree(Folder(n));
    FolderWalk(n);
    NoSize(after);
    forall p | p in s.record && Exists(ListingOf(after), p) ensures p in ListingOf(after) {
      NoLinks(after, p);
    }
    SmallTreeSucceeds(s, after);
  }

  /** Sixteen files are one entry too many with their directory; with one of them deleted the next scan
      succeeds, and the target does not hold the others. */
  lemma FolderLoses(n: nat)
    requires n == MAX_ENTRIES
    ensures var before, after := Walk([], Folder(n)), Walk([], Folder(n - 1));
            && IsSource(Folder(n)) && IsSource(Folder(n - 1)) && |before| == n + 1
            && FailsAfter(START, before, n + 1, TooManyFiles) && !ScanSucceeds(START, before)
            && ScanSucceeds(Failed(START, before, n + 1), after)
            && !Mirrors(Scanned(Failed(START, before, n + 1), after), ListingOf(after))
  {
    var before, after := Walk([], Folder(n)), Walk([], Folder(n - 1));
    FolderIsSource(n);
    FolderIsSource(n - 1);
    FolderFails(n);
    FolderSucceeds(Failed(START, before, n + 1), n - 1);
    FolderWalk(n);
    FolderWalk(n - 1);
    assert before[1] == after[1];
    LostByFailure(START, before, n + 1, after, 1, 1);
  }
}
