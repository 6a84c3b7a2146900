/**
 The source tree itself, without the walk: which entries it has, how large it is, and what a target shows
 of it.
 */
module WatcherContent {
  import opened WatcherModel
  import opened WatcherWalk
  import opened WatcherMirror

  // ---------------------------------------------------------------- the entries of a tree

  /** Going down from `n` along `p`, one name at a time, leads to `m`. */
  ghost predicate IsAt(n: Node, p: Path, m: Node)
    decreases |p|
  {
    if p == [] then m == n
    else n.Dir? && exists e :: e in n.entries && e.name == p[0] && IsAt(e.node, p[1..], m)
  }

  /** One of the entries is, or has below it, what the path leads to. */
  ghost predicate IsBelow(entries: seq<Entry>, p: Path, m: Node)
    requires p != []
  {
    exists e :: e in entries && e.name == p[0] && IsAt(e.node, p[1..], m)
  }

  /** A visit of the walk from `path` is an entry of the tree. */
  ghost predicate Leads(path: Path, n: Node, v: Visit) {
    path <= v.path && IsAt(n, v.path[|path|..], v.node)
  }

  ghost predicate LeadsBelow(path: Path, entries: seq<Entry>, v: Visit) {
    path < v.path && IsBelow(entries, v.path[|path|..], v.node)
  }

  /** A walk visits exactly the entries of the tree. */
  lemma {:induction false} WalkExactly(path: Path, n: Node, v: Visit)
    ensures v in Walk(path, n) <==> Leads(path, n, v)
    decreases n, 0
  {
    if v.path == path {
      assert v.path[|path|..] == [];
    }
    if n.Dir? {
      WalkEntriesExactly(path, n.entries, v);
    }
  }

  lemma {:induction false} WalkEntriesExactly(path: Path, entries: seq<Entry>, v: Visit)
    ensures v in WalkEntries(path, entries) <==> LeadsBelow(path, entries, v)
    decreases entries, 0
  {
    if entries == [] {
    } else {
      var before, last := entries[..|entries| - 1], entries[|entries| - 1];
      WalkEntriesExactly(path, before, v);
      WalkExactly(path + [last.name], last.node, v);
      LeadsThrough(path, before, last, v);
      assert entries == before + [last];
    }
  }

  lemma LeadsThrough(path: Path, before: seq<Entry>, last: Entry, v: Visit)
    ensures LeadsBelow(path, before + [last], v) <==>
            LeadsBelow(path, before, v) || Leads(path + [last.name], last.node, v)
  {
    if path < v.path {
      var p := v.path[|path|..];
      assert p[1..] == v.path[|path| + 1..];
      if p[0] == last.name {
        assert path + [last.name] <= v.path;
      }
      BelowMore(before, last, p, v.node);
    }
  }

  lemma BelowMore(before: seq<Entry>, last: Entry, p: Path, m: Node)
    requires p != []
    ensures IsBelow(before + [last], p, m) <==>
            IsBelow(before, p, m) || (last.name == p[0] && IsAt(last.node, p[1..], m))
  {
    assert forall e :: e in before + [last] <==> e in before || e == last;
  }

  /** The listing of a well-formed tree holds exactly its entries. */
  lemma ListingExactly(root: Node, p: Path, m: Node)
    requires WellFormed(root)
    ensures p in ListingOf(Walk([], root)) && ListingOf(Walk([], root))[p] == m <==> IsAt(root, p, m)
  {
    var vs := Walk([], root);
    WalkExactly([], root, Visit(p, m));
    assert p[0..] == p;
    WalkOrdered(root);
    if p in ListingOf(vs) && ListingOf(vs)[p] == m {
      ListedIsVisited(vs, p);
    }
    if Visit(p, m) in vs {
      var i :| 0 <= i < |vs| && vs[i] == Visit(p, m);
      VisitedIsListed(vs, i);
    }
  }

  /** The link is at the first `k` names of the path, and following it the rest leads to something. */
  ghost predicate ThroughLinkAt(root: Node, p: Path, k: nat)
    requires k <= |p|
  {
    exists m :: IsAt(root, p[..k], m) && m.Link? && m.resolves &&
                (p[k..] == [] || exists q :: q in m.below && p[k..] <= q)
  }

  /** A path exists in the source exactly if it is a file or a directory of the tree, or leads through a link of
      the tree to something. */
  lemma ExistsExactly(root: Node, p: Path)
    requires WellFormed(root)
    ensures Exists(ListingOf(Walk([], root)), p) <==>
            || (exists n :: IsAt(root, p, n) && !n.Link?)
            || (exists k :: 0 <= k <= |p| && ThroughLinkAt(root, p, k))
  {
    var l := ListingOf(Walk([], root));
    forall q, m ensures q in l && l[q] == m <==> IsAt(root, q, m) {
      ListingExactly(root, q, m);
    }
    forall k | 0 <= k <= |p| ensures ThroughLinkAt(root, p, k) <==> p[..k] in l && Reaches(l[p[..k]], p[k..]) {
      if p[..k] in l && Reaches(l[p[..k]], p[k..]) {
        assert IsAt(root, p[..k], l[p[..k]]);
      }
    }
    if p in l && !l[p].Link? {
      assert IsAt(root, p, l[p]);
    }
  }

  // ---------------------------------------------------------------- the size of a tree

  /** Files and links count with their sizes, directories with what they hold. */
  function SizeOf(n: Node): nat
    decreases n, 0
  {
    match n
    case File(size, _, _) => size
    case Link(size, _, _, _, _) => size
    case Dir(_, entries) => SizeOfEntries(entries)
  }

  function SizeOfEntries(entries: seq<Entry>): nat
    decreases entries, 0
  {
    if entries == [] then 0 else SizeOf(entries[0].node) + SizeOfEntries(entries[1..])
  }

  lemma {:induction false} SizeOfMore(entries: seq<Entry>, last: Entry)
    ensures SizeOfEntries(entries + [last]) == SizeOfEntries(entries) + SizeOf(last.node)
  {
    if entries == [] {
      assert [last][1..] == [];
    } else {
      SizeOfMore(entries[1..], last);
      assert (entries + [last])[1..] == entries[1..] + [last];
    }
  }

  /** The scan adds up the sizes of the tree. */
  lemma {:induction false} WalkSize(path: Path, n: Node)
    ensures TotalSize(Walk(path, n)) == SizeOf(n)
    decreases n, 0
  {
    var vs := Walk(path, n);
    if n.Dir? {
      WalkEntriesSize(path, n.entries);
      TotalSizeConcat([Visit(path, n)], WalkEntries(path, n.entries));
      OneSize(Visit(path, n));
    } else {
      OneSize(Visit(path, n));
    }
  }

  lemma {:induction false} WalkEntriesSize(path: Path, entries: seq<Entry>)
    ensures TotalSize(WalkEntries(path, entries)) == SizeOfEntries(entries)
    decreases entries, 0
  {
    if entries == [] {
    } else {
      var before, last := entries[..|entries| - 1], entries[|entries| - 1];
      WalkEntriesSize(path, before);
      WalkSize(path + [last.name], last.node);
      TotalSizeConcat(WalkEntries(path, before), Walk(path + [last.name], last.node));
      SizeOfMore(before, last);
      assert entries == before + [last];
    }
  }

  lemma OneSize(v: Visit)
    ensures TotalSize([v]) == if v.node.Dir? then 0 else v.node.size
  {
    assert [v][..0] == [];
    assert TotalSize([]) == 0;
  }

  // ---------------------------------------------------------------- what the target shows

  /** The target holds a file with the content, a link with the destination, or a directory. */
  predicate Shows(target: Target, p: Path, n: Node) {
    p in target &&
    match n
    case File(_, _, content) => target[p] == FileCopy(content)
    case Link(_, _, to, _, _) => target[p] == LinkCopy(to)
    case Dir(_, _) => target[p] == DirCopy
  }

  /** A mirror shows every entry of the tree with its content, records its time, and has nothing else. */
  lemma MirrorExactly(s: State, l: Listing)
    ensures Mirrors(s, l) <==>
            && (forall p :: p in l ==> Shows(s.target, p, l[p]) && p in s.record && s.record[p] == l[p].modified)
            && (forall p :: p in s.target || p in s.record ==> p in l)
  {
    if (forall p :: p in l ==> Shows(s.target, p, l[p]) && p in s.record && s.record[p] == l[p].modified) &&
       (forall p :: p in s.target || p in s.record ==> p in l) {
      assert s.target.Keys == l.Keys && s.record.Keys == l.Keys;
      assert s.target == ImageOf(l);
    }
  }

  /** After a scan of `root` the target shows exactly its entries. */
  ghost predicate ShowsTree(s: State, root: Node) {
    && (forall p, n :: IsAt(root, p, n) ==> Shows(s.target, p, n) && p in s.record && s.record[p] == n.modified)
    && (forall p :: p in s.target ==> exists n :: IsAt(root, p, n))
  }

  lemma MirrorShowsTree(s: State, root: Node)
    requires WellFormed(root)
    ensures Mirrors(s, ListingOf(Walk([], root))) ==> ShowsTree(s, root)
  {
    var l := ListingOf(Walk([], root));
    MirrorExactly(s, l);
    if Mirrors(s, l) {
      forall p, n | IsAt(root, p, n) ensures Shows(s.target, p, n) && p in s.record && s.record[p] == n.modified {
        ListingExactly(root, p, n);
      }
      forall p | p in s.target ensures exists n :: IsAt(root, p, n) {
        ListingExactly(root, p, l[p]);
      }
    }
  }

  lemma LastScanShows(roots: seq<Node>)
    requires roots != [] && IsSource(roots[|roots| - 1]) && Mirrors(StateAfter(roots), LastListing(roots))
    ensures ShowsTree(StateAfter(roots), roots[|roots| - 1])
  {
    MirrorShowsTree(StateAfter(roots), roots[|roots| - 1]);
  }

  lemma {:induction false} SteadyPrefix(roots: seq<Node>, k: nat)
    requires AllSucceed(roots) && EachStep(Steady, roots) && k <= |roots|
    ensures AllSucceed(roots[..k]) && EachStep(Steady, roots[..k])
    decreases |roots|
  {
    if k == |roots| {
      assert roots[..k] == roots;
    } else {
      SteadyPrefix(roots[..|roots| - 1], k);
      assert roots[..|roots| - 1][..k] == roots[..k];
    }
  }

  /** If paths keep their kind and a change of content or destination raises the modification time, the
      target shows after every scan exactly the entries of the tree that was scanned. */
  lemma SteadyRunShows(roots: seq<Node>, k: nat)
    requires forall r :: r in roots ==> IsSource(r)
    requires AllSucceed(roots) && EachStep(Steady, roots) && 0 < k <= |roots|
    ensures ShowsTree(StateAfter(roots[..k]), roots[k - 1])
  {
    var scanned := roots[..k];
    assert forall r :: r in scanned ==> r in roots;
    SteadyPrefix(roots, k);
    SteadyRunMirrors(scanned);
    assert scanned[|scanned| - 1] in scanned;
    LastScanShows(scanned);
  }
}
