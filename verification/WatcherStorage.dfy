/**
 A watched storage as the agent keeps it: the record and the target are updated in place by
 the loops of a scan, and each method is tied to its effect on values.
 */
module WatcherStorage {
  import opened Wrappers
  import opened Sequences
  import opened WatcherModel
  import opened WatcherWalk

  lemma CoversTransitive(t: Target, r: Path, q: Path, p: Path)
    requires q in t && Covers(t, r, q) && Covers(t, q, p)
    ensures Covers(t, r, p)
  {}

  /** Removing one more path from a pruned target, whichever paths went before. */
  lemma PruneStep(t: Target, gone: set<Path>, q: Path)
    ensures PrunedTarget(PrunedTarget(t, gone), {q}) == PrunedTarget(t, gone + {q})
  {
    var t1 := PrunedTarget(t, gone);
    forall p | p in t
      ensures p in PrunedTarget(t1, {q}) <==> p in PrunedTarget(t, gone + {q})
    {
      if p in PrunedTarget(t, gone + {q}) {
        assert !Covers(t, q, p);
        assert !Covers(t1, q, p);
      }
      if p in PrunedTarget(t1, {q}) {
        assert !Covers(t1, q, p);
        if Covers(t, q, p) {
          var r :| r in gone && Covers(t, r, q);
          CoversTransitive(t, r, q, p);
          assert false;
        }
      }
    }
  }

  /** What a scan of the visits `walk` may leave: on success all of them are recorded, the ones that
      need copying are listed and the sizes are summed; it fails exactly when a limit is broken, and
      then a prefix of the walk is recorded, up to the visit that breaks the entry limit if it is that. */
  ghost predicate Outcome(before: Record, walk: seq<Visit>, after: Record,
                          r: Result<nat, ScanError>, updates: seq<Visit>, list: seq<Visit>) {
    && (r.Ok? <==> Fits(before, walk))
    && (r.Ok? ==> after == Recorded(before, walk) && list == updates + Changed(before, walk) && r.value == TotalSize(walk))
    && (r.Err? && r.error.TooManyFiles? ==> !FitsCount(before, walk))
    && (r.Err? && r.error.TooLarge? ==> TotalSize(walk) > MAX_SIZE)
    && (r.Err? ==> exists k :: 0 < k <= |walk| && StopsAt(before, walk, after, r.error, k))
  }

  ghost predicate StopsAt(before: Record, walk: seq<Visit>, after: Record, error: ScanError, k: nat)
    requires 0 < k <= |walk|
  {
    StopsWith(before, walk[..k - 1], walk[..k], after, error)
  }

  ghost predicate StopsWith(before: Record, fitting: seq<Visit>, recorded: seq<Visit>, after: Record, error: ScanError) {
    after == Recorded(before, recorded) &&
    (error.TooManyFiles? ==> FitsCount(before, fitting) && !FitsCount(before, recorded))
  }

  /** The part of a directory's walk that is done after `i` entries. */
  ghost function Done(path: Path, n: Node, i: nat): (done: seq<Visit>)
    requires n.Dir? && i <= |n.entries|
  {
    [Visit(path, n)] + WalkEntries(path, n.entries[..i])
  }

  lemma DoneSteps(path: Path, n: Node, i: nat)
    requires n.Dir? && i < |n.entries|
    ensures Done(path, n, i + 1) == Done(path, n, i) + Walk(path + [n.entries[i].name], n.entries[i].node)
  {
    assert n.entries[..i + 1][..i] == n.entries[..i];
  }

  /** The walk goes on from any stage of it. */
  lemma {:induction false} DoneIsPrefix(path: Path, n: Node, i: nat)
    requires n.Dir? && i <= |n.entries|
    ensures Done(path, n, i) <= Walk(path, n)
    decreases |n.entries| - i
  {
    if i == |n.entries| {
      assert n.entries[..i] == n.entries;
    } else {
      DoneSteps(path, n, i);
      DoneIsPrefix(path, n, i + 1);
    }
  }

  lemma LeafWalk(before: Record, path: Path, n: Node)
    requires !n.Dir?
    ensures var walk := Walk(path, n);
            && walk[..1] == walk
            && Recorded(before, walk) == before[path := n.modified]
            && Changed(before, walk) == (if NeedsUpdate(before, Visit(path, n)) then [Visit(path, n)] else [])
            && TotalSize(walk) == n.size
            && (FitsCount(before, walk) <==> |before[path := n.modified]| <= MAX_ENTRIES)
  {
    var walk := Walk(path, n);
    assert walk[..1] == walk;
    assert walk[..|walk| - 1] == [];
    assert FitsCount(before, []) && TotalSize([]) == 0;
    assert Recorded(before, walk) == before[path := n.modified];
  }

  /** The path itself is deleted, or a directory above it. */
  ghost predicate IsDeleted(was: Target, gone: seq<Path>, p: Path) {
    p in gone || exists q :: q in gone && q <= p && q in was && was[q] == DirCopy
  }

  /** What is deleted is gone and everything else is as it was. */
  ghost predicate Cleared(was: Target, gone: seq<Path>, now: Target) {
    && (forall p :: p in now <==> p in was && !IsDeleted(was, gone, p))
    && (forall p :: p in now ==> now[p] == was[p])
  }

  lemma PrunedIsCleared(was: Target, gone: seq<Path>)
    ensures Cleared(was, gone, PrunedTarget(was, Elements(gone)))
  {
    forall p | p in was ensures IsDeleted(was, gone, p) <==> exists q :: q in Elements(gone) && Covers(was, q, p) {
      if p in gone {
        assert p in Elements(gone) && Covers(was, p, p);
      } else if q :| q in gone && q <= p && q in was && was[q] == DirCopy {
        assert q in Elements(gone) && Covers(was, q, p);
      }
    }
  }

  lemma UnfitSpreads(before: Record, done: seq<Visit>, next: seq<Visit>, rest: seq<Visit>)
    ensures !FitsCount(Recorded(before, done), next) ==> !FitsCount(before, done + next + rest)
    ensures TotalSize(done + next + rest) >= TotalSize(next)
  {
    FitsCountConcat(before, done, next);
    FitsCountConcat(before, done + next, rest);
    TotalSizeConcat(done, next);
    TotalSizeConcat(done + next, rest);
  }

  lemma PrefixOfWhole(done: seq<Visit>, next: seq<Visit>, walk: seq<Visit>, k: nat)
    requires k <= |next| && done + next <= walk
    ensures walk[..|done| + k] == done + next[..k]
  {
  }

  lemma StopsWithSpreads(before: Record, done: seq<Visit>, fitting: seq<Visit>, recorded: seq<Visit>, after: Record,
                         error: ScanError)
    requires FitsCount(before, done) && StopsWith(Recorded(before, done), fitting, recorded, after, error)
    ensures StopsWith(before, done + fitting, done + recorded, after, error)
  {
    RecordedConcat(before, done, recorded);
    FitsCountConcat(before, done, recorded);
    FitsCountConcat(before, done, fitting);
  }

  lemma StopSpreads(before: Record, done: seq<Visit>, next: seq<Visit>, walk: seq<Visit>, after: Record,
                    error: ScanError, k: nat)
    requires FitsCount(before, done) && 0 < k <= |next| && |done| + k <= |walk|
    requires walk[..|done| + k] == done + next[..k] && walk[..|done| + k - 1] == done + next[..k - 1]
    requires StopsAt(Recorded(before, done), next, after, error, k)
    ensures StopsAt(before, walk, after, error, |done| + k)
  {
    StopsWithSpreads(before, done, next[..k - 1], next[..k], after, error);
  }

  /** A failure below an entry is a failure of the whole scan. */
  lemma FailureSpreads(before: Record, done: seq<Visit>, next: seq<Visit>, walk: seq<Visit>, after: Record,
                       r: Result<nat, ScanError>, listed: seq<Visit>, updates: seq<Visit>, list: seq<Visit>)
    requires done + next <= walk && r.Err? && FitsCount(before, done)
    requires Outcome(Recorded(before, done), next, after, r, listed, list)
    ensures Outcome(before, walk, after, r, updates, list)
  {
    var rest := walk[|done| + |next|..];
    assert walk == done + next + rest;
    UnfitSpreads(before, done, next, rest);
    var k :| 0 < k <= |next| && StopsAt(Recorded(before, done), next, after, r.error, k);
    PrefixOfWhole(done, next, walk, k);
    PrefixOfWhole(done, next, walk, k - 1);
    StopSpreads(before, done, next, walk, after, r.error, k);
  }

  /** A success below an entry extends what is done. */
  lemma SuccessExtends(before: Record, done: seq<Visit>, next: seq<Visit>, after: Record,
                       r: Result<nat, ScanError>, updates: seq<Visit>, list: seq<Visit>, list1: seq<Visit>)
    requires r.Ok? && FitsCount(before, done) && list == updates + Changed(before, done)
    requires Outcome(Recorded(before, done), next, after, r, list, list1)
    ensures after == Recorded(before, done + next) && list1 == updates + Changed(before, done + next)
    ensures TotalSize(done) + r.value == TotalSize(done + next) && FitsCount(before, done + next)
  {
    RecordedConcat(before, done, next);
    ChangedConcat(before, done, next);
    TotalSizeConcat(done, next);
    FitsCountConcat(before, done, next);
  }

  /** Where the scan of a directory stands after `i` entries. */
  ghost predicate Progress(before: Record, path: Path, n: Node, i: nat,
                           record: Record, updates: seq<Visit>, list: seq<Visit>, size: nat)
    requires n.Dir? && i <= |n.entries|
  {
    var done := Done(path, n, i);
    && record == Recorded(before, done) && list == updates + Changed(before, done)
    && size == TotalSize(done) && FitsCount(before, done)
  }

  lemma ProgressStarts(before: Record, path: Path, n: Node, updates: seq<Visit>)
    requires n.Dir?
    ensures Progress(before, path, n, 0, before[path := n.modified], updates,
                     if path in before then updates else updates + [Visit(path, n)], 0)
  {
    var done := Done(path, n, 0);
    assert n.entries[..0] == [] && done == [Visit(path, n)] && done[..0] == [];
    assert updates + [] == updates;
  }

  /** One entry of the directory. */
  lemma ProgressStep(before: Record, path: Path, n: Node, i: nat, updates: seq<Visit>, listed: seq<Visit>, size: nat,
                     after: Record, r: Result<nat, ScanError>, list: seq<Visit>)
    requires n.Dir? && i < |n.entries|
    requires Progress(before, path, n, i, Recorded(before, Done(path, n, i)), updates, listed, size)
    requires Outcome(Recorded(before, Done(path, n, i)), Walk(path + [n.entries[i].name], n.entries[i].node),
                     after, r, listed, list)
    ensures r.Err? ==> Outcome(before, Walk(path, n), after, r, updates, list)
    ensures r.Ok? ==> Progress(before, path, n, i + 1, after, updates, list, size + r.value)
  {
    var done, next := Done(path, n, i), Walk(path + [n.entries[i].name], n.entries[i].node);
    DoneSteps(path, n, i);
    DoneIsPrefix(path, n, i + 1);
    if r.Err? {
      FailureSpreads(before, done, next, Walk(path, n), after, r, listed, updates, list);
    } else {
      SuccessExtends(before, done, next, after, r, updates, listed, list);
    }
  }

  lemma ProgressEnds(before: Record, path: Path, n: Node, record: Record, updates: seq<Visit>, list: seq<Visit>, size: nat)
    requires n.Dir? && Progress(before, path, n, |n.entries|, record, updates, list, size)
    ensures Outcome(before, Walk(path, n), record, if size > MAX_SIZE then Err(TooLarge) else Ok(size), updates, list)
  {
    var walk := Walk(path, n);
    assert n.entries[..|n.entries|] == n.entries;
    assert walk == Done(path, n, |n.entries|) && walk[..|walk|] == walk;
    if size > MAX_SIZE {
      assert StopsAt(before, walk, record, TooLarge, |walk|);
    }
  }

  /** The target with every prefix of `p` a directory. */
  lemma MkdirsIs(t: Target, p: Path, after: Target)
    requires CanMkdir(t, p)
    requires forall q :: q in after <==> q in t || q <= p
    requires forall q :: q in after ==> after[q] == if q <= p then DirCopy else t[q]
    ensures after == Mkdirs(t, p)
  {
    forall q | q <= p ensures q in Mkdirs(t, p) && Mkdirs(t, p)[q] == DirCopy {
      assert q == p[..|q|];
    }
  }

  class Storage {
    var watched: Record
    var target: Target

    ghost function Contents(): State
      reads this
    {
      State(watched, target)
    }

    constructor ()
      ensures Contents() == State(map[], map[])
    {
      watched, target := map[], map[];
    }

    /** Creates a directory and its missing ancestors, unless something else is in the way. */
    method MakeDirs(p: Path) returns (ok: bool)
      modifies this`target
      ensures ok <==> forall k :: 0 <= k <= |p| && p[..k] in old(target) ==> old(target)[p[..k]] == DirCopy
      ensures ok ==> forall q :: q in target <==> q in old(target) || q <= p
      ensures ok ==> forall q :: q in target ==> target[q] == if q <= p then DirCopy else old(target)[q]
      ensures !ok ==> target == old(target)
    {
      for k := 0 to |p| + 1
        invariant forall j :: 0 <= j < k && p[..j] in target ==> target[p[..j]] == DirCopy
      {
        if p[..k] in target && target[p[..k]] != DirCopy {
          return false;
        }
      }
      for k := 0 to |p| + 1
        invariant forall q :: q in target <==> q in old(target) || (q <= p && |q| < k)
        invariant forall q :: q in target ==> target[q] == if q <= p && |q| < k then DirCopy else old(target)[q]
      {
        if p[..k] !in target {
          target := target[p[..k] := DirCopy];
        }
        assert forall q :: q <= p && |q| < k + 1 <==> (q <= p && |q| < k) || q == p[..k];
      }
      ok := true;
    }

    /** Copies one entry into the target; a failure leaves the entry as it was. */
    method UpdateTarget(v: Visit) returns (ok: bool)
      modifies this`target
      ensures ok <==> CanUpdate(old(target), v)
      ensures target == UpdatedTarget(old(target), v)
      ensures ok ==> v.path in target &&
                     match v.node
                     case File(_, _, content) => target[v.path] == FileCopy(content)
                     case Link(_, _, to, _, _) => target[v.path] == LinkCopy(to)
                     case Dir(_, _) => target[v.path] == DirCopy
    {
      if v.node.Dir? {
        ok := MakeDirs(v.path);
        if ok {
          MkdirsIs(old(target), v.path, target);
        }
        return;
      }
      ok := MakeDirs(Parent(v.path));
      if ok {
        MkdirsIs(old(target), Parent(v.path), target);
        ok := CanCopy(target, v);
        if ok {
          target := target[v.path := Image(v.node)];
        }
      }
    }

    /** Deletes vanished paths from the target, directories with all they hold. */
    method RemoveFromTarget(gone: seq<Path>)
      modifies this`target
      ensures target == PrunedTarget(old(target), Elements(gone))
      ensures Cleared(old(target), gone, target)
    {
      assert target == PrunedTarget(old(target), Elements(gone[..0]));
      for i := 0 to |gone|
        invariant target == PrunedTarget(old(target), Elements(gone[..i]))
      {
        var q := gone[i];
        PruneStep(old(target), Elements(gone[..i]), q);
        assert Elements(gone[..i + 1]) == Elements(gone[..i]) + {q};
        if q in target && target[q] == DirCopy {
          target := map p | p in target && !(q <= p) :: target[p];
        } else {
          target := map p | p in target && p != q :: target[p];
        }
      }
      assert gone[..|gone|] == gone;
      PrunedIsCleared(old(target), gone);
    }

    /** The file and link branch of the recursive scan. */
    method ScanLeaf(path: Path, n: Node, updates: seq<Visit>) returns (r: Result<nat, ScanError>, list: seq<Visit>)
      requires !n.Dir?
      modifies this`watched
      ensures Outcome(old(watched), Walk(path, n), watched, r, updates, list)
    {
      list := updates;
      if NeedsUpdate(watched, Visit(path, n)) {
        list := list + [Visit(path, n)];
      }
      watched := watched[path := n.modified];
      LeafWalk(old(watched), path, n);
      assert Walk(path, n)[..0] == [];
      assert |watched| > MAX_ENTRIES ==> StopsAt(old(watched), Walk(path, n), watched, TooManyFiles, 1);
      assert StopsAt(old(watched), Walk(path, n), watched, TooLarge, 1);
      if |watched| > MAX_ENTRIES {
        r := Err(TooManyFiles);
      } else if n.size > MAX_SIZE {
        r := Err(TooLarge);
      } else {
        r := Ok(n.size);
      }
    }

    /** The recursive scan: it records and lists exactly the walk of the tree. */
    method ScanPath(path: Path, n: Node, updates: seq<Visit>) returns (r: Result<nat, ScanError>, list: seq<Visit>)
      modifies this`watched
      ensures Outcome(old(watched), Walk(path, n), watched, r, updates, list)
      decreases n
    {
      if !n.Dir? {
        r, list := ScanLeaf(path, n, updates);
        return;
      }
      list := updates;
      if path !in watched {
        list := list + [Visit(path, n)];
      }
      watched := watched[path := n.modified];
      var size: nat := 0;
      ProgressStarts(old(watched), path, n, updates);
      for i := 0 to |n.entries|
        invariant Progress(old(watched), path, n, i, watched, updates, list, size)
      {
        var e := n.entries[i];
        ghost var listed := list;
        r, list := ScanPath(path + [e.name], e.node, list);
        ProgressStep(old(watched), path, n, i, updates, listed, size, watched, r, list);
        if r.Err? {
          return;
        }
        size := size + r.value;
      }
      ProgressEnds(old(watched), path, n, watched, updates, list, size);
      r := if size > MAX_SIZE then Err(TooLarge) else Ok(size);
    }

    /** Drops vanished paths from the record, in whatever order the map yields them. */
    method PruneRecord(l: Listing) returns (removed: seq<Path>)
      modifies this`watched
      ensures watched == PrunedRecord(old(watched), l)
      ensures Elements(removed) == Gone(old(watched), l)
    {
      var keys := watched.Keys;
      removed := [];
      while keys != {}
        invariant keys <= old(watched).Keys
        invariant watched == map p | p in old(watched) && (p in keys || Exists(l, p)) :: old(watched)[p]
        invariant Elements(removed) == set p | p in old(watched) && p !in keys && !Exists(l, p)
        decreases keys
      {
        var p :| p in keys;
        keys := keys - {p};
        if !Exists(l, p) {
          assert Elements(removed + [p]) == Elements(removed) + {p};
          removed := removed + [p];
          watched := watched - {p};
        }
      }
    }

    /** Copies the listed entries in order; a failed copy does not stop the others. */
    method CopyAll(list: seq<Visit>)
      modifies this`target
      ensures target == UpdatedAll(old(target), list)
    {
      assert list[..0] == [];
      for i := 0 to |list|
        invariant target == UpdatedAll(old(target), list[..i])
      {
        var _ := UpdateTarget(list[i]);
        assert list[..i + 1][..i] == list[..i];
      }
      assert list[..|list|] == list;
    }

    /** One scan of the source: prune, walk, copy. If it fails, it has recorded the walk up to the visit that
        breaks the entry limit, or some of it if the tree is too large, and copied nothing. */
    method Scan(root: Node) returns (r: Result<nat, ScanError>)
      modifies this
      ensures r.Ok? <==> ScanSucceeds(old(Contents()), Walk([], root))
      ensures r.Ok? ==> Contents() == Scanned(old(Contents()), Walk([], root))
      ensures r.Ok? ==> r.value == UpdateCount(old(Contents()), Walk([], root))
      ensures r.Err? ==> exists k :: 0 < k <= |Walk([], root)| && FailsAfter(old(Contents()), Walk([], root), k, r.error) &&
                                     Contents() == Failed(old(Contents()), Walk([], root), k)
    {
      ghost var walk := Walk([], root);
      var l := ListingOf(Walk([], root));
      var removed := PruneRecord(l);
      ghost var pruned := watched;
      RemoveFromTarget(removed);
      ghost var cleared := target;
      var size, list := ScanPath([], root, []);
      if size.Err? {
        ghost var k :| 0 < k <= |walk| && StopsAt(pruned, walk, watched, size.error, k);
        assert Contents() == Failed(old(Contents()), walk, k);
        return Err(size.error);
      }
      assert list == Changed(pruned, walk);
      CopyAll(list);
      r := Ok(|list|);
    }
  }
}
