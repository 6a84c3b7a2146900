/**
 When a shared storage is released. A mount point is listed only for the container that mounted it,
 so a claim by another container is counted but never given back.
 */
module StorageLeaks {
  import opened Sequences
  import opened StorageCounts
  import opened StorageSafety
  import opened StorageRemovals
  import opened StorageExamples

  /** The container has the mount point on its list, or will have it once it is created. */
  predicate OnList(s: State, c: Cid, p: Path) {
    (c in s.mounts && p in s.mounts[c]) || (c in s.creating && p in ListInProgress(s.creating[c]))
  }

  /** The mount point is counted, but on no list, not even that of a container whose removal failed. */
  ghost predicate Orphan(s: State, p: Path) {
    p in s.storages && forall c :: !OnList(s, c, p)
  }

  /** What a removal does to a mount point that is not on the container's list. */
  lemma ForeignStays(s: State, cid: Cid, faults: Faults, p: Path)
    requires p in s.storages && p !in ListOf(s, cid)
    ensures p in Teardown(s, cid, faults).storages && p !in Teardown(s, cid, faults).unmounted
  {
    StillCountedExactly(s.storages, ListOf(s, cid));
    ReleaseForeign(s.storages, StillCounted(s.storages, ListOf(s, cid)), faults, p);
  }

  lemma AfterRemoval(s: State, cid: Cid, faults: Faults)
    ensures Next(s, Remove(cid, faults)).storages == Teardown(s, cid, faults).storages
    ensures Next(s, Remove(cid, faults)).creating == s.creating
    ensures Next(s, Remove(cid, faults)).mounts == if Teardown(s, cid, faults).ok then s.mounts - {cid} else s.mounts
  {
  }

  lemma RemoveKeepsOrphan(s: State, cid: Cid, faults: Faults, p: Path)
    requires Orphan(s, p)
    ensures Orphan(Next(s, Remove(cid, faults)), p) && p !in Teardown(s, cid, faults).unmounted
  {
    assert !OnList(s, cid, p);
    ForeignStays(s, cid, faults, p);
    AfterRemoval(s, cid, faults);
    forall c ensures !OnList(Next(s, Remove(cid, faults)), c, p) {
      assert !OnList(s, c, p);
    }
  }

  /** No step puts an orphan on a list or unmounts it. */
  lemma StepKeepsOrphan(s: State, step: Step, p: Path)
    requires Enabled(s, step) && Orphan(s, p)
    ensures Orphan(Next(s, step), p)
    ensures step.Remove? ==> p !in Teardown(s, step.cid, step.faults).unmounted
  {
    if step.Remove? {
      RemoveKeepsOrphan(s, step.cid, step.faults, p);
    } else {
      forall c ensures !OnList(Next(s, step), c, p) {
        assert !OnList(s, c, p);
      }
    }
  }

  lemma LastStep(before: seq<Step>, step: Step)
    requires IsRun(before + [step])
    ensures IsRun(before) && Enabled(After(before), step)
    ensures After(before + [step]) == Next(After(before), step)
  {
    assert (before + [step])[..|before + [step]| - 1] == before;
  }

  /** Once an orphan, a mount point stays one to the end of every run, whatever is removed, for the
      first time or again, and whatever fails; and no removal unmounts it. */
  lemma {:induction false} OrphanForever(before: seq<Step>, more: seq<Step>, p: Path, cid: Cid, faults: Faults)
    requires IsRun(before + more) && Orphan(After(before), p)
    ensures Orphan(After(before + more), p) && p !in Teardown(After(before + more), cid, faults).unmounted
  {
    if more == [] {
      assert before + more == before;
    } else {
      var rest, last := more[..|more| - 1], more[|more| - 1];
      assert before + more == before + rest + [last];
      LastStep(before + rest, last);
      OrphanForever(before, rest, p, cid, faults);
      StepKeepsOrphan(After(before + rest), last, p);
    }
    RemoveKeepsOrphan(After(before + more), cid, faults, p);
  }

  /** The container has the counted mount point on its list and its removal meets no failure. */
  predicate RemovesOwner(s: State, cid: Cid, faults: Faults, p: Path) {
    cid in s.mounts && p in s.mounts[cid] && p in s.storages && Teardown(s, cid, faults).ok
  }

  /** How often the container's list names the mount point. */
  function Times(s: State, cid: Cid, p: Path): nat {
    multiset(ListOf(s, cid))[p]
  }

  lemma OwnerReleases(s: State, cid: Cid, faults: Faults, p: Path)
    requires Positive(s.storages) && RemovesOwner(s, cid, faults, p)
    ensures p in Teardown(s, cid, faults).unmounted <==> s.storages[p] == Times(s, cid, p)
    ensures p in Teardown(s, cid, faults).storages <==> s.storages[p] > Times(s, cid, p)
  {
    var ms := Releases(s, cid);
    FaultsCutShort(s.storages, ms, faults);
    ReleaseExactly(s.storages, ms, p);
    StillCountedTimes(s.storages, ListOf(s, cid), p);
    DrainedAtEnd(s.storages, ms, p);
  }

  /** Of a list that is released to its end exactly what it names as often as it is counted is drained. */
  lemma DrainedAtEnd(storages: map<Path, nat>, ms: seq<Path>, p: Path)
    requires Covered(storages, ms)
    ensures Drained(storages, ms, p) <==> multiset(ms)[p] == Count(storages, p) >= 1
  {
    assert ms[..|ms|] == ms;
    forall k | 0 <= k <= |ms| ensures multiset(ms[..k])[p] <= multiset(ms)[p] {
      assert ms == ms[..k] + ms[k..];
    }
    assert multiset(ms)[p] <= Count(storages, p);
    if multiset(ms)[p] == Count(storages, p) >= 1 {
      assert DrainedBy(storages, ms[..|ms|], p);
    }
  }

  /** What the removal leaves of the lists. */
  lemma ListsLeft(s: State, cid: Cid, faults: Faults, p: Path, c: Cid)
    requires Keyed(s) && cid in s.mounts && Teardown(s, cid, faults).ok
    ensures OnList(Next(s, Remove(cid, faults)), c, p) <==> c != cid && OnList(s, c, p)
  {
    AfterRemoval(s, cid, faults);
  }

  /** When a container is removed that has a mount point on its list, the mount point is unmounted
      exactly if it is counted as often as it is listed there; otherwise it becomes an orphan exactly if
      no other list has it. */
  lemma ReleasedExactly(steps: seq<Step>, cid: Cid, faults: Faults, p: Path)
    requires IsRun(steps) && RemovesOwner(After(steps), cid, faults, p)
    ensures var s := After(steps);
            && (p in Teardown(s, cid, faults).unmounted <==> s.storages[p] == Times(s, cid, p))
            && (Orphan(Next(s, Remove(cid, faults)), p) <==>
                s.storages[p] > Times(s, cid, p) && forall c :: c != cid ==> !OnList(s, c, p))
  {
    var s := After(steps);
    RunKeepsPositive(steps);
    RunKeepsKeyed(steps);
    OwnerReleases(s, cid, faults, p);
    AfterRemoval(s, cid, faults);
    forall c ensures OnList(Next(s, Remove(cid, faults)), c, p) <==> c != cid && OnList(s, c, p) {
      ListsLeft(s, cid, faults, p, c);
    }
  }

  lemma {:induction false} RunKeepsKeyed(steps: seq<Step>)
    requires IsRun(steps)
    ensures Keyed(After(steps))
  {
    if steps == [] {
    } else {
      RunKeepsKeyed(steps[..|steps| - 1]);
      StepKeyed(After(steps[..|steps| - 1]), steps[|steps| - 1]);
    }
  }

  /** If no removal has failed so far, only the removed container has the mount point on its list, once, so
      one that is still counted is an orphan from then on. */
  lemma SharedIsOrphaned(steps: seq<Step>, cid: Cid, faults: Faults, p: Path)
    requires IsRun(steps) && Guarded(steps) && RemovesOwner(After(steps), cid, faults, p)
    requires After(steps).broken == {}
    ensures Orphan(Next(After(steps), Remove(cid, faults)), p) <==> After(steps).storages[p] > 1
  {
    var s := After(steps);
    RunKeepsInv(steps);
    ListsAreDistinct(steps, cid);
    NoDuplicatesTimes(ListOf(s, cid), p);
    ReleasedExactly(steps, cid, faults, p);
    forall c | c != cid ensures !OnList(s, c, p) {
      OnlyOwner(s, cid, p, c);
    }
  }

  lemma OnlyOwner(s: State, cid: Cid, p: Path, c: Cid)
    requires Inv(s) && cid in s.mounts && s.broken == {} && p in s.mounts[cid] && c != cid
    ensures !OnList(s, c, p)
  {
    assert Lists(s)[cid] == s.mounts[cid];
    if c in Lists(s) {
      assert Apart(Lists(s)[cid], Lists(s)[c]);
    }
  }

  /** A removal without faults from a list without duplicates succeeds. */
  lemma TeardownSucceeds(s: State, cid: Cid)
    requires NoDuplicates(ListOf(s, cid))
    ensures Teardown(s, cid, NO_FAULTS).ok
  {
    StillCountedExactly(s.storages, ListOf(s, cid));
    ReleaseSucceeds(s.storages, Releases(s, cid));
  }

  lemma RemoveFirst(s: State, x: Cid, y: Cid, a: Path)
    requires Inv(s) && x != y && s.mounts.Keys == {x, y} && s.containers == {x, y} && s.creating == map[]
    requires a in s.mounts[x] && a !in s.mounts[y] && Count(s.storages, a) == 2
    ensures var t := Next(s, Remove(x, NO_FAULTS));
            Orphan(t, a) && t.mounts.Keys == {y} && t.containers == {y} && t.creating == map[] && Teardown(s, x, NO_FAULTS).ok
  {
    TeardownSucceeds(s, x);
    NoDuplicatesTimes(s.mounts[x], a);
    OwnerReleases(s, x, NO_FAULTS, a);
    AfterRemoval(s, x, NO_FAULTS);
    forall c ensures !OnList(Next(s, Remove(x, NO_FAULTS)), c, a) {
      ListsLeft(s, x, NO_FAULTS, a, c);
    }
  }

  lemma RemoveSecond(t: State, y: Cid, a: Path)
    requires Inv(t) && Orphan(t, a) && t.mounts.Keys == {y} && t.containers == {y} && t.creating == map[]
    ensures var u := Next(t, Remove(y, NO_FAULTS));
            Orphan(u, a) && u.mounts == map[] && u.containers == {} && u.creating == map[]
  {
    TeardownSucceeds(t, y);
    RemoveKeepsOrphan(t, y, NO_FAULTS, a);
    AfterRemoval(t, y, NO_FAULTS);
  }

  /** Such a run: two containers share a mount point, both are removed, and it is still mounted. */
  lemma SharedIsLeaked(x: Cid, y: Cid, a: Path, b: Path) returns (steps: seq<Step>)
    requires x != y && a != b
    ensures IsRun(steps) && Orphan(After(steps), a)
    ensures After(steps).containers == {} && After(steps).mounts == map[] && After(steps).creating == map[]
  {
    steps := TwoContainers(x, y, a, b);
    var s := After(steps);
    NoRepeatsIsGuarded(steps);
    RunKeepsInv(steps);
    RemoveFirst(s, x, y, a);
    var t := Next(s, Remove(x, NO_FAULTS));
    steps := Reach(steps, Remove(x, NO_FAULTS), s, t);
    NoRepeatsIsGuarded(steps);
    RunKeepsInv(steps);
    RemoveSecond(t, y, a);
    steps := Reach(steps, Remove(y, NO_FAULTS), t, Next(t, Remove(y, NO_FAULTS)));
  }
}
