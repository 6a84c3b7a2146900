/**
 What a removal unmounts and when that does harm, after any run at all: removals may have failed and
 been repeated before, with or without a use to spare.
 */
module StorageRemovals {
  import opened Wrappers
  import opened Sequences
  import opened StorageCounts
  import opened StorageSafety

  // ---------------------------------------------------------------- what every run keeps

  lemma StepKeepsPositive(s: State, step: Step)
    requires Positive(s.storages) && Enabled(s, step)
    ensures Positive(Next(s, step).storages)
  {
    if step.Remove? {
      var ms := StillCounted(s.storages, ListOf(s, step.cid));
      forall p | p in Teardown(s, step.cid, step.faults).storages
        ensures Teardown(s, step.cid, step.faults).storages[p] >= 1
      {
        ReleaseStaysPositive(s.storages, ms, step.faults, p);
      }
    }
  }

  /** Whatever is counted is counted at least once. */
  lemma {:induction false} RunKeepsPositive(steps: seq<Step>)
    requires IsRun(steps)
    ensures Positive(After(steps).storages)
  {
    if steps == [] {
    } else {
      RunKeepsPositive(steps[..|steps| - 1]);
      StepKeepsPositive(After(steps[..|steps| - 1]), steps[|steps| - 1]);
    }
  }

  /** What a removal takes from the counts: the mount points on the container's list that are counted. */
  function Releases(s: State, cid: Cid): seq<Path> {
    StillCounted(s.storages, ListOf(s, cid))
  }

  // ---------------------------------------------------------------- exactly what is unmounted

  /** After every run, a removal without faults unmounts exactly what its list drains. */
  lemma UnmountsExactly(steps: seq<Step>, cid: Cid, p: Path)
    requires IsRun(steps)
    ensures p in Teardown(After(steps), cid, NO_FAULTS).unmounted <==>
            Drained(After(steps).storages, Releases(After(steps), cid), p)
  {
    RunKeepsPositive(steps);
    ReleaseExactly(After(steps).storages, Releases(After(steps), cid), p);
  }

  /** It does harm exactly when the list drains a mount point that another container uses. */
  lemma HarmsExactly(steps: seq<Step>, cid: Cid)
    requires IsRun(steps)
    ensures Harms(After(steps), cid, NO_FAULTS) <==>
            exists p, c :: c != cid && Drained(After(steps).storages, Releases(After(steps), cid), p) && Uses(After(steps), c, p)
  {
    var s := After(steps);
    forall p ensures p in Teardown(s, cid, NO_FAULTS).unmounted <==> Drained(s.storages, Releases(s, cid), p) {
      UnmountsExactly(steps, cid, p);
    }
  }

  /** Faults unmount nothing that a removal without faults would leave. */
  lemma FaultsAddNoHarm(s: State, cid: Cid, faults: Faults)
    requires Harms(s, cid, faults)
    ensures Harms(s, cid, NO_FAULTS)
  {
    FaultsCutShort(s.storages, Releases(s, cid), faults);
    var p, c :| c != cid && p in Teardown(s, cid, faults).unmounted && Uses(s, c, p);
    assert p in Teardown(s, cid, NO_FAULTS).unmounted;
  }

  // ---------------------------------------------------------------- lists without duplicates

  /** No container asks for a mount point twice. */
  ghost predicate DistinctRequests(steps: seq<Step>) {
    forall i :: 0 <= i < |steps| && steps[i].Begin? ==> NoDuplicates(steps[i].storages)
  }

  /** No list names a mount point twice, and a creation has yet to claim only others. */
  ghost predicate Tidy(s: State) {
    && (forall c :: c in s.mounts ==> NoDuplicates(s.mounts[c]))
    && (forall c :: c in s.creating ==> NoDuplicates(ListInProgress(s.creating[c]) + s.creating[c].todo))
  }

  lemma StepKeepsTidy(s: State, step: Step)
    requires Tidy(s) && Enabled(s, step) && (step.Begin? ==> NoDuplicates(step.storages))
    ensures Tidy(Next(s, step))
  {
    match step
    case Begin(cid, storages) => assert [] + storages == storages;
    case Claim(cid) => ClaimKeepsTidy(s.creating[cid], s.creating[cid].todo[0] in s.storages);
    case Mounted(cid, listed) => MountedKeepsTidy(s.creating[cid], listed);
    case Abort(_) =>
    case Commit(cid, _) => assert s.creating[cid].owned + [] == s.creating[cid].owned;
    case Remove(_, _) =>
  }

  lemma ClaimKeepsTidy(c: Creation, known: bool)
    requires c.mounting.None? && c.todo != [] && NoDuplicates(ListInProgress(c) + c.todo)
    ensures var d := Creation(c.todo[1..], c.owned, if known then None else Some(c.todo[0]));
            NoDuplicates(ListInProgress(d) + d.todo)
  {
    assert c.owned + c.todo == c.owned + [c.todo[0]] + c.todo[1..];
    if known {
      WithoutOne(c.owned, c.todo[0], c.todo[1..]);
    }
  }

  lemma MountedKeepsTidy(c: Creation, listed: bool)
    requires c.mounting.Some? && NoDuplicates(ListInProgress(c) + c.todo)
    ensures NoDuplicates((if listed then c.owned + [c.mounting.value] else c.owned) + c.todo)
  {
    WithoutOne(c.owned, c.mounting.value, c.todo);
  }

  lemma WithoutOne(xs: seq<Path>, y: Path, zs: seq<Path>)
    requires NoDuplicates(xs + [y] + zs)
    ensures NoDuplicates(xs + zs)
  {
    var all, less := xs + [y] + zs, xs + zs;
    forall i, j | 0 <= i < j < |less| ensures less[i] != less[j] {
      assert less[i] == all[if i < |xs| then i else i + 1];
      assert less[j] == all[if j < |xs| then j else j + 1];
    }
  }

  lemma {:induction false} RunKeepsTidy(steps: seq<Step>)
    requires IsRun(steps) && DistinctRequests(steps)
    ensures Tidy(After(steps))
  {
    if steps == [] {
    } else {
      var before := steps[..|steps| - 1];
      assert DistinctRequests(before) by {
        assert forall i :: 0 <= i < |before| ==> before[i] == steps[i];
      }
      RunKeepsTidy(before);
      StepKeepsTidy(After(before), steps[|steps| - 1]);
    }
  }

  /** No list has duplicates in a run in which no container asks for a mount point twice, or in which every
      removal had a use to spare. */
  lemma ListsAreDistinct(steps: seq<Step>, cid: Cid)
    requires IsRun(steps) && (DistinctRequests(steps) || Guarded(steps))
    ensures NoDuplicates(ListOf(After(steps), cid))
  {
    if DistinctRequests(steps) {
      RunKeepsTidy(steps);
    } else {
      RunKeepsInv(steps);
    }
  }

  /** Then a removal unmounts exactly the listed mount points whose count is one. */
  lemma UnmountsCountOne(steps: seq<Step>, cid: Cid, p: Path)
    requires IsRun(steps) && (DistinctRequests(steps) || Guarded(steps))
    ensures p in Teardown(After(steps), cid, NO_FAULTS).unmounted <==>
            p in ListOf(After(steps), cid) && Count(After(steps).storages, p) == 1
  {
    var s := After(steps);
    RunKeepsPositive(steps);
    ListsAreDistinct(steps, cid);
    StillCountedExactly(s.storages, ListOf(s, cid));
    DrainedOnce(s.storages, Releases(s, cid), p);
    UnmountsExactly(steps, cid, p);
  }

  /** And it does harm exactly when one of those is used by another container. */
  lemma HarmsCountOne(steps: seq<Step>, cid: Cid)
    requires IsRun(steps) && (DistinctRequests(steps) || Guarded(steps))
    ensures Harms(After(steps), cid, NO_FAULTS) <==>
            exists p, c :: c != cid && p in ListOf(After(steps), cid) && Count(After(steps).storages, p) == 1 &&
                           Uses(After(steps), c, p)
  {
    var s := After(steps);
    forall p
      ensures p in Teardown(s, cid, NO_FAULTS).unmounted <==> p in ListOf(s, cid) && Count(s.storages, p) == 1
    {
      UnmountsCountOne(steps, cid, p);
    }
  }
}
