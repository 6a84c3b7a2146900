/**
 Who uses a mount point, told by the steps alone.
 */
module StorageHistory {
  import opened Wrappers
  import opened Sequences
  import opened StorageCounts
  import opened StorageSafety

  // ---------------------------------------------------------------- what a container asked for

  /** Step `k` is the last that begins to create the container, with these mount points. */
  ghost predicate BegunAt(steps: seq<Step>, k: nat, c: Cid, storages: seq<Path>)
    requires k < |steps|
  {
    steps[k] == Begin(c, storages) && forall j :: k < j < |steps| ==> !(steps[j].Begin? && steps[j].cid == c)
  }

  ghost predicate Asked(steps: seq<Step>, c: Cid, storages: seq<Path>) {
    exists k :: 0 <= k < |steps| && BegunAt(steps, k, c, storages)
  }

  lemma AskedMore(rest: seq<Step>, last: Step, c: Cid, storages: seq<Path>)
    ensures Asked(rest + [last], c, storages) <==>
            if last.Begin? && last.cid == c then last.storages == storages else Asked(rest, c, storages)
  {
    var steps := rest + [last];
    assert steps[|rest|] == last && forall j :: 0 <= j < |rest| ==> steps[j] == rest[j];
    if last.Begin? && last.cid == c {
      assert BegunAt(steps, |rest|, c, last.storages);
    } else {
      if Asked(rest, c, storages) {
        var k :| 0 <= k < |rest| && BegunAt(rest, k, c, storages);
        assert BegunAt(steps, k, c, storages);
      }
      if Asked(steps, c, storages) {
        var k :| 0 <= k < |steps| && BegunAt(steps, k, c, storages);
        assert BegunAt(rest, k, c, storages);
      }
    }
  }

  /** What is recorded as wanted is what the container asked for last. */
  ghost predicate WantsAsAsked(steps: seq<Step>, s: State, c: Cid) {
    if c in s.wanted then exists storages :: Asked(steps, c, storages) && s.wanted[c] == Elements(storages)
    else forall storages :: !Asked(steps, c, storages)
  }

  lemma {:induction false} WantedExactly(steps: seq<Step>, c: Cid)
    requires IsRun(steps)
    ensures WantsAsAsked(steps, After(steps), c)
  {
    if steps == [] {
    } else {
      var rest, last := steps[..|steps| - 1], steps[|steps| - 1];
      WantedExactly(rest, c);
      assert steps == rest + [last];
      WantedStep(rest, last, steps, c);
    }
  }

  lemma WantedStep(rest: seq<Step>, last: Step, steps: seq<Step>, c: Cid)
    requires Enabled(After(rest), last) && WantsAsAsked(rest, After(rest), c) && steps == rest + [last]
    ensures WantsAsAsked(steps, Next(After(rest), last), c)
  {
    var s := After(rest);
    forall storages
      ensures Asked(steps, c, storages) <==>
              if last.Begin? && last.cid == c then last.storages == storages else Asked(rest, c, storages)
    {
      AskedMore(rest, last, c, storages);
    }
    if last.Begin? && last.cid == c {
      assert Asked(steps, c, last.storages);
      assert (set p | p in last.storages) == Elements(last.storages);
    } else if c in s.wanted {
      var storages :| Asked(rest, c, storages) && s.wanted[c] == Elements(storages);
      assert Asked(steps, c, storages);
    }
  }

  // ---------------------------------------------------------------- which containers run

  predicate Removes(step: Step, c: Cid) {
    step.Remove? && step.cid == c
  }

  /** The container was started and no removal of it was attempted since. */
  ghost predicate Started(steps: seq<Step>, c: Cid) {
    exists k :: 0 <= k < |steps| && StartedAt(steps, k, c)
  }

  ghost predicate StartedAt(steps: seq<Step>, k: nat, c: Cid)
    requires k < |steps|
  {
    steps[k] == Commit(c, true) && forall j :: k < j < |steps| ==> !Removes(steps[j], c)
  }

  lemma StartedMore(rest: seq<Step>, last: Step, c: Cid)
    ensures Started(rest + [last], c) <==> last == Commit(c, true) || (Started(rest, c) && !Removes(last, c))
  {
    var steps := rest + [last];
    assert steps[|rest|] == last && forall j :: 0 <= j < |rest| ==> steps[j] == rest[j];
    if last == Commit(c, true) {
      assert StartedAt(steps, |rest|, c);
    }
    if Started(rest, c) && !Removes(last, c) {
      var k :| 0 <= k < |rest| && StartedAt(rest, k, c);
      assert StartedAt(steps, k, c);
    }
    if Started(steps, c) && last != Commit(c, true) {
      var k :| 0 <= k < |steps| && StartedAt(steps, k, c);
      assert !Removes(steps[|rest|], c) && StartedAt(rest, k, c);
    }
  }

  /** What every run keeps of the ids, whatever is removed and repeated. */
  ghost predicate Kept(s: State) {
    s.mounts.Keys !! s.creating.Keys && s.containers <= s.mounts.Keys && s.broken <= s.mounts.Keys &&
    s.claims.Keys <= s.mounts.Keys + s.creating.Keys
  }

  lemma StepKeeps(s: State, step: Step)
    requires Kept(s) && Enabled(s, step)
    ensures Kept(Next(s, step))
  {
    if step.Remove? && step.cid !in s.mounts {
      assert Teardown(s, step.cid, step.faults) == Released(s.storages, [], true);
      assert s.mounts - {step.cid} == s.mounts;
    }
  }

  lemma StepStarts(s: State, step: Step, c: Cid)
    requires Kept(s) && Enabled(s, step)
    ensures c in Next(s, step).containers - Next(s, step).broken <==>
            step == Commit(c, true) || (c in s.containers - s.broken && !Removes(step, c))
  {
    if step.Remove? && step.cid !in s.mounts {
      assert Teardown(s, step.cid, step.faults) == Released(s.storages, [], true);
    }
  }

  lemma {:induction false} RunKeeps(steps: seq<Step>)
    requires IsRun(steps)
    ensures Kept(After(steps))
  {
    if steps == [] {
    } else {
      RunKeeps(steps[..|steps| - 1]);
      StepKeeps(After(steps[..|steps| - 1]), steps[|steps| - 1]);
    }
  }

  /** The running containers are those started with no removal attempted since. */
  lemma {:induction false} RunningExactly(steps: seq<Step>, c: Cid)
    requires IsRun(steps)
    ensures c in After(steps).containers - After(steps).broken <==> Started(steps, c)
  {
    if steps == [] {
    } else {
      var rest, last := steps[..|steps| - 1], steps[|steps| - 1];
      RunningExactly(rest, c);
      RunKeeps(rest);
      StartedMore(rest, last, c);
      StepStarts(After(rest), last, c);
      assert steps == rest + [last];
    }
  }

  // ---------------------------------------------------------------- what a creation has claimed

  predicate Ends(step: Step, c: Cid) {
    (step.Abort? || step.Commit? || step.Begin?) && step.cid == c
  }

  /** Step `k` begins a creation that is still in progress. */
  ghost predicate CreatingAt(steps: seq<Step>, k: nat, c: Cid, storages: seq<Path>)
    requires k < |steps|
  {
    steps[k] == Begin(c, storages) && forall j :: k < j < |steps| ==> !Ends(steps[j], c)
  }

  /** It has `left` still to claim, and has claimed the mount points before those, one by a step. */
  ghost predicate ProgressAt(steps: seq<Step>, k: nat, c: Cid, storages: seq<Path>, left: seq<Path>)
    requires k < |steps|
  {
    CreatingAt(steps, k, c, storages) && multiset(steps[k..])[Claim(c)] <= |storages| &&
    left == storages[multiset(steps[k..])[Claim(c)]..]
  }

  /** The mount points that the creation begun by step `k` has claimed. */
  ghost predicate HasClaimedAt(steps: seq<Step>, k: nat, c: Cid, p: Path)
    requires k < |steps|
  {
    steps[k].Begin? && CreatingAt(steps, k, c, steps[k].storages) &&
    var n := multiset(steps[k..])[Claim(c)];
    n <= |steps[k].storages| && p in steps[k].storages[..n]
  }

  ghost predicate HasClaimed(steps: seq<Step>, c: Cid, p: Path) {
    exists k :: 0 <= k < |steps| && HasClaimedAt(steps, k, c, p)
  }

  /** The creation in the state is the one of the steps, and has claimed as far. */
  ghost predicate CreatesAsBegun(steps: seq<Step>, s: State, c: Cid) {
    if c in s.creating then
      exists k :: 0 <= k < |steps| && CreatesAt(steps, k, s, c)
    else NoneBegun(steps, c)
  }

  ghost predicate CreatesAt(steps: seq<Step>, k: nat, s: State, c: Cid)
    requires k < |steps| && c in s.creating
  {
    && steps[k].Begin? && ProgressAt(steps, k, c, steps[k].storages, s.creating[c].todo)
    && ClaimsOf(s, c) == Elements(steps[k].storages[..multiset(steps[k..])[Claim(c)]])
  }

  lemma CreatingMore(rest: seq<Step>, last: Step, c: Cid, k: nat, storages: seq<Path>)
    requires k < |rest|
    ensures CreatingAt(rest + [last], k, c, storages) <==> CreatingAt(rest, k, c, storages) && !Ends(last, c)
  {
    var steps := rest + [last];
    assert steps[|rest|] == last && forall j :: 0 <= j < |rest| ==> steps[j] == rest[j];
    if CreatingAt(steps, k, c, storages) {
      assert !Ends(steps[|rest|], c);
      assert forall j :: k < j < |rest| ==> !Ends(steps[j], c);
    }
  }

  lemma ClaimsCounted(rest: seq<Step>, last: Step, k: nat, c: Cid)
    requires k < |rest|
    ensures multiset((rest + [last])[k..])[Claim(c)] ==
            multiset(rest[k..])[Claim(c)] + (if last == Claim(c) then 1 else 0)
  {
    assert (rest + [last])[k..] == rest[k..] + [last];
  }

  /** A creation that goes on, with one claim more or without. */
  lemma CreatesMore(rest: seq<Step>, s: State, last: Step, k: nat, c: Cid)
    requires Enabled(s, last) && c in s.creating && c !in s.mounts && !Ends(last, c)
    requires k < |rest| && CreatesAt(rest, k, s, c)
    ensures c in Next(s, last).creating && CreatesAt(rest + [last], k, Next(s, last), c)
  {
    var steps, storages := rest + [last], rest[k].storages;
    CreatingMore(rest, last, c, k, storages);
    ClaimsCounted(rest, last, k, c);
    assert steps[k] == rest[k];
    var n := multiset(rest[k..])[Claim(c)];
    if last == Claim(c) {
      assert storages[n..][0] == storages[n] && storages[n..][1..] == storages[n + 1..];
      assert storages[..n + 1] == storages[..n] + [storages[n]];
    }
  }

  lemma CreatesNew(rest: seq<Step>, s: State, c: Cid, storages: seq<Path>)
    requires c !in s.claims && Enabled(s, Begin(c, storages))
    ensures CreatesAt(rest + [Begin(c, storages)], |rest|, Next(s, Begin(c, storages)), c)
  {
    var steps := rest + [Begin(c, storages)];
    assert steps[|rest|] == Begin(c, storages) && steps[|rest|..] == [Begin(c, storages)];
    assert storages[0..] == storages && storages[..0] == [];
  }

  ghost predicate NoneBegun(steps: seq<Step>, c: Cid) {
    forall k :: 0 <= k < |steps| && steps[k].Begin? ==> !CreatingAt(steps, k, c, steps[k].storages)
  }

  lemma NoneBegunMore(rest: seq<Step>, last: Step, c: Cid)
    requires NoneBegun(rest, c) || Ends(last, c)
    requires !(last.Begin? && last.cid == c)
    ensures NoneBegun(rest + [last], c)
  {
    var steps := rest + [last];
    assert steps[|rest|] == last;
    forall k | 0 <= k < |steps| && steps[k].Begin? ensures !CreatingAt(steps, k, c, steps[k].storages) {
      if k < |rest| {
        assert steps[k] == rest[k];
        CreatingMore(rest, last, c, k, steps[k].storages);
      }
    }
  }

  /** A creation is in the state exactly as long as no step ends it. */
  lemma StepCreates(s: State, step: Step, c: Cid)
    requires Enabled(s, step)
    ensures c in Next(s, step).creating <==> (step.Begin? && step.cid == c) || (c in s.creating && !Ends(step, c))
  {
  }

  lemma CreationStep(rest: seq<Step>, last: Step, steps: seq<Step>, t: State, c: Cid)
    requires IsRun(rest) && Enabled(After(rest), last) && CreatesAsBegun(rest, After(rest), c)
    requires steps == rest + [last] && t == Next(After(rest), last)
    ensures CreatesAsBegun(steps, t, c)
  {
    var s := After(rest);
    RunKeeps(rest);
    StepCreates(s, last, c);
    if last.Begin? && last.cid == c {
      CreatesNew(rest, s, c, last.storages);
      assert CreatesAt(steps, |rest|, t, c);
    } else if c in s.creating && !Ends(last, c) {
      var k :| 0 <= k < |rest| && CreatesAt(rest, k, s, c);
      CreatesMore(rest, s, last, k, c);
      assert CreatesAt(steps, k, t, c);
    } else {
      NoneBegunMore(rest, last, c);
    }
  }

  lemma {:induction false} CreationsExactly(steps: seq<Step>, c: Cid)
    requires IsRun(steps)
    ensures CreatesAsBegun(steps, After(steps), c)
  {
    if steps == [] {
    } else {
      CreationsExactly(steps[..|steps| - 1], c);
      CreationStep(steps[..|steps| - 1], steps[|steps| - 1], steps, After(steps), c);
    }
  }

  /** A creation in progress is unique. */
  lemma OneCreation(steps: seq<Step>, j: nat, k: nat, c: Cid)
    requires j < |steps| && k < |steps| && steps[j].Begin? && steps[k].Begin?
    requires CreatingAt(steps, j, c, steps[j].storages) && CreatingAt(steps, k, c, steps[k].storages)
    ensures j == k
  {
  }

  lemma ClaimedExactly(steps: seq<Step>, c: Cid, p: Path)
    requires IsRun(steps)
    ensures c in After(steps).creating && p in ClaimsOf(After(steps), c) <==> HasClaimed(steps, c, p)
  {
    var s := After(steps);
    CreationsExactly(steps, c);
    if c in s.creating {
      var k :| 0 <= k < |steps| && CreatesAt(steps, k, s, c);
      if p in ClaimsOf(s, c) {
        assert HasClaimedAt(steps, k, c, p);
      }
      if HasClaimed(steps, c, p) {
        var j :| 0 <= j < |steps| && HasClaimedAt(steps, j, c, p);
        OneCreation(steps, j, k, c);
      }
    }
  }

  // ---------------------------------------------------------------- who uses what

  /** The container runs and asked for the mount point, or it is being created and has claimed it. */
  ghost predicate UsesBySteps(steps: seq<Step>, c: Cid, p: Path) {
    || (Started(steps, c) && exists storages :: Asked(steps, c, storages) && p in storages)
    || HasClaimed(steps, c, p)
  }

  lemma OneRequest(steps: seq<Step>, c: Cid, a: seq<Path>, b: seq<Path>)
    requires Asked(steps, c, a) && Asked(steps, c, b)
    ensures a == b
  {
    var j :| 0 <= j < |steps| && BegunAt(steps, j, c, a);
    var k :| 0 <= k < |steps| && BegunAt(steps, k, c, b);
    assert !(j < k) && !(k < j);
  }

  lemma AskedIsWanted(steps: seq<Step>, c: Cid, p: Path)
    requires IsRun(steps)
    ensures c in After(steps).wanted && p in After(steps).wanted[c] <==>
            exists storages :: Asked(steps, c, storages) && p in storages
  {
    var s := After(steps);
    WantedExactly(steps, c);
    if c in s.wanted {
      var storages :| Asked(steps, c, storages) && s.wanted[c] == Elements(storages);
      if other :| Asked(steps, c, other) && p in other {
        OneRequest(steps, c, storages, other);
      }
    }
  }

  /** What the safety results call using a mount point is exactly that. */
  lemma UsesExactly(steps: seq<Step>, c: Cid, p: Path)
    requires IsRun(steps)
    ensures Uses(After(steps), c, p) <==> UsesBySteps(steps, c, p)
  {
    RunningExactly(steps, c);
    AskedIsWanted(steps, c, p);
    ClaimedExactly(steps, c, p);
  }

  /** So a removal with a use to spare unmounts nothing that another container was started with, or has
      claimed in a creation that goes on. */
  lemma NeverUnmountedUnderUser(steps: seq<Step>, cid: Cid, faults: Faults, c: Cid, p: Path)
    requires IsRun(steps) && Guarded(steps) && Sound(After(steps), cid) && c != cid && UsesBySteps(steps, c, p)
    ensures p !in Teardown(After(steps), cid, faults).unmounted
  {
    UsesExactly(steps, c, p);
    NeverUnmountedInUse(steps, cid, faults);
  }
}
