/**
 Runs that lead to the states in which sharing a mount point goes wrong.
 */
module StorageExamples {
  import opened Wrappers
  import opened Sequences
  import opened StorageCounts
  import opened StorageSafety

  lemma Extend(steps: seq<Step>, step: Step)
    requires IsRun(steps) && Enabled(After(steps), step)
    ensures IsRun(steps + [step]) && After(steps + [step]) == Next(After(steps), step)
    ensures NoRepeats(steps + [step]) <==> NoRepeats(steps) && (step.Remove? ==> step.cid !in After(steps).broken)
  {
    assert (steps + [step])[..|steps + [step]| - 1] == steps;
  }

  lemma Reach(steps: seq<Step>, step: Step, s: State, t: State) returns (more: seq<Step>)
    requires IsRun(steps) && NoRepeats(steps) && After(steps) == s
    requires Enabled(s, step) && Next(s, step) == t && (step.Remove? ==> step.cid !in s.broken)
    ensures IsRun(more) && NoRepeats(more) && After(more) == t
  {
    Extend(steps, step);
    more := steps + [step];
  }

  /** Container `x` has claimed and mounted `a` and has yet to claim `b`. */
  lemma HalfContainer(x: Cid, a: Path, b: Path) returns (steps: seq<Step>)
    requires a != b
    ensures IsRun(steps) && NoRepeats(steps)
    ensures After(steps) ==
            State(map[a := 1], map[], {}, map[x := Creation([b], [a], None)], map[x := {a, b}], map[x := {a}], {})
  {
    var w := map[x := {a, b}];
    var s1 := State(map[], map[], {}, map[x := Creation([a, b], [], None)], w, map[], {});
    assert (set p | p in [a, b]) == {a, b};
    steps := Reach([], Begin(x, [a, b]), INIT, s1);
    var s2 := State(map[a := 1], map[], {}, map[x := Creation([b], [], Some(a))], w, map[x := {a}], {});
    steps := Reach(steps, Claim(x), s1, s2);
    var s3 := State(map[a := 1], map[], {}, map[x := Creation([b], [a], None)], w, map[x := {a}], {});
    assert [] + [a] == [a];
    steps := Reach(steps, Mounted(x, true), s2, s3);
  }

  /** Container `x` has claimed `b` as well and is about to mount it. */
  lemma SecondClaim(x: Cid, a: Path, b: Path) returns (steps: seq<Step>)
    requires a != b
    ensures IsRun(steps) && NoRepeats(steps)
    ensures After(steps) == State(map[a := 1, b := 1], map[], {}, map[x := Creation([], [a], Some(b))],
                                  map[x := {a, b}], map[x := {a, b}], {})
  {
    steps := HalfContainer(x, a, b);
    assert [b][1..] == [] && {a} + {b} == {a, b} && MoreClaims(map[x := {a}], x, b) == map[x := {a, b}];
    steps := Reach(steps, Claim(x), After(steps), Next(After(steps), Claim(x)));
  }

  /** Container `x` created with mount points `a` and `b`. */
  lemma OneContainer(x: Cid, a: Path, b: Path) returns (steps: seq<Step>)
    requires a != b
    ensures IsRun(steps) && NoRepeats(steps)
    ensures After(steps) == State(map[a := 1, b := 1], map[x := [a, b]], {x}, map[], map[x := {a, b}], map[x := {a, b}], {})
  {
    steps := SecondClaim(x, a, b);
    assert [a] + [b] == [a, b];
    steps := Reach(steps, Mounted(x, true), After(steps), Next(After(steps), Mounted(x, true)));
    steps := Reach(steps, Commit(x, true), After(steps), Next(After(steps), Commit(x, true)));
  }

  /** The state in which `y`, being created, has claimed `a` or not. */
  function Sharing(x: Cid, y: Cid, a: Path, b: Path, claimed: bool): State {
    if claimed then
      State(map[a := 2, b := 1], map[x := [a, b]], {x}, map[y := Creation([], [], None)],
            map[x := {a, b}, y := {a}], map[x := {a, b}, y := {a}], {})
    else
      State(map[a := 1, b := 1], map[x := [a, b]], {x}, map[y := Creation([a], [], None)],
            map[x := {a, b}, y := {a}], map[x := {a, b}], {})
  }

  lemma ShareClaim(x: Cid, y: Cid, a: Path, b: Path)
    requires x != y && a != b
    ensures Enabled(Sharing(x, y, a, b, false), Claim(y))
    ensures Next(Sharing(x, y, a, b, false), Claim(y)) == Sharing(x, y, a, b, true)
  {
    assert [a][1..] == [];
    assert Claimed(map[a := 1, b := 1], a) == map[a := 2, b := 1];
    assert MoreClaims(map[x := {a, b}], y, a) == map[x := {a, b}, y := {a}];
  }

  /** Then container `y`, sharing `a`. */
  lemma TwoContainers(x: Cid, y: Cid, a: Path, b: Path) returns (steps: seq<Step>)
    requires x != y && a != b
    ensures IsRun(steps) && NoRepeats(steps)
    ensures After(steps) == Sharing(x, y, a, b, true).(mounts := map[x := [a, b], y := []], containers := {x, y}, creating := map[])
  {
    steps := OneContainer(x, a, b);
    assert (set p | p in [a]) == {a};
    steps := Reach(steps, Begin(y, [a]), After(steps), Sharing(x, y, a, b, false));
    ShareClaim(x, y, a, b);
    steps := Reach(steps, Claim(y), Sharing(x, y, a, b, false), Sharing(x, y, a, b, true));
    var t := Sharing(x, y, a, b, true).(mounts := map[x := [a, b], y := []], containers := {x, y}, creating := map[]);
    steps := Reach(steps, Commit(y, true), Sharing(x, y, a, b, true), t);
  }

  lemma ReleasePair(storages: map<Path, nat>, a: Path, b: Path, faults: Faults)
    ensures Release(storages, [a], faults) == ReleaseOne(Released(storages, [], true), a, faults)
    ensures var r := Release(storages, [a], faults);
            Release(storages, [a, b], faults) == if r.ok then ReleaseOne(r, b, faults) else r
    ensures StillCounted(storages, [a]) == if a in storages then [a] else []
    ensures StillCounted(storages, [a, b]) == StillCounted(storages, [a]) + if b in storages then [b] else []
  {
    assert [a, b][..1] == [a] && [a][..0] == [];
    assert Release(storages, [], faults) == Released(storages, [], true);
  }

  /** Containers `x` and `y` run and share `a`, which `x` mounted. */
  function BothRun(x: Cid, y: Cid, a: Path, b: Path): State {
    Sharing(x, y, a, b, true).(mounts := map[x := [a, b], y := []], containers := {x, y}, creating := map[])
  }

  /** The removal of `x` has failed at `b`. */
  function HalfRemoved(x: Cid, y: Cid, a: Path, b: Path): State {
    BothRun(x, y, a, b).(storages := map[a := 1], claims := map[y := {a}], broken := {x})
  }

  lemma FailsAtSecond(x: Cid, y: Cid, a: Path, b: Path)
    requires x != y && a != b
    ensures Teardown(BothRun(x, y, a, b), x, Faults({b}, {})) == Released(map[a := 1], [], false)
  {
    var storages := map[a := 2, b := 1];
    ReleasePair(storages, a, b, Faults({b}, {}));
    assert StillCounted(storages, [a, b]) == [a, b];
  }

  lemma RemovalFails(x: Cid, y: Cid, a: Path, b: Path)
    requires x != y && a != b
    ensures Next(BothRun(x, y, a, b), Remove(x, Faults({b}, {}))) == HalfRemoved(x, y, a, b)
  {
    FailsAtSecond(x, y, a, b);
    assert map[x := {a, b}, y := {a}] - {x} == map[y := {a}];
  }

  lemma RepeatUnmounts(x: Cid, y: Cid, a: Path, b: Path)
    requires x != y && a != b
    ensures a in Teardown(HalfRemoved(x, y, a, b), x, NO_FAULTS).unmounted
  {
    ReleasePair(map[a := 1], a, b, NO_FAULTS);
    assert StillCounted(map[a := 1], [a, b]) == [a];
  }

  lemma RepeatIsUnsound(x: Cid, y: Cid, a: Path, b: Path)
    requires x != y && a != b
    ensures Harms(HalfRemoved(x, y, a, b), x, NO_FAULTS) && !Sound(HalfRemoved(x, y, a, b), x)
  {
    var s := HalfRemoved(x, y, a, b);
    RepeatUnmounts(x, y, a, b);
    assert Uses(s, y, a);
    assert Holders(s.claims - {x}, a) == {y};
    assert a in ListOf(s, x) && a in s.storages && Count(s.storages, a) == 1;
  }

  /** The guarantee does not extend to every repeated removal: when unmounting `b` fails, removing
      container `x` again unmounts `a` under the running container `y`. */
  lemma RetryUnmountsInUse(x: Cid, y: Cid, a: Path, b: Path) returns (steps: seq<Step>)
    requires x != y && a != b
    ensures IsRun(steps) && Guarded(steps) && x in After(steps).broken
    ensures !Sound(After(steps), x) && Harms(After(steps), x, NO_FAULTS)
  {
    steps := TwoContainers(x, y, a, b);
    RemovalFails(x, y, a, b);
    steps := Reach(steps, Remove(x, Faults({b}, {})), BothRun(x, y, a, b), HalfRemoved(x, y, a, b));
    NoRepeatsIsGuarded(steps);
    RepeatIsUnsound(x, y, a, b);
  }
}
