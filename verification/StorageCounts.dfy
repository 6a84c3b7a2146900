/**
 Sandbox storages are shared between containers and counted. This module holds the counting
 operations of the sandbox object and the release of a container's mounts.
 */
module StorageCounts {
  import opened Wrappers
  import opened Sequences

  type Path = string
  type Cid = string

  datatype Error = NotFound

  /** What goes wrong in a removal: the mount points that cannot be unmounted, and those whose
      directory cannot be deleted afterwards. */
  datatype Faults = Faults(unmount: set<Path>, delete: set<Path>)

  const NO_FAULTS := Faults({}, {})

  /** The outcome of releasing a list of mount points: the remaining counts, the mount points that
      were unmounted, and whether every release succeeded. */
  datatype Released = Released(storages: map<Path, nat>, unmounted: seq<Path>, ok: bool)

  function Count(storages: map<Path, nat>, p: Path): nat {
    if p in storages then storages[p] else 0
  }

  function Claimed(storages: map<Path, nat>, p: Path): map<Path, nat> {
    storages[p := Count(storages, p) + 1]
  }

  /** Releasing the listed mount points one by one, stopping at the first failure. */
  function Release(storages: map<Path, nat>, ms: seq<Path>, faults: Faults): Released {
    if ms == [] then Released(storages, [], true)
    else
      var r := Release(storages, ms[..|ms| - 1], faults);
      if r.ok then ReleaseOne(r, ms[|ms| - 1], faults) else r
  }

  /** The last use of a mount point drops its count first, whatever fails afterwards. */
  function ReleaseOne(r: Released, m: Path, faults: Faults): Released {
    if m !in r.storages then r.(ok := false)
    else if r.storages[m] > 1 then r.(storages := r.storages[m := r.storages[m] - 1])
    else if m in faults.unmount then r.(storages := r.storages - {m}, ok := false)
    else r.(storages := r.storages - {m}, unmounted := r.unmounted + [m], ok := m !in faults.delete)
  }

  /** The listed mount points that are still counted. */
  function StillCounted(storages: map<Path, nat>, ms: seq<Path>): seq<Path> {
    if ms == [] then []
    else
      StillCounted(storages, ms[..|ms| - 1]) + (if ms[|ms| - 1] in storages then [ms[|ms| - 1]] else [])
  }

  lemma {:induction false} StillCountedExactly(storages: map<Path, nat>, ms: seq<Path>)
    ensures forall m :: m in StillCounted(storages, ms) <==> m in ms && m in storages
    ensures NoDuplicates(ms) ==> NoDuplicates(StillCounted(storages, ms))
  {
    if ms == [] {
    } else {
      var rest, last := ms[..|ms| - 1], ms[|ms| - 1];
      StillCountedExactly(storages, rest);
      assert ms == rest + [last];
      if NoDuplicates(ms) {
        assert last !in rest;
      }
    }
  }

  /** A mount point that is not listed is left alone, whatever else the list holds. */
  lemma {:induction false} ReleaseForeign(storages: map<Path, nat>, ms: seq<Path>, faults: Faults, p: Path)
    requires p !in ms
    ensures var r := Release(storages, ms, faults);
            Count(r.storages, p) == Count(storages, p) && (p in r.storages <==> p in storages) && p !in r.unmounted
  {
    if ms == [] {
    } else {
      assert ms == ms[..|ms| - 1] + [ms[|ms| - 1]];
      ReleaseForeign(storages, ms[..|ms| - 1], faults, p);
    }
  }

  /** At most one use is taken, exactly one without a failure, and the last one by unmounting. */
  ghost predicate TakesOne(r: Released, storages: map<Path, nat>, p: Path)
    requires p in storages
  {
    && Count(r.storages, p) <= storages[p] <= Count(r.storages, p) + 1
    && (p in r.unmounted ==> storages[p] <= 1)
    && (r.ok && storages[p] > 0 ==> Count(r.storages, p) == storages[p] - 1)
    && (r.ok && storages[p] <= 1 ==> p in r.unmounted)
  }

  /** Releasing distinct counted mount points takes at most one from the count of each, exactly one if
      nothing fails, and unmounts only what nobody else counts on. */
  lemma {:induction false} ReleaseTakesOne(storages: map<Path, nat>, ms: seq<Path>, faults: Faults, p: Path)
    requires NoDuplicates(ms) && p in ms && p in storages
    ensures TakesOne(Release(storages, ms, faults), storages, p)
  {
    var rest, last := ms[..|ms| - 1], ms[|ms| - 1];
    assert ms == rest + [last];
    if p == last {
      assert p !in rest;
      ReleaseForeign(storages, rest, faults, p);
    } else {
      ReleaseTakesOne(storages, rest, faults, p);
    }
  }

  /** Without faults the release of distinct counted mount points succeeds. */
  lemma {:induction false} ReleaseSucceeds(storages: map<Path, nat>, ms: seq<Path>)
    requires NoDuplicates(ms) && forall m :: m in ms ==> m in storages
    ensures Release(storages, ms, NO_FAULTS).ok
  {
    if ms == [] {
    } else {
      var rest, last := ms[..|ms| - 1], ms[|ms| - 1];
      assert ms == rest + [last];
      ReleaseSucceeds(storages, rest);
      assert last !in rest;
      ReleaseForeign(storages, rest, NO_FAULTS, last);
    }
  }

  /** No mount point is listed more often than it is counted. */
  ghost predicate Covered(storages: map<Path, nat>, ms: seq<Path>) {
    forall q :: multiset(ms)[q] <= Count(storages, q)
  }

  /** Some part of the list, as far as it can be released, names `p` as often as it is counted. */
  ghost predicate Drained(storages: map<Path, nat>, ms: seq<Path>, p: Path) {
    exists k :: 0 <= k <= |ms| && DrainedBy(storages, ms[..k], p)
  }

  ghost predicate DrainedBy(storages: map<Path, nat>, ms: seq<Path>, p: Path) {
    Covered(storages, ms) && multiset(ms)[p] == Count(storages, p) >= 1
  }

  ghost predicate Positive(storages: map<Path, nat>) {
    forall p :: p in storages ==> storages[p] >= 1
  }

  lemma CoveredMore(storages: map<Path, nat>, rest: seq<Path>, last: Path)
    ensures Covered(storages, rest + [last]) <==>
            Covered(storages, rest) && multiset(rest)[last] < Count(storages, last)
  {
    var all := multiset(rest + [last]);
    assert forall q :: all[q] == multiset(rest)[q] + (if q == last then 1 else 0);
    if Covered(storages, rest + [last]) {
      assert all[last] <= Count(storages, last);
      forall q ensures multiset(rest)[q] <= Count(storages, q) {
        assert all[q] <= Count(storages, q);
      }
    }
  }

  lemma DrainedMore(storages: map<Path, nat>, rest: seq<Path>, last: Path, p: Path)
    ensures Drained(storages, rest + [last], p) <==> Drained(storages, rest, p) || DrainedBy(storages, rest + [last], p)
  {
    var ms := rest + [last];
    assert forall k :: 0 <= k <= |rest| ==> ms[..k] == rest[..k];
    assert ms[..|ms|] == ms;
  }

  /** What a release without faults leaves of `p`, whatever the list. */
  ghost predicate Emptied(r: Released, storages: map<Path, nat>, ms: seq<Path>, p: Path) {
    && (r.ok <==> Covered(storages, ms))
    && (r.ok ==> Count(r.storages, p) == Count(storages, p) - multiset(ms)[p])
    && (r.ok ==> (p in r.storages <==> Count(r.storages, p) > 0))
    && (p in r.unmounted <==> Drained(storages, ms, p))
  }

  /** A release without faults succeeds exactly when no mount point is listed more often than it is
      counted, and unmounts exactly what is drained, up to where it cannot go on. */
  lemma {:induction false} ReleaseExactly(storages: map<Path, nat>, ms: seq<Path>, p: Path)
    requires Positive(storages)
    ensures Emptied(Release(storages, ms, NO_FAULTS), storages, ms, p)
  {
    if ms == [] {
      assert multiset(ms)[p] == 0;
    } else {
      var rest, last := ms[..|ms| - 1], ms[|ms| - 1];
      assert ms == rest + [last];
      ReleaseExactly(storages, rest, p);
      ReleaseExactly(storages, rest, last);
      CoveredMore(storages, rest, last);
      DrainedMore(storages, rest, last, p);
      ReleaseOneMore(storages, rest, last, p);
    }
  }

  lemma ReleaseOneMore(storages: map<Path, nat>, rest: seq<Path>, last: Path, p: Path)
    requires Emptied(Release(storages, rest, NO_FAULTS), storages, rest, p)
    requires Emptied(Release(storages, rest, NO_FAULTS), storages, rest, last)
    requires Covered(storages, rest + [last]) <==> Covered(storages, rest) && multiset(rest)[last] < Count(storages, last)
    requires Drained(storages, rest + [last], p) <==> Drained(storages, rest, p) || DrainedBy(storages, rest + [last], p)
    ensures var r := Release(storages, rest, NO_FAULTS);
            Emptied(if r.ok then ReleaseOne(r, last, NO_FAULTS) else r, storages, rest + [last], p)
  {
    assert multiset(rest + [last])[p] == multiset(rest)[p] + (if p == last then 1 else 0);
    if p != last && DrainedBy(storages, rest + [last], p) {
      assert rest[..|rest|] == rest;
      assert DrainedBy(storages, rest, p);
    }
  }

  /** Faults only cut a release short: a release that succeeds is the one without faults, and one that
      fails has unmounted nothing else. */
  lemma {:induction false} FaultsCutShort(storages: map<Path, nat>, ms: seq<Path>, faults: Faults)
    ensures var r, full := Release(storages, ms, faults), Release(storages, ms, NO_FAULTS);
            (r.ok ==> r == full) && forall p :: p in r.unmounted ==> p in full.unmounted
  {
    if ms == [] {
    } else {
      FaultsCutShort(storages, ms[..|ms| - 1], faults);
    }
  }

  /** The uses that are left of the mount point at position `k` when the release gets there. */
  function UsesLeft(storages: map<Path, nat>, ms: seq<Path>, k: nat): int
    requires k < |ms|
  {
    Count(storages, ms[k]) - multiset(ms[..k])[ms[k]]
  }

  /** There the release finds no use, or a last one that cannot be unmounted or deleted. */
  predicate FailsAt(storages: map<Path, nat>, ms: seq<Path>, faults: Faults, k: nat)
    requires k < |ms|
  {
    UsesLeft(storages, ms, k) <= 0 ||
    (UsesLeft(storages, ms, k) == 1 && (ms[k] in faults.unmount || ms[k] in faults.delete))
  }

  /** There it unmounts the last use, if it gets there. */
  predicate UnmountsAt(storages: map<Path, nat>, ms: seq<Path>, faults: Faults, k: nat)
    requires k < |ms|
  {
    UsesLeft(storages, ms, k) == 1 && ms[k] !in faults.unmount &&
    forall j :: 0 <= j < k ==> !FailsAt(storages, ms, faults, j)
  }

  ghost predicate FailsNowhere(storages: map<Path, nat>, ms: seq<Path>, faults: Faults) {
    forall k :: 0 <= k < |ms| ==> !FailsAt(storages, ms, faults, k)
  }

  ghost predicate UnmountsSomewhere(storages: map<Path, nat>, ms: seq<Path>, faults: Faults, p: Path) {
    exists k :: 0 <= k < |ms| && ms[k] == p && UnmountsAt(storages, ms, faults, k)
  }

  lemma SamePlaces(storages: map<Path, nat>, rest: seq<Path>, last: Path, faults: Faults, k: nat)
    requires k < |rest|
    ensures FailsAt(storages, rest + [last], faults, k) <==> FailsAt(storages, rest, faults, k)
    ensures UsesLeft(storages, rest + [last], k) == UsesLeft(storages, rest, k)
  {
    assert (rest + [last])[..k] == rest[..k];
  }

  lemma FailsNowhereMore(storages: map<Path, nat>, rest: seq<Path>, last: Path, faults: Faults)
    ensures FailsNowhere(storages, rest + [last], faults) <==>
            FailsNowhere(storages, rest, faults) && !FailsAt(storages, rest + [last], faults, |rest|)
  {
    var ms := rest + [last];
    forall k | 0 <= k < |rest| ensures FailsAt(storages, ms, faults, k) <==> FailsAt(storages, rest, faults, k) {
      SamePlaces(storages, rest, last, faults, k);
    }
  }

  lemma UnmountsMore(storages: map<Path, nat>, rest: seq<Path>, last: Path, faults: Faults, p: Path)
    ensures UnmountsSomewhere(storages, rest + [last], faults, p) <==>
            UnmountsSomewhere(storages, rest, faults, p) ||
            (p == last && UnmountsAt(storages, rest + [last], faults, |rest|))
  {
    var ms := rest + [last];
    forall k | 0 <= k < |rest| ensures UnmountsAt(storages, ms, faults, k) <==> UnmountsAt(storages, rest, faults, k) {
      SamePlaces(storages, rest, last, faults, k);
      forall j | 0 <= j < k ensures FailsAt(storages, ms, faults, j) <==> FailsAt(storages, rest, faults, j) {
        SamePlaces(storages, rest, last, faults, j);
      }
    }
    if UnmountsSomewhere(storages, rest, faults, p) {
      var k :| 0 <= k < |rest| && rest[k] == p && UnmountsAt(storages, rest, faults, k);
      assert ms[k] == p && UnmountsAt(storages, ms, faults, k);
    }
    assert ms[|rest|] == last;
  }

  /** One more release, from where the ones before it have succeeded. */
  lemma OneMoreRelease(storages: map<Path, nat>, rest: seq<Path>, last: Path, faults: Faults)
    requires Positive(storages) && Release(storages, rest, faults).ok
    ensures var r := ReleaseOne(Release(storages, rest, faults), last, faults);
            && (r.ok <==> !FailsAt(storages, rest + [last], faults, |rest|))
            && r.unmounted == Release(storages, rest, faults).unmounted +
                              (if UsesLeft(storages, rest + [last], |rest|) == 1 && last !in faults.unmount then [last] else [])
  {
    FaultsCutShort(storages, rest, faults);
    ReleaseExactly(storages, rest, last);
    assert (rest + [last])[..|rest|] == rest;
  }

  /** A release fails exactly when it reaches a mount point that is not counted any more, or a last use that
      cannot be unmounted or deleted; and it unmounts exactly the last uses that it reaches and that can be. */
  lemma {:induction false} ReleaseFailsExactly(storages: map<Path, nat>, ms: seq<Path>, faults: Faults, p: Path)
    requires Positive(storages)
    ensures var r := Release(storages, ms, faults);
            && (r.ok <==> FailsNowhere(storages, ms, faults))
            && (p in r.unmounted <==> UnmountsSomewhere(storages, ms, faults, p))
  {
    if ms == [] {
    } else {
      var rest, last := ms[..|ms| - 1], ms[|ms| - 1];
      assert ms == rest + [last];
      ReleaseFailsExactly(storages, rest, faults, p);
      FailsNowhereMore(storages, rest, last, faults);
      UnmountsMore(storages, rest, last, faults, p);
      if Release(storages, rest, faults).ok {
        OneMoreRelease(storages, rest, last, faults);
        forall j | 0 <= j < |rest| ensures !FailsAt(storages, ms, faults, j) {
          SamePlaces(storages, rest, last, faults, j);
        }
      } else {
        var j :| 0 <= j < |rest| && FailsAt(storages, rest, faults, j);
        SamePlaces(storages, rest, last, faults, j);
      }
    }
  }

  /** The still counted part of a list names a counted mount point as often as the list. */
  lemma {:induction false} StillCountedTimes(storages: map<Path, nat>, ms: seq<Path>, p: Path)
    ensures multiset(StillCounted(storages, ms))[p] == if p in storages then multiset(ms)[p] else 0
  {
    if ms == [] {
    } else {
      assert ms == ms[..|ms| - 1] + [ms[|ms| - 1]];
      StillCountedTimes(storages, ms[..|ms| - 1], p);
    }
  }

  lemma {:induction false} NoDuplicatesTimes(ms: seq<Path>, p: Path)
    requires NoDuplicates(ms)
    ensures multiset(ms)[p] == if p in ms then 1 else 0
  {
    if ms == [] {
    } else {
      var rest, last := ms[..|ms| - 1], ms[|ms| - 1];
      assert ms == rest + [last];
      assert last !in rest;
      NoDuplicatesTimes(rest, p);
    }
  }

  /** From a list without duplicates exactly the mount points that are counted once are drained. */
  lemma DrainedOnce(storages: map<Path, nat>, ms: seq<Path>, p: Path)
    requires NoDuplicates(ms) && Positive(storages) && forall m :: m in ms ==> m in storages
    ensures Drained(storages, ms, p) <==> p in ms && Count(storages, p) == 1
  {
    forall k, q | 0 <= k <= |ms| ensures multiset(ms[..k])[q] == if q in ms[..k] then 1 else 0 {
      NoDuplicatesTimes(ms[..k], q);
    }
    if p in ms && Count(storages, p) == 1 {
      assert ms[..|ms|] == ms;
      assert DrainedBy(storages, ms[..|ms|], p);
    }
  }

  /** The sandbox object; its methods are called with the sandbox lock held. */
  class Sandbox {
    var storages: map<Path, nat>
    var containerMounts: map<Cid, seq<Path>>
    var containers: set<Cid>

    constructor ()
      ensures storages == map[] && containerMounts == map[] && containers == {}
    {
      storages, containerMounts, containers := map[], map[], {};
    }

    /** Counts one more user of a storage and says whether it is new. */
    method SetSandboxStorage(path: Path) returns (isNew: bool)
      modifies this`storages
      ensures isNew == (path !in old(storages))
      ensures storages == Claimed(old(storages), path)
      ensures storages == old(storages)[path := if isNew then 1 else old(storages)[path] + 1]
    {
      isNew := path !in storages;
      if isNew {
        storages := storages[path := 1];
      } else {
        storages := storages[path := storages[path] + 1];
      }
    }

    /** Counts one user less; the last one takes the entry away. */
    method UnsetSandboxStorage(path: Path) returns (r: Result<bool, Error>)
      modifies this`storages
      ensures r.Err? <==> path !in old(storages)
      ensures r.Err? ==> storages == old(storages)
      ensures r.Ok? ==> (r.value <==> old(storages)[path] <= 1)
      ensures r.Ok? ==> storages == if r.value then old(storages) - {path}
                                    else old(storages)[path := old(storages)[path] - 1]
    {
      if path !in storages {
        return Err(NotFound);
      }
      var left := storages[path] as int - 1;
      if left < 1 {
        storages := storages - {path};
        return Ok(true);
      }
      storages := storages[path := left];
      r := Ok(false);
    }

    /** Releases one storage; the last use is unmounted and its directory deleted. */
    method UnsetAndRemoveSandboxStorage(path: Path, faults: Faults) returns (ok: bool, unmounted: bool)
      modifies this`storages
      ensures var before := Released(old(storages), [], true);
              Released(storages, if unmounted then [path] else [], ok) == ReleaseOne(before, path, faults)
      ensures var last := path in old(storages) && old(storages)[path] <= 1;
              && (ok <==> path in old(storages) && !(last && (path in faults.unmount || path in faults.delete)))
              && (unmounted <==> last && path !in faults.unmount)
              && storages == if last then old(storages) - {path}
                             else if path in old(storages) then old(storages)[path := old(storages)[path] - 1]
                             else old(storages)
    {
      var last := UnsetSandboxStorage(path);
      if last.Err? {
        return false, false;
      }
      if !last.value {
        return true, false;
      }
      if path in faults.unmount {
        return false, false;
      }
      return path !in faults.delete, true;
    }

    /** The mount points on a container's list that are still counted. */
    method MountsToRelease(cid: Cid) returns (cmounts: seq<Path>)
      ensures cmounts == StillCounted(storages, if cid in containerMounts then containerMounts[cid] else [])
    {
      var ms := if cid in containerMounts then containerMounts[cid] else [];
      cmounts := [];
      for i := 0 to |ms|
        invariant cmounts == StillCounted(storages, ms[..i])
      {
        assert ms[..i + 1][..i] == ms[..i];
        if ms[i] in storages {
          cmounts := cmounts + [ms[i]];
        }
      }
      assert ms[..|ms|] == ms;
    }

    /** Releases the given mount points in order, up to the first failure. */
    method ReleaseMounts(cmounts: seq<Path>, faults: Faults) returns (ok: bool, unmounted: seq<Path>)
      modifies this`storages
      ensures Released(storages, unmounted, ok) == Release(old(storages), cmounts, faults)
    {
      unmounted := [];
      for i := 0 to |cmounts|
        invariant Released(storages, unmounted, true) == Release(old(storages), cmounts[..i], faults)
      {
        assert cmounts[..i + 1][..i] == cmounts[..i];
        var one, gone := UnsetAndRemoveSandboxStorage(cmounts[i], faults);
        if gone {
          unmounted := unmounted + [cmounts[i]];
        }
        if !one {
          ReleaseStops(old(storages), cmounts, i + 1, faults);
          return false, unmounted;
        }
      }
      assert cmounts[..|cmounts|] == cmounts;
      ok := true;
    }

    /** Releases what a container owns and forgets the container, unless a release fails. */
    method RemoveContainerResources(cid: Cid, faults: Faults) returns (ok: bool, unmounted: seq<Path>)
      modifies this
      ensures var ms := if cid in old(containerMounts) then old(containerMounts)[cid] else [];
              Released(storages, unmounted, ok) == Release(old(storages), StillCounted(old(storages), ms), faults)
      ensures ok ==> containerMounts == old(containerMounts) - {cid} && containers == old(containers) - {cid}
      ensures !ok ==> containerMounts == old(containerMounts) && containers == old(containers)
    {
      var cmounts := MountsToRelease(cid);
      ok, unmounted := ReleaseMounts(cmounts, faults);
      if ok {
        containerMounts := containerMounts - {cid};
        containers := containers - {cid};
      }
    }
  }

  /** After a failure the rest of the list is left alone. */
  lemma {:induction false} ReleaseStops(storages: map<Path, nat>, ms: seq<Path>, k: nat, faults: Faults)
    requires k <= |ms| && !Release(storages, ms[..k], faults).ok
    ensures Release(storages, ms, faults) == Release(storages, ms[..k], faults)
  {
    if k == |ms| {
      assert ms[..k] == ms;
    } else {
      assert ms[..|ms| - 1][..k] == ms[..k];
      ReleaseStops(storages, ms[..|ms| - 1], k, faults);
    }
  }
}
