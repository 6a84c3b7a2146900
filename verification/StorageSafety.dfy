/**
 Container creations and removals interleaved at the points where the sandbox lock is released:
 a mount point is never unmounted under a container that still uses it.
 */
module StorageSafety {
  import opened Wrappers
  import opened Sequences
  import opened StorageCounts

  /** A creation in progress: the mount points still to claim, the ones it has mounted for its own
      list, and the new one whose handler is running. */
  datatype Creation = Creation(todo: seq<Path>, owned: seq<Path>, mounting: Option<Path>)

  /** The sandbox with the creations in progress. Three fields record history: what each container
      id has asked for, what it has claimed and not given up, and whose removal failed half-way. */
  datatype State = State(
    storages: map<Path, nat>,
    mounts: map<Cid, seq<Path>>,
    containers: set<Cid>,
    creating: map<Cid, Creation>,
    wanted: map<Cid, set<Path>>,
    claims: map<Cid, set<Path>>,
    broken: set<Cid>)

  /** The steps that run without giving up the lock. */
  datatype Step =
    | Begin(cid: Cid, storages: seq<Path>)
    | Claim(cid: Cid)
    | Mounted(cid: Cid, listed: bool)
    | Abort(cid: Cid)
    | Commit(cid: Cid, started: bool)
    | Remove(cid: Cid, faults: Faults)

  const INIT := State(map[], map[], {}, map[], map[], map[], {})

  /** A container id is not created again while it is in use. */
  predicate Enabled(s: State, step: Step) {
    match step
    case Begin(cid, _) => cid !in s.creating && cid !in s.mounts
    case Claim(cid) => cid in s.creating && s.creating[cid].mounting.None? && s.creating[cid].todo != []
    case Mounted(cid, _) => cid in s.creating && s.creating[cid].mounting.Some?
    case Abort(cid) => cid in s.creating
    case Commit(cid, _) => cid in s.creating && s.creating[cid].mounting.None? && s.creating[cid].todo == []
    case Remove(_, _) => true
  }

  function ClaimsOf(s: State, cid: Cid): set<Path> {
    if cid in s.claims then s.claims[cid] else {}
  }

  function ListOf(s: State, cid: Cid): seq<Path> {
    if cid in s.mounts then s.mounts[cid] else []
  }

  /** The release a removal performs. */
  function Teardown(s: State, cid: Cid, faults: Faults): Released {
    Release(s.storages, StillCounted(s.storages, ListOf(s, cid)), faults)
  }

  function Next(s: State, step: Step): State
    requires Enabled(s, step)
  {
    match step
    case Begin(cid, storages) =>
      s.(creating := s.creating[cid := Creation(storages, [], None)],
         wanted := s.wanted[cid := set p | p in storages])
    case Claim(cid) =>
      var c := s.creating[cid];
      var p := c.todo[0];
      s.(storages := Claimed(s.storages, p),
         creating := s.creating[cid := Creation(c.todo[1..], c.owned, if p in s.storages then None else Some(p))],
         claims := MoreClaims(s.claims, cid, p))
    case Mounted(cid, listed) =>
      var c := s.creating[cid];
      var owned := if listed then c.owned + [c.mounting.value] else c.owned;
      s.(creating := s.creating[cid := Creation(c.todo, owned, None)])
    case Abort(cid) =>
      s.(creating := s.creating - {cid}, claims := s.claims - {cid})
    case Commit(cid, started) =>
      s.(creating := s.creating - {cid},
         mounts := s.mounts[cid := s.creating[cid].owned],
         containers := if started then s.containers + {cid} else s.containers)
    case Remove(cid, faults) =>
      var r := Teardown(s, cid, faults);
      var claims := if cid in s.mounts then s.claims - {cid} else s.claims;
      if r.ok then
        s.(storages := r.storages, mounts := s.mounts - {cid}, containers := s.containers - {cid},
           claims := claims, broken := s.broken - {cid})
      else
        s.(storages := r.storages, claims := claims, broken := s.broken + {cid})
  }

  // ---------------------------------------------------------------- counts

  /** The containers that have claimed `p` and whose claim has not been given up. */
  function Holders(claims: map<Cid, set<Path>>, p: Path): set<Cid> {
    set c | c in claims && p in claims[c]
  }

  /** Every holder is counted. */
  ghost predicate Counted(storages: map<Path, nat>, claims: map<Cid, set<Path>>) {
    && (forall p :: |Holders(claims, p)| <= Count(storages, p))
    && (forall p :: p in storages ==> storages[p] >= 1)
  }

  function MoreClaims(claims: map<Cid, set<Path>>, cid: Cid, p: Path): map<Cid, set<Path>> {
    claims[cid := if cid in claims then claims[cid] + {p} else {p}]
  }

  lemma MoreHolders(claims: map<Cid, set<Path>>, cid: Cid, p: Path, q: Path)
    ensures Holders(MoreClaims(claims, cid, p), q) == if q == p then Holders(claims, q) + {cid} else Holders(claims, q)
  {}

  lemma ClaimIsCounted(storages: map<Path, nat>, claims: map<Cid, set<Path>>, cid: Cid, p: Path)
    requires Counted(storages, claims)
    ensures Counted(Claimed(storages, p), MoreClaims(claims, cid, p))
  {
    forall q ensures |Holders(MoreClaims(claims, cid, p), q)| <= Count(Claimed(storages, p), q) {
      MoreHolders(claims, cid, p, q);
      assert |Holders(claims, q)| <= Count(storages, q);
    }
  }

  /** Every listed, still counted mount point has a use to spare beside those of the other holders. */
  ghost predicate Spare(storages: map<Path, nat>, claims: map<Cid, set<Path>>, cid: Cid, list: seq<Path>) {
    forall p :: p in list && p in storages ==> Count(storages, p) > |Holders(claims - {cid}, p)|
  }

  lemma FewerHolders(claims: map<Cid, set<Path>>, cid: Cid, p: Path)
    ensures Holders(claims - {cid}, p) == Holders(claims, p) - {cid}
    ensures |Holders(claims - {cid}, p)| == |Holders(claims, p)| - (if cid in Holders(claims, p) then 1 else 0)
  {
    assert Holders(claims - {cid}, p) == Holders(claims, p) - {cid};
  }

  /** A release keeps every other holder counted if there is a use to spare of all that is released. */
  lemma ReleaseIsCounted(storages: map<Path, nat>, claims: map<Cid, set<Path>>, cid: Cid, list: seq<Path>, faults: Faults)
    requires Counted(storages, claims) && NoDuplicates(list) && Spare(storages, claims, cid, list)
    ensures Counted(Release(storages, StillCounted(storages, list), faults).storages, claims - {cid})
  {
    var ms := StillCounted(storages, list);
    var after := Release(storages, ms, faults).storages;
    StillCountedExactly(storages, list);
    forall p ensures |Holders(claims - {cid}, p)| <= Count(after, p) {
      FewerHolders(claims, cid, p);
      if p in ms {
        ReleaseTakesOne(storages, ms, faults, p);
      } else {
        ReleaseForeign(storages, ms, faults, p);
      }
    }
    forall p | p in after ensures after[p] >= 1 {
      ReleaseStaysPositive(storages, ms, faults, p);
    }
  }

  /** Without faults it is kept only then. */
  lemma CountedNeedsSpare(storages: map<Path, nat>, claims: map<Cid, set<Path>>, cid: Cid, list: seq<Path>, p: Path)
    requires NoDuplicates(list) && p in list && p in storages && storages[p] >= 1
    requires Counted(Release(storages, StillCounted(storages, list), NO_FAULTS).storages, claims - {cid})
    ensures Count(storages, p) > |Holders(claims - {cid}, p)|
  {
    var ms := StillCounted(storages, list);
    StillCountedExactly(storages, list);
    ReleaseSucceeds(storages, ms);
    ReleaseTakesOne(storages, ms, NO_FAULTS, p);
  }

  lemma {:induction false} ReleaseStaysPositive(storages: map<Path, nat>, ms: seq<Path>, faults: Faults, p: Path)
    requires forall q :: q in storages ==> storages[q] >= 1
    requires p in Release(storages, ms, faults).storages
    ensures Release(storages, ms, faults).storages[p] >= 1
  {
    if ms == [] {
    } else {
      ReleaseStaysPositive(storages, ms[..|ms| - 1], faults, p);
    }
  }

  // ---------------------------------------------------------------- ownership

  function ListInProgress(c: Creation): seq<Path> {
    if c.mounting.Some? then c.owned + [c.mounting.value] else c.owned
  }

  /** For each container that is alive or being created, the mount points that its removal will release. */
  function Lists(s: State): map<Cid, seq<Path>> {
    ListsIn(s.mounts, s.creating, s.broken)
  }

  function ListsIn(mounts: map<Cid, seq<Path>>, creating: map<Cid, Creation>, broken: set<Cid>): map<Cid, seq<Path>> {
    map c | c in mounts.Keys + creating.Keys - broken ::
      if c in mounts then mounts[c] else ListInProgress(creating[c])
  }

  lemma ListsWithout(mounts: map<Cid, seq<Path>>, creating: map<Cid, Creation>, broken: set<Cid>, cid: Cid)
    requires cid !in creating
    ensures ListsIn(mounts - {cid}, creating, broken - {cid}) == ListsIn(mounts, creating, broken) - {cid}
    ensures ListsIn(mounts, creating, broken + {cid}) == ListsIn(mounts, creating, broken) - {cid}
  {}

  lemma ListsWith(mounts: map<Cid, seq<Path>>, creating: map<Cid, Creation>, broken: set<Cid>, cid: Cid, c: Creation)
    requires cid !in mounts && cid !in broken
    ensures ListsIn(mounts, creating[cid := c], broken) == ListsIn(mounts, creating, broken)[cid := ListInProgress(c)]
  {}

  ghost predicate Apart(a: seq<Path>, b: seq<Path>) {
    forall p :: p in a ==> p !in b
  }

  ghost predicate OwnsWell(claims: map<Cid, set<Path>>, c: Cid, list: seq<Path>) {
    NoDuplicates(list) && forall p :: p in list ==> c in claims && p in claims[c]
  }

  /** A mount point is on at most one list, once, and its owner holds it. */
  ghost predicate Owned(lists: map<Cid, seq<Path>>, claims: map<Cid, set<Path>>) {
    && (forall c :: c in lists ==> OwnsWell(claims, c, lists[c]))
    && (forall c, d :: c in lists && d in lists && c != d ==> Apart(lists[c], lists[d]))
  }

  lemma UnclaimedIsUnowned(storages: map<Path, nat>, lists: map<Cid, seq<Path>>, claims: map<Cid, set<Path>>, c: Cid, p: Path)
    requires Counted(storages, claims) && Owned(lists, claims) && p !in storages && c in lists
    ensures p !in lists[c]
  {
    assert |Holders(claims, p)| <= 0;
    assert c !in Holders(claims, p);
    assert OwnsWell(claims, c, lists[c]);
  }

  /** A container's list may grow by a claimed mount point that is on no list yet. */
  lemma OwnMore(lists: map<Cid, seq<Path>>, claims: map<Cid, set<Path>>, cid: Cid, p: Path)
    requires Owned(lists, claims) && cid in lists && cid in claims && p in claims[cid]
    requires forall c :: c in lists ==> p !in lists[c]
    ensures Owned(lists[cid := lists[cid] + [p]], claims)
  {
    var lists' := lists[cid := lists[cid] + [p]];
    assert OwnsWell(claims, cid, lists[cid]);
    assert OwnsWell(claims, cid, lists'[cid]);
    forall c, d | c in lists' && d in lists' && c != d ensures Apart(lists'[c], lists'[d]) {
      assert Apart(lists[c], lists[d]);
    }
  }

  /** A container's list may shrink to a prefix or start empty. */
  lemma OwnLess(lists: map<Cid, seq<Path>>, claims: map<Cid, set<Path>>, cid: Cid, list: seq<Path>)
    requires Owned(lists, claims) && list <= (if cid in lists then lists[cid] else [])
    ensures Owned(lists[cid := list], claims)
  {
    var lists' := lists[cid := list];
    if cid in lists {
      assert OwnsWell(claims, cid, lists[cid]);
      assert forall p :: p in list ==> p in lists[cid];
    }
    assert OwnsWell(claims, cid, list);
    forall c, d | c in lists' && d in lists' && c != d ensures Apart(lists'[c], lists'[d]) {
      if c in lists && d in lists {
        assert Apart(lists[c], lists[d]);
      }
    }
  }

  lemma ClaimMore(lists: map<Cid, seq<Path>>, claims: map<Cid, set<Path>>, cid: Cid, p: Path)
    requires Owned(lists, claims)
    ensures Owned(lists, MoreClaims(claims, cid, p))
  {
    forall c | c in lists ensures OwnsWell(MoreClaims(claims, cid, p), c, lists[c]) {
      assert OwnsWell(claims, c, lists[c]);
    }
  }

  lemma OwnNothing(lists: map<Cid, seq<Path>>, claims: map<Cid, set<Path>>, cid: Cid)
    requires Owned(lists, claims)
    ensures Owned(lists - {cid}, claims) && Owned(lists - {cid}, claims - {cid})
  {
    forall c | c in lists - {cid} ensures OwnsWell(claims - {cid}, c, lists[c]) && OwnsWell(claims, c, lists[c]) {
      assert OwnsWell(claims, c, lists[c]);
    }
  }

  // ---------------------------------------------------------------- the invariant

  ghost predicate Keyed(s: State) {
    s.mounts.Keys !! s.creating.Keys && s.containers <= s.mounts.Keys && s.broken <= s.mounts.Keys &&
    s.broken !! s.claims.Keys
  }

  /** A container holds all it asked for once it runs, and before that all but what it has yet to claim. */
  ghost predicate Held(s: State) {
    && (forall c :: c in s.containers - s.broken ==> c in s.wanted && s.wanted[c] <= ClaimsOf(s, c))
    && (forall c :: c in s.creating ==>
          c in s.wanted && s.wanted[c] <= ClaimsOf(s, c) + Elements(s.creating[c].todo))
  }

  /** No list names a mount point twice, not even that of a container whose removal failed. */
  ghost predicate ListedOnce(mounts: map<Cid, seq<Path>>) {
    forall c :: c in mounts ==> NoDuplicates(mounts[c])
  }

  ghost predicate Inv(s: State) {
    Counted(s.storages, s.claims) && Owned(Lists(s), s.claims) && Keyed(s) && Held(s) && ListedOnce(s.mounts)
  }

  /** The removal has a use to spare of everything it would release. */
  ghost predicate Sound(s: State, cid: Cid) {
    Spare(s.storages, s.claims, cid, ListOf(s, cid))
  }

  ghost predicate Guard(s: State, step: Step) {
    step.Remove? ==> Sound(s, step.cid)
  }

  /** What claiming does to the list of its container; other lists stay. */
  lemma ClaimLists(s: State, cid: Cid)
    requires Keyed(s) && Enabled(s, Claim(cid))
    ensures cid in Lists(s)
    ensures var p := s.creating[cid].todo[0];
            Lists(Next(s, Claim(cid))) == if p in s.storages then Lists(s) else Lists(s)[cid := Lists(s)[cid] + [p]]
  {
    ListsWith(s.mounts, s.creating, s.broken, cid, Next(s, Claim(cid)).creating[cid]);
  }

  lemma MountedLists(s: State, cid: Cid, listed: bool)
    requires Keyed(s) && Enabled(s, Mounted(cid, listed))
    ensures cid in Lists(s) && Lists(s)[cid] == s.creating[cid].owned + [s.creating[cid].mounting.value]
    ensures Lists(Next(s, Mounted(cid, listed))) ==
            if listed then Lists(s) else Lists(s)[cid := s.creating[cid].owned]
  {
    ListsWith(s.mounts, s.creating, s.broken, cid, Next(s, Mounted(cid, listed)).creating[cid]);
  }

  lemma BeginLists(s: State, cid: Cid, storages: seq<Path>)
    requires Keyed(s) && Enabled(s, Begin(cid, storages))
    ensures Lists(Next(s, Begin(cid, storages))) == Lists(s)[cid := []]
  {
    ListsWith(s.mounts, s.creating, s.broken, cid, Creation(storages, [], None));
  }

  lemma AbortLists(s: State, cid: Cid)
    requires Keyed(s) && Enabled(s, Abort(cid))
    ensures Lists(Next(s, Abort(cid))) == Lists(s) - {cid}
  {}

  lemma CommitLists(s: State, cid: Cid, started: bool)
    requires Keyed(s) && Enabled(s, Commit(cid, started))
    ensures Lists(Next(s, Commit(cid, started))) == Lists(s)
  {}

  lemma RemoveLists(s: State, cid: Cid, faults: Faults)
    requires Keyed(s) && cid in s.mounts
    ensures Lists(Next(s, Remove(cid, faults))) == Lists(s) - {cid}
  {
    ListsWithout(s.mounts, s.creating, s.broken, cid);
  }

  /** Removing an id without a mount list changes nothing. */
  lemma RemoveUnknown(s: State, cid: Cid, faults: Faults)
    requires Keyed(s) && cid !in s.mounts
    ensures Next(s, Remove(cid, faults)) == s
  {
    assert Teardown(s, cid, faults) == Released(s.storages, [], true);
  }

  lemma StepKeyed(s: State, step: Step)
    requires Keyed(s) && Enabled(s, step)
    ensures Keyed(Next(s, step))
  {
    if step.Remove? && step.cid !in s.mounts {
      RemoveUnknown(s, step.cid, step.faults);
    }
  }

  lemma RemoveHeld(s: State, cid: Cid, faults: Faults)
    requires Keyed(s) && Held(s)
    ensures Held(Next(s, Remove(cid, faults)))
  {}

  lemma ClaimHeld(s: State, cid: Cid)
    requires Keyed(s) && Held(s) && Enabled(s, Claim(cid))
    ensures Held(Next(s, Claim(cid)))
  {
    var todo := s.creating[cid].todo;
    assert todo == [todo[0]] + todo[1..];
    assert Elements(todo) == {todo[0]} + Elements(todo[1..]);
  }

  lemma CommitHeld(s: State, cid: Cid, started: bool)
    requires Keyed(s) && Held(s) && Enabled(s, Commit(cid, started))
    ensures Held(Next(s, Commit(cid, started)))
  {
    assert Elements(s.creating[cid].todo) == {};
  }

  lemma StepHeld(s: State, step: Step)
    requires Keyed(s) && Held(s) && Enabled(s, step)
    ensures Held(Next(s, step))
  {
    match step
    case Begin(_, storages) => assert Elements(storages) == set p | p in storages;
    case Claim(cid) => ClaimHeld(s, cid);
    case Mounted(_, _) =>
    case Abort(_) =>
    case Commit(cid, started) => CommitHeld(s, cid, started);
    case Remove(cid, faults) => RemoveHeld(s, cid, faults);
  }

  /** The new list of the container still consists of mount points that it alone owns. */
  lemma StepOwned(s: State, step: Step)
    requires Keyed(s) && Enabled(s, step) && !step.Remove?
    requires Counted(s.storages, s.claims) && Owned(Lists(s), s.claims)
    ensures Owned(Lists(Next(s, step)), Next(s, step).claims)
  {
    match step
    case Begin(cid, storages) =>
      BeginLists(s, cid, storages);
      OwnLess(Lists(s), s.claims, cid, []);
    case Claim(cid) =>
      ClaimLists(s, cid);
      ClaimOwned(s.storages, Lists(s), s.claims, cid, s.creating[cid].todo[0]);
    case Mounted(cid, listed) =>
      MountedLists(s, cid, listed);
      OwnLess(Lists(s), s.claims, cid, s.creating[cid].owned);
    case Abort(cid) =>
      AbortLists(s, cid);
      OwnNothing(Lists(s), s.claims, cid);
    case Commit(cid, started) => CommitLists(s, cid, started);
  }

  lemma CommitListedOnce(s: State, cid: Cid, started: bool)
    requires Keyed(s) && Enabled(s, Commit(cid, started)) && Owned(Lists(s), s.claims) && ListedOnce(s.mounts)
    ensures ListedOnce(Next(s, Commit(cid, started)).mounts)
  {
    assert Lists(s)[cid] == s.creating[cid].owned;
    assert OwnsWell(s.claims, cid, Lists(s)[cid]);
  }

  lemma ClaimOwned(storages: map<Path, nat>, lists: map<Cid, seq<Path>>, claims: map<Cid, set<Path>>, cid: Cid, p: Path)
    requires Counted(storages, claims) && Owned(lists, claims) && cid in lists
    ensures Owned(lists, MoreClaims(claims, cid, p))
    ensures p !in storages ==> Owned(lists[cid := lists[cid] + [p]], MoreClaims(claims, cid, p))
  {
    ClaimMore(lists, claims, cid, p);
    if p !in storages {
      forall c | c in lists ensures p !in lists[c] {
        UnclaimedIsUnowned(storages, lists, claims, c, p);
      }
      OwnMore(lists, MoreClaims(claims, cid, p), cid, p);
    }
  }

  /** What a container that is alive has on its list, it holds. */
  lemma OwnedAreHeld(s: State, cid: Cid, p: Path)
    requires Owned(Lists(s), s.claims) && cid in s.mounts && cid !in s.broken && p in s.mounts[cid]
    ensures cid in Holders(s.claims, p)
  {
    assert Lists(s)[cid] == s.mounts[cid];
    assert OwnsWell(s.claims, cid, s.mounts[cid]);
  }

  /** The first removal of a container always has a use to spare: its own. */
  lemma FirstIsSound(s: State, cid: Cid)
    requires Inv(s) && cid !in s.broken
    ensures Sound(s, cid)
  {
    forall p | p in ListOf(s, cid) && p in s.storages ensures Count(s.storages, p) > |Holders(s.claims - {cid}, p)| {
      OwnedAreHeld(s, cid, p);
      FewerHolders(s.claims, cid, p);
      assert |Holders(s.claims, p)| <= Count(s.storages, p);
    }
  }

  lemma RemoveCounted(s: State, cid: Cid, faults: Faults)
    requires Inv(s) && Sound(s, cid) && cid in s.mounts
    ensures Counted(Next(s, Remove(cid, faults)).storages, Next(s, Remove(cid, faults)).claims)
  {
    ReleaseIsCounted(s.storages, s.claims, cid, s.mounts[cid], faults);
  }

  lemma RemoveKeepsInv(s: State, cid: Cid, faults: Faults)
    requires Inv(s) && Sound(s, cid)
    ensures Inv(Next(s, Remove(cid, faults)))
  {
    if cid in s.mounts {
      StepKeyed(s, Remove(cid, faults));
      StepHeld(s, Remove(cid, faults));
      RemoveCounted(s, cid, faults);
      RemoveLists(s, cid, faults);
      OwnNothing(Lists(s), s.claims, cid);
    } else {
      RemoveUnknown(s, cid, faults);
    }
  }

  /** Every step keeps the invariant, repeated removals included if they have a use to spare. */
  lemma StepKeepsInv(s: State, step: Step)
    requires Inv(s) && Enabled(s, step) && Guard(s, step)
    ensures Inv(Next(s, step))
  {
    if step.Remove? {
      RemoveKeepsInv(s, step.cid, step.faults);
    } else {
      StepKeyed(s, step);
      StepHeld(s, step);
      StepOwned(s, step);
      match step {
        case Claim(cid) => ClaimIsCounted(s.storages, s.claims, cid, s.creating[cid].todo[0]);
        case Abort(cid) => AbortIsCounted(s.storages, s.claims, cid);
        case Commit(cid, started) => CommitListedOnce(s, cid, started);
        case _ =>
      }
    }
  }

  lemma AbortIsCounted(storages: map<Path, nat>, claims: map<Cid, set<Path>>, cid: Cid)
    requires Counted(storages, claims)
    ensures Counted(storages, claims - {cid})
  {
    forall p ensures |Holders(claims - {cid}, p)| <= Count(storages, p) {
      FewerHolders(claims, cid, p);
      assert |Holders(claims, p)| <= Count(storages, p);
    }
  }

  // ---------------------------------------------------------------- runs

  /** The steps can be taken in this order from `INIT`; a failed removal may be repeated. */
  predicate IsRun(steps: seq<Step>) {
    steps == [] ||
    (IsRun(steps[..|steps| - 1]) && Enabled(After(steps[..|steps| - 1]), steps[|steps| - 1]))
  }

  /** The state a run leads to. */
  function After(steps: seq<Step>): State {
    if steps == [] then INIT
    else
      var s := After(steps[..|steps| - 1]);
      if Enabled(s, steps[|steps| - 1]) then Next(s, steps[|steps| - 1]) else s
  }

  /** Every removal of the run has a use to spare of what it releases. */
  ghost predicate Guarded(steps: seq<Step>) {
    steps == [] ||
    (Guarded(steps[..|steps| - 1]) && Guard(After(steps[..|steps| - 1]), steps[|steps| - 1]))
  }

  lemma {:induction false} RunKeepsInv(steps: seq<Step>)
    requires IsRun(steps) && Guarded(steps)
    ensures Inv(After(steps))
  {
    if steps == [] {
      assert forall p :: Holders(INIT.claims, p) == {};
    } else {
      RunKeepsInv(steps[..|steps| - 1]);
      StepKeepsInv(After(steps[..|steps| - 1]), steps[|steps| - 1]);
    }
  }

  /** No container is removed again after a removal of it failed. */
  predicate NoRepeats(steps: seq<Step>) {
    steps == [] ||
    (NoRepeats(steps[..|steps| - 1]) &&
     (steps[|steps| - 1].Remove? ==> steps[|steps| - 1].cid !in After(steps[..|steps| - 1]).broken))
  }

  /** A run without repeated removals is guarded. */
  lemma {:induction false} NoRepeatsIsGuarded(steps: seq<Step>)
    requires IsRun(steps) && NoRepeats(steps)
    ensures Guarded(steps)
  {
    if steps == [] {
    } else {
      NoRepeatsIsGuarded(steps[..|steps| - 1]);
      RunKeepsInv(steps[..|steps| - 1]);
      if steps[|steps| - 1].Remove? {
        FirstIsSound(After(steps[..|steps| - 1]), steps[|steps| - 1].cid);
      }
    }
  }

  // ---------------------------------------------------------------- what a removal unmounts

  /** `c` uses `p`: it runs and asked for it, or it is being created and has claimed it. */
  ghost predicate Uses(s: State, c: Cid, p: Path) {
    || (c in s.containers - s.broken && c in s.wanted && p in s.wanted[c])
    || (c in s.creating && p in ClaimsOf(s, c))
  }

  lemma UserHolds(s: State, c: Cid, p: Path)
    requires Held(s) && Uses(s, c, p)
    ensures c in Holders(s.claims, p)
  {}

  /** What a removal unmounts is on the container's list and counted once; if nothing fails, all of
      that is unmounted. */
  lemma UnmountsCountedOnce(s: State, cid: Cid, faults: Faults, p: Path)
    requires Inv(s)
    ensures p in Teardown(s, cid, faults).unmounted ==> p in ListOf(s, cid) && Count(s.storages, p) == 1
    ensures Teardown(s, cid, faults).ok && p in ListOf(s, cid) && Count(s.storages, p) == 1 ==>
              p in Teardown(s, cid, faults).unmounted
  {
    var ms := StillCounted(s.storages, ListOf(s, cid));
    StillCountedExactly(s.storages, ListOf(s, cid));
    if p in ms {
      ReleaseTakesOne(s.storages, ms, faults, p);
    } else {
      ReleaseForeign(s.storages, ms, faults, p);
    }
  }

  /** A removal that unmounts something under another container. */
  ghost predicate Harms(s: State, cid: Cid, faults: Faults) {
    exists p, c :: c != cid && p in Teardown(s, cid, faults).unmounted && Uses(s, c, p)
  }

  /** A removal with a use to spare unmounts only what nobody else holds. */
  lemma OnlyHolder(s: State, cid: Cid, faults: Faults, p: Path, c: Cid)
    requires Inv(s) && Sound(s, cid) && c != cid
    requires p in Teardown(s, cid, faults).unmounted
    ensures c !in Holders(s.claims, p)
  {
    UnmountsCountedOnce(s, cid, faults, p);
    assert |Holders(s.claims - {cid}, p)| < 1;
    assert c !in Holders(s.claims - {cid}, p);
  }

  /** Whatever the interleaving and whatever fails, a removal with a use to spare, first or repeated,
      unmounts only mount points that no other container uses. */
  lemma NeverUnmountedInUse(steps: seq<Step>, cid: Cid, faults: Faults)
    requires IsRun(steps) && Guarded(steps) && Sound(After(steps), cid)
    ensures !Harms(After(steps), cid, faults)
  {
    var s := After(steps);
    RunKeepsInv(steps);
    forall p, c | c != cid && p in Teardown(s, cid, faults).unmounted ensures !Uses(s, c, p) {
      OnlyHolder(s, cid, faults, p, c);
      if Uses(s, c, p) {
        UserHolds(s, c, p);
      }
    }
  }

  /** In a run that repeats no removal, the next removal of a container whose removal has not failed is
      harmless, whatever fails. */
  lemma FirstRemovalIsHarmless(steps: seq<Step>, cid: Cid, faults: Faults)
    requires IsRun(steps) && NoRepeats(steps) && cid !in After(steps).broken
    ensures !Harms(After(steps), cid, faults)
  {
    NoRepeatsIsGuarded(steps);
    RunKeepsInv(steps);
    FirstIsSound(After(steps), cid);
    NeverUnmountedInUse(steps, cid, faults);
  }

  /** The guard is exactly what a removal without faults needs to keep every holder counted. */
  lemma GuardExactly(s: State, cid: Cid)
    requires Inv(s)
    ensures Sound(s, cid) <==>
            Counted(Next(s, Remove(cid, NO_FAULTS)).storages, s.claims - {cid})
  {
    if Sound(s, cid) {
      ReleaseIsCounted(s.storages, s.claims, cid, ListOf(s, cid), NO_FAULTS);
    }
    if Counted(Next(s, Remove(cid, NO_FAULTS)).storages, s.claims - {cid}) {
      forall p | p in ListOf(s, cid) && p in s.storages ensures Count(s.storages, p) > |Holders(s.claims - {cid}, p)| {
        CountedNeedsSpare(s.storages, s.claims, cid, ListOf(s, cid), p);
      }
    }
  }

  /** After a first removal failed, repeating it is sound exactly when everything that it released and
      that is still counted had more uses than holders. So it is if the first release failed. */
  lemma RepeatIsSoundExactly(s: State, cid: Cid, faults: Faults)
    requires Inv(s) && cid in s.mounts && cid !in s.broken && !Teardown(s, cid, faults).ok
    ensures var t := Next(s, Remove(cid, faults));
            Sound(t, cid) <==>
            forall p :: p in s.mounts[cid] && p in t.storages && Count(t.storages, p) < Count(s.storages, p) ==>
              Count(s.storages, p) > |Holders(s.claims, p)|
  {
    var t := Next(s, Remove(cid, faults));
    forall p | p in s.mounts[cid] && p in t.storages
      ensures Count(t.storages, p) > |Holders(t.claims - {cid}, p)| <==>
              (Count(t.storages, p) < Count(s.storages, p) ==> Count(s.storages, p) > |Holders(s.claims, p)|)
    {
      RepeatAt(s, cid, faults, p);
    }
  }

  lemma RepeatAt(s: State, cid: Cid, faults: Faults, p: Path)
    requires Inv(s) && cid in s.mounts && cid !in s.broken && !Teardown(s, cid, faults).ok
    requires p in s.mounts[cid] && p in Next(s, Remove(cid, faults)).storages
    ensures var t := Next(s, Remove(cid, faults));
            Count(t.storages, p) > |Holders(t.claims - {cid}, p)| <==>
            (Count(t.storages, p) < Count(s.storages, p) ==> Count(s.storages, p) > |Holders(s.claims, p)|)
  {
    var ms := StillCounted(s.storages, s.mounts[cid]);
    StillCountedExactly(s.storages, s.mounts[cid]);
    OwnedAreHeld(s, cid, p);
    FewerHolders(s.claims, cid, p);
    assert s.claims - {cid} - {cid} == s.claims - {cid};
    assert |Holders(s.claims, p)| <= Count(s.storages, p);
    ReleaseTakesOne(s.storages, ms, faults, p);
  }
}
