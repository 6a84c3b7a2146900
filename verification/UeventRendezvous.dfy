/**
 The meeting of hotplug events and the requests waiting for them. Steps are the stretches of code
 that hold the sandbox lock, and the unlocked moments at which a request's timer or channel fires.
 */
module UeventRendezvous {
  import opened Wrappers

  datatype Uevent = Uevent(action: string, devpath: string, devname: string,
                           subsystem: string, seqnum: string, interface: string)

  type Matcher = Uevent -> bool
  type Wid = nat

  /** A watcher slot holds a matcher and the sender of the request that pushed it. */
  datatype Watcher = Watcher(matcher: Matcher, sender: Wid)

  /** Where a request stands: waiting on its channel, past its timer but not yet under the lock,
      answered, timed out when `until` events had been recorded, or aborted on an empty slot. */
  datatype Phase =
    | Pending
    | Expired
    | Answered(event: Uevent)
    | TimedOut(until: nat)
    | Panicked

  /** A request that pushed a watcher: the index it saved, its matcher, how many events had been
      recorded when it registered, and the events sent to it. */
  datatype Request = Request(index: nat, matcher: Matcher, since: nat, phase: Phase, sent: seq<Uevent>)

  /** `log` is history: every event recorded so far, in order. */
  datatype State = State(
    events: map<string, Uevent>,
    watchers: seq<Option<Watcher>>,
    requests: map<Wid, Request>,
    log: seq<Uevent>)

  datatype Step =
    | Process(event: Uevent)
    | Wait(w: Wid, matcher: Matcher)
    | Receive(w: Wid)
    | Expire(w: Wid)
    | Disarm(w: Wid)

  function Init(): State {
    State(map[], [], map[], [])
  }

  const SYSFS_DIR := "/sys"
  const SYSFS_MEMORY_ONLINE_PATH := "/sys/devices/system/memory"
  const ACTION_ADD := "add"
  const ACTION_REMOVE := "remove"

  /** Memory is brought online directly and never recorded. */
  predicate IsMemory(e: Uevent) {
    SYSFS_MEMORY_ONLINE_PATH <= SYSFS_DIR + "/" + e.devpath + "/online"
  }

  /** Some recorded event satisfies the matcher. */
  predicate Known(s: State, m: Matcher) {
    exists d :: d in s.events && m(s.events[d])
  }

  predicate Enabled(s: State, step: Step) {
    match step
    case Process(_) => true
    case Wait(w, m) => w !in s.requests && !Known(s, m)
    case Receive(w) => w in s.requests && s.requests[w].phase.Pending? && s.requests[w].sent != []
    case Expire(w) => w in s.requests && s.requests[w].phase.Pending? && s.requests[w].sent == []
    case Disarm(w) => w in s.requests && s.requests[w].phase.Expired? && s.requests[w].index < |s.watchers|
  }

  /** Offers the event to the watcher in slot `i`. */
  function Offer(s: State, e: Uevent, i: nat): State
    requires i < |s.watchers|
  {
    match s.watchers[i]
    case None => s
    case Some(watcher) =>
      if !watcher.matcher(e) then s
      else
        var w := watcher.sender;
        s.(watchers := s.watchers[i := None],
           requests := if w in s.requests then s.requests[w := s.requests[w].(sent := s.requests[w].sent + [e])]
                       else s.requests)
  }

  /** Offers the event to the first `n` slots in turn. */
  function OfferAll(s: State, e: Uevent, n: nat): (t: State)
    requires n <= |s.watchers|
    ensures |t.watchers| == |s.watchers|
  {
    if n == 0 then s else Offer(OfferAll(s, e, n - 1), e, n - 1)
  }

  function Recorded(s: State, e: Uevent): State {
    s.(events := s.events[e.devpath := e], log := s.log + [e])
  }

  function Next(s: State, step: Step): State
    requires Enabled(s, step)
  {
    match step
    case Process(e) =>
      if e.action == ACTION_ADD then
        if IsMemory(e) then s else OfferAll(Recorded(s, e), e, |s.watchers|)
      else if e.action == ACTION_REMOVE then s.(events := s.events - {e.devpath})
      else s
    case Wait(w, m) =>
      s.(watchers := s.watchers + [Some(Watcher(m, w))],
         requests := s.requests[w := Request(|s.watchers|, m, |s.log|, Pending, [])])
    case Receive(w) =>
      s.(requests := s.requests[w := s.requests[w].(phase := Answered(s.requests[w].sent[0]))])
    case Expire(w) =>
      s.(requests := s.requests[w := s.requests[w].(phase := Expired)])
    case Disarm(w) =>
      var r := s.requests[w];
      if s.watchers[r.index].None? then
        s.(requests := s.requests[w := r.(phase := Panicked)])
      else
        s.(watchers := s.watchers[r.index := None],
           requests := s.requests[w := r.(phase := TimedOut(|s.log|))])
  }

  // ---------------------------------------------------------------- the invariant

  /** The first event that satisfies the matcher, as a sequence of at most one. */
  function FirstMatch(m: Matcher, es: seq<Uevent>): seq<Uevent> {
    if es == [] then []
    else
      var before := FirstMatch(m, es[..|es| - 1]);
      if before != [] then before
      else if m(es[|es| - 1]) then [es[|es| - 1]]
      else []
  }

  /** The slot at the request's index still holds its own watcher. */
  predicate Armed(s: State, w: Wid) {
    w in s.requests && s.requests[w].index < |s.watchers| && s.watchers[s.requests[w].index].Some?
  }

  /** A request owns its slot. While armed, nothing recorded satisfies it and nothing was sent to it.
      Otherwise it was sent the first satisfying event since it registered, or it timed out having
      seen none. */
  ghost predicate RequestOk(s: State, w: Wid)
    requires w in s.requests
  {
    var r := s.requests[w];
    && r.index < |s.watchers| && r.since <= |s.log|
    && (Armed(s, w) ==>
          && s.watchers[r.index] == Some(Watcher(r.matcher, w))
          && (r.phase.Pending? || r.phase.Expired?)
          && !Known(s, r.matcher))
    && (if r.phase.TimedOut? then
          r.since <= r.phase.until <= |s.log| && r.sent == [] && FirstMatch(r.matcher, s.log[r.since..r.phase.until]) == []
        else r.sent == FirstMatch(r.matcher, s.log[r.since..]))
    && (!Armed(s, w) && !r.phase.TimedOut? ==> r.sent != [])
    && (Armed(s, w) || r.phase.TimedOut? ==> r.sent == [])
    && (r.phase.Answered? ==> r.sent == [r.phase.event])
  }

  /** Every armed slot belongs to the request that saved its index. */
  ghost predicate SlotOk(s: State, i: nat)
    requires i < |s.watchers|
  {
    s.watchers[i].Some? ==>
      s.watchers[i].value.sender in s.requests && s.requests[s.watchers[i].value.sender].index == i
  }

  ghost predicate Inv(s: State) {
    && (forall w :: w in s.requests ==> RequestOk(s, w))
    && (forall i :: 0 <= i < |s.watchers| ==> SlotOk(s, i))
    && (forall v, w :: v in s.requests && w in s.requests && v != w ==> s.requests[v].index != s.requests[w].index)
  }

  // ---------------------------------------------------------------- offering an event

  predicate Takes(s: State, e: Uevent, i: nat)
    requires i < |s.watchers|
  {
    s.watchers[i].Some? && s.watchers[i].value.matcher(e)
  }

  predicate SentTo(s: State, e: Uevent, n: nat, w: Wid)
    requires w in s.requests
  {
    var i := s.requests[w].index;
    i < n && i < |s.watchers| && Takes(s, e, i) && s.watchers[i].value.sender == w
  }

  /** Offering an event empties exactly the slots that match it. */
  lemma {:induction false} OfferAllSlots(s: State, e: Uevent, n: nat)
    requires n <= |s.watchers|
    ensures var t := OfferAll(s, e, n);
            && t.events == s.events && t.log == s.log && t.requests.Keys == s.requests.Keys
            && (forall i :: 0 <= i < |s.watchers| ==>
                  t.watchers[i] == if i < n && Takes(s, e, i) then None else s.watchers[i])
  {
    if n == 0 {
    } else {
      OfferAllSlots(s, e, n - 1);
    }
  }

  /** It is sent once to exactly the requests that own those slots. */
  lemma {:induction false} OfferAllRequest(s: State, e: Uevent, n: nat, w: Wid)
    requires n <= |s.watchers| && w in s.requests && forall i :: 0 <= i < |s.watchers| ==> SlotOk(s, i)
    ensures var t := OfferAll(s, e, n);
            && w in t.requests
            && t.requests[w] == if SentTo(s, e, n, w) then s.requests[w].(sent := s.requests[w].sent + [e])
                                else s.requests[w]
  {
    if n == 0 {
    } else {
      OfferAllRequest(s, e, n - 1, w);
      OfferAllSlots(s, e, n - 1);
      assert SlotOk(s, n - 1);
    }
  }

  lemma MatchOfLonger(m: Matcher, log: seq<Uevent>, since: nat, e: Uevent)
    requires since <= |log|
    ensures var before := FirstMatch(m, log[since..]);
            FirstMatch(m, (log + [e])[since..]) == if before != [] then before else if m(e) then [e] else []
  {
    assert (log + [e])[since..] == log[since..] + [e];
    var es := log[since..] + [e];
    assert es[..|es| - 1] == log[since..];
  }

  /** What one request sees of an event being added. */
  lemma AddKeepsRequest(s: State, e: Uevent, w: Wid, t: State)
    requires w in s.requests && RequestOk(s, w) && w in t.requests
    requires t.events == s.events[e.devpath := e] && t.log == s.log + [e] && |t.watchers| == |s.watchers|
    requires var r := s.requests[w];
             && t.watchers[r.index] == (if Takes(s, e, r.index) then None else s.watchers[r.index])
             && t.requests[w] == if Takes(s, e, r.index) && s.watchers[r.index].value.sender == w
                                 then r.(sent := r.sent + [e]) else r
    ensures RequestOk(t, w)
  {
    var r := s.requests[w];
    MatchOfLonger(r.matcher, s.log, r.since, e);
    if r.phase.TimedOut? {
      assert t.log[r.since..r.phase.until] == s.log[r.since..r.phase.until];
    }
    if Armed(t, w) {
      assert Armed(s, w) && !r.matcher(e);
      assert forall d :: d in t.events && d != e.devpath ==> d in s.events && t.events[d] == s.events[d];
    }
  }

  lemma AddKeepsInv(s: State, e: Uevent)
    requires Inv(s)
    ensures Inv(OfferAll(Recorded(s, e), e, |s.watchers|))
  {
    var q := Recorded(s, e);
    forall i | 0 <= i < |s.watchers| ensures SlotOk(q, i) {
      assert SlotOk(s, i);
    }
    OfferAllSlots(q, e, |s.watchers|);
    var t := OfferAll(q, e, |s.watchers|);
    forall w | w in t.requests ensures t.requests[w].index == s.requests[w].index && RequestOk(t, w) {
      OfferAllRequest(q, e, |s.watchers|, w);
      assert RequestOk(s, w);
      assert Takes(q, e, s.requests[w].index) == Takes(s, e, s.requests[w].index);
      AddKeepsRequest(s, e, w, t);
    }
    forall i | 0 <= i < |t.watchers| ensures SlotOk(t, i) {
      assert SlotOk(q, i);
    }
  }

  lemma WaitKeepsInv(s: State, w: Wid, m: Matcher)
    requires Inv(s) && Enabled(s, Wait(w, m))
    ensures Inv(Next(s, Wait(w, m)))
  {
    var t := Next(s, Wait(w, m));
    forall v | v in t.requests ensures RequestOk(t, v) {
      if v == w {
        assert t.log[|t.log|..] == [];
      } else {
        assert RequestOk(s, v);
      }
    }
    forall i | 0 <= i < |t.watchers| ensures SlotOk(t, i) {
      assert i < |s.watchers| ==> SlotOk(s, i);
    }
  }

  /** A request whose timer or channel fires only changes its phase. */
  lemma PhaseKeepsInv(s: State, w: Wid, phase: Phase)
    requires Inv(s) && w in s.requests && s.requests[w].phase != phase && !s.requests[w].phase.TimedOut?
    requires match phase
             case Expired => s.requests[w].phase.Pending?
             case Answered(e) => s.requests[w].sent == [e]
             case Panicked => s.requests[w].sent != []
             case _ => false
    ensures Inv(s.(requests := s.requests[w := s.requests[w].(phase := phase)]))
  {
    var t := s.(requests := s.requests[w := s.requests[w].(phase := phase)]);
    forall v | v in t.requests ensures RequestOk(t, v) {
      assert RequestOk(s, v);
    }
    forall i | 0 <= i < |t.watchers| ensures SlotOk(t, i) {
      assert SlotOk(s, i);
    }
  }

  lemma ReceiveKeepsInv(s: State, w: Wid)
    requires Inv(s) && Enabled(s, Receive(w))
    ensures Inv(Next(s, Receive(w)))
  {
    var r := s.requests[w];
    assert RequestOk(s, w);
    AtMostOneMatch(r.matcher, s.log[r.since..]);
    assert r.sent == [r.sent[0]];
    PhaseKeepsInv(s, w, Answered(r.sent[0]));
  }

  /** A timeout that finds its slot armed empties that slot and no other. */
  lemma DisarmKeepsInv(s: State, w: Wid)
    requires Inv(s) && Enabled(s, Disarm(w))
    ensures Inv(Next(s, Disarm(w)))
  {
    var r := s.requests[w];
    assert RequestOk(s, w);
    if !Armed(s, w) {
      PhaseKeepsInv(s, w, Panicked);
    } else {
      var t := Next(s, Disarm(w));
      forall v | v in t.requests ensures RequestOk(t, v) {
        DisarmKeepsRequest(s, w, v);
      }
      forall i | 0 <= i < |t.watchers| ensures SlotOk(t, i) {
        assert SlotOk(s, i);
      }
    }
  }

  lemma DisarmKeepsRequest(s: State, w: Wid, v: Wid)
    requires Inv(s) && Enabled(s, Disarm(w)) && Armed(s, w) && v in s.requests
    ensures RequestOk(Next(s, Disarm(w)), v)
  {
    assert RequestOk(s, w) && RequestOk(s, v);
    assert s.log[s.requests[w].since..|s.log|] == s.log[s.requests[w].since..];
  }

  lemma RemoveKeepsInv(s: State, d: string)
    requires Inv(s)
    ensures Inv(s.(events := s.events - {d}))
  {
    var t := s.(events := s.events - {d});
    forall v | v in t.requests ensures RequestOk(t, v) {
      assert RequestOk(s, v);
    }
    forall i | 0 <= i < |t.watchers| ensures SlotOk(t, i) {
      assert SlotOk(s, i);
    }
  }

  lemma StepKeepsInv(s: State, step: Step)
    requires Inv(s) && Enabled(s, step)
    ensures Inv(Next(s, step))
  {
    match step
    case Process(e) =>
      AddKeepsInv(s, e);
      RemoveKeepsInv(s, e.devpath);
    case Wait(w, m) => WaitKeepsInv(s, w, m);
    case Receive(w) => ReceiveKeepsInv(s, w);
    case Expire(w) => PhaseKeepsInv(s, w, Expired);
    case Disarm(w) => DisarmKeepsInv(s, w);
  }

  // ---------------------------------------------------------------- runs

  predicate IsRun(steps: seq<Step>) {
    steps == [] || (IsRun(steps[..|steps| - 1]) && Enabled(After(steps[..|steps| - 1]), steps[|steps| - 1]))
  }

  /** The state a run leads to. */
  function After(steps: seq<Step>): State {
    if steps == [] then Init()
    else
      var s := After(steps[..|steps| - 1]);
      if Enabled(s, steps[|steps| - 1]) then Next(s, steps[|steps| - 1]) else s
  }

  lemma {:induction false} RunKeepsInv(steps: seq<Step>)
    requires IsRun(steps)
    ensures Inv(After(steps))
  {
    if steps == [] {
    } else {
      RunKeepsInv(steps[..|steps| - 1]);
      StepKeepsInv(After(steps[..|steps| - 1]), steps[|steps| - 1]);
    }
  }

  /** In every reachable state no recorded event satisfies a watcher that is still armed. */
  lemma NoLostEvent(steps: seq<Step>, i: nat, d: string)
    requires IsRun(steps) && i < |After(steps).watchers| && After(steps).watchers[i].Some?
    requires d in After(steps).events
    ensures !After(steps).watchers[i].value.matcher(After(steps).events[d])
  {
    var s := After(steps);
    RunKeepsInv(steps);
    assert SlotOk(s, i);
    var w := s.watchers[i].value.sender;
    assert RequestOk(s, w) && Armed(s, w);
  }

  /** A request is sent the first satisfying event added since it registered, once, unless it timed
      out, in which case none had been added by then; and that is the event it answers with. */
  lemma FirstMatchIsSent(steps: seq<Step>, w: Wid)
    requires IsRun(steps) && w in After(steps).requests
    ensures var s := After(steps);
            var r := s.requests[w];
            && r.since <= |s.log|
            && (r.phase.TimedOut? ==>
                  && r.since <= r.phase.until <= |s.log| && r.sent == []
                  && FirstMatch(r.matcher, s.log[r.since..r.phase.until]) == [])
            && (!r.phase.TimedOut? ==> r.sent == FirstMatch(r.matcher, s.log[r.since..]))
            && (r.phase.Answered? ==> r.sent == [r.phase.event])
  {
    RunKeepsInv(steps);
    assert RequestOk(After(steps), w);
  }

  /** The saved index names the request's own slot throughout, and the slot is in exactly one of
      three conditions: armed with the request's own matcher and sender, emptied by one delivery, or
      emptied by the request's own timeout. */
  lemma SlotOwnership(steps: seq<Step>, w: Wid)
    requires IsRun(steps) && w in After(steps).requests
    ensures var s := After(steps);
            var r := s.requests[w];
            && r.index < |s.watchers|
            && (forall v :: v in s.requests && v != w ==> s.requests[v].index != r.index)
            && (if s.watchers[r.index].Some? then
                  s.watchers[r.index] == Some(Watcher(r.matcher, w)) && r.sent == [] && !r.phase.TimedOut?
                else r.phase.TimedOut? <==> r.sent == [])
            && |r.sent| <= 1
  {
    var s := After(steps);
    RunKeepsInv(steps);
    assert RequestOk(s, w);
    AtMostOneMatch(s.requests[w].matcher, s.log[s.requests[w].since..]);
  }

  lemma {:induction false} AtMostOneMatch(m: Matcher, es: seq<Uevent>)
    ensures |FirstMatch(m, es)| <= 1
    ensures FirstMatch(m, es) != [] ==> m(FirstMatch(m, es)[0])
  {
    if es == [] {
    } else {
      AtMostOneMatch(m, es[..|es| - 1]);
    }
  }

  /** The locked part of a timeout finds the slot empty, and aborts, exactly when an event was sent
      to the request between the timer and the lock. */
  lemma TimeoutAbortsExactly(steps: seq<Step>, w: Wid)
    requires IsRun(steps) && Enabled(After(steps), Disarm(w))
    ensures var s := After(steps);
            var r := s.requests[w];
            && r.since <= |s.log|
            && (Next(s, Disarm(w)).requests[w].phase == Panicked <==> r.sent != [])
            && (r.sent == [] ==> Next(s, Disarm(w)).requests[w].phase.TimedOut? && Next(s, Disarm(w)).watchers[r.index].None?)
            && (r.sent != [] <==> FirstMatch(r.matcher, s.log[r.since..]) != [])
  {
    RunKeepsInv(steps);
    assert RequestOk(After(steps), w);
  }

  /** That can happen: a matching event arrives after the timer fires and before the lock is taken. */
  lemma TimeoutCanAbort(e: Uevent, w: Wid) returns (steps: seq<Step>)
    requires e.action == ACTION_ADD && !IsMemory(e)
    ensures IsRun(steps) && Enabled(After(steps), Disarm(w))
    ensures Next(After(steps), Disarm(w)).requests[w].phase == Panicked
  {
    var m: Matcher := (u: Uevent) => true;
    var s1 := Next(Init(), Wait(w, m));
    var s2 := Next(s1, Expire(w));
    var s3 := Next(s2, Process(e));
    steps := Reach([], Wait(w, m), s1);
    steps := Reach(steps, Expire(w), s2);
    steps := Reach(steps, Process(e), s3);
    assert OfferAll(Recorded(s2, e), e, 1) == Offer(Recorded(s2, e), e, 0);
  }

  lemma Reach(steps: seq<Step>, step: Step, t: State) returns (more: seq<Step>)
    requires IsRun(steps) && Enabled(After(steps), step) && Next(After(steps), step) == t
    ensures IsRun(more) && After(more) == t
  {
    more := steps + [step];
    assert more[..|more| - 1] == steps;
  }
}
