/**
 The rendezvous told by its steps alone: which events are recorded, which wait is answered at once, and
 which event a request is sent.
 */
module UeventHistory {
  import opened Wrappers
  import opened UeventRendezvous

  /** A device other than memory is added. */
  predicate Adds(step: Step) {
    step.Process? && step.event.action == "add" && !IsMemory(step.event)
  }

  /** A device with that path is added or removed. */
  predicate Changes(step: Step, d: string) {
    step.Process? && step.event.devpath == d && (Adds(step) || step.event.action == "remove")
  }

  const MEMORY := "devices/system/memory"

  lemma OnlineFileIsBelow(d: string)
    ensures MEMORY <= d + "/online" <==> MEMORY <= d
  {
    var online := d + "/online";
    assert online[|d|] == '/' && online[|d| + 1] == 'o';
    if MEMORY <= online && |d| < |MEMORY| {
      assert false;
    }
  }

  /** Memory is told by its path below the root of sysfs, written without a leading slash. */
  lemma MemoryExactly(e: Uevent)
    ensures IsMemory(e) <==> "devices/system/memory" <= e.devpath
  {
    var online := e.devpath + "/online";
    var path := SYSFS_DIR + "/" + e.devpath + "/online";
    assert path == "/sys/" + online && SYSFS_MEMORY_ONLINE_PATH == "/sys/" + MEMORY;
    SamePrefix("/sys/", MEMORY, online);
    OnlineFileIsBelow(e.devpath);
  }

  lemma SamePrefix(a: string, x: string, y: string)
    ensures a + x <= a + y <==> x <= y
  {
    assert (a + x)[|a|..] == x && (a + y)[|a|..] == y;
    if a + x <= a + y {
      assert x == (a + y)[..|a + x|][|a|..] == y[..|x|];
    }
  }

  // ---------------------------------------------------------------- the map

  /** Step `k` is the last that adds or removes a device with that path. */
  ghost predicate IsLatest(steps: seq<Step>, k: nat, d: string)
    requires k < |steps|
  {
    Changes(steps[k], d) && forall j :: k < j < |steps| ==> !Changes(steps[j], d)
  }

  /** The device was added with that event and neither added nor removed since. */
  ghost predicate LastAdded(steps: seq<Step>, d: string, e: Uevent) {
    exists k :: 0 <= k < |steps| && steps[k] == Process(e) && Adds(steps[k]) && IsLatest(steps, k, d)
  }

  lemma LastAddedMore(rest: seq<Step>, last: Step, d: string, e: Uevent)
    ensures LastAdded(rest + [last], d, e) <==>
            if Changes(last, d) then last == Process(e) && Adds(last) else LastAdded(rest, d, e)
  {
    var steps := rest + [last];
    if Changes(last, d) {
      assert steps[|rest|] == last && IsLatest(steps, |rest|, d);
    } else {
      forall k | 0 <= k < |rest| ensures IsLatest(steps, k, d) <==> IsLatest(rest, k, d) {
        assert forall j :: 0 <= j < |rest| ==> steps[j] == rest[j];
      }
      if LastAdded(rest, d, e) {
        var k :| 0 <= k < |rest| && rest[k] == Process(e) && Adds(rest[k]) && IsLatest(rest, k, d);
        assert steps[k] == Process(e) && IsLatest(steps, k, d);
      }
      if LastAdded(steps, d, e) {
        var k :| 0 <= k < |steps| && steps[k] == Process(e) && Adds(steps[k]) && IsLatest(steps, k, d);
        assert rest[k] == Process(e) && IsLatest(rest, k, d);
      }
    }
  }

  /** One step changes the map at the path of the device it adds or removes and nowhere else. */
  lemma StepRecords(s: State, step: Step, d: string)
    requires Enabled(s, step)
    ensures var t := Next(s, step);
            if !Changes(step, d) then (d in t.events <==> d in s.events) && (d in s.events ==> t.events[d] == s.events[d])
            else if Adds(step) then d in t.events && t.events[d] == step.event
            else d !in t.events
  {
    if Adds(step) {
      OfferAllSlots(Recorded(s, step.event), step.event, |s.watchers|);
    }
  }

  /** The map holds exactly the devices that were added and neither added again nor removed since, each
      with the event that added it. */
  lemma {:induction false} EventsExactly(steps: seq<Step>, d: string, e: Uevent)
    requires IsRun(steps)
    ensures d in After(steps).events && After(steps).events[d] == e <==> LastAdded(steps, d, e)
  {
    if steps == [] {
    } else {
      var rest, last := steps[..|steps| - 1], steps[|steps| - 1];
      EventsExactly(rest, d, e);
      LastAddedMore(rest, last, d, e);
      StepRecords(After(rest), last, d);
      assert steps == rest + [last];
    }
  }

  /** A wait is answered at once exactly when a device was added with an event that matches, and neither
      added again nor removed since. */
  lemma AnsweredAtOnceExactly(steps: seq<Step>, m: Matcher)
    requires IsRun(steps)
    ensures Known(After(steps), m) <==> exists e: Uevent :: LastAdded(steps, e.devpath, e) && m(e)
  {
    var s := After(steps);
    if d :| d in s.events && m(s.events[d]) {
      EventsExactly(steps, d, s.events[d]);
      assert LastAdded(steps, s.events[d].devpath, s.events[d]);
    }
    if e: Uevent :| LastAdded(steps, e.devpath, e) && m(e) {
      EventsExactly(steps, e.devpath, e);
    }
  }

  // ---------------------------------------------------------------- the events in order

  /** The events that add devices, in order. */
  function Added(steps: seq<Step>): seq<Uevent> {
    if steps == [] then []
    else Added(steps[..|steps| - 1]) + (if Adds(steps[|steps| - 1]) then [steps[|steps| - 1].event] else [])
  }

  lemma {:induction false} AddedConcat(a: seq<Step>, b: seq<Step>)
    ensures Added(a + b) == Added(a) + Added(b)
  {
    if b == [] {
      assert a + b == a;
    } else {
      AddedConcat(a, b[..|b| - 1]);
      assert (a + b)[..|a + b| - 1] == a + b[..|b| - 1];
    }
  }

  lemma StepLogs(s: State, step: Step)
    requires Enabled(s, step)
    ensures Next(s, step).log == s.log + (if Adds(step) then [step.event] else [])
  {
    if Adds(step) {
      OfferAllSlots(Recorded(s, step.event), step.event, |s.watchers|);
    }
  }

  lemma {:induction false} LogIsAdded(steps: seq<Step>)
    requires IsRun(steps)
    ensures After(steps).log == Added(steps)
  {
    if steps == [] {
    } else {
      LogIsAdded(steps[..|steps| - 1]);
      StepLogs(After(steps[..|steps| - 1]), steps[|steps| - 1]);
    }
  }

  /** What is added between two moments of a run. */
  lemma AddedBetween(steps: seq<Step>, j: nat, k: nat)
    requires j <= k <= |steps|
    ensures |Added(steps[..j])| <= |Added(steps[..k])| <= |Added(steps)|
    ensures Added(steps)[|Added(steps[..j])|..|Added(steps[..k])|] == Added(steps[j..k])
  {
    AddedConcat(steps[..j], steps[j..k]);
    AddedConcat(steps[..k], steps[k..]);
    assert steps[..j] + steps[j..k] == steps[..k] && steps[..k] + steps[k..] == steps;
  }

  // ---------------------------------------------------------------- requests

  /** The request was made by step `k`, after the events that had been added until then. */
  ghost predicate MadeBy(steps: seq<Step>, k: nat, w: Wid, r: Request)
    requires k < |steps|
  {
    steps[k] == Wait(w, r.matcher) && r.since == |Added(steps[..k])|
  }

  /** It gave up in step `j`, after the events that had been added until then. */
  ghost predicate GaveUpBy(steps: seq<Step>, k: nat, w: Wid, r: Request)
    requires k < |steps|
  {
    r.phase.TimedOut? ==>
      exists j :: k < j < |steps| && steps[j] == Disarm(w) && r.phase.until == |Added(steps[..j])|
  }

  ghost predicate Accounted(steps: seq<Step>, w: Wid, r: Request) {
    exists k :: 0 <= k < |steps| && MadeBy(steps, k, w, r) && GaveUpBy(steps, k, w, r)
  }

  /** One step makes the request, lets it give up, or changes neither. */
  lemma StepRequests(s: State, step: Step, w: Wid)
    requires Enabled(s, step) && Inv(s) && w in Next(s, step).requests
    ensures w !in s.requests ==> step == Wait(w, Next(s, step).requests[w].matcher) &&
                                 Next(s, step).requests[w].since == |s.log| && Next(s, step).requests[w].phase.Pending?
    ensures w in s.requests ==>
              var was, now := s.requests[w], Next(s, step).requests[w];
              && now.matcher == was.matcher && now.since == was.since
              && (now.phase.TimedOut? ==>
                    (was.phase.TimedOut? && now.phase.until == was.phase.until) ||
                    (step == Disarm(w) && now.phase.until == |s.log|))
  {
    if Adds(step) {
      var q := Recorded(s, step.event);
      OfferAllSlots(q, step.event, |s.watchers|);
      forall i | 0 <= i < |s.watchers| ensures SlotOk(q, i) {
        assert SlotOk(s, i);
      }
      OfferAllRequest(q, step.event, |s.watchers|, w);
    }
  }

  lemma AccountedMore(rest: seq<Step>, last: Step, w: Wid, was: Request, now: Request)
    requires Accounted(rest, w, was) && now.matcher == was.matcher && now.since == was.since
    requires now.phase.TimedOut? ==>
               (was.phase.TimedOut? && now.phase.until == was.phase.until) ||
               (last == Disarm(w) && now.phase.until == |Added(rest)|)
    ensures Accounted(rest + [last], w, now)
  {
    var steps := rest + [last];
    var k :| 0 <= k < |rest| && MadeBy(rest, k, w, was) && GaveUpBy(rest, k, w, was);
    assert steps[..k] == rest[..k] && steps[..|rest|] == rest && steps[|rest|] == last;
    assert MadeBy(steps, k, w, now);
    if now.phase.TimedOut? && was.phase.TimedOut? && now.phase.until == was.phase.until {
      var j :| k < j < |rest| && rest[j] == Disarm(w) && was.phase.until == |Added(rest[..j])|;
      assert steps[..j] == rest[..j] && steps[j] == Disarm(w);
    }
    assert GaveUpBy(steps, k, w, now);
  }

  lemma MadeNow(rest: seq<Step>, last: Step, w: Wid, r: Request)
    requires last == Wait(w, r.matcher) && r.since == |Added(rest)| && r.phase.Pending?
    ensures Accounted(rest + [last], w, r)
  {
    var steps := rest + [last];
    assert steps[..|rest|] == rest && steps[|rest|] == last;
    assert MadeBy(steps, |rest|, w, r) && GaveUpBy(steps, |rest|, w, r);
  }

  lemma StepAccounts(rest: seq<Step>, s: State, last: Step, w: Wid)
    requires Enabled(s, last) && Inv(s) && s.log == Added(rest) && w in Next(s, last).requests
    requires w in s.requests ==> Accounted(rest, w, s.requests[w])
    ensures Accounted(rest + [last], w, Next(s, last).requests[w])
  {
    var now := Next(s, last).requests[w];
    StepRequests(s, last, w);
    if w in s.requests {
      AccountedMore(rest, last, w, s.requests[w], now);
    } else {
      MadeNow(rest, last, w, now);
    }
  }

  ghost predicate AllAccounted(steps: seq<Step>, s: State) {
    forall w :: w in s.requests ==> Accounted(steps, w, s.requests[w])
  }

  lemma StepAccountsAll(rest: seq<Step>, last: Step, steps: seq<Step>, t: State)
    requires IsRun(rest) && Enabled(After(rest), last) && AllAccounted(rest, After(rest))
    requires steps == rest + [last] && t == Next(After(rest), last)
    ensures AllAccounted(steps, t)
  {
    RunKeepsInv(rest);
    LogIsAdded(rest);
    forall w | w in t.requests ensures Accounted(steps, w, t.requests[w]) {
      StepAccounts(rest, After(rest), last, w);
    }
  }

  lemma {:induction false} RequestsAreAccounted(steps: seq<Step>)
    requires IsRun(steps)
    ensures AllAccounted(steps, After(steps))
  {
    if steps == [] {
    } else {
      RequestsAreAccounted(steps[..|steps| - 1]);
      StepAccountsAll(steps[..|steps| - 1], steps[|steps| - 1], steps, After(steps));
    }
  }

  /** The event is the first of the list that matches. */
  ghost predicate IsFirst(m: Matcher, es: seq<Uevent>, i: nat)
    requires i < |es|
  {
    m(es[i]) && forall j :: 0 <= j < i ==> !m(es[j])
  }

  lemma {:induction false} FirstMatchExactly(m: Matcher, es: seq<Uevent>)
    ensures FirstMatch(m, es) == [] <==> forall j :: 0 <= j < |es| ==> !m(es[j])
    ensures forall i :: 0 <= i < |es| && IsFirst(m, es, i) ==> FirstMatch(m, es) == [es[i]]
  {
    if es == [] {
    } else {
      var rest := es[..|es| - 1];
      FirstMatchExactly(m, rest);
      assert forall j :: 0 <= j < |rest| ==> rest[j] == es[j];
      forall i | 0 <= i < |es| && IsFirst(m, es, i) ensures FirstMatch(m, es) == [es[i]] {
        assert i < |rest| ==> IsFirst(m, rest, i);
      }
    }
  }

  /** The request was sent the first of the given events that matches, or nothing if none does. */
  ghost predicate SentFirst(r: Request, es: seq<Uevent>) {
    && (r.sent == [] <==> forall j :: 0 <= j < |es| ==> !r.matcher(es[j]))
    && (forall i :: 0 <= i < |es| && IsFirst(r.matcher, es, i) ==> r.sent == [es[i]])
  }

  /** Step `k` is the wait of the request. It has been sent the first matching event that was added since, if
      there is any; or it gave up, and none had been added by then. */
  ghost predicate SentSince(steps: seq<Step>, k: nat, w: Wid, r: Request)
    requires k < |steps|
  {
    steps[k] == Wait(w, r.matcher) &&
    if r.phase.TimedOut? then
      r.sent == [] && exists j :: k < j < |steps| && steps[j] == Disarm(w) && SentFirst(r, Added(steps[k..j]))
    else SentFirst(r, Added(steps[k..]))
  }

  lemma FirstIsSent(r: Request, es: seq<Uevent>)
    requires r.sent == FirstMatch(r.matcher, es)
    ensures SentFirst(r, es)
  {
    FirstMatchExactly(r.matcher, es);
  }

  lemma LogSince(steps: seq<Step>, j: nat, k: nat)
    requires IsRun(steps) && j <= k <= |steps|
    ensures |Added(steps[..j])| <= |Added(steps[..k])| <= |After(steps).log|
    ensures After(steps).log[|Added(steps[..j])|..|Added(steps[..k])|] == Added(steps[j..k])
    ensures k == |steps| ==> After(steps).log[|Added(steps[..j])|..] == Added(steps[j..])
  {
    LogIsAdded(steps);
    AddedBetween(steps, j, k);
    if k == |steps| {
      assert steps[..k] == steps && steps[j..k] == steps[j..];
    }
  }

  lemma SentByLog(steps: seq<Step>, k: nat, w: Wid)
    requires IsRun(steps) && w in After(steps).requests && k < |steps|
    requires MadeBy(steps, k, w, After(steps).requests[w]) && GaveUpBy(steps, k, w, After(steps).requests[w])
    ensures SentSince(steps, k, w, After(steps).requests[w])
  {
    var r := After(steps).requests[w];
    FirstMatchIsSent(steps, w);
    if r.phase.TimedOut? {
      var j :| k < j < |steps| && steps[j] == Disarm(w) && r.phase.until == |Added(steps[..j])|;
      LogSince(steps, k, j);
      FirstIsSent(r, Added(steps[k..j]));
    } else {
      LogSince(steps, k, |steps|);
      FirstIsSent(r, Added(steps[k..]));
    }
  }

  /** So it is with every request of every run. */
  lemma SentSinceWait(steps: seq<Step>, w: Wid)
    requires IsRun(steps) && w in After(steps).requests
    ensures exists k :: 0 <= k < |steps| && SentSince(steps, k, w, After(steps).requests[w])
  {
    var r := After(steps).requests[w];
    RequestsAreAccounted(steps);
    assert Accounted(steps, w, r);
    var k :| 0 <= k < |steps| && MadeBy(steps, k, w, r) && GaveUpBy(steps, k, w, r);
    SentByLog(steps, k, w);
  }

  // ---------------------------------------------------------------- phases

  /** A request is where its own steps have brought it. */
  ghost predicate PhaseFollows(steps: seq<Step>, w: Wid, phase: Phase) {
    && (phase.Answered? <==> Receive(w) in steps)
    && (phase.TimedOut? || phase.Panicked? <==> Disarm(w) in steps)
    && (phase.Expired? <==> Expire(w) in steps && Disarm(w) !in steps)
  }

  /** Nothing has happened to a request that was not made. */
  ghost predicate Unknown(steps: seq<Step>, w: Wid) {
    Receive(w) !in steps && Expire(w) !in steps && Disarm(w) !in steps
  }

  ghost predicate Follows(steps: seq<Step>, s: State, w: Wid) {
    && (w in s.requests <==> exists m :: Wait(w, m) in steps)
    && (if w in s.requests then PhaseFollows(steps, w, s.requests[w].phase) else Unknown(steps, w))
  }

  lemma StepPhases(s: State, step: Step, w: Wid)
    requires Enabled(s, step) && Inv(s)
    ensures var t := Next(s, step);
            && (w in t.requests <==> w in s.requests || (step.Wait? && step.w == w))
            && (w in t.requests ==>
                  var was := if w in s.requests then s.requests[w].phase else Pending;
                  var now := t.requests[w].phase;
                  if step == Receive(w) then was.Pending? && now.Answered?
                  else if step == Expire(w) then was.Pending? && now.Expired?
                  else if step == Disarm(w) then was.Expired? && (now.TimedOut? || now.Panicked?)
                  else now == was)
  {
    if Adds(step) {
      var q := Recorded(s, step.event);
      OfferAllSlots(q, step.event, |s.watchers|);
      forall i | 0 <= i < |s.watchers| ensures SlotOk(q, i) {
        assert SlotOk(s, i);
      }
      if w in s.requests {
        OfferAllRequest(q, step.event, |s.watchers|, w);
      }
    }
  }

  lemma FollowsMore(rest: seq<Step>, last: Step, steps: seq<Step>, t: State, w: Wid)
    requires IsRun(rest) && Enabled(After(rest), last) && Follows(rest, After(rest), w)
    requires steps == rest + [last] && t == Next(After(rest), last)
    ensures Follows(steps, t, w)
  {
    RunKeepsInv(rest);
    StepPhases(After(rest), last, w);
    assert forall x :: x in steps <==> x in rest || x == last;
  }

  /** A request exists exactly if a wait was registered for it, it is answered exactly if it has received,
      and it has timed out or aborted exactly if it was disarmed. */
  lemma {:induction false} PhaseExactly(steps: seq<Step>, w: Wid)
    requires IsRun(steps)
    ensures Follows(steps, After(steps), w)
  {
    if steps == [] {
    } else {
      PhaseExactly(steps[..|steps| - 1], w);
      FollowsMore(steps[..|steps| - 1], steps[|steps| - 1], steps, After(steps), w);
    }
  }
}
