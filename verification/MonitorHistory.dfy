/**
 The monitor told by its steps alone: when it runs, which failures count as reported, how many goroutines,
 tokens and pending reports there are, and what a watcher has been sent.
 */
module MonitorHistory {
  import opened MonitorModel

  // ---------------------------------------------------------------- running

  /** Step `j` completes a stop: it finds room for its token, at once or after waiting. */
  predicate Finishes(steps: seq<Step>, j: nat)
    requires j < |steps|
  {
    FinishesIn(After(steps[..j]), steps[j])
  }

  predicate FinishesIn(s: State, step: Step) {
    step.Resume? || (step.Stop? && s.running && s.tokens == 0)
  }

  /** No stop is completed after step `k`. */
  ghost predicate OpenSince(steps: seq<Step>, k: nat) {
    forall j :: k < j < |steps| ==> !Finishes(steps, j)
  }

  /** A watcher was registered and no stop completed since. */
  ghost predicate Runs(steps: seq<Step>) {
    exists k :: 0 <= k < |steps| && steps[k] == NewWatcher && OpenSince(steps, k)
  }

  lemma FinishesMore(rest: seq<Step>, last: Step)
    ensures forall j :: 0 <= j < |rest| ==> (Finishes(rest + [last], j) <==> Finishes(rest, j))
    ensures Finishes(rest + [last], |rest|) <==> FinishesIn(After(rest), last)
  {
    var steps := rest + [last];
    assert steps[..|rest|] == rest;
    forall j | 0 <= j < |rest| ensures Finishes(steps, j) <==> Finishes(rest, j) {
      assert steps[..j] == rest[..j] && steps[j] == rest[j];
    }
  }

  lemma OpenMore(rest: seq<Step>, last: Step)
    ensures forall k :: 0 <= k < |rest| ==>
              (OpenSince(rest + [last], k) <==> OpenSince(rest, k) && !FinishesIn(After(rest), last))
    ensures OpenSince(rest + [last], |rest|)
  {
    var steps := rest + [last];
    FinishesMore(rest, last);
    forall k | 0 <= k < |rest|
      ensures OpenSince(steps, k) <==> OpenSince(rest, k) && !FinishesIn(After(rest), last)
    {
      if OpenSince(steps, k) {
        assert !Finishes(steps, |rest|);
        assert forall j :: k < j < |rest| ==> !Finishes(steps, j);
      }
    }
  }

  lemma RunsMore(rest: seq<Step>, last: Step)
    ensures Runs(rest + [last]) <==> last == NewWatcher || (Runs(rest) && !FinishesIn(After(rest), last))
  {
    var steps := rest + [last];
    OpenMore(rest, last);
    assert steps[|rest|] == last;
    if Runs(rest) && !FinishesIn(After(rest), last) {
      var k :| 0 <= k < |rest| && rest[k] == NewWatcher && OpenSince(rest, k);
      assert steps[k] == NewWatcher && OpenSince(steps, k);
    }
    if Runs(steps) && last != NewWatcher {
      var k :| 0 <= k < |steps| && steps[k] == NewWatcher && OpenSince(steps, k);
      assert rest[k] == NewWatcher && OpenSince(rest, k);
    }
  }

  /** The monitor runs exactly if a watcher was registered and no stop completed since. */
  lemma {:induction false} RunningExactly(steps: seq<Step>)
    requires IsRun(steps)
    ensures After(steps).running <==> Runs(steps)
  {
    if steps == [] {
    } else {
      var rest, last := steps[..|steps| - 1], steps[|steps| - 1];
      RunningExactly(rest);
      RunsMore(rest, last);
      RunKeepsInv(rest);
      assert steps == rest + [last];
    }
  }

  // ---------------------------------------------------------------- counting

  /** How many of the steps are reports. */
  function Reports(steps: seq<Step>): nat {
    if steps == [] then 0 else Reports(steps[..|steps| - 1]) + (if steps[|steps| - 1].Notify? then 1 else 0)
  }

  /** How many stops were completed. */
  function Finished(steps: seq<Step>): nat {
    if steps == [] then 0
    else Finished(steps[..|steps| - 1]) + (if Finishes(steps, |steps| - 1) then 1 else 0)
  }

  /** How many watchers were registered while the monitor did not run. */
  function Starts(steps: seq<Step>): nat {
    if steps == [] then 0
    else
      var rest := steps[..|steps| - 1];
      Starts(rest) + (if steps[|steps| - 1] == NewWatcher && !After(rest).running then 1 else 0)
  }

  lemma StepCounts(s: State, step: Step)
    requires Inv(s) && Enabled(s, step)
    ensures var t := Next(s, step);
            && t.goroutines == s.goroutines + (if step == NewWatcher && !s.running then 1 else 0)
                               - (if step == TakeToken then 1 else 0)
            && t.tokens == s.tokens + (if FinishesIn(s, step) then 1 else 0) - (if step == TakeToken then 1 else 0)
            && t.notifying == s.notifying + (if step == Tick then 1 else 0) - (if step.Notify? then 1 else 0)
            && |t.channels| == |s.channels| + (if step == NewWatcher then 1 else 0)
  {
  }

  /** Every start is a goroutine until it takes a token, every completed stop is a token until it is taken,
      and every tick is a pending report until it is made. */
  ghost predicate Balanced(steps: seq<Step>, s: State) {
    && s.goroutines == Starts(steps) - multiset(steps)[TakeToken]
    && s.tokens == Finished(steps) - multiset(steps)[TakeToken]
    && s.notifying == multiset(steps)[Tick] - Reports(steps)
    && |s.channels| == multiset(steps)[NewWatcher]
  }

  lemma BalancedMore(rest: seq<Step>, last: Step, steps: seq<Step>, t: State)
    requires IsRun(rest) && Enabled(After(rest), last) && Balanced(rest, After(rest))
    requires steps == rest + [last] && t == Next(After(rest), last)
    ensures Balanced(steps, t)
  {
    RunKeepsInv(rest);
    StepCounts(After(rest), last);
    assert steps[..|steps| - 1] == rest;
    assert multiset(steps) == multiset(rest) + multiset{last};
  }

  lemma {:induction false} CountsExactly(steps: seq<Step>)
    requires IsRun(steps)
    ensures Balanced(steps, After(steps))
  {
    if steps == [] {
    } else {
      CountsExactly(steps[..|steps| - 1]);
      BalancedMore(steps[..|steps| - 1], steps[|steps| - 1], steps, After(steps));
    }
  }

  // ---------------------------------------------------------------- failures

  /** The failures that were reported while the monitor ran, in order. */
  function Failures(steps: seq<Step>): seq<Failure> {
    if steps == [] then []
    else
      var rest, last := steps[..|steps| - 1], steps[|steps| - 1];
      Failures(rest) + (if last.Notify? && After(rest).running then [last.failure] else [])
  }

  lemma StepLogs(s: State, step: Step)
    requires Enabled(s, step)
    ensures Next(s, step).log == s.log + (if step.Notify? && s.running then [step.failure] else [])
  {
  }

  lemma {:induction false} LogIsFailures(steps: seq<Step>)
    requires IsRun(steps)
    ensures After(steps).log == Failures(steps)
  {
    if steps == [] {
    } else {
      LogIsFailures(steps[..|steps| - 1]);
      StepLogs(After(steps[..|steps| - 1]), steps[|steps| - 1]);
    }
  }

  lemma {:induction false} FailuresGrow(steps: seq<Step>, k: nat)
    requires k <= |steps|
    ensures Failures(steps[..k]) <= Failures(steps)
  {
    if k == |steps| {
      assert steps[..k] == steps;
    } else {
      FailuresGrow(steps[..|steps| - 1], k);
      assert steps[..|steps| - 1][..k] == steps[..k];
    }
  }

  /** The failures reported from step `j` up to step `k`. */
  function FailuresBetween(steps: seq<Step>, j: nat, k: nat): seq<Failure>
    requires j <= k <= |steps|
  {
    FailuresGrow(steps[..k], j);
    assert steps[..k][..j] == steps[..j];
    Failures(steps[..k])[|Failures(steps[..j])|..]
  }

  // ---------------------------------------------------------------- channels

  /** Step `k` registers watcher `i`, after the failures reported until then. */
  ghost predicate RegisteredAt(steps: seq<Step>, k: nat, i: nat, c: Channel)
    requires k < |steps|
  {
    steps[k] == NewWatcher && multiset(steps[..k])[NewWatcher] == i && c.since == |Failures(steps[..k])|
  }

  /** If the channel is closed, the first stop completed after step `k` closed it; otherwise none was. */
  ghost predicate ClosedAfter(steps: seq<Step>, k: nat, c: Channel)
    requires k < |steps|
  {
    if c.closed then exists j :: k < j < |steps| && ClosedAt(steps, k, j, c) else OpenSince(steps, k)
  }

  ghost predicate ClosedAt(steps: seq<Step>, k: nat, j: nat, c: Channel)
    requires k < j < |steps|
  {
    Finishes(steps, j) && OpenSince(steps[..j], k) && c.until == |Failures(steps[..j])|
  }

  ghost predicate Tells(steps: seq<Step>, i: nat, c: Channel) {
    && (exists k :: 0 <= k < |steps| && RegisteredAt(steps, k, i, c) && ClosedAfter(steps, k, c))
    && |c.got| == multiset(steps)[Receive(i)]
  }

  lemma RegisteredMore(rest: seq<Step>, last: Step, k: nat, i: nat, c: Channel)
    requires k < |rest| && RegisteredAt(rest, k, i, c)
    ensures RegisteredAt(rest + [last], k, i, c)
  {
    assert (rest + [last])[..k] == rest[..k];
  }

  lemma ClosedMore(rest: seq<Step>, last: Step, k: nat, was: Channel, now: Channel)
    requires k < |rest| && ClosedAfter(rest, k, was)
    requires was.closed ==> now.closed && now.until == was.until
    requires !was.closed ==> (now.closed <==> FinishesIn(After(rest), last))
    requires !was.closed && now.closed ==> now.until == |Failures(rest)|
    ensures ClosedAfter(rest + [last], k, now)
  {
    var steps := rest + [last];
    OpenMore(rest, last);
    FinishesMore(rest, last);
    assert steps[..|rest|] == rest;
    if was.closed {
      var j :| k < j < |rest| && ClosedAt(rest, k, j, was);
      assert steps[..j] == rest[..j];
      assert ClosedAt(steps, k, j, now);
    } else if now.closed {
      assert ClosedAt(steps, k, |rest|, now);
    }
  }

  /** What one step does to a channel. */
  lemma StepChannel(s: State, step: Step, i: nat)
    requires Inv(s) && Enabled(s, step) && i < |s.channels|
    ensures i < |Next(s, step).channels|
    ensures var was, now := s.channels[i], Next(s, step).channels[i];
            && now.since == was.since
            && (was.closed ==> now.closed && now.until == was.until)
            && (!was.closed ==> (now.closed <==> FinishesIn(s, step)))
            && (!was.closed && now.closed ==> now.until == |s.log|)
            && |now.got| == |was.got| + (if step == Receive(i) then 1 else 0)
  {
    if step.Notify? && s.running {
      LoopAt(s.channels, s.watchers, step.failure, 0, i);
    }
    if FinishesIn(s, step) {
      LoopAt(s.channels, s.watchers, "", |s.log|, i);
    }
  }

  lemma TellsMore(rest: seq<Step>, last: Step, i: nat, was: Channel, now: Channel)
    requires Tells(rest, i, was) && now.since == was.since
    requires was.closed ==> now.closed && now.until == was.until
    requires !was.closed ==> (now.closed <==> FinishesIn(After(rest), last))
    requires !was.closed && now.closed ==> now.until == |Failures(rest)|
    requires |now.got| == |was.got| + (if last == Receive(i) then 1 else 0)
    ensures Tells(rest + [last], i, now)
  {
    var k :| 0 <= k < |rest| && RegisteredAt(rest, k, i, was) && ClosedAfter(rest, k, was);
    RegisteredMore(rest, last, k, i, now);
    ClosedMore(rest, last, k, was, now);
    assert multiset(rest + [last]) == multiset(rest) + multiset{last};
  }

  lemma TellsNew(rest: seq<Step>, i: nat, c: Channel)
    requires c == Channel([], [], false, |Failures(rest)|, 0) && multiset(rest)[NewWatcher] == i
    requires multiset(rest)[Receive(i)] == 0
    ensures Tells(rest + [NewWatcher], i, c)
  {
    var steps := rest + [NewWatcher];
    OpenMore(rest, NewWatcher);
    assert steps[..|rest|] == rest;
    assert RegisteredAt(steps, |rest|, i, c) && ClosedAfter(steps, |rest|, c);
    assert multiset(steps) == multiset(rest) + multiset{NewWatcher};
  }

  ghost predicate AllTell(steps: seq<Step>, s: State) {
    && (forall i :: 0 <= i < |s.channels| ==> Tells(steps, i, s.channels[i]))
    && (forall i :: i >= |s.channels| ==> multiset(steps)[Receive(i)] == 0)
  }

  lemma StepTells(rest: seq<Step>, last: Step, i: nat)
    requires IsRun(rest) && Enabled(After(rest), last) && AllTell(rest, After(rest))
    requires i < |Next(After(rest), last).channels|
    ensures Tells(rest + [last], i, Next(After(rest), last).channels[i])
  {
    var s := After(rest);
    LogIsFailures(rest);
    RunKeepsInv(rest);
    if i < |s.channels| {
      StepChannel(s, last, i);
      TellsMore(rest, last, i, s.channels[i], Next(s, last).channels[i]);
    } else {
      CountsExactly(rest);
      TellsNew(rest, i, Next(s, last).channels[i]);
    }
  }

  lemma StepTellsAll(rest: seq<Step>, last: Step, steps: seq<Step>, t: State)
    requires IsRun(rest) && Enabled(After(rest), last) && AllTell(rest, After(rest))
    requires steps == rest + [last] && t == Next(After(rest), last)
    ensures AllTell(steps, t)
  {
    forall i | 0 <= i < |t.channels| ensures Tells(steps, i, t.channels[i]) {
      StepTells(rest, last, i);
    }
    assert multiset(steps) == multiset(rest) + multiset{last};
  }

  lemma {:induction false} ChannelsTell(steps: seq<Step>)
    requires IsRun(steps)
    ensures AllTell(steps, After(steps))
  {
    if steps == [] {
    } else {
      ChannelsTell(steps[..|steps| - 1]);
      StepTellsAll(steps[..|steps| - 1], steps[|steps| - 1], steps, After(steps));
    }
  }

  /** What the channel was sent of the given failures: some of them, in order, and all of the first 128. */
  ghost predicate SentOf(c: Channel, failures: seq<Failure>) {
    var sent := c.got + c.buffer;
    && Subsequence(sent, failures)
    && (|failures| <= 128 ==> sent == failures)
    && (|failures| > 128 ==> failures[..128] <= sent)
  }

  /** Watcher `i` was registered by step `k`, has received as often as its consumer did, and was sent what was
      reported since, up to the first stop that was completed, which closed its channel. */
  ghost predicate SentSince(steps: seq<Step>, k: nat, i: nat, c: Channel)
    requires k < |steps|
  {
    && steps[k] == NewWatcher && multiset(steps[..k])[NewWatcher] == i && |c.got| == multiset(steps)[Receive(i)]
    && if c.closed then
         exists j :: k < j < |steps| && Finishes(steps, j) && OpenSince(steps[..j], k) &&
                     SentOf(c, FailuresBetween(steps, k, j))
       else OpenSince(steps, k) && SentOf(c, FailuresBetween(steps, k, |steps|))
  }

  lemma LogBetween(steps: seq<Step>, j: nat, k: nat)
    requires IsRun(steps) && j <= k <= |steps|
    ensures |Failures(steps[..j])| <= |Failures(steps[..k])| <= |After(steps).log|
    ensures After(steps).log[|Failures(steps[..j])|..|Failures(steps[..k])|] == FailuresBetween(steps, j, k)
    ensures After(steps).log[..|Failures(steps[..k])|] == Failures(steps[..k])
  {
    LogIsFailures(steps);
    FailuresGrow(steps, k);
    FailuresGrow(steps[..k], j);
    assert steps[..k][..j] == steps[..j];
  }

  lemma SentByLog(steps: seq<Step>, k: nat, i: nat)
    requires IsRun(steps) && i < |After(steps).channels| && k < |steps|
    requires RegisteredAt(steps, k, i, After(steps).channels[i]) && ClosedAfter(steps, k, After(steps).channels[i])
    requires |After(steps).channels[i].got| == multiset(steps)[Receive(i)]
    ensures SentSince(steps, k, i, After(steps).channels[i])
  {
    var c := After(steps).channels[i];
    InOrder(steps, i);
    if c.closed {
      var j :| k < j < |steps| && ClosedAt(steps, k, j, c);
      LogBetween(steps, k, j);
      assert SentOf(c, FailuresBetween(steps, k, j));
    } else {
      LogBetween(steps, k, |steps|);
      LogIsFailures(steps);
      assert steps[..|steps|] == steps;
      assert SentOf(c, FailuresBetween(steps, k, |steps|));
    }
  }

  /** So it is with every watcher of every run. */
  lemma SentSinceRegistration(steps: seq<Step>, i: nat)
    requires IsRun(steps) && i < |After(steps).channels|
    ensures exists k :: 0 <= k < |steps| && SentSince(steps, k, i, After(steps).channels[i])
  {
    var c := After(steps).channels[i];
    ChannelsTell(steps);
    assert Tells(steps, i, c);
    var k :| 0 <= k < |steps| && RegisteredAt(steps, k, i, c) && ClosedAfter(steps, k, c);
    SentByLog(steps, k, i);
  }

  /** A report while the monitor runs reaches exactly the watchers that are open and have room for it. */
  lemma ReportReaches(steps: seq<Step>, e: Failure, i: nat)
    requires IsRun(steps) && Enabled(After(steps), Notify(e)) && i < |After(steps).channels|
    ensures var s := After(steps);
            var was, now := s.channels[i], Next(s, Notify(e)).channels[i];
            && now.got == was.got
            && now.buffer == if s.running && !was.closed && |was.buffer| < 128 then was.buffer + [e] else was.buffer
  {
    var s := After(steps);
    RunKeepsInv(steps);
    LoopAt(s.channels, s.watchers, e, 0, i);
  }
}
