/**
 The sandbox monitor: goroutines that watch the agent and the hypervisor, and the channels that
 report failures to watchers. Steps are the stretches of code that hold the monitor lock, a stop
 that waits for room in the stop channel with the lock held, a goroutine about to report or taking a
 stop token, and a consumer receiving from its channel.
 */
module MonitorModel {

  type Failure = string

  const CHANNEL_SIZE: nat := 128

  /** A watcher's channel. History: what has been received from it, and how many failures had been
      reported when it was registered (`since`) and when it was closed (`until`). */
  datatype Channel = Channel(buffer: seq<Failure>, got: seq<Failure>, closed: bool, since: nat, until: nat)

  /** `watchers` are indices into `channels`; `tokens` is what the stop channel holds; `notifying`
      goroutines have found a failure and want the lock; `waiting` says that a stop holds the lock
      and waits for room in the stop channel. History: `log` is every failure reported while
      running; `panics` counts uses of a closed channel. */
  datatype State = State(
    channels: seq<Channel>,
    watchers: seq<nat>,
    running: bool,
    tokens: nat,
    goroutines: nat,
    notifying: nat,
    waiting: bool,
    log: seq<Failure>,
    panics: nat)

  datatype Step =
    | NewWatcher
    | Tick
    | Notify(failure: Failure)
    | Stop
    | Resume
    | TakeToken
    | Receive(channel: nat)

  function Init(): State {
    State([], [], false, 0, 0, 0, false, [], 0)
  }

  const STOP_CHANNEL_SIZE: nat := 1

  predicate Enabled(s: State, step: Step) {
    match step
    case NewWatcher => !s.waiting
    case Tick => s.notifying < s.goroutines
    case Notify(_) => s.notifying > 0 && !s.waiting
    case Stop => !s.waiting
    case Resume => s.waiting && s.tokens < STOP_CHANNEL_SIZE
    case TakeToken => s.tokens > 0 && s.notifying < s.goroutines
    case Receive(c) => c < |s.channels| && s.channels[c].buffer != []
  }

  /** A send that does not wait: the failure is thrown away if the channel is full. */
  function Offered(c: Channel, e: Failure): Channel {
    if |c.buffer| < CHANNEL_SIZE then c.(buffer := c.buffer + [e]) else c
  }

  function Shut(c: Channel, at: nat): Channel {
    c.(closed := true, until := at)
  }

  /** What a loop over the watchers leaves behind; using a closed channel panics and ends it. */
  datatype Loop = Loop(channels: seq<Channel>, panicked: bool)

  function SendLoop(channels: seq<Channel>, ids: seq<nat>, e: Failure): (r: Loop)
    ensures |r.channels| == |channels|
  {
    if ids == [] then Loop(channels, false)
    else
      var before := SendLoop(channels, ids[..|ids| - 1], e);
      var c := ids[|ids| - 1];
      if before.panicked || c >= |channels| then before
      else if before.channels[c].closed then before.(panicked := true)
      else before.(channels := before.channels[c := Offered(before.channels[c], e)])
  }

  function CloseLoop(channels: seq<Channel>, ids: seq<nat>, at: nat): (r: Loop)
    ensures |r.channels| == |channels|
  {
    if ids == [] then Loop(channels, false)
    else
      var before := CloseLoop(channels, ids[..|ids| - 1], at);
      var c := ids[|ids| - 1];
      if before.panicked || c >= |channels| then before
      else if before.channels[c].closed then before.(panicked := true)
      else before.(channels := before.channels[c := Shut(before.channels[c], at)])
  }

  /** A panic ends the loop. */
  lemma {:induction false} PanicStays(channels: seq<Channel>, ids: seq<nat>, k: nat, e: Failure, at: nat)
    requires k <= |ids|
    ensures SendLoop(channels, ids[..k], e).panicked ==>
              SendLoop(channels, ids, e) == SendLoop(channels, ids[..k], e)
    ensures CloseLoop(channels, ids[..k], at).panicked ==>
              CloseLoop(channels, ids, at) == CloseLoop(channels, ids[..k], at)
  {
    if k < |ids| {
      PanicStays(channels, ids[..|ids| - 1], k, e, at);
      assert ids[..|ids| - 1][..k] == ids[..k];
    } else {
      assert ids[..k] == ids;
    }
  }

  /** What a stop does once its token is in the stop channel. */
  function Stopped(s: State): State {
    var shut := CloseLoop(s.channels, s.watchers, |s.log|);
    s.(channels := shut.channels, watchers := [], running := false, tokens := s.tokens + 1, waiting := false,
       panics := if shut.panicked then s.panics + 1 else s.panics)
  }

  function Next(s: State, step: Step): State
    requires Enabled(s, step)
  {
    match step
    case NewWatcher =>
      s.(channels := s.channels + [Channel([], [], false, |s.log|, 0)],
         watchers := s.watchers + [|s.channels|],
         running := true,
         goroutines := if s.running then s.goroutines else s.goroutines + 1)
    case Tick =>
      s.(notifying := s.notifying + 1)
    case Notify(e) =>
      if !s.running then s.(notifying := s.notifying - 1) else
        var sent := SendLoop(s.channels, s.watchers, e);
        s.(channels := sent.channels, log := s.log + [e], notifying := s.notifying - 1,
           panics := if sent.panicked then s.panics + 1 else s.panics)
    case Stop =>
      if !s.running then s
      else if s.tokens < STOP_CHANNEL_SIZE then Stopped(s)
      else s.(waiting := true)
    case Resume =>
      Stopped(s)
    case TakeToken =>
      s.(tokens := s.tokens - 1, goroutines := s.goroutines - 1)
    case Receive(i) =>
      var c := s.channels[i];
      s.(channels := s.channels[i := c.(buffer := c.buffer[1..], got := c.got + [c.buffer[0]])])
  }

  // ---------------------------------------------------------------- what every step keeps

  /** `a` is what is left of `b` when some elements are thrown away. */
  predicate Subsequence<T(==)>(a: seq<T>, b: seq<T>) {
    a == [] ||
    (b != [] && (Subsequence(a, b[..|b| - 1]) ||
                 (a[|a| - 1] == b[|b| - 1] && Subsequence(a[..|a| - 1], b[..|b| - 1]))))
  }

  function Min(a: nat, b: nat): nat {
    if a < b then a else b
  }

  /** Everything that was sent to the channel. */
  function Sent(c: Channel): seq<Failure> {
    c.got + c.buffer
  }

  /** What was sent keeps the order of the failures reported since registration, loses none of the
      first 128 of them, and is at most 128 ahead of the consumer. */
  predicate Reported(sent: seq<Failure>, failures: seq<Failure>) {
    var n := Min(CHANNEL_SIZE, |failures|);
    Subsequence(sent, failures) && |sent| >= n && sent[..n] == failures[..n]
  }

  ghost predicate ChannelOk(c: Channel, log: seq<Failure>) {
    && |c.buffer| <= CHANNEL_SIZE
    && (if c.closed then c.since <= c.until <= |log| && Reported(Sent(c), log[c.since..c.until])
        else c.since <= |log| && Reported(Sent(c), log[c.since..]))
  }

  /** Every watcher is a channel and none is listed twice. */
  ghost predicate Listed(channels: seq<Channel>, ids: seq<nat>) {
    && (forall k :: 0 <= k < |ids| ==> ids[k] < |channels|)
    && (forall j, k :: 0 <= j < k < |ids| ==> ids[j] != ids[k])
  }

  /** The channels still open are exactly the watchers. */
  ghost predicate WatchersOpen(s: State) {
    forall i :: 0 <= i < |s.channels| ==> (!s.channels[i].closed <==> i in s.watchers)
  }

  ghost predicate Counted(s: State) {
    && s.goroutines == s.tokens + (if s.running then 1 else 0) && s.tokens <= STOP_CHANNEL_SIZE
    && (!s.running ==> s.watchers == [] && !s.waiting) && s.notifying <= s.goroutines
  }

  ghost predicate AllOk(channels: seq<Channel>, log: seq<Failure>) {
    forall i :: 0 <= i < |channels| ==> ChannelOk(channels[i], log)
  }

  ghost predicate Inv(s: State) {
    Listed(s.channels, s.watchers) && WatchersOpen(s) && Counted(s) && s.panics == 0 && AllOk(s.channels, s.log)
  }

  /** A loop over open channels, each listed once, reaches each of them and no other. */
  lemma {:induction false} LoopAt(channels: seq<Channel>, ids: seq<nat>, e: Failure, at: nat, i: nat)
    requires Listed(channels, ids) && i < |channels|
    requires forall k :: 0 <= k < |ids| ==> !channels[ids[k]].closed
    ensures !SendLoop(channels, ids, e).panicked && !CloseLoop(channels, ids, at).panicked
    ensures SendLoop(channels, ids, e).channels[i] == if i in ids then Offered(channels[i], e) else channels[i]
    ensures CloseLoop(channels, ids, at).channels[i] == if i in ids then Shut(channels[i], at) else channels[i]
  {
    if ids == [] {
    } else {
      var before, c := ids[..|ids| - 1], ids[|ids| - 1];
      LoopAt(channels, before, e, at, i);
      LoopAt(channels, before, e, at, c);
      assert ids == before + [c];
    }
  }

  lemma NoPanic(channels: seq<Channel>, ids: seq<nat>, e: Failure, at: nat)
    requires Listed(channels, ids)
    requires forall k :: 0 <= k < |ids| ==> !channels[ids[k]].closed
    ensures !SendLoop(channels, ids, e).panicked && !CloseLoop(channels, ids, at).panicked
  {
    if ids != [] {
      LoopAt(channels, ids, e, at, ids[0]);
    }
  }

  /** Reporting goes on after one more failure that was sent, or thrown away because at least 128
      had been sent. */
  lemma ReportedMore(sent: seq<Failure>, failures: seq<Failure>, e: Failure)
    requires Reported(sent, failures)
    ensures Reported(sent + [e], failures + [e])
    ensures |sent| >= CHANNEL_SIZE ==> Reported(sent, failures + [e])
  {
    var more := failures + [e];
    assert more[..|more| - 1] == failures && (sent + [e])[..|sent|] == sent;
    ReportedLength(sent, failures);
    var n := Min(CHANNEL_SIZE, |failures|);
    assert |failures| < CHANNEL_SIZE ==> sent == failures;
    assert more[..n] == failures[..n] && (sent + [e])[..n] == sent[..n];
  }

  /** Nothing is sent that was not reported. */
  lemma ReportedLength(sent: seq<Failure>, failures: seq<Failure>)
    requires Reported(sent, failures)
    ensures |sent| <= |failures|
    ensures |failures| <= CHANNEL_SIZE ==> sent == failures
  {
    SubsequenceLength(sent, failures);
    assert |failures| <= CHANNEL_SIZE ==> sent[..|failures|] == sent && failures[..|failures|] == failures;
  }

  lemma {:induction false} SubsequenceLength<T>(a: seq<T>, b: seq<T>)
    requires Subsequence(a, b)
    ensures |a| <= |b|
  {
    if a == [] {
    } else {
      if Subsequence(a, b[..|b| - 1]) {
        SubsequenceLength(a, b[..|b| - 1]);
      } else {
        SubsequenceLength(a[..|a| - 1], b[..|b| - 1]);
      }
    }
  }

  /** Offering a failure to an open channel keeps it in order; a closed one is not concerned. */
  lemma OfferedOk(c: Channel, log: seq<Failure>, e: Failure)
    requires ChannelOk(c, log)
    ensures !c.closed ==> ChannelOk(Offered(c, e), log + [e])
    ensures c.closed ==> ChannelOk(c, log + [e])
  {
    if c.closed {
      assert (log + [e])[c.since..c.until] == log[c.since..c.until];
    } else {
      assert (log + [e])[c.since..] == log[c.since..] + [e];
      ReportedMore(Sent(c), log[c.since..], e);
      assert c.got + (c.buffer + [e]) == Sent(c) + [e];
    }
  }

  lemma NotifyKeepsInv(s: State, e: Failure)
    requires Inv(s) && s.running && Enabled(s, Notify(e))
    ensures Inv(Next(s, Notify(e)))
  {
    var t := Next(s, Notify(e));
    NoPanic(s.channels, s.watchers, e, 0);
    forall i | 0 <= i < |t.channels|
      ensures ChannelOk(t.channels[i], t.log) && t.channels[i].closed == s.channels[i].closed
    {
      LoopAt(s.channels, s.watchers, e, 0, i);
      OfferedOk(s.channels[i], s.log, e);
    }
  }

  lemma StopKeepsInv(s: State)
    requires Inv(s) && s.running && s.tokens < STOP_CHANNEL_SIZE
    ensures Inv(Stopped(s))
  {
    var t := Stopped(s);
    NoPanic(s.channels, s.watchers, "", |s.log|);
    forall i | 0 <= i < |t.channels| ensures ChannelOk(t.channels[i], t.log) && t.channels[i].closed {
      LoopAt(s.channels, s.watchers, "", |s.log|, i);
      var c := s.channels[i];
      assert ChannelOk(c, s.log);
      if i in s.watchers {
        assert s.log[c.since..|s.log|] == s.log[c.since..];
        assert Sent(Shut(c, |s.log|)) == Sent(c);
      }
    }
  }

  lemma ReceiveKeepsInv(s: State, i: nat)
    requires Inv(s) && Enabled(s, Receive(i))
    ensures Inv(Next(s, Receive(i)))
  {
    var c := s.channels[i];
    var d := Next(s, Receive(i)).channels[i];
    assert Sent(d) == Sent(c) by {
      assert c.buffer == [c.buffer[0]] + c.buffer[1..];
    }
    assert ChannelOk(d, s.log);
  }

  lemma NewWatcherKeepsInv(s: State)
    requires Inv(s) && Enabled(s, NewWatcher)
    ensures Inv(Next(s, NewWatcher))
  {
    var t := Next(s, NewWatcher);
    var c := t.channels[|s.channels|];
    assert s.log[c.since..] == [] && Sent(c) == [];
    assert Reported([], []);
    forall i | 0 <= i < |t.channels| ensures !t.channels[i].closed <==> i in t.watchers {
      if i < |s.channels| {
        assert t.channels[i] == s.channels[i];
      } else {
        assert t.watchers[|s.watchers|] == i;
      }
    }
  }

  lemma StepKeepsInv(s: State, step: Step)
    requires Inv(s) && Enabled(s, step)
    ensures Inv(Next(s, step))
  {
    match step
    case NewWatcher => NewWatcherKeepsInv(s);
    case Tick =>
    case Notify(e) => if s.running { NotifyKeepsInv(s, e); }
    case Stop => if s.running && s.tokens < STOP_CHANNEL_SIZE { StopKeepsInv(s); }
    case Resume => StopKeepsInv(s);
    case TakeToken =>
    case Receive(i) => ReceiveKeepsInv(s, i);
  }

  // ---------------------------------------------------------------- every run

  /** The steps can be taken one after the other from the start. */
  predicate IsRun(steps: seq<Step>) {
    steps == [] ||
    (IsRun(steps[..|steps| - 1]) && Enabled(After(steps[..|steps| - 1]), steps[|steps| - 1]))
  }

  /** The state a run leads to. */
  function After(steps: seq<Step>): State {
    if steps == [] then Init()
    else
      var s := After(steps[..|steps| - 1]);
      var step := steps[|steps| - 1];
      if Enabled(s, step) then Next(s, step) else s
  }

  lemma {:induction false} RunKeepsInv(steps: seq<Step>)
    requires IsRun(steps)
    ensures Inv(After(steps))
  {
    if steps == [] {
    } else {
      RunKeepsInv(steps[..|steps| - 1]);
      StepKeepsInv(After(steps[..|steps| - 1]), steps[|steps| - 1]);
    }
  }

  /** The live goroutines are always the pending stop tokens plus one if the monitor runs; so a waiter
      for the last goroutine finds the monitor stopped and no token left over. */
  lemma GoroutinesCounted(steps: seq<Step>)
    requires IsRun(steps)
    ensures var s := After(steps);
            && s.goroutines == s.tokens + (if s.running then 1 else 0) && s.tokens <= STOP_CHANNEL_SIZE
            && (s.goroutines == 0 ==> !s.running && s.tokens == 0 && s.watchers == [])
  {
    RunKeepsInv(steps);
  }

  /** No run sends on a closed channel or closes one twice, and a channel that is not watched any
      more is closed. */
  lemma ClosedOnce(steps: seq<Step>)
    requires IsRun(steps)
    ensures After(steps).panics == 0
    ensures forall i :: 0 <= i < |After(steps).channels| ==>
              (After(steps).channels[i].closed <==> i !in After(steps).watchers)
  {
    RunKeepsInv(steps);
  }

  /** The failures reported while the channel was registered. */
  ghost function Since(c: Channel, log: seq<Failure>): seq<Failure>
    requires ChannelOk(c, log)
  {
    if c.closed then log[c.since..c.until] else log[c.since..]
  }

  /** A watcher is sent, in order, failures reported between its registration and its closing; none
      of the first 128 is thrown away, so in particular the first is not. */
  lemma InOrder(steps: seq<Step>, i: nat)
    requires IsRun(steps) && i < |After(steps).channels|
    ensures var s := After(steps);
            var c := s.channels[i];
            && ChannelOk(c, s.log)
            && Subsequence(c.got + c.buffer, Since(c, s.log))
            && (Since(c, s.log) != [] ==> c.got + c.buffer != [] && (c.got + c.buffer)[0] == Since(c, s.log)[0])
            && (|Since(c, s.log)| <= CHANNEL_SIZE ==> c.got + c.buffer == Since(c, s.log))
            && (|Since(c, s.log)| > CHANNEL_SIZE ==> Since(c, s.log)[..CHANNEL_SIZE] <= c.got + c.buffer)
  {
    RunKeepsInv(steps);
    var s := After(steps);
    assert ChannelOk(s.channels[i], s.log);
    InOrderChannel(s.channels[i], s.log);
  }

  lemma InOrderChannel(c: Channel, log: seq<Failure>)
    requires ChannelOk(c, log)
    ensures Subsequence(c.got + c.buffer, Since(c, log))
    ensures Since(c, log) != [] ==> c.got + c.buffer != [] && (c.got + c.buffer)[0] == Since(c, log)[0]
    ensures |Since(c, log)| <= CHANNEL_SIZE ==> c.got + c.buffer == Since(c, log)
    ensures |Since(c, log)| > CHANNEL_SIZE ==> Since(c, log)[..CHANNEL_SIZE] <= c.got + c.buffer
  {
    var sent, failures := Sent(c), Since(c, log);
    assert Reported(sent, failures);
    ReportedLength(sent, failures);
    if failures != [] {
      var n := Min(CHANNEL_SIZE, |failures|);
      assert sent[..n][0] == failures[..n][0];
    }
  }

  // ---------------------------------------------------------------- a stop that waits

  /** A stop waits for room with the lock held, and every goroutine that could make room wants the lock. */
  predicate Deadlocked(s: State) {
    s.waiting && s.tokens == STOP_CHANNEL_SIZE && s.notifying == s.goroutines
  }

  lemma Extend(steps: seq<Step>, step: Step)
    requires IsRun(steps) && Enabled(After(steps), step)
    ensures IsRun(steps + [step]) && After(steps + [step]) == Next(After(steps), step)
  {
    assert (steps + [step])[..|steps + [step]| - 1] == steps;
  }

  lemma {:induction false} DeadlockStays(steps: seq<Step>, more: seq<Step>)
    requires IsRun(steps + more) && Deadlocked(After(steps))
    ensures Deadlocked(After(steps + more))
  {
    if more == [] {
      assert steps + more == steps;
    } else {
      var rest := more[..|more| - 1];
      assert (steps + more)[..|steps + more| - 1] == steps + rest;
      DeadlockStays(steps, rest);
    }
  }

  /** A waiting stop can still finish exactly when some goroutine is free to take a token; otherwise it
      holds the lock for ever. */
  lemma StopFinishesExactly(steps: seq<Step>)
    requires IsRun(steps) && After(steps).waiting
    ensures (exists more :: IsRun(steps + more) && !After(steps + more).waiting) <==> !Deadlocked(After(steps))
  {
    var s := After(steps);
    RunKeepsInv(steps);
    if Deadlocked(s) {
      forall more | IsRun(steps + more) ensures After(steps + more).waiting {
        DeadlockStays(steps, more);
      }
    } else if s.tokens == STOP_CHANNEL_SIZE {
      Extend(steps, TakeToken);
      Extend(steps + [TakeToken], Resume);
      assert steps + [TakeToken] + [Resume] == steps + [TakeToken, Resume];
    } else {
      Extend(steps, Resume);
    }
  }

  lemma Then(steps: seq<Step>, step: Step) returns (more: seq<Step>)
    requires IsRun(steps) && Enabled(After(steps), step)
    ensures IsRun(more) && After(more) == Next(After(steps), step)
  {
    Extend(steps, step);
    more := steps + [step];
  }

  /** That can happen: a second round of watching is stopped before the first goroutine has taken its
      token, while both goroutines want to report. */
  lemma DeadlockIsReachable() returns (steps: seq<Step>)
    ensures IsRun(steps) && Deadlocked(After(steps))
  {
    steps := Then([], NewWatcher);
    steps := Then(steps, Stop);
    steps := Then(steps, NewWatcher);
    steps := Then(steps, Tick);
    steps := Then(steps, Tick);
    steps := Then(steps, Stop);
  }
}
