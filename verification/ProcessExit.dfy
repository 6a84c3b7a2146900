/**
 Waiting for a process to exit: any number of waiters, one reaper, one winner that broadcasts
 the exit code and removes the process. Steps are the stretches of code that hold the sandbox lock.
 */
module ProcessExit {
  import opened Sequences

  type Pid = int
  type Cid = string
  type Wid = nat

  const CHANNEL_CAPACITY := 100

  /** A process table entry. `running` stands for the exit sender that the reaper drops. */
  datatype Process = Process(cid: Cid, execId: string, exitCode: int, running: bool, watchers: seq<Wid>)

  /** A wait request: between its two locked stretches, returned with a status, or failed. */
  datatype Waiter = Waiting(cid: Cid, pid: Pid) | Returned(pid: Pid, status: int) | Failed

  /** The sandbox with the exit channels and the pending requests. History: the codes the reaper
      recorded, the pids ever used, and the pids removed by a waiter, in order. */
  datatype State = State(
    containers: map<Cid, Pid>,
    table: map<Pid, Process>,
    channels: map<Wid, seq<int>>,
    waiters: map<Wid, Waiter>,
    exits: map<Pid, int>,
    used: set<Pid>,
    removals: seq<Pid>)

  datatype Step =
    | Create(cid: Cid, pid: Pid)
    | Exec(cid: Cid, pid: Pid, execId: string)
    | Reap(pid: Pid, code: int)
    | Register(w: Wid, cid: Cid, pid: Pid)
    | Finish(w: Wid)
    | Cancel(w: Wid)
    | RemoveContainer(cid: Cid)

  const INIT := State(map[], map[], map[], map[], map[], {}, [])

  /** The waiter's process is gone or reaped, so its exit receiver has seen the sender dropped. */
  predicate Signalled(s: State, w: Wid) {
    w in s.waiters && s.waiters[w].Waiting? &&
    (s.waiters[w].pid in s.table ==> !s.table[s.waiters[w].pid].running)
  }

  /** Pids are not reused, and a pid is reaped once. */
  predicate Enabled(s: State, step: Step) {
    match step
    case Create(cid, pid) => cid !in s.containers && pid !in s.used
    case Exec(cid, pid, _) => cid in s.containers && pid !in s.used
    case Reap(pid, _) => pid !in s.exits
    case Register(w, cid, pid) => w !in s.waiters && pid in s.table && s.table[pid].cid == cid
    case Finish(w) => Signalled(s, w) && !Blocked(s, w)
    case Cancel(w) => w in s.waiters && s.waiters[w].Waiting?
    case RemoveContainer(cid) => cid in s.containers
  }

  /** The waiter's container still lists its process. */
  predicate Listed(s: State, cid: Cid, pid: Pid) {
    pid in s.table && s.table[pid].cid == cid
  }

  /** Some process still holds the sending end of the waiter's channel. */
  predicate SenderAlive(s: State, w: Wid) {
    exists pid :: pid in s.table && w in s.table[pid].watchers
  }

  /** A waiter that lost the race would block on its channel, holding the lock. */
  predicate Blocked(s: State, w: Wid)
    requires Signalled(s, w)
  {
    var Waiting(cid, pid) := s.waiters[w];
    && cid in s.containers && !Listed(s, cid, pid)
    && (w !in s.channels || s.channels[w] == []) && SenderAlive(s, w)
  }

  predicate Open(s: State, w: Wid) {
    w in s.channels && w in s.waiters && s.waiters[w].Waiting?
  }

  /** One message to every listed channel that still has a receiver. */
  function Broadcast(s: State, watchers: seq<Wid>, code: int): map<Wid, seq<int>> {
    if watchers == [] then s.channels
    else
      var w := watchers[|watchers| - 1];
      var channels := Broadcast(s, watchers[..|watchers| - 1], code);
      if Open(s, w) && w in channels then channels[w := channels[w] + [code]] else channels
  }

  function Next(s: State, step: Step): State
    requires Enabled(s, step)
  {
    match step
    case Create(cid, pid) =>
      s.(containers := s.containers[cid := pid],
         table := s.table[pid := Process(cid, cid, 0, true, [])],
         used := s.used + {pid})
    case Exec(cid, pid, execId) =>
      s.(table := s.table[pid := Process(cid, execId, 0, true, [])],
         used := s.used + {pid})
    case Reap(pid, code) =>
      if pid in s.table then
        s.(table := s.table[pid := s.table[pid].(exitCode := code, running := false)],
           exits := s.exits[pid := code])
      else s
    case Register(w, cid, pid) =>
      var p := s.table[pid];
      s.(table := s.table[pid := p.(watchers := p.watchers + [w])],
         channels := s.channels[w := []],
         waiters := s.waiters[w := Waiting(cid, pid)])
    case Finish(w) => Finished(s, w)
    case Cancel(w) => s.(waiters := s.waiters[w := Failed])
    case RemoveContainer(cid) =>
      s.(containers := s.containers - {cid},
         table := map pid | pid in s.table && s.table[pid].cid != cid :: s.table[pid])
  }

  function Finished(s: State, w: Wid): State
    requires Signalled(s, w)
  {
    var Waiting(cid, pid) := s.waiters[w];
    if cid !in s.containers then s.(waiters := s.waiters[w := Failed])
    else if !Listed(s, cid, pid) then
      if w in s.channels && s.channels[w] != [] then
        s.(waiters := s.waiters[w := Returned(pid, s.channels[w][0])],
           channels := s.channels[w := s.channels[w][1..]])
      else s.(waiters := s.waiters[w := Failed])
    else
      var p := s.table[pid];
      s.(channels := Broadcast(s, p.watchers, p.exitCode),
         waiters := s.waiters[w := Returned(pid, p.exitCode)],
         table := s.table - {pid},
         removals := s.removals + [pid])
  }

  // ---------------------------------------------------------------- the invariant

  /** A listed process knows its exit code exactly when it was reaped, and has not been removed. */
  ghost predicate ProcessOk(s: State, pid: Pid)
    requires pid in s.table
  {
    var p := s.table[pid];
    && p.cid in s.containers && pid in s.used && pid !in s.removals
    && (p.running <==> pid !in s.exits)
    && (!p.running ==> p.exitCode == s.exits[pid])
    && NoDuplicates(p.watchers)
    && (forall w :: w in p.watchers ==> w in s.waiters && (s.waiters[w].Waiting? ==> s.waiters[w] == Waiting(p.cid, pid)))
  }

  /** While its process is listed a waiter is among its watchers with an empty channel; afterwards the
      channel holds the code, once, if a waiter removed the process, and nothing if the container went. */
  ghost predicate WaiterOk(s: State, w: Wid)
    requires w in s.waiters
  {
    match s.waiters[w]
    case Waiting(cid, pid) =>
      && w in s.channels && pid in s.used
      && (if pid in s.table then s.table[pid].cid == cid && w in s.table[pid].watchers && s.channels[w] == []
          else if pid in s.removals then pid in s.exits && s.channels[w] == [s.exits[pid]]
          else s.channels[w] == [])
    case Returned(pid, status) =>
      pid in s.removals && pid in s.exits && s.exits[pid] == status
    case Failed => true
  }

  ghost predicate Inv(s: State) {
    && (forall pid :: pid in s.table ==> ProcessOk(s, pid))
    && (forall w :: w in s.waiters ==> WaiterOk(s, w))
    && (forall w :: w in s.channels ==> w in s.waiters && |s.channels[w]| <= 1)
    && NoDuplicates(s.removals)
    && s.exits.Keys <= s.used && (forall pid :: pid in s.removals ==> pid in s.used)
  }

  /** Every open channel on a list without duplicates gets the code once, the others nothing. */
  lemma {:induction false} BroadcastOnce(s: State, watchers: seq<Wid>, code: int, w: Wid)
    requires NoDuplicates(watchers)
    ensures Broadcast(s, watchers, code).Keys == s.channels.Keys
    ensures w in s.channels ==>
              Broadcast(s, watchers, code)[w] ==
              if w in watchers && Open(s, w) then s.channels[w] + [code] else s.channels[w]
  {
    if watchers == [] {
    } else {
      var rest, last := watchers[..|watchers| - 1], watchers[|watchers| - 1];
      assert watchers == rest + [last];
      BroadcastOnce(s, rest, code, w);
      assert last !in rest;
    }
  }

  lemma FinishKeepsInv(s: State, w: Wid)
    requires Inv(s) && Enabled(s, Finish(w))
    ensures Inv(Next(s, Finish(w)))
  {
    var t := Next(s, Finish(w));
    var Waiting(cid, pid) := s.waiters[w];
    assert WaiterOk(s, w);
    if cid in s.containers && Listed(s, cid, pid) {
      WinnerKeepsInv(s, w);
    } else {
      forall v | v in t.waiters ensures WaiterOk(t, v) {
        assert WaiterOk(s, v);
      }
      forall q | q in t.table ensures ProcessOk(t, q) {
        assert ProcessOk(s, q);
      }
    }
  }

  lemma WinnerKeepsInv(s: State, w: Wid)
    requires Inv(s) && Signalled(s, w)
    requires s.waiters[w].cid in s.containers && Listed(s, s.waiters[w].cid, s.waiters[w].pid)
    ensures Inv(Finished(s, w))
  {
    var t := Finished(s, w);
    var pid := s.waiters[w].pid;
    var p := s.table[pid];
    assert ProcessOk(s, pid);
    forall v | v in t.waiters ensures WaiterOk(t, v) {
      assert WaiterOk(s, v);
      BroadcastOnce(s, p.watchers, p.exitCode, v);
    }
    forall q | q in t.table ensures ProcessOk(t, q) {
      assert ProcessOk(s, q);
    }
    forall v | v in t.channels ensures v in t.waiters && |t.channels[v]| <= 1 {
      BroadcastOnce(s, p.watchers, p.exitCode, v);
      assert v in s.waiters && WaiterOk(s, v);
      if v in p.watchers && Open(s, v) {
        assert s.waiters[v] == Waiting(p.cid, pid);
      }
    }
    BroadcastOnce(s, p.watchers, p.exitCode, w);
  }

  lemma StepKeepsInv(s: State, step: Step)
    requires Inv(s) && Enabled(s, step)
    ensures Inv(Next(s, step))
  {
    var t := Next(s, step);
    if step.Finish? {
      FinishKeepsInv(s, step.w);
    } else {
      forall v | v in t.waiters ensures WaiterOk(t, v) {
        StepKeepsWaiter(s, step, v);
      }
      forall q | q in t.table ensures ProcessOk(t, q) {
        StepKeepsProcess(s, step, q);
      }
    }
  }

  lemma StepKeepsWaiter(s: State, step: Step, v: Wid)
    requires Inv(s) && Enabled(s, step) && !step.Finish? && v in Next(s, step).waiters
    ensures WaiterOk(Next(s, step), v)
  {
    assert v in s.waiters ==> WaiterOk(s, v);
  }

  lemma StepKeepsProcess(s: State, step: Step, q: Pid)
    requires Inv(s) && Enabled(s, step) && !step.Finish? && q in Next(s, step).table
    ensures ProcessOk(Next(s, step), q)
  {
    assert q in s.table ==> ProcessOk(s, q);
  }

  // ---------------------------------------------------------------- runs

  predicate IsRun(steps: seq<Step>) {
    steps == [] || (IsRun(steps[..|steps| - 1]) && Enabled(After(steps[..|steps| - 1]), steps[|steps| - 1]))
  }

  /** The state a run leads to. */
  function After(steps: seq<Step>): State {
    if steps == [] then INIT
    else
      var s := After(steps[..|steps| - 1]);
      if Enabled(s, steps[|steps| - 1]) then Next(s, steps[|steps| - 1]) else s
  }

  lemma {:induction false} RunKeepsInv(steps: seq<Step>)
    requires IsRun(steps)
    ensures Inv(After(steps))
  {
    if steps == [] {
    } else {
      RunKeepsInv(steps[..|steps| - 1]);
      StepKeepsInv(After(steps[..|steps| - 1]), steps[|steps| - 1]);
    }
  }

  // ---------------------------------------------------------------- what the steps have done

  /** Step `k` reaps a process of the table. */
  ghost predicate ReapedAt(steps: seq<Step>, k: nat, pid: Pid, code: int)
    requires k < |steps|
  {
    steps[k] == Reap(pid, code) && pid in After(steps[..k]).table
  }

  ghost predicate Reaped(steps: seq<Step>, pid: Pid, code: int) {
    exists k :: 0 <= k < |steps| && ReapedAt(steps, k, pid, code)
  }

  lemma ReapedMore(rest: seq<Step>, last: Step, pid: Pid, code: int)
    ensures Reaped(rest + [last], pid, code) <==>
            Reaped(rest, pid, code) || (last == Reap(pid, code) && pid in After(rest).table)
  {
    var steps := rest + [last];
    assert steps[..|rest|] == rest;
    forall k | 0 <= k < |rest| ensures ReapedAt(steps, k, pid, code) <==> ReapedAt(rest, k, pid, code) {
      assert steps[..k] == rest[..k];
    }
    if Reaped(rest, pid, code) {
      var k :| 0 <= k < |rest| && ReapedAt(rest, k, pid, code);
      assert ReapedAt(steps, k, pid, code);
    }
    if last == Reap(pid, code) && pid in After(rest).table {
      assert ReapedAt(steps, |rest|, pid, code);
    }
  }

  /** A code is recorded by reaping a process of the table and in no other way. */
  lemma StepRecords(s: State, step: Step, pid: Pid, code: int)
    requires Enabled(s, step)
    ensures pid in Next(s, step).exits && Next(s, step).exits[pid] == code <==>
            (pid in s.exits && s.exits[pid] == code) || (step == Reap(pid, code) && pid in s.table)
  {
  }

  /** The recorded codes are exactly those with which the processes of the table were reaped. */
  lemma {:induction false} ExitsAreReaps(steps: seq<Step>, pid: Pid, code: int)
    requires IsRun(steps)
    ensures pid in After(steps).exits && After(steps).exits[pid] == code <==> Reaped(steps, pid, code)
  {
    if steps == [] {
    } else {
      var rest, last := steps[..|steps| - 1], steps[|steps| - 1];
      ExitsAreReaps(rest, pid, code);
      ReapedMore(rest, last, pid, code);
      StepRecords(After(rest), last, pid, code);
      assert steps == rest + [last];
    }
  }

  /** Step `k` starts the process, as the init process of its container or by its exec id. */
  predicate StartsAt(steps: seq<Step>, k: nat, cid: Cid, pid: Pid, execId: string)
    requires k < |steps|
  {
    Starts(steps[k], cid, pid, execId)
  }

  predicate Starts(step: Step, cid: Cid, pid: Pid, execId: string) {
    (step == Create(cid, pid) && execId == cid) || step == Exec(cid, pid, execId)
  }

  /** The container is not removed after step `k`. */
  ghost predicate KeptSince(steps: seq<Step>, k: nat, cid: Cid) {
    forall j :: k < j < |steps| ==> steps[j] != RemoveContainer(cid)
  }

  /** The process was started so and its container was not removed since. */
  ghost predicate Alive(steps: seq<Step>, cid: Cid, pid: Pid, execId: string) {
    exists k :: 0 <= k < |steps| && StartsAt(steps, k, cid, pid, execId) && KeptSince(steps, k, cid)
  }

  /** The container was created with that init process and not removed since. */
  ghost predicate Created(steps: seq<Step>, cid: Cid, pid: Pid) {
    exists k :: 0 <= k < |steps| && steps[k] == Create(cid, pid) && KeptSince(steps, k, cid)
  }

  lemma KeptMore(rest: seq<Step>, last: Step, cid: Cid)
    ensures forall k :: 0 <= k < |rest| ==>
              (KeptSince(rest + [last], k, cid) <==> KeptSince(rest, k, cid) && last != RemoveContainer(cid))
    ensures KeptSince(rest + [last], |rest|, cid)
  {
    var steps := rest + [last];
    assert steps[|rest|] == last && forall j :: 0 <= j < |rest| ==> steps[j] == rest[j];
    forall k | 0 <= k < |rest| && KeptSince(steps, k, cid) ensures KeptSince(rest, k, cid) && last != RemoveContainer(cid) {
      assert steps[|rest|] != RemoveContainer(cid);
      assert forall j :: k < j < |rest| ==> rest[j] == steps[j];
    }
  }

  lemma AliveMore(rest: seq<Step>, last: Step, cid: Cid, pid: Pid, execId: string)
    ensures Alive(rest + [last], cid, pid, execId) <==>
            Starts(last, cid, pid, execId) || (Alive(rest, cid, pid, execId) && last != RemoveContainer(cid))
  {
    var steps := rest + [last];
    KeptMore(rest, last, cid);
    assert steps[|rest|] == last && forall j :: 0 <= j < |rest| ==> steps[j] == rest[j];
    if Starts(last, cid, pid, execId) {
      assert StartsAt(steps, |rest|, cid, pid, execId);
    }
    if Alive(rest, cid, pid, execId) && last != RemoveContainer(cid) {
      var k :| 0 <= k < |rest| && StartsAt(rest, k, cid, pid, execId) && KeptSince(rest, k, cid);
      assert StartsAt(steps, k, cid, pid, execId);
    }
    if Alive(steps, cid, pid, execId) && !Starts(last, cid, pid, execId) {
      var k :| 0 <= k < |steps| && StartsAt(steps, k, cid, pid, execId) && KeptSince(steps, k, cid);
      assert StartsAt(rest, k, cid, pid, execId);
    }
  }

  lemma CreatedMore(rest: seq<Step>, last: Step, cid: Cid, pid: Pid)
    ensures Created(rest + [last], cid, pid) <==>
            last == Create(cid, pid) || (Created(rest, cid, pid) && last != RemoveContainer(cid))
  {
    var steps := rest + [last];
    KeptMore(rest, last, cid);
    assert steps[|rest|] == last && forall j :: 0 <= j < |rest| ==> steps[j] == rest[j];
    if Created(rest, cid, pid) && last != RemoveContainer(cid) {
      var k :| 0 <= k < |rest| && rest[k] == Create(cid, pid) && KeptSince(rest, k, cid);
      assert steps[k] == Create(cid, pid);
    }
    if Created(steps, cid, pid) && last != Create(cid, pid) {
      var k :| 0 <= k < |steps| && steps[k] == Create(cid, pid) && KeptSince(steps, k, cid);
      assert rest[k] == Create(cid, pid);
    }
  }

  predicate ListedAs(s: State, cid: Cid, pid: Pid, execId: string) {
    pid in s.table && s.table[pid].cid == cid && s.table[pid].execId == execId
  }

  lemma StepLists(s: State, step: Step, cid: Cid, pid: Pid, execId: string)
    requires Enabled(s, step) && Inv(s)
    ensures ListedAs(Next(s, step), cid, pid, execId) <==>
            Starts(step, cid, pid, execId) ||
            (ListedAs(s, cid, pid, execId) && step != RemoveContainer(cid) && pid !in Next(s, step).removals)
    ensures Starts(step, cid, pid, execId) ==> pid !in s.used && pid in Next(s, step).used && pid !in Next(s, step).removals
    ensures pid in s.removals ==> pid in Next(s, step).removals
    ensures pid in Next(s, step).removals && pid !in s.removals ==> pid in s.table
    ensures s.used <= Next(s, step).used
  {
    assert pid in s.table ==> ProcessOk(s, pid);
  }

  /** The processes listed are exactly those that were started, whose container was not removed since, and
      that no waiter has removed. */
  lemma {:induction false} TableExactly(steps: seq<Step>, cid: Cid, pid: Pid, execId: string)
    requires IsRun(steps)
    ensures ListedAs(After(steps), cid, pid, execId) <==>
            Alive(steps, cid, pid, execId) && pid !in After(steps).removals
    ensures Alive(steps, cid, pid, execId) ==> pid in After(steps).used
  {
    if steps == [] {
    } else {
      var rest, last := steps[..|steps| - 1], steps[|steps| - 1];
      TableExactly(rest, cid, pid, execId);
      RunKeepsInv(rest);
      AliveMore(rest, last, cid, pid, execId);
      StepLists(After(rest), last, cid, pid, execId);
      assert steps == rest + [last];
    }
  }

  lemma StepCreates(s: State, step: Step, cid: Cid, pid: Pid)
    requires Enabled(s, step)
    ensures cid in Next(s, step).containers && Next(s, step).containers[cid] == pid <==>
            step == Create(cid, pid) || (cid in s.containers && s.containers[cid] == pid && step != RemoveContainer(cid))
  {
  }

  /** The containers are exactly those created and not removed since. */
  lemma {:induction false} ContainersExactly(steps: seq<Step>, cid: Cid, pid: Pid)
    requires IsRun(steps)
    ensures cid in After(steps).containers && After(steps).containers[cid] == pid <==> Created(steps, cid, pid)
  {
    if steps == [] {
    } else {
      var rest, last := steps[..|steps| - 1], steps[|steps| - 1];
      ContainersExactly(rest, cid, pid);
      CreatedMore(rest, last, cid, pid);
      StepCreates(After(rest), last, cid, pid);
      assert steps == rest + [last];
    }
  }

  /** The waiter registered for the process, and stands where its own steps have brought it. */
  ghost predicate WaiterFollows(steps: seq<Step>, w: Wid, waiter: Waiter) {
    match waiter
    case Waiting(cid, pid) => Register(w, cid, pid) in steps && Finish(w) !in steps && Cancel(w) !in steps
    case Returned(pid, _) => (exists cid :: Register(w, cid, pid) in steps) && Finish(w) in steps
    case Failed => Finish(w) in steps || Cancel(w) in steps
  }

  ghost predicate Follows(steps: seq<Step>, s: State, w: Wid) {
    && (w in s.waiters <==> exists cid, pid :: Register(w, cid, pid) in steps)
    && (if w in s.waiters then WaiterFollows(steps, w, s.waiters[w]) else Finish(w) !in steps && Cancel(w) !in steps)
  }

  lemma InLonger(steps: seq<Step>, step: Step, x: Step)
    ensures x in steps + [step] <==> x in steps || x == step
  {
  }

  lemma FinishFollows(s: State, w: Wid)
    requires Signalled(s, w)
    ensures w in Finished(s, w).waiters && !Finished(s, w).waiters[w].Waiting?
    ensures Finished(s, w).waiters[w].Returned? ==> Finished(s, w).waiters[w].pid == s.waiters[w].pid
    ensures forall v :: v != w ==> (v in Finished(s, w).waiters <==> v in s.waiters)
    ensures forall v :: v != w && v in s.waiters ==> Finished(s, w).waiters[v] == s.waiters[v]
  {
  }

  lemma FollowsMore(rest: seq<Step>, s: State, last: Step, w: Wid)
    requires Enabled(s, last) && Follows(rest, s, w)
    ensures Follows(rest + [last], Next(s, last), w)
  {
    var steps := rest + [last];
    forall x ensures x in steps <==> x in rest || x == last {
      InLonger(rest, last, x);
    }
    if last.Finish? {
      FinishFollows(s, last.w);
    }
  }

  /** There is a waiter exactly if it registered. It returned or failed by finishing, or failed by being
      cancelled, and waits otherwise. */
  lemma {:induction false} WaitersExactly(steps: seq<Step>, w: Wid)
    requires IsRun(steps)
    ensures Follows(steps, After(steps), w)
  {
    if steps == [] {
    } else {
      var rest, last := steps[..|steps| - 1], steps[|steps| - 1];
      WaitersExactly(rest, w);
      FollowsMore(rest, After(rest), last, w);
      assert steps == rest + [last];
    }
  }

  /** Some waiter has returned for the process. */
  ghost predicate ReturnedFor(s: State, pid: Pid) {
    exists w :: w in s.waiters && s.waiters[w].Returned? && s.waiters[w].pid == pid
  }

  lemma StepRemoves(s: State, step: Step, pid: Pid)
    requires Enabled(s, step) && (pid in s.removals ==> ReturnedFor(s, pid))
    ensures pid in Next(s, step).removals ==> ReturnedFor(Next(s, step), pid)
  {
    var t := Next(s, step);
    if pid in s.removals {
      var w :| w in s.waiters && s.waiters[w].Returned? && s.waiters[w].pid == pid;
      assert w in t.waiters && t.waiters[w] == s.waiters[w];
    } else if pid in t.removals {
      assert t.waiters[step.w].Returned? && t.waiters[step.w].pid == pid;
    }
  }

  /** What a waiter has removed, a waiter has returned for. */
  lemma {:induction false} RemovedByWaiter(steps: seq<Step>, pid: Pid)
    requires IsRun(steps)
    ensures pid in After(steps).removals ==> ReturnedFor(After(steps), pid)
  {
    if steps == [] {
    } else {
      RemovedByWaiter(steps[..|steps| - 1], pid);
      StepRemoves(After(steps[..|steps| - 1]), steps[|steps| - 1], pid);
    }
  }

  lemma ReapedIsStep(steps: seq<Step>, pid: Pid, code: int)
    requires Reaped(steps, pid, code)
    ensures Reap(pid, code) in steps
  {
  }

  function Occurrences(xs: seq<Pid>, x: Pid): nat {
    multiset(xs)[x]
  }

  lemma {:induction false} DistinctOccursOnce(xs: seq<Pid>, x: Pid)
    requires NoDuplicates(xs)
    ensures Occurrences(xs, x) == if x in xs then 1 else 0
  {
    if xs == [] {
    } else {
      var rest, last := xs[..|xs| - 1], xs[|xs| - 1];
      assert xs == rest + [last];
      DistinctOccursOnce(rest, x);
      assert last !in rest;
    }
  }

  /** In every interleaving a waiter that returns a status had registered for a process that was reaped
      with that status and no other, and the process was removed by exactly one waiter; no process is
      removed twice. */
  lemma ExitAgreement(steps: seq<Step>, w: Wid, pid: Pid)
    requires IsRun(steps)
    ensures var s := After(steps);
            && (w in s.waiters && s.waiters[w].Returned? && s.waiters[w].pid == pid ==>
                  && Reap(pid, s.waiters[w].status) in steps
                  && (forall code :: Reaped(steps, pid, code) <==> code == s.waiters[w].status)
                  && (exists cid :: Register(w, cid, pid) in steps)
                  && Occurrences(s.removals, pid) == 1 && pid !in s.table)
            && Occurrences(s.removals, pid) <= 1
  {
    var s := After(steps);
    RunKeepsInv(steps);
    WaitersExactly(steps, w);
    DistinctOccursOnce(s.removals, pid);
    if w in s.waiters && s.waiters[w].Returned? && s.waiters[w].pid == pid {
      assert WaiterOk(s, w) && WaiterFollows(steps, w, s.waiters[w]);
      forall code ensures Reaped(steps, pid, code) <==> code == s.waiters[w].status {
        ExitsAreReaps(steps, pid, code);
      }
      ReapedIsStep(steps, pid, s.waiters[w].status);
    }
    if pid in s.table {
      assert ProcessOk(s, pid);
    }
  }

  /** No exit channel ever holds more than one message, so no send waits for room. */
  lemma ChannelsStayShort(steps: seq<Step>, w: Wid)
    requires IsRun(steps) && w in After(steps).channels
    ensures |After(steps).channels[w]| <= 1 < CHANNEL_CAPACITY
  {
    RunKeepsInv(steps);
  }

  /** A waiter whose process was reaped or is gone can always finish. If it lost the race while its
      container is there, its channel holds exactly the code the process was reaped with when a waiter
      removed the process; otherwise the container was replaced, and the channel is empty with no sender left. */
  lemma NoStuckWaiter(steps: seq<Step>, w: Wid)
    requires IsRun(steps) && Signalled(After(steps), w)
    ensures var s := After(steps);
            var Waiting(cid, pid) := s.waiters[w];
            && Enabled(s, Finish(w))
            && (cid in s.containers && !Listed(s, cid, pid) ==>
                  && w in s.channels
                  && if pid in s.removals then |s.channels[w]| == 1 && Reaped(steps, pid, s.channels[w][0])
                     else s.channels[w] == [] && !SenderAlive(s, w))
  {
    var s := After(steps);
    RunKeepsInv(steps);
    assert WaiterOk(s, w);
    if s.waiters[w].pid in s.exits {
      ExitsAreReaps(steps, s.waiters[w].pid, s.exits[s.waiters[w].pid]);
    }
    forall q | q in s.table && w in s.table[q].watchers ensures q == s.waiters[w].pid {
      assert ProcessOk(s, q);
    }
  }

  /** Once the reaper has recorded a code, a waiter of that process in a live container that
      finishes returns that code, whether it wins or loses. */
  lemma FinishReturnsCode(steps: seq<Step>, w: Wid)
    requires IsRun(steps) && Signalled(After(steps), w)
    requires var s := After(steps); s.waiters[w].cid in s.containers
                                    && (s.waiters[w].pid in s.table || s.waiters[w].pid in s.removals)
    ensures var s := After(steps);
            var pid := s.waiters[w].pid;
            && Finished(s, w).waiters[w].Returned? && Finished(s, w).waiters[w].pid == pid
            && Reaped(steps, pid, Finished(s, w).waiters[w].status)
  {
    var s := After(steps);
    var pid := s.waiters[w].pid;
    RunKeepsInv(steps);
    assert WaiterOk(s, w);
    if pid in s.table {
      assert ProcessOk(s, pid);
    }
    ExitsAreReaps(steps, pid, s.exits[pid]);
  }
}
