/**
 The process table of the sandbox as the agent updates it under the sandbox lock. Every method is
 one locked stretch and is tied to the step of the protocol it takes.
 */
module ProcessExitSandbox {
  import opened Wrappers
  import opened Sequences
  import opened ProcessExit

  /** What `waitpid` reports about a child. */
  datatype WaitStatus = Exited(pid: Pid, code: int) | Signaled(pid: Pid, signal: int) | Other(pid: Pid)

  /** Some element of a set: map iteration has no fixed order. */
  method NextOf<T>(s: set<T>) returns (x: T)
    requires s != {}
    ensures x in s
  {
    x :| x in s;
  }

  /** The exec id names the process in its container; the empty id names the init process. */
  predicate Names(s: State, cid: Cid, eid: string, pid: Pid) {
    cid in s.containers && Listed(s, cid, pid) &&
    if eid == "" then pid == s.containers[cid] else s.table[pid].execId == eid
  }

  class Sandbox {
    var containers: map<Cid, Pid>
    var table: map<Pid, Process>
    var channels: map<Wid, seq<int>>
    var waiters: map<Wid, Waiter>
    ghost var exits: map<Pid, int>
    ghost var used: set<Pid>
    ghost var removals: seq<Pid>

    ghost function Contents(): State
      reads this
    {
      State(containers, table, channels, waiters, exits, used, removals)
    }

    constructor ()
      ensures Contents() == INIT
    {
      containers, table, channels, waiters := map[], map[], map[], map[];
      exits, used, removals := map[], {}, [];
    }

    /** Looks up a process by exec id, or the init process for the empty id. */
    method FindContainerProcess(cid: Cid, eid: string) returns (r: Option<Pid>)
      ensures r.Some? ==> Names(Contents(), cid, eid, r.value)
      ensures r.None? ==> forall pid :: !Names(Contents(), cid, eid, pid)
    {
      if cid !in containers {
        return None;
      }
      if eid == "" {
        var init := containers[cid];
        return if init in table && table[init].cid == cid then Some(init) else None;
      }
      var pids := table.Keys;
      while pids != {}
        invariant pids <= table.Keys
        invariant forall pid :: Listed(Contents(), cid, pid) ==> pid in pids || table[pid].execId != eid
        decreases pids
      {
        var pid := NextOf(pids);
        if table[pid].cid == cid && table[pid].execId == eid {
          return Some(pid);
        }
        pids := pids - {pid};
      }
      r := None;
    }

    /** One round of the SIGCHLD handler: records an exit code, or the number of the killing signal,
        and drops the exit sender. Other reports and unknown children are ignored. */
    method HandleChild(status: WaitStatus)
      requires status.pid !in exits
      modifies this`table, this`exits
      ensures match status
              case Exited(pid, code) => Contents() == Next(old(Contents()), Reap(pid, code))
              case Signaled(pid, signal) => Contents() == Next(old(Contents()), Reap(pid, signal))
              case Other(_) => Contents() == old(Contents())
      ensures table.Keys == old(table).Keys && forall pid :: pid in table && pid != status.pid ==> table[pid] == old(table)[pid]
      ensures status.pid in table && !status.Other? ==>
                var p, was := table[status.pid], old(table)[status.pid];
                && p.exitCode == (if status.Exited? then status.code else status.signal) && !p.running
                && p.cid == was.cid && p.execId == was.execId && p.watchers == was.watchers
    {
      if status.pid !in table || status.Other? {
        return;
      }
      var code := if status.Exited? then status.code else status.signal;
      table := table[status.pid := table[status.pid].(exitCode := code, running := false)];
      exits := exits[status.pid := code];
    }

    /** The first locked stretch of a wait request. */
    method RegisterWaiter(w: Wid, cid: Cid, eid: string) returns (r: Option<Pid>)
      requires w !in waiters
      modifies this
      ensures r.None? ==> Contents() == old(Contents()) && forall pid :: !Names(old(Contents()), cid, eid, pid)
      ensures r.Some? ==> Names(old(Contents()), cid, eid, r.value)
      ensures r.Some? ==> Enabled(old(Contents()), Register(w, cid, r.value))
                          && Contents() == Next(old(Contents()), Register(w, cid, r.value))
    {
      r := FindContainerProcess(cid, eid);
      if r.Some? {
        var p := table[r.value];
        table := table[r.value := p.(watchers := p.watchers + [w])];
        channels := channels[w := []];
        waiters := waiters[w := Waiting(cid, r.value)];
      }
    }

    /** Sends the code to every watcher that is still there; no send finds its channel full. */
    method SendToWatchers(watchers: seq<Wid>, code: int)
      requires NoDuplicates(watchers)
      requires forall v :: v in channels ==> |channels[v]| <= 1
      modifies this`channels
      ensures channels == Broadcast(old(Contents()), watchers, code)
    {
      assert watchers[..0] == [];
      for i := 0 to |watchers|
        invariant channels == Broadcast(old(Contents()), watchers[..i], code)
      {
        var v := watchers[i];
        assert watchers[..i + 1][..i] == watchers[..i];
        BroadcastOnce(old(Contents()), watchers[..i], code, v);
        if v in channels && v in waiters && waiters[v].Waiting? {
          assert |channels[v]| < CHANNEL_CAPACITY;
          channels := channels[v := channels[v] + [code]];
        }
      }
      assert watchers[..|watchers|] == watchers;
    }

    /** The second locked stretch: take the code from the channel, or broadcast it and remove the
        process. */
    method FinishWaiter(w: Wid) returns (status: Option<int>)
      requires Inv(Contents()) && Enabled(Contents(), Finish(w))
      modifies this
      ensures Contents() == Next(old(Contents()), Finish(w))
      ensures waiters[w] == if status.Some? then Returned(old(waiters)[w].pid, status.value) else Failed
    {
      var cid, pid := waiters[w].cid, waiters[w].pid;
      if cid !in containers {
        waiters := waiters[w := Failed];
        return None;
      }
      if pid !in table || table[pid].cid != cid {
        if w in channels && channels[w] != [] {
          status := Some(channels[w][0]);
          channels := channels[w := channels[w][1..]];
          waiters := waiters[w := Returned(pid, status.value)];
        } else {
          status := None;
          waiters := waiters[w := Failed];
        }
        return;
      }
      var p := table[pid];
      assert ProcessOk(Contents(), pid);
      SendToWatchers(p.watchers, p.exitCode);
      waiters := waiters[w := Returned(pid, p.exitCode)];
      table := table - {pid};
      removals := removals + [pid];
      status := Some(p.exitCode);
    }
  }
}
