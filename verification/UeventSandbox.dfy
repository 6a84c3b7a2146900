/**
 The event map and the watcher slots of the sandbox as the agent updates them under the sandbox
 lock. Every method is tied to the step of the rendezvous it takes.
 */
module UeventSandbox {
  import opened Wrappers
  import opened UeventRendezvous

  class Sandbox {
    var events: map<string, Uevent>
    var watchers: seq<Option<Watcher>>
    var requests: map<Wid, Request>
    var log: seq<Uevent>

    ghost function Contents(): State
      reads this
    {
      State(events, watchers, requests, log)
    }

    constructor ()
      ensures Contents() == Init()
    {
      events, watchers, requests, log := map[], [], map[], [];
    }

    /** Records an added device and hands the event to every watcher that wants it. */
    method ProcessAdd(e: Uevent)
      requires e.action == ACTION_ADD
      modifies this
      ensures Contents() == Next(old(Contents()), Process(e))
    {
      if IsMemory(e) {
        return;
      }
      events := events[e.devpath := e];
      log := log + [e];
      ghost var s := Contents();
      for i := 0 to |watchers|
        invariant |watchers| == |s.watchers|
        invariant Contents() == OfferAll(s, e, i)
      {
        if watchers[i].Some? && watchers[i].value.matcher(e) {
          var w := watchers[i].value.sender;
          watchers := watchers[i := None];
          if w in requests {
            requests := requests[w := requests[w].(sent := requests[w].sent + [e])];
          }
        }
      }
    }

    method ProcessRemove(e: Uevent)
      requires e.action == ACTION_REMOVE
      modifies this`events
      ensures Contents() == Next(old(Contents()), Process(e))
    {
      events := events - {e.devpath};
    }

    /** The locked stretch of a wait: return a recorded event that matches, or push a watcher and
        save its index. */
    method WaitForUevent(w: Wid, m: Matcher) returns (found: Option<Uevent>)
      requires w !in requests
      modifies this
      ensures found.Some? <==> Known(old(Contents()), m)
      ensures found.Some? ==> m(found.value) && found.value in old(events).Values && Contents() == old(Contents())
      ensures found.None? ==> Contents() == Next(old(Contents()), Wait(w, m))
    {
      var paths := events.Keys;
      while paths != {}
        invariant paths <= events.Keys && Contents() == old(Contents())
        invariant forall d :: d in events && d !in paths ==> !m(events[d])
        decreases paths
      {
        var d :| d in paths;
        if m(events[d]) {
          return Some(events[d]);
        }
        paths := paths - {d};
      }
      requests := requests[w := Request(|watchers|, m, |log|, Pending, [])];
      watchers := watchers + [Some(Watcher(m, w))];
      found := None;
    }

    /** The locked stretch of a timeout; `ok` is false where the agent aborts on an empty slot. */
    method DisarmWatcher(w: Wid) returns (ok: bool)
      requires Enabled(Contents(), Disarm(w))
      modifies this
      ensures Contents() == Next(old(Contents()), Disarm(w))
      ensures ok <==> requests[w].phase.TimedOut?
    {
      var r := requests[w];
      ok := watchers[r.index].Some?;
      if ok {
        watchers := watchers[r.index := None];
        requests := requests[w := r.(phase := TimedOut(|log|))];
      } else {
        requests := requests[w := r.(phase := Panicked)];
      }
    }
  }
}
