/**
 The monitor object as the runtime updates it under its lock. Every method is tied to the step of the
 monitor it takes; starting a goroutine and sending a stop token are counted.
 */
module MonitorObject {
  import opened MonitorModel

  class Monitor {
    var channels: seq<Channel>
    var watchers: seq<nat>
    var running: bool
    var tokens: nat
    var goroutines: nat
    var notifying: nat
    var waiting: bool
    var log: seq<Failure>
    var panics: nat

    ghost function Contents(): State
      reads this
    {
      State(channels, watchers, running, tokens, goroutines, notifying, waiting, log, panics)
    }

    /** The watchers are channels of this monitor. */
    ghost predicate InRange()
      reads this
    {
      forall k :: 0 <= k < |watchers| ==> watchers[k] < |channels|
    }

    constructor ()
      ensures Contents() == Init()
    {
      channels, watchers, running, tokens, goroutines := [], [], false, 0, 0;
      notifying, waiting, log, panics := 0, false, [], 0;
    }

    /** Adds a channel and starts the goroutine if none runs. */
    method NewWatcher() returns (c: nat)
      requires Enabled(Contents(), Step.NewWatcher)
      modifies this
      ensures Contents() == Next(old(Contents()), Step.NewWatcher) && c == |old(channels)|
    {
      c := |channels|;
      channels := channels + [Channel([], [], false, |log|, 0)];
      watchers := watchers + [c];
      if !running {
        running := true;
        goroutines := goroutines + 1;
      }
    }

    /** Offers a failure to every watcher while the monitor runs. */
    method Notify(e: Failure)
      requires InRange() && Enabled(Contents(), Step.Notify(e))
      modifies this
      ensures Contents() == Next(old(Contents()), Step.Notify(e))
    {
      notifying := notifying - 1;
      if !running {
        return;
      }
      log := log + [e];
      var panicked := SendAll(e);
      if panicked {
        panics := panics + 1;
      }
    }

    method SendAll(e: Failure) returns (panicked: bool)
      requires InRange()
      modifies this`channels
      ensures Loop(channels, panicked) == SendLoop(old(channels), watchers, e)
    {
      ghost var was := channels;
      for k := 0 to |watchers|
        invariant Loop(channels, false) == SendLoop(was, watchers[..k], e)
      {
        assert watchers[..k + 1][..k] == watchers[..k];
        var c := watchers[k];
        if channels[c].closed {
          PanicStays(was, watchers, k + 1, e, 0);
          return true;
        }
        channels := channels[c := Offered(channels[c], e)];
      }
      assert watchers[..|watchers|] == watchers;
      panicked := false;
    }

    /** Leaves a stop token and closes every watcher's channel, or waits if there is no room for it. */
    method Stop()
      requires InRange() && Enabled(Contents(), Step.Stop)
      modifies this
      ensures Contents() == Next(old(Contents()), Step.Stop)
    {
      if !running {
        return;
      }
      if tokens < STOP_CHANNEL_SIZE {
        FinishStop();
      } else {
        waiting := true;
      }
    }

    /** A stop that waited goes on once there is room for its token. */
    method Resume()
      requires InRange() && Enabled(Contents(), Step.Resume)
      modifies this
      ensures Contents() == Next(old(Contents()), Step.Resume)
    {
      FinishStop();
    }

    /** Leaves the token, for which there is room, and closes the channels. */
    method FinishStop()
      requires InRange() && tokens < STOP_CHANNEL_SIZE
      modifies this
      ensures Contents() == Stopped(old(Contents())) && tokens <= STOP_CHANNEL_SIZE
    {
      tokens, waiting := tokens + 1, false;
      var panicked := CloseAll();
      if panicked {
        panics := panics + 1;
      }
      watchers, running := [], false;
    }

    method CloseAll() returns (panicked: bool)
      requires InRange()
      modifies this`channels
      ensures Loop(channels, panicked) == CloseLoop(old(channels), watchers, |log|)
    {
      ghost var was := channels;
      for k := 0 to |watchers|
        invariant Loop(channels, false) == CloseLoop(was, watchers[..k], |log|)
      {
        assert watchers[..k + 1][..k] == watchers[..k];
        var c := watchers[k];
        if channels[c].closed {
          PanicStays(was, watchers, k + 1, "", |log|);
          return true;
        }
        channels := channels[c := Shut(channels[c], |log|)];
      }
      assert watchers[..|watchers|] == watchers;
      panicked := false;
    }
  }
}
