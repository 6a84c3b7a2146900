/**
 What the device update means as a whole: one simultaneous renumbering, which the opposite renumbering
 undoes exactly when every change can be traced and no other rule is caught by it.
 */
module DeviceSpecLaws {
  import opened Wrappers
  import opened DeviceSpec

  ghost predicate CanUpdate(devices: seq<Device>, updates: Updates) {
    AllNamed(devices, updates) && NoConflict(devices, updates, |devices|)
  }

  function Keyed(devices: seq<Device>, updates: Updates): map<Key, Numbers> {
    KeyedUpdates(devices, updates, |devices|)
  }

  /** A rule about an updated device is about it afterwards, and every other rule is left as it is. */
  lemma RulesFollowDevices(devices: seq<Device>, updates: Updates, r: Rule)
    requires NoConflict(devices, updates, |devices|)
    ensures forall i :: 0 <= i < |devices| && Hit(devices, updates, i) && Names(r, devices[i]) ==>
              Names(NewRule(Keyed(devices, updates), r), NewDevices(devices, updates)[i])
    ensures (forall i :: 0 <= i < |devices| && Hit(devices, updates, i) ==> !Names(r, devices[i])) ==>
              NewRule(Keyed(devices, updates), r) == r
    ensures NewRule(Keyed(devices, updates), r).kind == r.kind && NewRule(Keyed(devices, updates), r).other == r.other
  {
    RuleIsUpdated(devices, updates, r);
    DevicesAreUpdated(devices, updates);
  }

  // ---------------------------------------------------------------- undoing an update

  /** Device `i` is updated and ends up at path `p`. */
  predicate EndsAt(devices: seq<Device>, updates: Updates, p: string, i: nat)
    requires i < |devices|
  {
    Hit(devices, updates, i) && NewDevice(devices, updates, i).path == p
  }

  /** The first updated device, from `n` on, that ends up at path `p`. */
  function Owner(devices: seq<Device>, updates: Updates, p: string, n: nat): (i: nat)
    requires n <= |devices| && exists i :: n <= i < |devices| && EndsAt(devices, updates, p, i)
    ensures n <= i < |devices| && EndsAt(devices, updates, p, i)
    ensures forall j :: n <= j < i ==> !EndsAt(devices, updates, p, j)
    decreases |devices| - n
  {
    if EndsAt(devices, updates, p, n) then n else Owner(devices, updates, p, n + 1)
  }

  function GuestPaths(devices: seq<Device>, updates: Updates): set<string> {
    set i | 0 <= i < |devices| && Hit(devices, updates, i) :: NewDevice(devices, updates, i).path
  }

  lemma GuestPathIsOwned(devices: seq<Device>, updates: Updates, p: string)
    ensures p in GuestPaths(devices, updates) <==> exists i :: 0 <= i < |devices| && EndsAt(devices, updates, p, i)
  {
    if i :| 0 <= i < |devices| && EndsAt(devices, updates, p, i) {
      assert NewDevice(devices, updates, i).path == p;
    }
    if p in GuestPaths(devices, updates) {
      var i :| 0 <= i < |devices| && Hit(devices, updates, i) && NewDevice(devices, updates, i).path == p;
      assert EndsAt(devices, updates, p, i);
    }
  }

  /** The update of a device that gives it its numbers and path back. */
  function Back(d: Device): Update {
    Update(Numbers(d.major, d.minor), Some(d.path))
  }

  /** The updates that give every updated device its host numbers and its path back. */
  function Opposite(devices: seq<Device>, updates: Updates): Updates {
    map p | p in GuestPaths(devices, updates) ::
      assert exists i :: 0 <= i < |devices| && EndsAt(devices, updates, p, i) by { GuestPathIsOwned(devices, updates, p); }
      Back(devices[Owner(devices, updates, p, 0)])
  }

  /** Once updated, device `i` is restored. */
  ghost predicate RestoredAt(devices: seq<Device>, updates: Updates, i: nat)
    requires i < |devices|
  {
    NewDevice(NewDevices(devices, updates), Opposite(devices, updates), i) == devices[i]
  }

  /** The update of device `i` does nothing, or no device before it ends up at the same path. */
  ghost predicate Traceable(devices: seq<Device>, updates: Updates, i: nat)
    requires i < |devices|
  {
    Hit(devices, updates, i) && NewDevice(devices, updates, i) != devices[i] ==> IsFirst(NewDevices(devices, updates), i)
  }

  lemma RestoredNeedsTraceable(devices: seq<Device>, updates: Updates, i: nat)
    requires i < |devices| && RestoredAt(devices, updates, i)
    ensures Traceable(devices, updates, i)
  {
  }

  /** A device that comes first with its new path and is no owner of it lies before a device that cannot be
      traced. */
  lemma OwnerBehind(devices: seq<Device>, updates: Updates, i: nat, o: nat)
    requires i < o < |devices| && EndsAt(devices, updates, NewDevices(devices, updates)[i].path, o)
    requires !Hit(devices, updates, i)
    ensures !Traceable(devices, updates, o)
  {
    assert devices[i].path == NewDevice(devices, updates, i).path;
    assert devices[i].path != devices[o].path;
    assert NewDevices(devices, updates)[o] == NewDevice(devices, updates, o);
  }

  ghost predicate AllTraceable(devices: seq<Device>, updates: Updates) {
    forall k :: 0 <= k < |devices| ==> Traceable(devices, updates, k)
  }

  lemma TraceableIsRestored(devices: seq<Device>, updates: Updates, i: nat)
    requires i < |devices| && AllTraceable(devices, updates)
    ensures RestoredAt(devices, updates, i)
  {
    var after, back := NewDevices(devices, updates), Opposite(devices, updates);
    var p := after[i].path;
    GuestPathIsOwned(devices, updates, p);
    if Hit(devices, updates, i) {
      assert EndsAt(devices, updates, p, i);
    }
    if IsFirst(after, i) && p in back {
      var o := Owner(devices, updates, p, 0);
      if o < i {
        assert false;
      }
      if i < o {
        OwnerBehind(devices, updates, i, o);
        assert false;
      }
      assert back[p] == Back(devices[i]);
    } else {
      assert Traceable(devices, updates, i);
    }
  }

  /** The opposite update restores every device exactly when every update that changes something can be
      traced: no device before the updated one ends up at the same path. */
  lemma UndoDevicesExactly(devices: seq<Device>, updates: Updates)
    ensures NewDevices(NewDevices(devices, updates), Opposite(devices, updates)) == devices <==>
            AllTraceable(devices, updates)
  {
    var twice := NewDevices(NewDevices(devices, updates), Opposite(devices, updates));
    if AllTraceable(devices, updates) {
      forall i | 0 <= i < |devices| ensures twice[i] == devices[i] {
        TraceableIsRestored(devices, updates, i);
      }
    }
    if twice == devices {
      forall i | 0 <= i < |devices| ensures Traceable(devices, updates, i) {
        assert twice[i] == devices[i];
        RestoredNeedsTraceable(devices, updates, i);
      }
    }
  }

  /** Device `i` is the first at a path to which some device is updated. */
  ghost predicate Reached(devices: seq<Device>, updates: Updates, i: nat)
    requires i < |devices|
  {
    IsFirst(NewDevices(devices, updates), i) && NewDevices(devices, updates)[i].path in GuestPaths(devices, updates)
  }

  /** Device `i` is updated and the first at its new path. */
  predicate Traced(devices: seq<Device>, updates: Updates, i: nat)
    requires i < |devices|
  {
    Hit(devices, updates, i) && IsFirst(NewDevices(devices, updates), i)
  }

  /** If every change can be traced, the devices the opposite update hits are the traced ones. */
  lemma ReachedIsTraced(devices: seq<Device>, updates: Updates, i: nat)
    requires AllTraceable(devices, updates) && i < |devices|
    ensures Reached(devices, updates, i) <==> Traced(devices, updates, i)
  {
    var after := NewDevices(devices, updates);
    var p := after[i].path;
    GuestPathIsOwned(devices, updates, p);
    if Traced(devices, updates, i) {
      assert EndsAt(devices, updates, p, i);
    }
    if Reached(devices, updates, i) && !Hit(devices, updates, i) {
      var o := Owner(devices, updates, p, 0);
      assert after[o].path == p;
      OwnerBehind(devices, updates, i, o);
      assert false;
    }
  }

  /** A rule is caught by the opposite update: it named no traced device, yet it now names one. */
  ghost predicate Caught(devices: seq<Device>, updates: Updates, r: Rule) {
    && (forall i :: 0 <= i < |devices| && Traced(devices, updates, i) ==> !Names(r, devices[i]))
    && (exists i :: 0 <= i < |devices| && Traced(devices, updates, i) &&
                    Names(r, NewDevices(devices, updates)[i]))
  }

  /** Both the update and the opposite one are accepted, and every change can be traced. */
  ghost predicate Reversible(devices: seq<Device>, updates: Updates) {
    && CanUpdate(devices, updates) && CanUpdate(NewDevices(devices, updates), Opposite(devices, updates))
    && AllTraceable(devices, updates)
  }

  /** A rule that names traced device `i` comes back to its host numbers. */
  lemma UndoTouched(devices: seq<Device>, updates: Updates, r: Rule, i: nat)
    requires Reversible(devices, updates) && i < |devices| && Traced(devices, updates, i)
    requires Names(r, NewDevices(devices, updates)[i])
    ensures Names(NewRule(Keyed(NewDevices(devices, updates), Opposite(devices, updates)), r), devices[i])
  {
    var after, back := NewDevices(devices, updates), Opposite(devices, updates);
    ReachedIsTraced(devices, updates, i);
    UndoDevicesExactly(devices, updates);
    RulesFollowDevices(after, back, r);
    assert Hit(after, back, i) && NewDevices(after, back)[i] == devices[i];
  }

  /** A rule that names no traced device after the update stays. */
  lemma UndoUntouched(devices: seq<Device>, updates: Updates, r: Rule)
    requires Reversible(devices, updates)
    requires forall i :: 0 <= i < |devices| && Traced(devices, updates, i) ==>
               !Names(r, NewDevices(devices, updates)[i])
    ensures NewRule(Keyed(NewDevices(devices, updates), Opposite(devices, updates)), r) == r
  {
    var after, back := NewDevices(devices, updates), Opposite(devices, updates);
    forall i | 0 <= i < |after| && Hit(after, back, i) ensures !Names(r, after[i]) {
      ReachedIsTraced(devices, updates, i);
    }
    RulesFollowDevices(after, back, r);
  }

  /** An update changes only the rules that name a traced device. */
  lemma OnlyTracedChange(devices: seq<Device>, updates: Updates, r: Rule)
    requires CanUpdate(devices, updates) && AllTraceable(devices, updates)
    requires forall i :: 0 <= i < |devices| && Traced(devices, updates, i) ==> !Names(r, devices[i])
    ensures NewRule(Keyed(devices, updates), r) == r
  {
    RulesFollowDevices(devices, updates, r);
    if i :| 0 <= i < |devices| && Hit(devices, updates, i) && Names(r, devices[i]) {
      assert Traceable(devices, updates, i);
      assert NewDevices(devices, updates)[i] == devices[i];
    }
  }

  /** A rule there and back. */
  function Twice(devices: seq<Device>, updates: Updates, r: Rule): Rule {
    NewRule(Keyed(NewDevices(devices, updates), Opposite(devices, updates)), NewRule(Keyed(devices, updates), r))
  }

  lemma UndoTraced(devices: seq<Device>, updates: Updates, r: Rule, i: nat)
    requires Reversible(devices, updates)
    requires i < |devices| && Traced(devices, updates, i) && Names(r, devices[i])
    ensures Twice(devices, updates, r) == r
  {
    RulesFollowDevices(devices, updates, r);
    UndoTouched(devices, updates, NewRule(Keyed(devices, updates), r), i);
  }

  lemma UndoRule(devices: seq<Device>, updates: Updates, r: Rule)
    requires Reversible(devices, updates)
    ensures Twice(devices, updates, r) == r <==> !Caught(devices, updates, r)
  {
    if i :| 0 <= i < |devices| && Traced(devices, updates, i) && Names(r, devices[i]) {
      UndoTraced(devices, updates, r, i);
    } else {
      OnlyTracedChange(devices, updates, r);
      if i :| 0 <= i < |devices| && Traced(devices, updates, i) && Names(r, NewDevices(devices, updates)[i]) {
        UndoTouched(devices, updates, r, i);
      } else {
        UndoUntouched(devices, updates, r);
      }
    }
  }

  lemma UndoRules(devices: seq<Device>, updates: Updates, rules: seq<Rule>)
    requires Reversible(devices, updates)
    ensures NewRules(Keyed(NewDevices(devices, updates), Opposite(devices, updates)),
                     NewRules(Keyed(devices, updates), rules)) == rules <==>
            forall i :: 0 <= i < |rules| ==> !Caught(devices, updates, rules[i])
  {
    var there, back := Keyed(devices, updates), Keyed(NewDevices(devices, updates), Opposite(devices, updates));
    var twice := NewRules(back, NewRules(there, rules));
    forall i | 0 <= i < |rules| ensures twice[i] == rules[i] <==> !Caught(devices, updates, rules[i]) {
      UndoRule(devices, updates, rules[i]);
    }
    if twice == rules {
      forall i | 0 <= i < |rules| ensures !Caught(devices, updates, rules[i]) {
        assert twice[i] == rules[i];
      }
    }
  }

  /** The update and then the opposite one give back the devices and the rules. */
  ghost predicate Undone(devices: seq<Device>, updates: Updates, rules: seq<Rule>) {
    && NewDevices(NewDevices(devices, updates), Opposite(devices, updates)) == devices
    && NewRules(Keyed(NewDevices(devices, updates), Opposite(devices, updates)),
                NewRules(Keyed(devices, updates), rules)) == rules
  }

  /** Renumbering and renumbering back restores the devices and the rules exactly when every change can be
      traced and no rule is caught. */
  lemma UndoExactly(devices: seq<Device>, updates: Updates, rules: seq<Rule>)
    requires CanUpdate(devices, updates) && CanUpdate(NewDevices(devices, updates), Opposite(devices, updates))
    ensures Undone(devices, updates, rules) <==>
            AllTraceable(devices, updates) && forall i :: 0 <= i < |rules| ==> !Caught(devices, updates, rules[i])
  {
    UndoDevicesExactly(devices, updates);
    if AllTraceable(devices, updates) {
      UndoRules(devices, updates, rules);
    }
  }

  /** Every opposite update names a device. */
  lemma OppositeIsNamed(devices: seq<Device>, updates: Updates)
    ensures AllNamed(NewDevices(devices, updates), Opposite(devices, updates))
  {
    var after := NewDevices(devices, updates);
    forall p | p in Opposite(devices, updates) ensures exists i :: 0 <= i < |after| && after[i].path == p {
      GuestPathIsOwned(devices, updates, p);
      var i := Owner(devices, updates, p, 0);
      assert after[i].path == p;
    }
  }

  /** The opposite update is accepted exactly when the devices that are first at a path to which some device
      was updated have different guest keys; if every change can be traced, these are the traced devices. */
  lemma UndoAccepted(devices: seq<Device>, updates: Updates)
    ensures CanUpdate(NewDevices(devices, updates), Opposite(devices, updates)) <==>
            forall i, j :: 0 <= i < j < |devices| && Reached(devices, updates, i) && Reached(devices, updates, j) ==>
              !SameNumbers(NewDevices(devices, updates)[i], NewDevices(devices, updates)[j])
    ensures AllTraceable(devices, updates) ==>
              forall i :: 0 <= i < |devices| ==> (Reached(devices, updates, i) <==> Traced(devices, updates, i))
  {
    var after, back := NewDevices(devices, updates), Opposite(devices, updates);
    OppositeIsNamed(devices, updates);
    assert forall i :: 0 <= i < |devices| ==> (Hit(after, back, i) <==> Reached(devices, updates, i));
    if AllTraceable(devices, updates) {
      forall i | 0 <= i < |devices| ensures Reached(devices, updates, i) <==> Traced(devices, updates, i) {
        ReachedIsTraced(devices, updates, i);
      }
    }
  }

  /** Updates that keep every path can be traced. */
  lemma KeptPathsAreTraced(devices: seq<Device>, updates: Updates)
    requires forall p :: p in updates ==> updates[p].finalPath == None
    ensures AllTraceable(devices, updates)
    ensures forall i :: 0 <= i < |devices| ==> (Traced(devices, updates, i) <==> Hit(devices, updates, i))
  {
    var after := NewDevices(devices, updates);
    assert forall j :: 0 <= j < |devices| ==> after[j].path == devices[j].path;
  }

  /** Updates that keep every path are undone exactly unless a rule that named no updated device carries the
      guest numbers of one. */
  lemma UndoKeptPaths(devices: seq<Device>, updates: Updates, rules: seq<Rule>)
    requires forall p :: p in updates ==> updates[p].finalPath == None
    requires CanUpdate(devices, updates) && CanUpdate(NewDevices(devices, updates), Opposite(devices, updates))
    ensures Undone(devices, updates, rules) <==>
            forall k :: 0 <= k < |rules| ==>
              ((exists i :: 0 <= i < |devices| && Hit(devices, updates, i) && Names(rules[k], devices[i])) ||
               (forall i :: 0 <= i < |devices| && Hit(devices, updates, i) ==>
                  !Names(rules[k], NewDevices(devices, updates)[i])))
  {
    KeptPathsAreTraced(devices, updates);
    UndoExactly(devices, updates, rules);
  }
}
