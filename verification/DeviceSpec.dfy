/**
 Device numbers in an OCI specification are replaced by those of the guest (OCI Runtime
 Specification, config-linux, "Devices"): the device nodes and, with them, the cgroup rules that
 name the same devices.
 */
module DeviceSpec {
  import opened Wrappers

  /** A device node; `other` stands for the attributes that are never touched. */
  datatype Device = Device(path: string, kind: string, major: int, minor: int, other: string)

  /** A device cgroup rule; a missing number means any. */
  datatype Rule = Rule(kind: string, major: Option<int>, minor: Option<int>, other: string)

  datatype Numbers = Numbers(major: int, minor: int)

  /** The guest numbers for a device and, optionally, its new path. */
  datatype Update = Update(num: Numbers, finalPath: Option<string>)

  /** What identifies a device on the host. */
  datatype Key = Key(kind: string, major: int, minor: int)

  type Updates = map<string, Update>

  function KeyOf(d: Device): Key {
    Key(d.kind, d.major, d.minor)
  }

  function RuleKey(r: Rule): Option<Key> {
    if r.major.Some? && r.minor.Some? then Some(Key(r.kind, r.major.value, r.minor.value)) else None
  }

  /** The rule is about the device: it has its kind and both its numbers. */
  predicate Names(r: Rule, d: Device) {
    r.kind == d.kind && r.major == Some(d.major) && r.minor == Some(d.minor)
  }

  /** The same kind and the same numbers; a character and a block device are told apart. */
  predicate SameNumbers(a: Device, b: Device) {
    a.kind == b.kind && a.major == b.major && a.minor == b.minor
  }

  /** Device `i` is the first one with its path. */
  predicate IsFirst(devices: seq<Device>, i: nat)
    requires i < |devices|
  {
    forall j :: 0 <= j < i ==> devices[j].path != devices[i].path
  }

  /** Keys agree exactly where kinds and numbers do. */
  lemma KeysExactly(r: Rule, a: Device, b: Device)
    ensures RuleKey(r) == Some(KeyOf(a)) <==> Names(r, a)
    ensures KeyOf(a) == KeyOf(b) <==> SameNumbers(a, b)
  {
  }

  // ---------------------------------------------------------------- what the update means

  /** Device `i` is the first one whose path has an update. */
  predicate Hit(devices: seq<Device>, updates: Updates, i: nat)
    requires i < |devices|
  {
    devices[i].path in updates && forall j :: 0 <= j < i ==> devices[j].path != devices[i].path
  }

  function UpdatedDevice(d: Device, u: Update): Device {
    d.(major := u.num.major, minor := u.num.minor,
       path := if u.finalPath.Some? then u.finalPath.value else d.path)
  }

  function NewDevice(devices: seq<Device>, updates: Updates, i: nat): Device
    requires i < |devices|
  {
    if Hit(devices, updates, i) then UpdatedDevice(devices[i], updates[devices[i].path]) else devices[i]
  }

  function NewDevices(devices: seq<Device>, updates: Updates): (r: seq<Device>)
    ensures |r| == |devices| && forall i :: 0 <= i < |devices| ==> r[i] == NewDevice(devices, updates, i)
  {
    seq(|devices|, i requires 0 <= i < |devices| => NewDevice(devices, updates, i))
  }

  /** The guest numbers by host key, collected from the first `n` devices. */
  function KeyedUpdates(devices: seq<Device>, updates: Updates, n: nat): map<Key, Numbers>
    requires n <= |devices|
  {
    if n == 0 then map[]
    else
      var before := KeyedUpdates(devices, updates, n - 1);
      if Hit(devices, updates, n - 1) then before[KeyOf(devices[n - 1]) := updates[devices[n - 1].path].num]
      else before
  }

  function NewRule(keyed: map<Key, Numbers>, r: Rule): Rule {
    var key := RuleKey(r);
    if key.Some? && key.value in keyed then
      r.(major := Some(keyed[key.value].major), minor := Some(keyed[key.value].minor))
    else r
  }

  function NewRules(keyed: map<Key, Numbers>, rules: seq<Rule>): (r: seq<Rule>)
    ensures |r| == |rules| && forall i :: 0 <= i < |rules| ==> r[i] == NewRule(keyed, rules[i])
  {
    seq(|rules|, i requires 0 <= i < |rules| => NewRule(keyed, rules[i]))
  }

  /** No two of the first `n` updated devices have the same kind and host numbers. */
  ghost predicate NoConflict(devices: seq<Device>, updates: Updates, n: nat)
    requires n <= |devices|
  {
    forall i, j :: 0 <= i < j < n && Hit(devices, updates, i) && Hit(devices, updates, j) ==>
      !SameNumbers(devices[i], devices[j])
  }

  ghost predicate AllNamed(devices: seq<Device>, updates: Updates) {
    forall p :: p in updates ==> exists i :: 0 <= i < |devices| && devices[i].path == p
  }

  /** The keyed updates hold exactly the updated devices' host keys, each with that device's guest
      numbers if there is no conflict. */
  lemma {:induction false} KeyedUpdatesExactly(devices: seq<Device>, updates: Updates, n: nat)
    requires n <= |devices|
    ensures forall i :: 0 <= i < n && Hit(devices, updates, i) ==> KeyOf(devices[i]) in KeyedUpdates(devices, updates, n)
    ensures NoConflict(devices, updates, n) ==>
              forall i :: 0 <= i < n && Hit(devices, updates, i) ==>
                KeyedUpdates(devices, updates, n)[KeyOf(devices[i])] == updates[devices[i].path].num
    ensures forall k :: k in KeyedUpdates(devices, updates, n) ==>
              exists i :: 0 <= i < n && Hit(devices, updates, i) && KeyOf(devices[i]) == k
  {
    if n == 0 {
    } else {
      KeyedUpdatesExactly(devices, updates, n - 1);
    }
  }

  /** The updates that none of the first `n` devices has taken. */
  function Remaining(devices: seq<Device>, updates: Updates, n: nat): Updates
    requires n <= |devices|
  {
    if n == 0 then updates else Remaining(devices, updates, n - 1) - {devices[n - 1].path}
  }

  lemma {:induction false} RemainingAt(devices: seq<Device>, updates: Updates, n: nat, p: string)
    requires n <= |devices|
    ensures p in Remaining(devices, updates, n) <==>
            p in updates && forall j :: 0 <= j < n ==> devices[j].path != p
    ensures p in Remaining(devices, updates, n) ==> Remaining(devices, updates, n)[p] == updates[p]
  {
    if n == 0 {
    } else {
      RemainingAt(devices, updates, n - 1, p);
    }
  }

  /** One more device is updated exactly when its path is still waiting. */
  lemma HitWaits(devices: seq<Device>, updates: Updates, n: nat)
    requires n < |devices|
    ensures devices[n].path in Remaining(devices, updates, n) <==> Hit(devices, updates, n)
    ensures Hit(devices, updates, n) ==>
              Remaining(devices, updates, n)[devices[n].path] == updates[devices[n].path]
    ensures !Hit(devices, updates, n) ==> Remaining(devices, updates, n + 1) == Remaining(devices, updates, n)
  {
    RemainingAt(devices, updates, n, devices[n].path);
    var before := Remaining(devices, updates, n);
    if devices[n].path !in before {
      assert before - {devices[n].path} == before;
    }
  }

  /** The first `n` devices are updated without meeting a key that was seen before. */
  ghost predicate NoClash(devices: seq<Device>, updates: Updates, n: nat)
    requires n <= |devices|
  {
    n == 0 || (NoClash(devices, updates, n - 1) && !ClashesAt(devices, updates, n - 1))
  }

  ghost predicate ClashesAt(devices: seq<Device>, updates: Updates, n: nat)
    requires n < |devices|
  {
    Hit(devices, updates, n) && KeyOf(devices[n]) in KeyedUpdates(devices, updates, n)
  }

  lemma {:induction false} NoClashExactly(devices: seq<Device>, updates: Updates, n: nat)
    requires n <= |devices|
    ensures NoClash(devices, updates, n) <==> NoConflict(devices, updates, n)
  {
    if n == 0 {
    } else {
      NoClashExactly(devices, updates, n - 1);
      KeyedUpdatesExactly(devices, updates, n - 1);
      if NoConflict(devices, updates, n - 1) && ClashesAt(devices, updates, n - 1) {
        var i :| 0 <= i < n - 1 && Hit(devices, updates, i) && KeyOf(devices[i]) == KeyOf(devices[n - 1]);
        assert !NoConflict(devices, updates, n);
      }
    }
  }

  /** A clash is not undone. */
  lemma {:induction false} ClashStays(devices: seq<Device>, updates: Updates, n: nat, m: nat)
    requires n < m <= |devices| && ClashesAt(devices, updates, n)
    ensures !NoClash(devices, updates, m)
  {
    if n == m - 1 {
    } else {
      ClashStays(devices, updates, n, m - 1);
    }
  }

  /** Nothing remains exactly when every update names a device. */
  lemma RemainingNothing(devices: seq<Device>, updates: Updates)
    ensures Remaining(devices, updates, |devices|) == map[] <==> AllNamed(devices, updates)
  {
    var r := Remaining(devices, updates, |devices|);
    forall p ensures p in r <==> p in updates && forall j :: 0 <= j < |devices| ==> devices[j].path != p {
      RemainingAt(devices, updates, |devices|, p);
    }
    if r != map[] {
      var p :| p in r;
      assert p in updates;
    } else {
      forall p | p in updates ensures exists i :: 0 <= i < |devices| && devices[i].path == p {
        assert p !in r;
      }
    }
  }

  /** One more device of the prefix is settled. */
  lemma PrefixStep(devices: seq<Device>, updates: Updates, n: nat, current: seq<Device>)
    requires n < |devices| && current == Partly(devices, updates, n)
    ensures current[n] == devices[n]
    ensures current[n := NewDevice(devices, updates, n)] == Partly(devices, updates, n + 1)
  {
  }

  /** The devices once the first `n` are settled. */
  function Partly(devices: seq<Device>, updates: Updates, n: nat): (r: seq<Device>)
    requires n <= |devices|
    ensures |r| == |devices|
  {
    NewDevices(devices, updates)[..n] + devices[n..]
  }

  /** The first `n` devices are settled without a clash. */
  ghost predicate Settled(was: seq<Device>, updates: Updates, n: nat,
                          devices: seq<Device>, left: Updates, keyed: map<Key, Numbers>)
    requires n <= |was|
  {
    && devices == Partly(was, updates, n) && left == Remaining(was, updates, n)
    && keyed == KeyedUpdates(was, updates, n) && NoClash(was, updates, n)
  }

  /** One round of the loop over the devices. */
  lemma OneDevice(was: seq<Device>, updates: Updates, n: nat, devices: seq<Device>, left: Updates, keyed: map<Key, Numbers>)
    requires n < |was| && Settled(was, updates, n, devices, left, keyed)
    ensures |devices| == |was| && devices[n] == was[n]
    ensures was[n].path !in left ==> Settled(was, updates, n + 1, devices, left, keyed)
    ensures was[n].path in left ==>
              var d, u := was[n], left[was[n].path];
              && devices[n := UpdatedDevice(d, u)] == Partly(was, updates, n + 1)
              && (KeyOf(d) in keyed ==> !NoClash(was, updates, |was|))
              && (KeyOf(d) !in keyed ==>
                    Settled(was, updates, n + 1, devices[n := UpdatedDevice(d, u)], left - {d.path}, keyed[KeyOf(d) := u.num]))
  {
    PrefixStep(was, updates, n, devices);
    HitWaits(was, updates, n);
    if was[n].path !in left {
      assert devices == devices[n := NewDevice(was, updates, n)];
    } else if KeyOf(was[n]) in keyed {
      ClashStays(was, updates, n, |was|);
    }
  }

  // ---------------------------------------------------------------- the update in its own terms

  /** The first device of each path that has an update gets its numbers and its final path; everything else
      about it, and every other device, stays. */
  ghost predicate UpdatesDevices(was: seq<Device>, updates: Updates, now: seq<Device>) {
    && |now| == |was|
    && forall i :: 0 <= i < |was| ==>
         if was[i].path in updates && IsFirst(was, i) then
           var u := updates[was[i].path];
           now[i] == Device(if u.finalPath.Some? then u.finalPath.value else was[i].path,
                            was[i].kind, u.num.major, u.num.minor, was[i].other)
         else now[i] == was[i]
  }

  /** A rule about an updated device gets the numbers of its update; every other rule stays. */
  ghost predicate UpdatesRule(devices: seq<Device>, updates: Updates, was: Rule, now: Rule) {
    && (forall i :: 0 <= i < |devices| && Hit(devices, updates, i) && Names(was, devices[i]) ==>
          var num := updates[devices[i].path].num;
          now == Rule(was.kind, Some(num.major), Some(num.minor), was.other))
    && ((forall i :: 0 <= i < |devices| && Hit(devices, updates, i) ==> !Names(was, devices[i])) ==> now == was)
  }

  ghost predicate UpdatesRules(devices: seq<Device>, updates: Updates, was: seq<Rule>, now: seq<Rule>) {
    |now| == |was| && forall k :: 0 <= k < |was| ==> UpdatesRule(devices, updates, was[k], now[k])
  }

  lemma DevicesAreUpdated(devices: seq<Device>, updates: Updates)
    ensures UpdatesDevices(devices, updates, NewDevices(devices, updates))
  {
    forall i | 0 <= i < |devices| ensures Hit(devices, updates, i) <==> devices[i].path in updates && IsFirst(devices, i) {
    }
  }

  /** Every rule that named an updated device by its host numbers gets the guest numbers of that device, and
      every other rule is left as it is, even when some guest numbers are also host numbers. */
  lemma RuleIsUpdated(devices: seq<Device>, updates: Updates, r: Rule)
    requires NoConflict(devices, updates, |devices|)
    ensures UpdatesRule(devices, updates, r, NewRule(KeyedUpdates(devices, updates, |devices|), r))
  {
    KeyedUpdatesExactly(devices, updates, |devices|);
    var keyed := KeyedUpdates(devices, updates, |devices|);
    if RuleKey(r).Some? && RuleKey(r).value in keyed {
      var i :| 0 <= i < |devices| && Hit(devices, updates, i) && KeyOf(devices[i]) == RuleKey(r).value;
      KeysExactly(r, devices[i], devices[i]);
    }
    forall i | 0 <= i < |devices| && Names(r, devices[i]) ensures RuleKey(r) == Some(KeyOf(devices[i])) {
      KeysExactly(r, devices[i], devices[i]);
    }
  }

  lemma RulesAreUpdated(devices: seq<Device>, updates: Updates, rules: seq<Rule>)
    requires NoConflict(devices, updates, |devices|)
    ensures UpdatesRules(devices, updates, rules, NewRules(KeyedUpdates(devices, updates, |devices|), rules))
  {
    forall k | 0 <= k < |rules|
      ensures UpdatesRule(devices, updates, rules[k], NewRule(KeyedUpdates(devices, updates, |devices|), rules[k]))
    {
      RuleIsUpdated(devices, updates, rules[k]);
    }
  }

  // ---------------------------------------------------------------- the update in place

  class Spec {
    var hasLinux: bool
    var devices: seq<Device>
    var rules: Option<seq<Rule>>

    constructor (hasLinux: bool, devices: seq<Device>, rules: Option<seq<Rule>>)
      ensures this.hasLinux == hasLinux && this.devices == devices && this.rules == rules
    {
      this.hasLinux, this.devices, this.rules := hasLinux, devices, rules;
    }

    /** Applies the updates. It succeeds exactly when there is a linux section, every update names a
        device and no two updated devices share kind and host numbers. The first device of each path with an
        update gets its numbers and path, and so do the rules about it; nothing else changes. A failure
        leaves the rules alone and has updated a prefix of the devices. */
    method UpdateSpecDevices(updates: Updates) returns (ok: bool)
      modifies this
      ensures ok <==> old(hasLinux) && AllNamed(old(devices), updates) && NoConflict(old(devices), updates, |old(devices)|)
      ensures ok ==> UpdatesDevices(old(devices), updates, devices)
      ensures ok ==> if old(rules).None? then rules.None?
                     else rules.Some? && UpdatesRules(old(devices), updates, old(rules).value, rules.value)
      ensures !ok ==> rules == old(rules)
      ensures !ok ==> exists n: nat :: n <= |old(devices)| && devices == Partly(old(devices), updates, n)
      ensures hasLinux == old(hasLinux)
    {
      if !hasLinux {
        assert devices == Partly(devices, updates, 0);
        return false;
      }
      ghost var was := devices;
      RemainingNothing(was, updates);
      NoClashExactly(was, updates, |was|);
      var applied, left, keyed := UpdateDevices(updates);
      if !applied || left != map[] {
        return false;
      }
      assert Partly(was, updates, |was|) == NewDevices(was, updates);
      DevicesAreUpdated(was, updates);
      if rules.Some? {
        RulesAreUpdated(was, updates, rules.value);
        var updated := UpdateRules(rules.value, keyed);
        rules := Some(updated);
      }
      ok := true;
    }

    /** The loop over the devices: it stops at a conflict, and returns the updates that found no
        device and the ones that apply to rules. */
    method UpdateDevices(updates: Updates) returns (ok: bool, left: Updates, keyed: map<Key, Numbers>)
      modifies this`devices
      ensures ok <==> NoClash(old(devices), updates, |old(devices)|)
      ensures ok ==> Settled(old(devices), updates, |old(devices)|, devices, left, keyed)
      ensures exists n: nat :: n <= |old(devices)| && devices == Partly(old(devices), updates, n)
    {
      left, keyed := updates, map[];
      ghost var was := devices;
      assert Partly(was, updates, 0) == was;
      for n := 0 to |devices|
        invariant |devices| == |was| && Settled(was, updates, n, devices, left, keyed)
      {
        OneDevice(was, updates, n, devices, left, keyed);
        var d := devices[n];
        if d.path in left {
          var u := left[d.path];
          left := left - {d.path};
          devices := devices[n := UpdatedDevice(d, u)];
          if KeyOf(d) in keyed {
            return false, left, keyed;
          }
          keyed := keyed[KeyOf(d) := u.num];
        }
      }
      ok := true;
    }

    /** The loop over the cgroup rules. */
    static method UpdateRules(rules: seq<Rule>, keyed: map<Key, Numbers>) returns (r: seq<Rule>)
      ensures r == NewRules(keyed, rules)
    {
      r := rules;
      for i := 0 to |rules|
        invariant |r| == |rules|
        invariant forall j :: 0 <= j < |r| ==> r[j] == if j < i then NewRule(keyed, rules[j]) else rules[j]
      {
        var rule := r[i];
        if rule.major.Some? && rule.minor.Some? {
          var key := Key(rule.kind, rule.major.value, rule.minor.value);
          if key in keyed {
            r := r[i := rule.(major := Some(keyed[key].major), minor := Some(keyed[key].minor))];
          }
        }
      }
    }
  }
}
