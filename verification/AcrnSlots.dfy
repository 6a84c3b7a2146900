/**
 ACRN cannot plug devices into a running guest. Placeholder block devices are put on PCI slots at
 launch, and a container's disk later replaces the backend of the placeholder with its index.
 */
module AcrnSlots {
  import opened Wrappers

  const POOL_SIZE: nat := 8
  const GVTG_RESERVED_SLOT: nat := 2
  const HOST_BRIDGE := "hostbridge"
  const LPC_DEV := "lpc"
  const PLACEHOLDER := "nodisk"

  datatype PortType = ConsoleBE | SerialBE | OtherPort

  datatype NetType = Tap | MacVtap | OtherNet

  datatype Device =
    | Bridge(bridgeFunction: int, emul: string)
    | Lpc(lpcFunction: int, lpcEmul: string)
    | Console(name: string, backend: string, port: PortType, path: string)
    | Net(kind: NetType, interface: string, mac: string)
    | Block(file: string, index: nat)

  predicate IsValid(d: Device) {
    match d
    case Bridge(f, emul) => f == 0 && emul == HOST_BRIDGE
    case Lpc(_, emul) => emul == LPC_DEV
    case Console(_, backend, port, path) =>
      backend in ["tty", "pty", "console", "socket", "file"] && port != OtherPort && path != ""
    case Net(kind, interface, mac) => interface != "" && mac != "" && kind != OtherNet
    case Block(file, _) => file != ""
  }

  /** A `-s slot,device` argument of the device model. */
  datatype Argument = Argument(slot: nat, device: Device)

  datatype Drive = Drive(file: string, index: int, swap: bool)

  /** What becomes of an update: an error, an index outside the table, which aborts the runtime, or success
      with the slot that was rescanned, if the command ran. */
  datatype Rescan = Refused | Aborts | Accepted(slot: Option<int>)

  // ---------------------------------------------------------------- what a launch assigns

  /** The devices that get an argument. */
  function Attached(devices: seq<Device>): (r: seq<Device>)
    ensures forall k :: 0 <= k < |r| ==> IsValid(r[k])
  {
    if devices == [] then []
    else
      var before := Attached(devices[..|devices| - 1]);
      var d := devices[|devices| - 1];
      if IsValid(d) then before + [d] else before
  }

  /** The slot of the k-th attached device: consecutive, without the reserved one. */
  function SlotOf(k: nat): nat {
    if k < GVTG_RESERVED_SLOT then k else k + 1
  }

  function Arguments(attached: seq<Device>): (r: seq<Argument>)
    ensures |r| == |attached|
    ensures forall k :: 0 <= k < |r| ==> r[k] == Argument(SlotOf(k), attached[k])
  {
    seq(|attached|, k requires 0 <= k < |attached| => Argument(SlotOf(k), attached[k]))
  }

  /** The last attached block device with index `i`, if any. */
  function LastWithIndex(attached: seq<Device>, i: nat): (r: Option<nat>)
    ensures r.Some? ==> r.value < |attached| && attached[r.value].Block? && attached[r.value].index == i
    ensures forall k :: 0 <= k < |attached| && attached[k].Block? && attached[k].index == i ==>
              r.Some? && k <= r.value
  {
    if attached == [] then None
    else
      var d := attached[|attached| - 1];
      if d.Block? && d.index == i then Some(|attached| - 1)
      else LastWithIndex(attached[..|attached| - 1], i)
  }

  /** The index table after a launch. */
  ghost predicate Recorded(table: seq<int>, was: seq<int>, attached: seq<Device>) {
    && |table| == |was|
    && forall i :: 0 <= i < |table| ==>
         var last := LastWithIndex(attached, i);
         table[i] == if last.Some? then SlotOf(last.value) else was[i]
  }

  lemma RecordedMore(table: seq<int>, was: seq<int>, attached: seq<Device>, d: Device)
    requires Recorded(table, was, attached)
    ensures d.Block? && d.index < |table| ==>
              Recorded(table[d.index := SlotOf(|attached|)], was, attached + [d])
    ensures !(d.Block? && d.index < |table|) ==> Recorded(table, was, attached + [d])
  {
    assert (attached + [d])[..|attached|] == attached;
  }

  // ---------------------------------------------------------------- launching

  class Launch {
    /** The slot that each block index is attached to. */
    var slots: array<int>
    var arguments: seq<Argument>

    constructor ()
      ensures fresh(slots) && slots.Length == POOL_SIZE + 1 && arguments == []
      ensures slots[..] == seq(POOL_SIZE + 1, _ => 0)
    {
      slots, arguments := new int[POOL_SIZE + 1](_ => 0), [];
    }

    /** Gives every valid device the next slot, and notes the slots of the block devices that have an
        index in the table. */
    method AppendDevices(devices: seq<Device>)
      requires slots.Length == POOL_SIZE + 1
      modifies this`arguments, slots
      ensures arguments == old(arguments) + Arguments(Attached(devices))
      ensures Recorded(slots[..], old(slots[..]), Attached(devices))
    {
      var slot := 0;
      for n := 0 to |devices|
        invariant slot == if |Attached(devices[..n])| == GVTG_RESERVED_SLOT then GVTG_RESERVED_SLOT
                          else SlotOf(|Attached(devices[..n])|)
        invariant arguments == old(arguments) + Arguments(Attached(devices[..n]))
        invariant Recorded(slots[..], old(slots[..]), Attached(devices[..n]))
      {
        var d := devices[n];
        assert devices[..n + 1][..n] == devices[..n];
        if !IsValid(d) {
          continue;
        }
        if slot == GVTG_RESERVED_SLOT {
          slot := slot + 1;
        }
        ghost var attached := Attached(devices[..n]);
        ghost var table := slots[..];
        RecordedMore(table, old(slots[..]), attached, d);
        assert Arguments(attached + [d]) == Arguments(attached) + [Argument(slot, d)];
        arguments := arguments + [Argument(slot, d)];
        if d.Block? && d.index <= POOL_SIZE {
          slots[d.index] := slot;
          assert slots[..] == table[d.index := slot];
        }
        slot := slot + 1;
      }
      assert devices[..|devices|] == devices;
    }

    /** Replaces the backend of the placeholder with the drive's index, by a command that may fail; a
        command that fails is not reported. A negative index is not checked. */
    method UpdateBlockDevice(drive: Drive, commandRuns: bool) returns (r: Rescan)
      requires slots.Length == POOL_SIZE + 1
      ensures r.Refused? <==> drive.swap || drive.file == "" || drive.index >= POOL_SIZE
      ensures r.Aborts? <==> !drive.swap && drive.file != "" && drive.index < 0
      ensures r.Accepted? ==> 0 <= drive.index < POOL_SIZE && r.slot == if commandRuns then Some(slots[drive.index]) else None
    {
      if drive.swap {
        return Refused;
      }
      if drive.file == "" || drive.index >= POOL_SIZE {
        return Refused;
      }
      if drive.index < 0 {
        return Aborts;
      }
      var slot := slots[drive.index];
      if !commandRuns {
        return Accepted(None);
      }
      r := Accepted(Some(slot));
    }
  }

  // ---------------------------------------------------------------- building the device list

  /** The placeholders, indices 1 to 8. */
  function Placeholders(n: nat): (r: seq<Device>)
    ensures |r| == n && forall k :: 0 <= k < n ==> r[k] == Block(PLACEHOLDER, k + 1)
  {
    seq(n, k requires 0 <= k < n => Block(PLACEHOLDER, k + 1))
  }

  /** The devices every guest starts with, unless the image is missing, no console socket can be named or
      the sandbox has no index for the image. */
  method BuildDevices(image: string, imageExists: bool, console: Option<string>, hasIndex: bool)
    returns (r: Option<seq<Device>>)
    ensures r.None? <==> image == "" || !imageExists || console.None? || !hasIndex
    ensures r.Some? ==> r.value == Initial(image, console.value)
  {
    if image == "" || console.None? {
      return None;
    }
    var devices := [Bridge(0, HOST_BRIDGE)];
    devices := devices + [Lpc(0, LPC_DEV)];
    devices := devices + [Console("console0", "socket", ConsoleBE, console.value)];
    if !hasIndex || !imageExists {
      return None;
    }
    devices := devices + [Block(image, 0)];
    ghost var first := devices;
    for i := 1 to POOL_SIZE + 1
      invariant devices == first + Placeholders(i - 1)
    {
      devices := devices + [Block(PLACEHOLDER, i)];
      assert Placeholders(i) == Placeholders(i - 1) + [Block(PLACEHOLDER, i)];
    }
    r := Some(devices);
  }

  function Initial(image: string, console: string): seq<Device> {
    [Bridge(0, HOST_BRIDGE), Lpc(0, LPC_DEV), Console("console0", "socket", ConsoleBE, console), Block(image, 0)] +
    Placeholders(POOL_SIZE)
  }

  // ---------------------------------------------------------------- what it means

  /** Exactly the devices that are complete get an argument. */
  lemma {:induction false} AttachedExactly(devices: seq<Device>, d: Device)
    ensures d in Attached(devices) <==>
            d in devices &&
            match d
            case Bridge(f, emul) => f == 0 && emul == "hostbridge"
            case Lpc(_, emul) => emul == "lpc"
            case Console(_, backend, port, path) =>
              backend in ["tty", "pty", "console", "socket", "file"] && (port.ConsoleBE? || port.SerialBE?) && path != ""
            case Net(kind, interface, mac) => (kind.Tap? || kind.MacVtap?) && interface != "" && mac != ""
            case Block(file, _) => file != ""
  {
    if devices == [] {
    } else {
      var rest, last := devices[..|devices| - 1], devices[|devices| - 1];
      AttachedExactly(rest, d);
      assert devices == rest + [last];
    }
  }

  /** Slots increase strictly and the reserved slot is never given out. */
  lemma SlotsIncrease(attached: seq<Device>)
    ensures forall k :: 0 <= k < |attached| ==> Arguments(attached)[k].slot != GVTG_RESERVED_SLOT
    ensures forall j, k :: 0 <= j < k < |attached| ==> Arguments(attached)[j].slot < Arguments(attached)[k].slot
  {
  }

  /** The table names another device's slot exactly when a later block device has the same index. */
  lemma TableIsSlotExactly(table: seq<int>, was: seq<int>, attached: seq<Device>, k: nat)
    requires |was| == POOL_SIZE + 1 && Recorded(table, was, attached)
    requires k < |attached| && attached[k].Block? && attached[k].index <= POOL_SIZE
    ensures table[attached[k].index] == Arguments(attached)[k].slot <==>
            forall j :: k < j < |attached| && attached[j].Block? ==> attached[j].index != attached[k].index
  {
    var last := LastWithIndex(attached, attached[k].index);
    assert last.Some? && k <= last.value;
    if last.value > k {
      assert attached[last.value].Block?;
    }
  }

  lemma SlotExactly(table: seq<int>, was: seq<int>, attached: seq<Device>, k: nat, d: Device)
    requires |was| == POOL_SIZE + 1 && Recorded(table, was, attached)
    requires k < |attached| && attached[k] == d && d.Block? && d.index <= POOL_SIZE
    ensures Argument(SlotOf(k), d) in Arguments(attached)
    ensures table[d.index] == SlotOf(k) <==>
            forall j :: k < j < |attached| && attached[j].Block? ==> attached[j].index != d.index
  {
    TableIsSlotExactly(table, was, attached, k);
    assert Arguments(attached)[k] == Argument(SlotOf(k), d);
  }

  lemma {:induction false} AttachedConcat(xs: seq<Device>, ys: seq<Device>)
    ensures Attached(xs + ys) == Attached(xs) + Attached(ys)
  {
    if ys == [] {
      assert xs + ys == xs;
    } else {
      AttachedConcat(xs, ys[..|ys| - 1]);
      assert (xs + ys)[..|xs + ys| - 1] == xs + ys[..|ys| - 1];
    }
  }

  lemma {:induction false} AttachedAll(xs: seq<Device>)
    requires forall k :: 0 <= k < |xs| ==> IsValid(xs[k])
    ensures Attached(xs) == xs
  {
    if xs == [] {
    } else {
      AttachedAll(xs[..|xs| - 1]);
    }
  }

  /** The initial devices that are attached: all of them, or all but a console without a path. */
  function FirstAttached(image: string, console: string): seq<Device> {
    [Bridge(0, HOST_BRIDGE), Lpc(0, LPC_DEV)] +
    (if console == "" then [] else [Console("console0", "socket", ConsoleBE, console)]) +
    [Block(image, 0)] + Placeholders(POOL_SIZE)
  }

  /** The position of index 0 among them; the other indices follow. */
  function ImagePosition(console: string): nat {
    if console == "" then 2 else 3
  }

  lemma FirstIsAttached(image: string, console: string)
    requires image != ""
    ensures Attached(Initial(image, console)) == FirstAttached(image, console)
  {
    var head := [Bridge(0, HOST_BRIDGE), Lpc(0, LPC_DEV)];
    var middle := [Console("console0", "socket", ConsoleBE, console)];
    var tail := [Block(image, 0)] + Placeholders(POOL_SIZE);
    assert Initial(image, console) == head + middle + tail;
    AttachedConcat(head + middle, tail);
    AttachedConcat(head, middle);
    AttachedAll(head);
    AttachedAll(tail);
    assert middle[..0] == [];
    if console != "" {
      AttachedAll(middle);
    } else {
      assert Attached(middle) == [];
      assert head + [] == head;
    }
    assert FirstAttached(image, console) == head + Attached(middle) + tail;
  }

  /** Index `i` of the table stands at one position only. */
  lemma FirstAt(image: string, console: string, i: nat)
    requires i <= POOL_SIZE
    ensures var first := FirstAttached(image, console);
            var k := ImagePosition(console) + i;
            && k < |first| == ImagePosition(console) + POOL_SIZE + 1
            && first[k] == Block(if i == 0 then image else PLACEHOLDER, i)
            && (forall j :: k < j < |first| && first[j].Block? ==> first[j].index != i)
  {
    var first := FirstAttached(image, console);
    var n := ImagePosition(console);
    forall j | n < j < |first| ensures first[j] == Block(PLACEHOLDER, j - n) {
      assert first[j] == Placeholders(POOL_SIZE)[j - n - 1];
    }
  }

  /** A valid block device with the index is among the devices. */
  ghost predicate HasIndex(devices: seq<Device>, i: nat) {
    exists k :: 0 <= k < |devices| && devices[k].Block? && IsValid(devices[k]) && devices[k].index == i
  }

  lemma {:induction false} AttachedHasIndex(devices: seq<Device>, i: nat)
    ensures HasIndex(devices, i) <==> exists k :: 0 <= k < |Attached(devices)| && Attached(devices)[k].Block? &&
                                                  Attached(devices)[k].index == i
  {
    if devices == [] {
    } else {
      var rest, last := devices[..|devices| - 1], devices[|devices| - 1];
      AttachedHasIndex(rest, i);
      if HasIndex(rest, i) {
        var k :| 0 <= k < |rest| && rest[k].Block? && IsValid(rest[k]) && rest[k].index == i;
        assert devices[k] == rest[k];
        var m :| 0 <= m < |Attached(rest)| && Attached(rest)[m].Block? && Attached(rest)[m].index == i;
        assert Attached(devices)[m] == Attached(rest)[m];
      } else if IsValid(last) && last.Block? && last.index == i {
        assert Attached(devices)[|Attached(rest)|] == last;
      }
    }
  }

  /** No device after the initial one has its index exactly when no added device has it. */
  lemma LaterExactly(image: string, console: string, more: seq<Device>, i: nat)
    requires image != "" && i <= POOL_SIZE
    ensures var attached := Attached(Initial(image, console) + more);
            var k := ImagePosition(console) + i;
            && k < |attached| && attached[k] == Block(if i == 0 then image else PLACEHOLDER, i)
            && ((forall j :: k < j < |attached| && attached[j].Block? ==> attached[j].index != i) <==> !HasIndex(more, i))
  {
    var first := FirstAttached(image, console);
    AttachedConcat(Initial(image, console), more);
    FirstIsAttached(image, console);
    FirstAt(image, console, i);
    AttachedHasIndex(more, i);
    LaterInSuffix(first, Attached(more), ImagePosition(console) + i, i);
  }

  lemma LaterInSuffix(first: seq<Device>, rest: seq<Device>, k: nat, i: nat)
    requires k < |first| && forall j :: k < j < |first| && first[j].Block? ==> first[j].index != i
    ensures (forall j :: k < j < |first + rest| && (first + rest)[j].Block? ==> (first + rest)[j].index != i) <==>
            !exists m :: 0 <= m < |rest| && rest[m].Block? && rest[m].index == i
  {
    var all := first + rest;
    forall m | 0 <= m < |rest| ensures all[|first| + m] == rest[m] {
    }
    if m :| 0 <= m < |rest| && rest[m].Block? && rest[m].index == i {
      assert all[|first| + m].Block? && all[|first| + m].index == i;
    }
  }

  /** Whatever devices are added, the slot that an index stands for after the launch is that of the
      placeholder with this index, or of the image for index 0, exactly when no added block device
      has the index. */
  lemma RescanReachesPlaceholder(image: string, console: string, more: seq<Device>, table: seq<int>, was: seq<int>, i: nat)
    requires image != "" && |was| == POOL_SIZE + 1 && i <= POOL_SIZE
    requires Recorded(table, was, Attached(Initial(image, console) + more))
    ensures var slot := ImagePosition(console) + i + 1;
            && Argument(slot, Block(if i == 0 then image else PLACEHOLDER, i)) in
               Arguments(Attached(Initial(image, console) + more))
            && (table[i] == slot <==> !HasIndex(more, i))
  {
    LaterExactly(image, console, more, i);
    SlotExactly(table, was, Attached(Initial(image, console) + more), ImagePosition(console) + i,
                Block(if i == 0 then image else PLACEHOLDER, i));
  }
}
