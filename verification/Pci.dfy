/**
 PCI slots, addresses and paths, with their parsers and printers. A slot and a function share one
 byte, five bits and three bits, as in section 3.2.2.3.2 of the PCI Local Bus Specification 3.0.
 */
module Pci {
  import opened Wrappers
  import opened Text

  const SLOT_MAX := 31
  const FUNCTION_MAX := 7
  const FUNCTION_BITS := 3

  datatype SlotFn = SlotFn(raw: bv8) {
    function Slot(): bv8 {
      raw >> FUNCTION_BITS
    }

    function Function(): bv8 {
      raw & 7
    }
  }

  datatype Address = Address(domain: nat, bus: nat, slotFn: SlotFn) {
    predicate Valid() {
      domain < 0x1_0000 && bus < 0x100
    }
  }

  /** Packs a slot and a function, or fails when one is out of range. */
  function NewSlotFn(slot: int, func: int): (r: Option<SlotFn>)
    ensures r.Some? <==> 0 <= slot <= SLOT_MAX && 0 <= func <= FUNCTION_MAX
    ensures r.Some? ==> r.value.Slot() == slot as bv8 && r.value.Function() == func as bv8
  {
    if 0 <= slot <= SLOT_MAX && 0 <= func <= FUNCTION_MAX then
      var s, f := slot as bv8, func as bv8;
      Packed(s, f);
      Some(SlotFn((s << FUNCTION_BITS) | f))
    else None
  }

  lemma Packed(s: bv8, f: bv8)
    requires s <= 31 && f <= 7
    ensures ((s << 3) | f) >> 3 == s && ((s << 3) | f) & 7 == f
  {}

  lemma Unpacked(raw: bv8)
    ensures raw >> 3 <= 31 && raw & 7 <= 7 && ((raw >> 3) << 3) | (raw & 7) == raw
  {}

  /** Unpacking and packing again gives the same byte. */
  lemma Repacked(sf: SlotFn)
    ensures sf.Slot() as int <= SLOT_MAX && sf.Function() as int <= FUNCTION_MAX
    ensures NewSlotFn(sf.Slot() as int, sf.Function() as int) == Some(sf)
  {
    Unpacked(sf.raw);
  }

  // ---------------------------------------------------------------- parsers and printers

  function PrintSlotFn(sf: SlotFn): string {
    ToHex(sf.Slot() as nat, 2) + "." + ToHex(sf.Function() as nat, 1)
  }

  /** `SS.F`, where `.F` may be missing. */
  function ParseSlotFn(s: string): Option<SlotFn> {
    var tokens := Split(s, '.');
    if |tokens| > 2 then None
    else
      var slot := ParseSigned(tokens[0]);
      var func := if |tokens| == 2 then ParseSigned(tokens[1]) else Some(0);
      if slot.None? || func.None? then None else NewSlotFn(slot.value, func.value)
  }

  function PrintAddress(a: Address): string {
    ToHex(a.domain, 4) + ":" + ToHex(a.bus, 2) + ":" + PrintSlotFn(a.slotFn)
  }

  /** `DDDD:BB:SS.F`. */
  function ParseAddress(s: string): (r: Option<Address>)
    ensures r.Some? ==> r.value.Valid()
  {
    var tokens := Split(s, ':');
    if |tokens| != 3 then None
    else
      var domain := ParseUnsigned(tokens[0], 0xffff);
      var bus := ParseUnsigned(tokens[1], 0xff);
      var slotFn := ParseSlotFn(tokens[2]);
      if domain.None? || bus.None? || slotFn.None? then None
      else Some(Address(domain.value, bus.value, slotFn.value))
  }

  function PrintPath(path: seq<SlotFn>): string {
    Join(PrintEach(PrintSlotFn, path), '/')
  }

  /** Slots separated by `/`; splitting yields at least one. */
  function ParsePath(s: string): (r: Option<seq<SlotFn>>)
    ensures r.Some? ==> r.value != []
  {
    ParseEach(ParseSlotFn, Split(s, '/'))
  }

  // ---------------------------------------------------------------- round trips

  lemma SlotFnFree(sf: SlotFn, sep: char)
    requires !IsHexDigit(sep) && sep != '.'
    ensures Free(PrintSlotFn(sf), sep)
  {
    PrintedIsFree(sf.Slot() as nat, 2, sep);
    PrintedIsFree(sf.Function() as nat, 1, sep);
  }

  lemma ParsePrintSlotFn(sf: SlotFn)
    ensures ParseSlotFn(PrintSlotFn(sf)) == Some(sf)
  {
    var slot, func := ToHex(sf.Slot() as nat, 2), ToHex(sf.Function() as nat, 1);
    PrintedIsFree(sf.Slot() as nat, 2, '.');
    PrintedIsFree(sf.Function() as nat, 1, '.');
    SplitFree(slot, '.', func);
    SplitFree(func, '.', "");
    Repacked(sf);
    ParseSignedPrinted(sf.Slot() as nat, 2);
    ParseSignedPrinted(sf.Function() as nat, 1);
  }

  lemma AddressFree(a: Address, sep: char)
    requires !IsHexDigit(sep) && sep != '.' && sep != ':'
    ensures Free(PrintAddress(a), sep)
  {
    PrintedIsFree(a.domain, 4, sep);
    PrintedIsFree(a.bus, 2, sep);
    SlotFnFree(a.slotFn, sep);
  }

  /** Every address survives printing and parsing. */
  lemma ParsePrintAddress(a: Address)
    requires a.Valid()
    ensures ParseAddress(PrintAddress(a)) == Some(a)
  {
    var domain, bus, slotFn := ToHex(a.domain, 4), ToHex(a.bus, 2), PrintSlotFn(a.slotFn);
    PrintedIsFree(a.domain, 4, ':');
    PrintedIsFree(a.bus, 2, ':');
    SlotFnFree(a.slotFn, ':');
    assert PrintAddress(a) == domain + [':'] + (bus + [':'] + slotFn);
    SplitFree(domain, ':', bus + [':'] + slotFn);
    SplitFree(bus, ':', slotFn);
    SplitFree(slotFn, ':', "");
    assert Split(PrintAddress(a), ':') == [domain, bus, slotFn];
    ParseUnsignedPrinted(a.domain, 4, 0xffff);
    ParseUnsignedPrinted(a.bus, 2, 0xff);
    ParsePrintSlotFn(a.slotFn);
  }

  lemma PrintedSlots(path: seq<SlotFn>, sep: char)
    requires !IsHexDigit(sep) && sep != '.'
    ensures forall i :: 0 <= i < |path| ==>
              ParseSlotFn(PrintSlotFn(path[i])) == Some(path[i]) && Free(PrintSlotFn(path[i]), sep)
  {
    forall i | 0 <= i < |path|
      ensures ParseSlotFn(PrintSlotFn(path[i])) == Some(path[i]) && Free(PrintSlotFn(path[i]), sep)
    {
      ParsePrintSlotFn(path[i]);
      SlotFnFree(path[i], sep);
    }
  }

  /** Every non-empty path, however long, survives printing and parsing. */
  lemma ParsePrintPath(path: seq<SlotFn>)
    requires path != []
    ensures ParsePath(PrintPath(path)) == Some(path)
  {
    PrintedSlots(path, '/');
    ParsePrintEach(ParseSlotFn, PrintSlotFn, path, '/');
  }

  function CanonicalAddress(s: string): Option<string> {
    var a := ParseAddress(s);
    if a.None? then None else Some(PrintAddress(a.value))
  }

  function CanonicalPath(s: string): Option<string> {
    var p := ParsePath(s);
    if p.None? then None else Some(PrintPath(p.value))
  }

  /** Printing what was parsed gives an accepted text with the same meaning, and doing so twice
      changes nothing more. */
  lemma CanonicalIsStable(s: string)
    ensures ParseAddress(s).Some? ==>
              && ParseAddress(CanonicalAddress(s).value) == ParseAddress(s)
              && CanonicalAddress(CanonicalAddress(s).value) == CanonicalAddress(s)
    ensures ParsePath(s).Some? ==>
              && ParsePath(CanonicalPath(s).value) == ParsePath(s)
              && CanonicalPath(CanonicalPath(s).value) == CanonicalPath(s)
  {
    if ParseAddress(s).Some? {
      ParsePrintAddress(ParseAddress(s).value);
    }
    if ParsePath(s).Some? {
      ParsePrintPath(ParsePath(s).value);
    }
  }

  // ---------------------------------------------------------------- VFIO options

  /** `host=path`, with exactly one `=`. */
  function SplitVfioOption(opt: string): Option<(string, string)> {
    var tokens := Split(opt, '=');
    if |tokens| == 2 then Some((tokens[0], tokens[1])) else None
  }

  lemma {:induction false} JoinFree(parts: seq<string>, sep: char, other: char)
    requires sep != other && forall i :: 0 <= i < |parts| ==> Free(parts[i], other)
    ensures Free(Join(parts, sep), other)
  {
    if |parts| <= 1 {
    } else {
      JoinFree(parts[1..], sep, other);
      assert Free(parts[0], other);
    }
  }

  /** An option built from a printed address and a printed path is decoded to that pair. */
  lemma VfioOptionRoundTrip(a: Address, path: seq<SlotFn>)
    requires a.Valid() && path != []
    ensures var r := SplitVfioOption(PrintAddress(a) + "=" + PrintPath(path));
            && r.Some?
            && ParseAddress(r.value.0) == Some(a)
            && ParsePath(r.value.1) == Some(path)
  {
    AddressFree(a, '=');
    PrintedSlots(path, '=');
    JoinFree(PrintEach(PrintSlotFn, path), '/', '=');
    SplitFree(PrintAddress(a), '=', PrintPath(path));
    SplitFree(PrintPath(path), '=', "");
    ParsePrintAddress(a);
    ParsePrintPath(path);
  }
}
