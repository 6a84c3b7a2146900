/**
 PCI addresses in a container's environment are translated from host to guest.
 */
module DeviceEnv {
  import opened Wrappers
  import opened Text
  import opened Pci
  import opened PciSpelling
  import opened EnvEntries

  type PciMap = map<Address, Address>

  /** One environment entry after translation. */
  function TranslateEntry(entry: string, pcimap: PciMap): Option<string> {
    Translate(ParseAddress, PrintAddress, pcimap, entry)
  }

  /** Rewrites the entries in place. On failure the entries before the offending one have been
      rewritten and the rest are untouched. */
  method UpdateEnvPci(env: array<string>, pcimap: PciMap) returns (failed: Option<nat>)
    modifies env
    ensures failed.None? ==>
              forall i :: 0 <= i < env.Length ==> TranslateEntry(old(env[i]), pcimap) == Some(env[i])
    ensures failed.Some? ==>
              && failed.value < env.Length && TranslateEntry(old(env[failed.value]), pcimap).None?
              && (forall i :: 0 <= i < failed.value ==> TranslateEntry(old(env[i]), pcimap) == Some(env[i]))
              && (forall i :: failed.value <= i < env.Length ==> env[i] == old(env[i]))
  {
    for n := 0 to env.Length
      invariant forall i :: 0 <= i < n ==> TranslateEntry(old(env[i]), pcimap) == Some(env[i])
      invariant forall i :: n <= i < env.Length ==> env[i] == old(env[i])
    {
      var translated := TranslateOne(ParseAddress, PrintAddress, pcimap, env[n]);
      if translated.None? {
        return Some(n);
      }
      env[n] := translated.value;
    }
    failed := None;
  }

  // ---------------------------------------------------------------- what a translated entry says

  /** Translation succeeds exactly when the entry is well formed and every address it lists is in the
      map. It leaves other entries alone; a PCI entry keeps its name, and its addresses become their
      images, in order, in canonical form. */
  lemma TranslatedExactly(entry: string, pcimap: PciMap)
    ensures TranslateEntry(entry, pcimap).Some? <==> Translatable(ParseAddress, pcimap, entry)
    ensures TranslateEntry(entry, pcimap).Some? ==>
              TranslateEntry(entry, pcimap).value ==
              match MeaningOf(ParseAddress, entry).value
              case Plain(_) => entry
              case Devices(name, addresses) => name + "=" + Join(PrintEach(PrintAddress, MapEach(pcimap, addresses)), ',')
  {
    TranslatedMeaning(ParseAddress, PrintAddress, pcimap, entry);
    if MeaningOf(ParseAddress, entry).Some? && MeaningOf(ParseAddress, entry).value.Plain? {
      PlainIsEntry(entry);
    }
  }

  lemma PlainIsEntry(entry: string)
    requires MeaningOf(ParseAddress, entry).Some? && MeaningOf(ParseAddress, entry).value.Plain?
    ensures MeaningOf(ParseAddress, entry).value.entry == entry
  {
  }

  // ---------------------------------------------------------------- which texts are translated

  /** The entry is a name, an equals sign and a value, and the name is not that of a PCI entry. */
  ghost predicate IsOther(entry: string) {
    exists name, value :: entry == name + "=" + value && '=' !in name && !("PCIDEVICE_" <= name)
  }

  /** The texts are addresses that the map knows. */
  ghost predicate KnownEach(texts: seq<string>, addresses: seq<Address>, pcimap: PciMap) {
    |texts| == |addresses| > 0 &&
    forall i :: 0 <= i < |texts| ==> addresses[i].Valid() && SpellsAddress(texts[i], addresses[i]) && addresses[i] in pcimap
  }

  /** The entry is the name of a PCI entry, an equals sign and known addresses separated by commas, and the
      result is the same name with what they map to. */
  ghost predicate IsTranslation(entry: string, pcimap: PciMap, r: string) {
    exists name, texts, addresses ::
      '=' !in name && "PCIDEVICE_" <= name && KnownEach(texts, addresses, pcimap) &&
      entry == name + "=" + Join(texts, ',') &&
      r == name + "=" + Join(PrintEach(PrintAddress, MapEach(pcimap, addresses)), ',')
  }

  lemma ParsedAddresses(texts: seq<string>, addresses: seq<Address>)
    requires |texts| == |addresses|
    ensures ParseEach(ParseAddress, texts) == Some(addresses) <==>
            forall i :: 0 <= i < |texts| ==> addresses[i].Valid() && SpellsAddress(texts[i], addresses[i])
  {
    forall i | 0 <= i < |texts|
      ensures ParseAddress(texts[i]) == Some(addresses[i]) <==>
              addresses[i].Valid() && SpellsAddress(texts[i], addresses[i])
    {
      ParseAddressExactly(texts[i], addresses[i]);
    }
    if forall i :: 0 <= i < |texts| ==> addresses[i].Valid() && SpellsAddress(texts[i], addresses[i]) {
      assert ParseEach(ParseAddress, texts).value == addresses;
    }
  }

  lemma AddressIsFree(s: string, a: Address)
    requires SpellsAddress(s, a)
    ensures Free(s, ',')
  {
    var d, b, t :| s == d + ":" + b + ":" + t && SpellsUnsigned(d, a.domain) && SpellsUnsigned(b, a.bus) &&
                   SpellsSlotFn(t, a.slotFn);
    UnsignedIsFree(d, a.domain, ',');
    UnsignedIsFree(b, a.bus, ',');
    SlotFnIsFree(t, a.slotFn, ',');
  }

  lemma OtherIsKept(entry: string, pcimap: PciMap)
    requires IsOther(entry)
    ensures TranslateEntry(entry, pcimap) == Some(entry)
  {
    var name, value :| entry == name + "=" + value && '=' !in name && !("PCIDEVICE_" <= name);
    NameOfPrinted(name, value);
  }

  lemma JoinedIsSplit(texts: seq<string>, addresses: seq<Address>, pcimap: PciMap)
    requires KnownEach(texts, addresses, pcimap)
    ensures Split(Join(texts, ','), ',') == texts
  {
    forall t | t in texts ensures Free(t, ',') {
      var i :| 0 <= i < |texts| && texts[i] == t;
      AddressIsFree(t, addresses[i]);
    }
    SplitJoin(texts, ',');
  }

  lemma PciIsTranslated(entry: string, pcimap: PciMap, r: string)
    requires IsTranslation(entry, pcimap, r)
    ensures TranslateEntry(entry, pcimap) == Some(r)
  {
    var name, texts, addresses :|
      '=' !in name && "PCIDEVICE_" <= name && KnownEach(texts, addresses, pcimap) &&
      entry == name + "=" + Join(texts, ',') &&
      r == name + "=" + Join(PrintEach(PrintAddress, MapEach(pcimap, addresses)), ',');
    var value := Join(texts, ',');
    NameOfPrinted(name, value);
    assert (name + "=" + value)[|name| + 1..] == value;
    JoinedIsSplit(texts, addresses, pcimap);
    ParsedAddresses(texts, addresses);
    TranslateEach(ParseAddress, PrintAddress, pcimap, texts);
  }

  lemma TranslatedIsPci(entry: string, pcimap: PciMap)
    requires TranslateEntry(entry, pcimap).Some? && NameOf(entry).Some? && "PCIDEVICE_" <= NameOf(entry).value
    ensures IsTranslation(entry, pcimap, TranslateEntry(entry, pcimap).value)
  {
    var name, texts := NameOf(entry).value, Split(ValueOf(entry), ',');
    NameAndValue(entry);
    JoinSplit(ValueOf(entry), ',');
    TranslateEach(ParseAddress, PrintAddress, pcimap, texts);
    var addresses := ParseEach(ParseAddress, texts).value;
    ParsedAddresses(texts, addresses);
    assert KnownEach(texts, addresses, pcimap);
  }

  /** An entry without an equals sign fails, an entry of another name stays, and a PCI entry becomes its name
      with the mapped addresses, if all that it lists are addresses that the map knows. */
  lemma EntryExactly(entry: string, pcimap: PciMap, r: string)
    ensures TranslateEntry(entry, pcimap) == Some(r) <==>
            (IsOther(entry) && r == entry) || IsTranslation(entry, pcimap, r)
  {
    if IsOther(entry) {
      OtherIsKept(entry, pcimap);
    }
    if IsTranslation(entry, pcimap, r) {
      PciIsTranslated(entry, pcimap, r);
    }
    if TranslateEntry(entry, pcimap) == Some(r) {
      NameAndValue(entry);
      if "PCIDEVICE_" <= NameOf(entry).value {
        TranslatedIsPci(entry, pcimap);
      }
    }
  }

  /** The map holds addresses as the parsers produce them. */
  ghost predicate ValidMap(pcimap: PciMap) {
    forall a :: a in pcimap ==> a.Valid() && pcimap[a].Valid()
  }

  lemma AddressIsFaithful(a: Address)
    requires a.Valid()
    ensures ParseAddress(PrintAddress(a)) == Some(a) && Free(PrintAddress(a), ',')
  {
    ParsePrintAddress(a);
    AddressFree(a, ',');
  }

  lemma ValidIsFaithful(pcimap: PciMap)
    requires ValidMap(pcimap)
    ensures FaithfulMap(ParseAddress, PrintAddress, pcimap)
  {
    forall a | a in pcimap
      ensures ParseAddress(PrintAddress(pcimap[a])) == Some(pcimap[a]) && Free(PrintAddress(pcimap[a]), ',')
    {
      AddressIsFaithful(pcimap[a]);
    }
  }

  // ---------------------------------------------------------------- translating back

  /** Translating with a map and then with its inverse gives the canonical printing of the entry. */
  lemma TranslateEntryBack(entry: string, pcimap: PciMap, back: PciMap)
    requires ValidMap(pcimap) && Inverse(pcimap, back) && TranslateEntry(entry, pcimap).Some?
    ensures TranslateEntry(TranslateEntry(entry, pcimap).value, back) == Canonical(ParseAddress, PrintAddress, entry)
  {
    ValidIsFaithful(pcimap);
    TranslateBack(ParseAddress, PrintAddress, pcimap, back, entry);
  }

  /** That is the entry itself exactly when its addresses are written as they would be printed. */
  lemma TranslateBackExactly(entry: string, pcimap: PciMap, back: PciMap)
    requires ValidMap(pcimap) && Inverse(pcimap, back) && TranslateEntry(entry, pcimap).Some?
    ensures TranslateEntry(TranslateEntry(entry, pcimap).value, back) == Some(entry) <==>
            IsCanonical(ParseAddress, PrintAddress, entry)
  {
    TranslateEntryBack(entry, pcimap, back);
    TranslatedMeaning(ParseAddress, PrintAddress, pcimap, entry);
    forall x: Address ensures Free(PrintAddress(x), ',') {
      AddressFree(x, ',');
    }
    CanonicalExactly(ParseAddress, PrintAddress, entry);
  }

  lemma SameImage(pcimap: PciMap, back: PciMap, a: Address, b: Address)
    requires ValidMap(pcimap) && RoundTrips(ParseAddress, PrintAddress, pcimap, back)
    requires a in pcimap && b in pcimap && pcimap[a] == pcimap[b]
    ensures a == b
  {
    AddressIsFaithful(a);
    AddressIsFaithful(b);
    RoundTripTellsApart(ParseAddress, PrintAddress, pcimap, back, PREFIX, a, b);
  }

  /** Translations can be undone by some map exactly when the map is one-to-one. */
  lemma RoundTripExactly(pcimap: PciMap)
    requires ValidMap(pcimap)
    ensures (exists back :: RoundTrips(ParseAddress, PrintAddress, pcimap, back)) <==> OneToOne(pcimap)
  {
    if back :| RoundTrips(ParseAddress, PrintAddress, pcimap, back) {
      forall a, b | a in pcimap && b in pcimap && pcimap[a] == pcimap[b] ensures a == b {
        SameImage(pcimap, back, a, b);
      }
    }
    if OneToOne(pcimap) {
      var back := map a | a in pcimap :: pcimap[a] := a;
      ValidIsFaithful(pcimap);
      RoundTripGiven(ParseAddress, PrintAddress, pcimap, back);
    }
  }
}
