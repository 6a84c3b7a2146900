/**
 Environment entries whose value lists addresses. Nothing here depends on what an address is: it is
 read by `parse` and printed by `show`.
 */
module EnvEntries {
  import opened Wrappers
  import opened Text

  const PREFIX := "PCIDEVICE_"

  /** Everything before the first `=`, if there is one. */
  function NameOf(entry: string): (r: Option<string>)
    ensures r.None? <==> '=' !in entry
    ensures r.Some? ==> r.value + "=" <= entry && '=' !in r.value
  {
    if entry == "" then None
    else if entry[0] == '=' then Some("")
    else
      var rest := NameOf(entry[1..]);
      if rest.None? then None else Some([entry[0]] + rest.value)
  }

  lemma {:induction false} NameOfPrinted(name: string, value: string)
    requires '=' !in name
    ensures NameOf(name + "=" + value) == Some(name)
  {
    var entry := name + "=" + value;
    if name == "" {
    } else {
      NameOfPrinted(name[1..], value);
      assert entry[1..] == name[1..] + "=" + value;
      assert [name[0]] + name[1..] == name;
    }
  }

  /** Everything after it. */
  function ValueOf(entry: string): string
    requires NameOf(entry).Some?
  {
    entry[|NameOf(entry).value| + 1..]
  }

  lemma NameAndValue(entry: string)
    requires NameOf(entry).Some?
    ensures entry == NameOf(entry).value + "=" + ValueOf(entry)
  {
    var name := NameOf(entry).value;
    assert entry == entry[..|name| + 1] + entry[|name| + 1..];
  }

  predicate IsPciEntry(name: string) {
    PREFIX <= name
  }

  /** One entry after translation; fails on an address that is malformed or not in the map. */
  function Translate<A(==)>(parse: string -> Option<A>, show: A -> string, m: map<A, A>, entry: string): Option<string> {
    var name := NameOf(entry);
    if name.None? then None
    else if !IsPciEntry(name.value) then Some(entry)
    else
      var guests := TranslateList(parse, show, m, Split(ValueOf(entry), ','));
      if guests.None? then None else Some(name.value + "=" + Join(guests.value, ','))
  }

  method TranslateOne<A(==)>(parse: string -> Option<A>, show: A -> string, m: map<A, A>, entry: string)
    returns (r: Option<string>)
    ensures r == Translate(parse, show, m, entry)
  {
    var name := NameOf(entry);
    if name.None? {
      return None;
    }
    if !IsPciEntry(name.value) {
      return Some(entry);
    }
    var guests := TranslateTexts(parse, show, m, Split(ValueOf(entry), ','));
    r := if guests.Some? then Some(name.value + "=" + Join(guests.value, ',')) else None;
  }

  // ---------------------------------------------------------------- what an entry says

  /** The meaning of an entry: its name, and for a PCI entry the addresses it lists. */
  datatype Meaning<A> = Plain(entry: string) | Devices(name: string, addresses: seq<A>)

  function MeaningOf<A>(parse: string -> Option<A>, entry: string): Option<Meaning<A>> {
    var name := NameOf(entry);
    if name.None? then None
    else if !IsPciEntry(name.value) then Some(Plain(entry))
    else
      var addresses := ParseEach(parse, Split(ValueOf(entry), ','));
      if addresses.None? then None else Some(Devices(name.value, addresses.value))
  }

  function PrintMeaning<A>(show: A -> string, m: Meaning<A>): string {
    match m
    case Plain(entry) => entry
    case Devices(name, addresses) => name + "=" + Join(PrintEach(show, addresses), ',')
  }

  predicate AllIn<A(==)>(addresses: seq<A>, m: map<A, A>) {
    forall i :: 0 <= i < |addresses| ==> addresses[i] in m
  }

  /** The entry is well formed and every address it lists is in the map. */
  predicate Translatable<A(==)>(parse: string -> Option<A>, m: map<A, A>, entry: string) {
    var meaning := MeaningOf(parse, entry);
    meaning.Some? && (meaning.value.Devices? ==> AllIn(meaning.value.addresses, m))
  }

  /** The meaning with every address mapped. */
  function Mapped<A(==)>(meaning: Meaning<A>, m: map<A, A>): Meaning<A>
    requires meaning.Devices? ==> AllIn(meaning.addresses, m)
  {
    match meaning
    case Plain(_) => meaning
    case Devices(name, addresses) => Devices(name, MapEach(m, addresses))
  }

  /** Translation succeeds exactly when the entry is well formed and every address it lists is in the
      map, and then prints the mapped meaning. */
  lemma TranslatedMeaning<A>(parse: string -> Option<A>, show: A -> string, m: map<A, A>, entry: string)
    ensures Translate(parse, show, m, entry).Some? <==> Translatable(parse, m, entry)
    ensures Translatable(parse, m, entry) ==>
              Translate(parse, show, m, entry) == Some(PrintMeaning(show, Mapped(MeaningOf(parse, entry).value, m)))
  {
    var name := NameOf(entry);
    if name.Some? && IsPciEntry(name.value) {
      TranslateEach(parse, show, m, Split(ValueOf(entry), ','));
    }
  }

  // ---------------------------------------------------------------- printing and reading back

  /** Printed addresses read back as themselves and contain no comma. */
  ghost predicate Faithful<A>(parse: string -> Option<A>, show: A -> string, addresses: seq<A>) {
    forall i :: 0 <= i < |addresses| ==>
      parse(show(addresses[i])) == Some(addresses[i]) && Free(show(addresses[i]), ',')
  }

  /** The printed form of a PCI entry means what it was printed from. */
  lemma PrintedMeaning<A>(parse: string -> Option<A>, show: A -> string, name: string, addresses: seq<A>)
    requires '=' !in name && IsPciEntry(name) && addresses != [] && Faithful(parse, show, addresses)
    ensures MeaningOf(parse, PrintMeaning(show, Devices(name, addresses))) == Some(Devices(name, addresses))
  {
    var value := Join(PrintEach(show, addresses), ',');
    NameOfPrinted(name, value);
    assert (name + "=" + value)[|name| + 1..] == value;
    ParsePrintEach(parse, show, addresses, ',');
  }

  /** A printed PCI entry is translated by mapping what it was printed from. */
  lemma PrintedTranslated<A>(parse: string -> Option<A>, show: A -> string, m: map<A, A>, name: string, addresses: seq<A>)
    requires '=' !in name && IsPciEntry(name) && addresses != [] && Faithful(parse, show, addresses) && AllIn(addresses, m)
    ensures MeaningOf(parse, PrintMeaning(show, Devices(name, addresses))) == Some(Devices(name, addresses))
    ensures Translate(parse, show, m, PrintMeaning(show, Devices(name, addresses))) ==
            Some(PrintMeaning(show, Devices(name, MapEach(m, addresses))))
  {
    PrintedMeaning(parse, show, name, addresses);
    TranslatedMeaning(parse, show, m, PrintMeaning(show, Devices(name, addresses)));
  }

  lemma DevicesShape<A>(parse: string -> Option<A>, entry: string)
    requires MeaningOf(parse, entry).Some? && MeaningOf(parse, entry).value.Devices?
    ensures var d := MeaningOf(parse, entry).value;
            '=' !in d.name && IsPciEntry(d.name) && d.addresses != [] &&
            ParseEach(parse, Split(ValueOf(entry), ',')) == Some(d.addresses)
  {}

  /** The entry with its addresses printed in canonical form. */
  function Canonical<A>(parse: string -> Option<A>, show: A -> string, entry: string): Option<string> {
    var meaning := MeaningOf(parse, entry);
    if meaning.None? then None else Some(PrintMeaning(show, meaning.value))
  }

  ghost predicate Inverse<A>(m: map<A, A>, back: map<A, A>) {
    forall a :: a in m ==> m[a] in back && back[m[a]] == a
  }

  /** What the map holds is printed faithfully. */
  ghost predicate FaithfulMap<A>(parse: string -> Option<A>, show: A -> string, m: map<A, A>) {
    forall a :: a in m ==> parse(show(m[a])) == Some(m[a]) && Free(show(m[a]), ',')
  }

  lemma DevicesBack<A>(parse: string -> Option<A>, show: A -> string, m: map<A, A>, back: map<A, A>,
                       name: string, addresses: seq<A>)
    requires FaithfulMap(parse, show, m) && Inverse(m, back)
    requires '=' !in name && IsPciEntry(name) && addresses != [] && AllIn(addresses, m)
    ensures Translate(parse, show, back, PrintMeaning(show, Devices(name, MapEach(m, addresses)))) ==
            Some(PrintMeaning(show, Devices(name, addresses)))
  {
    var images := MapEach(m, addresses);
    PrintedTranslated(parse, show, back, name, images);
    assert MapEach(back, images) == addresses;
  }

  /** Translating with a map and then with its inverse gives the canonical printing of the entry. */
  lemma TranslateBack<A>(parse: string -> Option<A>, show: A -> string, m: map<A, A>, back: map<A, A>, entry: string)
    requires FaithfulMap(parse, show, m) && Inverse(m, back) && Translate(parse, show, m, entry).Some?
    ensures Translate(parse, show, back, Translate(parse, show, m, entry).value) == Canonical(parse, show, entry)
  {
    TranslatedMeaning(parse, show, m, entry);
    var meaning := MeaningOf(parse, entry).value;
    if meaning.Devices? {
      DevicesShape(parse, entry);
      DevicesBack(parse, show, m, back, meaning.name, meaning.addresses);
    } else {
      TranslatedMeaning(parse, show, back, entry);
    }
  }

  // ---------------------------------------------------------------- canonical entries

  /** Every address that the entry lists is written as it would be printed. */
  predicate IsCanonical<A>(parse: string -> Option<A>, show: A -> string, entry: string) {
    NameOf(entry).Some? &&
    (IsPciEntry(NameOf(entry).value) ==> AllReprint(parse, show, Split(ValueOf(entry), ',')))
  }

  lemma SameTail(name: string, x: string, y: string)
    ensures name + "=" + x == name + "=" + y <==> x == y
  {
    assert (name + "=" + x)[|name| + 1..] == x && (name + "=" + y)[|name| + 1..] == y;
  }

  /** An entry is its own canonical printing exactly when its addresses are written so. */
  lemma CanonicalExactly<A>(parse: string -> Option<A>, show: A -> string, entry: string)
    requires MeaningOf(parse, entry).Some?
    requires MeaningOf(parse, entry).value.Devices? ==>
               forall x :: x in MeaningOf(parse, entry).value.addresses ==> Free(show(x), ',')
    ensures Canonical(parse, show, entry) == Some(entry) <==> IsCanonical(parse, show, entry)
  {
    var meaning := MeaningOf(parse, entry).value;
    if meaning.Devices? {
      DevicesShape(parse, entry);
      NameAndValue(entry);
      ReprintJoined(parse, show, ValueOf(entry), ',');
      SameTail(meaning.name, Join(PrintEach(show, meaning.addresses), ','), ValueOf(entry));
    }
  }

  // ---------------------------------------------------------------- which maps can be undone

  ghost predicate OneToOne<A>(m: map<A, A>) {
    forall a, b :: a in m && b in m && m[a] == m[b] ==> a == b
  }

  /** Translating with the map and then with `back` gives the canonical printing of every entry. */
  ghost predicate RoundTrips<A>(parse: string -> Option<A>, show: A -> string, m: map<A, A>, back: map<A, A>) {
    forall entry :: Translate(parse, show, m, entry).Some? ==>
      Translate(parse, show, back, Translate(parse, show, m, entry).value) == Canonical(parse, show, entry)
  }

  /** Lists with the same images are translated to the same entry, so they can be told apart afterwards only
      if they are the same. */
  lemma RoundTripNeeds<A>(parse: string -> Option<A>, show: A -> string, m: map<A, A>, back: map<A, A>,
                          name: string, xs: seq<A>, ys: seq<A>)
    requires RoundTrips(parse, show, m, back) && '=' !in name && IsPciEntry(name)
    requires xs != [] && ys != [] && AllIn(xs, m) && AllIn(ys, m) && MapEach(m, xs) == MapEach(m, ys)
    requires Faithful(parse, show, xs) && Faithful(parse, show, ys)
    ensures xs == ys
  {
    PrintedTranslated(parse, show, m, name, xs);
    PrintedTranslated(parse, show, m, name, ys);
  }

  lemma RoundTripTellsApart<A>(parse: string -> Option<A>, show: A -> string, m: map<A, A>, back: map<A, A>,
                               name: string, a: A, b: A)
    requires RoundTrips(parse, show, m, back) && '=' !in name && IsPciEntry(name)
    requires a in m && b in m && m[a] == m[b] && Faithful(parse, show, [a]) && Faithful(parse, show, [b])
    ensures a == b
  {
    var xs, ys := [a], [b];
    assert MapEach(m, xs) == MapEach(m, ys);
    RoundTripNeeds(parse, show, m, back, name, xs, ys);
    assert xs[0] == ys[0];
  }

  lemma RoundTripGiven<A>(parse: string -> Option<A>, show: A -> string, m: map<A, A>, back: map<A, A>)
    requires FaithfulMap(parse, show, m) && Inverse(m, back)
    ensures RoundTrips(parse, show, m, back)
  {
    forall entry | Translate(parse, show, m, entry).Some?
      ensures Translate(parse, show, back, Translate(parse, show, m, entry).value) == Canonical(parse, show, entry)
    {
      TranslateBack(parse, show, m, back, entry);
    }
  }
}
