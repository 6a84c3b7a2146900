/**
 Which texts are PCI slots, addresses and paths, and which ones they are.
 */
module PciSpelling {
  import opened Wrappers
  import opened Text
  import opened Pci

  /** Slot and function in one byte: five bits and three bits. */
  lemma Layout(sf: SlotFn)
    ensures sf.raw == 8 * sf.Slot() + sf.Function() && sf.Slot() < 32 && sf.Function() < 8
  {
    assert sf.raw == (sf.raw >> 3) * 8 + (sf.raw & 7);
  }

  lemma NewExactly(slot: int, func: int, x: SlotFn)
    ensures NewSlotFn(slot, func) == Some(x) <==> slot == x.Slot() as int && func == x.Function() as int
  {
    Repacked(x);
  }

  // ---------------------------------------------------------------- slots

  /** A slot in hexadecimal, then possibly a dot and a function; without one the function is 0. */
  ghost predicate SpellsSlotFn(s: string, x: SlotFn) {
    || (Spells(s, x.Slot() as int) && x.Function() == 0)
    || exists a, b :: s == a + "." + b && Spells(a, x.Slot() as int) && Spells(b, x.Function() as int)
  }

  lemma SpellsIsFree(s: string, n: int, sep: char)
    requires Spells(s, n) && !IsHexDigit(sep) && sep != '+' && sep != '-'
    ensures Free(s, sep)
  {
    if 0 <= n && SpellsSigned(s, "", n) {
      SpellingIsFree(s, "", n, sep);
    } else if 0 <= n && SpellsSigned(s, "+", n) {
      SpellingIsFree(s, "+", n, sep);
    } else {
      SpellingIsFree(s, "-", -n, sep);
    }
  }

  lemma OneToken(s: string, x: SlotFn)
    requires Split(s, '.') == [s]
    ensures ParseSlotFn(s) == Some(x) <==> Spells(s, x.Slot() as int) && x.Function() == 0
  {
    var slot := ParseSigned(s);
    ParseSignedExactly(s, x.Slot() as int);
    if slot.Some? {
      NewExactly(slot.value, 0, x);
    }
  }

  lemma TwoTokens(s: string, a: string, b: string, x: SlotFn)
    requires Split(s, '.') == [a, b]
    ensures ParseSlotFn(s) == Some(x) <==> Spells(a, x.Slot() as int) && Spells(b, x.Function() as int)
  {
    var slot, func := ParseSigned(a), ParseSigned(b);
    ParseSignedExactly(a, x.Slot() as int);
    ParseSignedExactly(b, x.Function() as int);
    if slot.Some? && func.Some? {
      NewExactly(slot.value, func.value, x);
    }
  }

  /** Pieces without separators are what a text splits into exactly if the text joins them. */
  lemma SplitOne(s: string, sep: char)
    ensures |Split(s, sep)| == 1 ==> Split(s, sep) == [s]
    ensures Free(s, sep) ==> Split(s, sep) == [s]
  {
    JoinSplit(s, sep);
    if Free(s, sep) {
      SplitFree(s, sep, "");
    }
  }

  lemma SplitTwo(s: string, sep: char, a: string, b: string)
    ensures Split(s, sep) == [a, b] <==> s == a + [sep] + b && Free(a, sep) && Free(b, sep)
  {
    JoinSplit(s, sep);
    SplitIsFree(s, sep);
    if Split(s, sep) == [a, b] {
      var parts := Split(s, sep);
      assert Free(parts[0], sep) && Free(parts[1], sep);
      assert [a, b][1..] == [b];
    }
    if s == a + [sep] + b && Free(a, sep) && Free(b, sep) {
      SplitFree(a, sep, b);
      SplitFree(b, sep, "");
    }
  }

  /** The slot parser accepts exactly these texts, and reads the slot and the function that they spell. */
  lemma ParseSlotFnExactly(s: string, x: SlotFn)
    ensures ParseSlotFn(s) == Some(x) <==> SpellsSlotFn(s, x)
  {
    var tokens := Split(s, '.');
    SplitOne(s, '.');
    if |tokens| == 1 {
      OneToken(s, x);
    } else if |tokens| == 2 {
      SplitTwo(s, '.', tokens[0], tokens[1]);
      TwoTokens(s, tokens[0], tokens[1], x);
    }
    if SpellsSlotFn(s, x) {
      SpelledIsParsed(s, x);
    }
  }

  lemma SpelledIsParsed(s: string, x: SlotFn)
    requires SpellsSlotFn(s, x)
    ensures ParseSlotFn(s) == Some(x)
  {
    if Spells(s, x.Slot() as int) && x.Function() == 0 {
      SpellsIsFree(s, x.Slot() as int, '.');
      SplitOne(s, '.');
      OneToken(s, x);
    } else {
      var a, b :| s == a + "." + b && Spells(a, x.Slot() as int) && Spells(b, x.Function() as int);
      SpellsIsFree(a, x.Slot() as int, '.');
      SpellsIsFree(b, x.Function() as int, '.');
      SplitTwo(s, '.', a, b);
      TwoTokens(s, a, b, x);
    }
  }

  lemma SlotFnIsFree(s: string, x: SlotFn, sep: char)
    requires SpellsSlotFn(s, x) && !IsHexDigit(sep) && sep != '+' && sep != '-' && sep != '.'
    ensures Free(s, sep)
  {
    if Spells(s, x.Slot() as int) {
      SpellsIsFree(s, x.Slot() as int, sep);
    } else {
      var a, b :| s == a + "." + b && Spells(a, x.Slot() as int) && Spells(b, x.Function() as int);
      SpellsIsFree(a, x.Slot() as int, sep);
      SpellsIsFree(b, x.Function() as int, sep);
    }
  }

  // ---------------------------------------------------------------- addresses

  ghost predicate SpellsAddress(s: string, a: Address) {
    exists d, b, t :: s == d + ":" + b + ":" + t && SpellsUnsigned(d, a.domain) && SpellsUnsigned(b, a.bus) &&
                      SpellsSlotFn(t, a.slotFn)
  }

  lemma JoinThree(a: string, b: string, c: string, sep: char)
    ensures Join([a, b, c], sep) == a + [sep] + b + [sep] + c
  {
    var tail := [b, c];
    assert [a, b, c][1..] == tail && tail[1..] == [c];
    assert Join(tail, sep) == b + [sep] + c;
    assert Join([a, b, c], sep) == a + [sep] + Join(tail, sep);
  }

  lemma SplitThree(s: string, sep: char, a: string, b: string, c: string)
    ensures Split(s, sep) == [a, b, c] <==>
            s == a + [sep] + b + [sep] + c && Free(a, sep) && Free(b, sep) && Free(c, sep)
  {
    JoinThree(a, b, c, sep);
    if Split(s, sep) == [a, b, c] {
      JoinSplit(s, sep);
      SplitIsFree(s, sep);
      var parts := Split(s, sep);
      assert Free(parts[0], sep) && Free(parts[1], sep) && Free(parts[2], sep);
    }
    if s == a + [sep] + b + [sep] + c && Free(a, sep) && Free(b, sep) && Free(c, sep) {
      assert forall p :: p in [a, b, c] ==> Free(p, sep);
      SplitJoin([a, b, c], sep);
    }
  }

  lemma UnsignedIsFree(s: string, n: nat, sep: char)
    requires SpellsUnsigned(s, n) && !IsHexDigit(sep) && sep != '+'
    ensures Free(s, sep)
  {
    if SpellsSigned(s, "", n) {
      SpellingIsFree(s, "", n, sep);
    } else {
      SpellingIsFree(s, "+", n, sep);
    }
  }

  lemma ThreeTokens(s: string, d: string, b: string, t: string, a: Address)
    requires Split(s, ':') == [d, b, t] && a.Valid()
    ensures ParseAddress(s) == Some(a) <==>
            SpellsUnsigned(d, a.domain) && SpellsUnsigned(b, a.bus) && SpellsSlotFn(t, a.slotFn)
  {
    ParseUnsignedExactly(d, 0xffff, a.domain);
    ParseUnsignedExactly(b, 0xff, a.bus);
    ParseSlotFnExactly(t, a.slotFn);
  }

  lemma SpelledAddress(s: string, a: Address)
    requires SpellsAddress(s, a) && a.Valid()
    ensures ParseAddress(s) == Some(a)
  {
    var d, b, t :| s == d + ":" + b + ":" + t && SpellsUnsigned(d, a.domain) && SpellsUnsigned(b, a.bus) &&
                   SpellsSlotFn(t, a.slotFn);
    UnsignedIsFree(d, a.domain, ':');
    UnsignedIsFree(b, a.bus, ':');
    SlotFnIsFree(t, a.slotFn, ':');
    SplitThree(s, ':', d, b, t);
    ThreeTokens(s, d, b, t, a);
  }

  /** The address parser accepts exactly a domain, a bus and a slot with colons between them. */
  lemma ParseAddressExactly(s: string, a: Address)
    ensures ParseAddress(s) == Some(a) <==> a.Valid() && SpellsAddress(s, a)
  {
    var tokens := Split(s, ':');
    if a.Valid() && |tokens| == 3 {
      SplitThree(s, ':', tokens[0], tokens[1], tokens[2]);
      ThreeTokens(s, tokens[0], tokens[1], tokens[2], a);
    }
    if a.Valid() && SpellsAddress(s, a) {
      SpelledAddress(s, a);
    }
  }

  /** Printed addresses have the form `DDDD:BB:SS.F`. */
  lemma PrintedForm(a: Address)
    requires a.Valid()
    ensures |PrintSlotFn(a.slotFn)| == 4 && PrintSlotFn(a.slotFn)[2] == '.'
    ensures var s := PrintAddress(a); |s| == 12 && s[4] == ':' && s[7] == ':' && s[10] == '.'
  {
    Layout(a.slotFn);
    Repacked(a.slotFn);
    PrintedLength(a.slotFn.Slot() as nat);
    PrintedLength(a.slotFn.Function() as nat);
    PrintedLength(a.domain);
    PrintedLength(a.bus);
  }

  // ---------------------------------------------------------------- paths

  /** The slots of the path, separated by slashes. */
  ghost predicate SpellsPath(s: string, path: seq<SlotFn>) {
    exists texts :: |texts| == |path| > 0 && s == Join(texts, '/') && SpellsEach(texts, path)
  }

  ghost predicate SpellsEach(texts: seq<string>, path: seq<SlotFn>)
    requires |texts| == |path|
  {
    forall i :: 0 <= i < |path| ==> SpellsSlotFn(texts[i], path[i])
  }

  lemma ParsedEach(texts: seq<string>, path: seq<SlotFn>)
    requires |texts| == |path|
    ensures ParseEach(ParseSlotFn, texts) == Some(path) <==> SpellsEach(texts, path)
  {
    forall i | 0 <= i < |path| ensures ParseSlotFn(texts[i]) == Some(path[i]) <==> SpellsSlotFn(texts[i], path[i]) {
      ParseSlotFnExactly(texts[i], path[i]);
    }
    if SpellsEach(texts, path) {
      assert ParseEach(ParseSlotFn, texts).value == path;
    }
  }

  lemma SpelledPath(s: string, path: seq<SlotFn>)
    requires SpellsPath(s, path)
    ensures ParsePath(s) == Some(path)
  {
    var texts :| |texts| == |path| > 0 && s == Join(texts, '/') && SpellsEach(texts, path);
    forall t | t in texts ensures Free(t, '/') {
      var i :| 0 <= i < |texts| && texts[i] == t;
      SlotFnIsFree(t, path[i], '/');
    }
    SplitJoin(texts, '/');
    ParsedEach(texts, path);
  }

  /** The path parser accepts exactly one or more slots separated by slashes, and gives them in order. */
  lemma ParsePathExactly(s: string, path: seq<SlotFn>)
    ensures ParsePath(s) == Some(path) <==> SpellsPath(s, path)
  {
    if ParsePath(s) == Some(path) {
      var texts := Split(s, '/');
      JoinSplit(s, '/');
      ParsedEach(texts, path);
      assert |texts| == |path| > 0 && s == Join(texts, '/') && SpellsEach(texts, path);
    }
    if SpellsPath(s, path) {
      SpelledPath(s, path);
    }
  }

  /** A slot alone, at any width, is that slot with function 0. */
  lemma SlotAlone(slot: nat, width: nat)
    requires slot < 32
    ensures ParseSlotFn(ToHex(slot, width)) == NewSlotFn(slot, 0)
    ensures NewSlotFn(slot, 0).value.Slot() as int == slot && NewSlotFn(slot, 0).value.Function() == 0
  {
    var s, x := ToHex(slot, width), NewSlotFn(slot, 0).value;
    NewExactly(slot, 0, x);
    HexRoundTrip(slot, width);
    SpellsPlain(s, slot);
    ParseSlotFnExactly(s, x);
  }
}
