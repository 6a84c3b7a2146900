/**
 Splitting and joining strings at a separator, and hexadecimal numbers as Rust reads and prints them.
 */
module Text {
  import opened Wrappers

  // ---------------------------------------------------------------- split and join

  predicate Free(s: string, sep: char) {
    sep !in s
  }

  /** The pieces between separators; there is always at least one. */
  function Split(s: string, sep: char): (parts: seq<string>)
    ensures parts != []
  {
    if s == "" then [""]
    else
      var rest := Split(s[1..], sep);
      if s[0] == sep then [""] + rest else [[s[0]] + rest[0]] + rest[1..]
  }

  function Join(parts: seq<string>, sep: char): string {
    if parts == [] then ""
    else if |parts| == 1 then parts[0]
    else parts[0] + [sep] + Join(parts[1..], sep)
  }

  /** A text without separators, then possibly a separator and more. */
  lemma {:induction false} SplitFree(a: string, sep: char, tail: string)
    requires Free(a, sep)
    ensures Split(a, sep) == [a]
    ensures Split(a + [sep] + tail, sep) == [a] + Split(tail, sep)
  {
    if a == "" {
      var whole := a + [sep] + tail;
      assert whole[0] == sep && whole[1..] == tail;
    } else {
      SplitFree(a[1..], sep, tail);
      var whole := a + [sep] + tail;
      assert whole[1..] == a[1..] + [sep] + tail;
      assert [a[0]] + a[1..] == a;
      assert ([a[1..]] + Split(tail, sep))[1..] == Split(tail, sep);
    }
  }

  /** Joining pieces that hold no separator and splitting again gives the pieces back. */
  lemma {:induction false} SplitJoin(parts: seq<string>, sep: char)
    requires parts != [] && forall p :: p in parts ==> Free(p, sep)
    ensures Split(Join(parts, sep), sep) == parts
  {
    if |parts| == 1 {
      SplitFree(parts[0], sep, "");
    } else {
      SplitJoin(parts[1..], sep);
      SplitFree(parts[0], sep, Join(parts[1..], sep));
      assert [parts[0]] + parts[1..] == parts;
    }
  }

  /** Splitting and joining again gives the text back. */
  lemma {:induction false} JoinSplit(s: string, sep: char)
    ensures Join(Split(s, sep), sep) == s
  {
    if s == "" {
    } else {
      JoinSplit(s[1..], sep);
      var rest := Split(s[1..], sep);
      if s[0] == sep {
        assert ([""] + rest)[1..] == rest;
      } else {
        var parts := [[s[0]] + rest[0]] + rest[1..];
        assert parts[1..] == rest[1..];
      }
      assert [s[0]] + s[1..] == s;
    }
  }

  /** No piece holds a separator. */
  lemma {:induction false} SplitIsFree(s: string, sep: char)
    ensures forall i :: 0 <= i < |Split(s, sep)| ==> Free(Split(s, sep)[i], sep)
  {
    if s == "" {
    } else {
      SplitIsFree(s[1..], sep);
    }
  }

  // ---------------------------------------------------------------- hexadecimal

  predicate IsHexDigit(c: char) {
    '0' <= c <= '9' || 'a' <= c <= 'f' || 'A' <= c <= 'F'
  }

  function DigitValue(c: char): (d: nat)
    requires IsHexDigit(c)
    ensures d < 16
  {
    if '0' <= c <= '9' then (c - '0') as nat
    else if 'a' <= c <= 'f' then (c - 'a') as nat + 10
    else (c - 'A') as nat + 10
  }

  function Digit(d: nat): (c: char)
    requires d < 16
    ensures IsHexDigit(c) && DigitValue(c) == d
    ensures '0' <= c <= '9' || 'a' <= c <= 'f'
  {
    if d < 10 then '0' + d as char else 'a' + (d - 10) as char
  }

  predicate AllHex(s: string) {
    forall i :: 0 <= i < |s| ==> IsHexDigit(s[i])
  }

  function HexValue(s: string): nat
    requires AllHex(s)
  {
    if s == "" then 0 else 16 * HexValue(s[..|s| - 1]) + DigitValue(s[|s| - 1])
  }

  /** `{:0width$x}`: at least `width` digits, more if the number needs them. */
  function ToHex(n: nat, width: nat): string
    decreases n, width
  {
    if n < 16 && width <= 1 then [Digit(n)]
    else ToHex(n / 16, if width == 0 then 0 else width - 1) + [Digit(n % 16)]
  }

  /** `from_str_radix(_, 16)` for an unsigned type with the given maximum: an optional `+`, at least
      one digit of either case, no overflow. */
  function ParseUnsigned(s: string, max: nat): Option<nat> {
    var digits := if |s| > 1 && s[0] == '+' then s[1..] else s;
    if digits == "" || !AllHex(digits) || HexValue(digits) > max then None
    else Some(HexValue(digits))
  }

  /** The same for the signed type `isize`, which also takes a `-`. */
  function ParseSigned(s: string): Option<int> {
    if |s| > 1 && s[0] == '-' then
      var digits := s[1..];
      if !AllHex(digits) || HexValue(digits) > 0x8000_0000_0000_0000 then None
      else Some(-(HexValue(digits) as int))
    else
      var r := ParseUnsigned(s, 0x7fff_ffff_ffff_ffff);
      if r.None? then None else Some(r.value)
  }

  /** A printed number is made of lower-case digits, at least one, and reads back as itself. */
  lemma {:induction false} HexRoundTrip(n: nat, width: nat)
    ensures ToHex(n, width) != "" && AllHex(ToHex(n, width)) && HexValue(ToHex(n, width)) == n
    decreases n, width
  {
    if n < 16 && width <= 1 {
      assert [Digit(n)][..0] == "";
    } else {
      var more := if width == 0 then 0 else width - 1;
      HexRoundTrip(n / 16, more);
      var s := ToHex(n, width);
      assert s[..|s| - 1] == ToHex(n / 16, more);
    }
  }

  /** A number of at most so many digits is printed with exactly as many. */
  lemma PrintedLength(n: nat)
    ensures n < 0x10 ==> |ToHex(n, 1)| == 1
    ensures n < 0x100 ==> |ToHex(n, 2)| == 2
    ensures n < 0x1_0000 ==> |ToHex(n, 4)| == 4
  {
    if n < 0x1_0000 {
      assert |ToHex(n / 16 / 16 / 16, 1)| == 1;
      assert |ToHex(n / 16 / 16, 2)| == 2;
      assert |ToHex(n / 16, 3)| == 3;
    }
  }

  // ---------------------------------------------------------------- which texts are numbers

  function LowerChar(c: char): char {
    if 'A' <= c <= 'F' then c - 'A' + 'a' else c
  }

  function Lower(s: string): (r: string)
    ensures |r| == |s| && forall i :: 0 <= i < |s| ==> r[i] == LowerChar(s[i])
  {
    seq(|s|, i requires 0 <= i < |s| => LowerChar(s[i]))
  }

  lemma {:induction false} LowerValue(s: string)
    ensures AllHex(Lower(s)) <==> AllHex(s)
    ensures AllHex(s) ==> HexValue(Lower(s)) == HexValue(s)
  {
    forall i | 0 <= i < |s| ensures IsHexDigit(Lower(s)[i]) <==> IsHexDigit(s[i]) {
    }
    if s == "" {
    } else {
      LowerValue(s[..|s| - 1]);
      assert Lower(s)[..|s| - 1] == Lower(s[..|s| - 1]);
    }
  }

  lemma PrintMore(h: nat, d: nat, width: nat)
    requires d < 16 && width > 0
    ensures ToHex(16 * h + d, width + 1) == ToHex(h, width) + [Digit(d)]
  {
    assert (16 * h + d) / 16 == h && (16 * h + d) % 16 == d;
  }

  lemma DigitPrinted(c: char)
    requires IsHexDigit(c)
    ensures Digit(DigitValue(c)) == LowerChar(c)
  {
  }

  lemma LowerMore(s: string, c: char)
    ensures Lower(s + [c]) == Lower(s) + [LowerChar(c)]
  {
  }

  /** The same with the number and the width named. */
  lemma PrintedMore(n: nat, width: nat, h: nat, c: char, printed: string)
    requires IsHexDigit(c) && width > 1 && n == 16 * h + DigitValue(c) && ToHex(h, width - 1) == printed
    ensures ToHex(n, width) == printed + [LowerChar(c)]
  {
    DigitPrinted(c);
    PrintMore(h, DigitValue(c), width - 1);
  }

  lemma {:induction false} DigitsPrinted(s: string, n: nat)
    requires s != "" && AllHex(s) && HexValue(s) == n
    ensures ToHex(n, |s|) == Lower(s)
  {
    var rest, c := s[..|s| - 1], s[|s| - 1];
    LowerMore(rest, c);
    assert s == rest + [c];
    if rest == "" {
      DigitPrinted(c);
    } else {
      DigitsPrinted(rest, HexValue(rest));
      PrintedMore(n, |s|, HexValue(rest), c, Lower(rest));
    }
  }

  /** Digits of either case stand for the number exactly if it is printed so at that width. */
  lemma DigitsExactly(digits: string, n: nat)
    requires digits != ""
    ensures AllHex(digits) && HexValue(digits) == n <==> Lower(digits) == ToHex(n, |digits|)
  {
    LowerValue(digits);
    HexRoundTrip(n, |digits|);
    if AllHex(digits) {
      DigitsPrinted(digits, HexValue(digits));
    }
  }

  /** The text is `n` printed in hexadecimal at some width, in either case, after the given sign. */
  ghost predicate SpellsSigned(s: string, sign: string, n: nat) {
    exists digits :: digits != "" && s == sign + digits && Lower(digits) == ToHex(n, |digits|)
  }

  ghost predicate SpellsUnsigned(s: string, n: nat) {
    SpellsSigned(s, "", n) || SpellsSigned(s, "+", n)
  }

  /** The text is the number in hexadecimal, in the range of a 64-bit integer. */
  ghost predicate Spells(s: string, n: int) {
    || (0 <= n < 0x8000_0000_0000_0000 && SpellsUnsigned(s, n))
    || (-0x8000_0000_0000_0000 <= n <= 0 && SpellsSigned(s, "-", -n))
  }

  /** The text is a number in digits of either case, without sign. */
  predicate Reads(digits: string, n: nat) {
    digits != "" && AllHex(digits) && HexValue(digits) == n
  }

  /** The same after a sign of one character. */
  predicate ReadsAfter(s: string, sign: char, n: nat) {
    |s| > 1 && s[0] == sign && Reads(s[1..], n)
  }

  lemma SpellsDigits(s: string, sign: string, digits: string, n: nat)
    requires s == sign + digits
    ensures SpellsSigned(s, sign, n) <==> Reads(digits, n)
  {
    if digits != "" {
      DigitsExactly(digits, n);
    }
    if SpellsSigned(s, sign, n) {
      var other :| other != "" && s == sign + other && Lower(other) == ToHex(n, |other|);
      assert other == s[|sign|..] == digits;
    }
  }

  lemma SpellsPlain(s: string, n: nat)
    ensures SpellsSigned(s, "", n) <==> Reads(s, n)
  {
    assert s == "" + s;
    SpellsDigits(s, "", s, n);
  }

  lemma SpellsAfter(s: string, sign: char, n: nat)
    ensures SpellsSigned(s, [sign], n) <==> ReadsAfter(s, sign, n)
  {
    if s != "" && s[0] == sign {
      assert s == [sign] + s[1..];
      SpellsDigits(s, [sign], s[1..], n);
    }
  }

  lemma ParseUnsignedReads(s: string, max: nat, n: nat)
    ensures ParseUnsigned(s, max) == Some(n) <==> n <= max && (Reads(s, n) || ReadsAfter(s, '+', n))
  {
  }

  lemma ParseSignedReads(s: string, n: int)
    ensures ParseSigned(s) == Some(n) <==>
            || (0 <= n < 0x8000_0000_0000_0000 && (Reads(s, n) || ReadsAfter(s, '+', n)))
            || (-0x8000_0000_0000_0000 <= n <= 0 && ReadsAfter(s, '-', -n))
  {
    if n >= 0 {
      ParseUnsignedReads(s, 0x7fff_ffff_ffff_ffff, n);
    }
  }

  lemma ParseUnsignedExactly(s: string, max: nat, n: nat)
    ensures ParseUnsigned(s, max) == Some(n) <==> n <= max && SpellsUnsigned(s, n)
  {
    ParseUnsignedReads(s, max, n);
    SpellsPlain(s, n);
    SpellsAfter(s, '+', n);
  }

  /** Reading a number accepts exactly its spellings: any width, either case, and an optional sign. */
  lemma ParseSignedExactly(s: string, n: int)
    ensures ParseSigned(s) == Some(n) <==> Spells(s, n)
  {
    ParseSignedReads(s, n);
    if n >= 0 {
      SpellsPlain(s, n);
      SpellsAfter(s, '+', n);
    }
    if n <= 0 {
      SpellsAfter(s, '-', -n);
    }
  }

  lemma SpellingIsFree(s: string, sign: string, n: nat, sep: char)
    requires SpellsSigned(s, sign, n) && !IsHexDigit(sep) && sep !in sign
    ensures Free(s, sep)
  {
    var digits :| digits != "" && s == sign + digits && Lower(digits) == ToHex(n, |digits|);
    SpellsDigits(s, sign, digits, n);
    assert sep !in digits;
  }

  lemma ParseUnsignedPrinted(n: nat, width: nat, max: nat)
    requires n <= max
    ensures ParseUnsigned(ToHex(n, width), max) == Some(n)
  {
    HexRoundTrip(n, width);
    assert IsHexDigit(ToHex(n, width)[0]);
  }

  lemma ParseSignedPrinted(n: nat, width: nat)
    requires n <= 0x7fff_ffff_ffff_ffff
    ensures ParseSigned(ToHex(n, width)) == Some(n as int)
  {
    HexRoundTrip(n, width);
    ParseUnsignedPrinted(n, width, 0x7fff_ffff_ffff_ffff);
    assert IsHexDigit(ToHex(n, width)[0]);
  }

  lemma PrintedIsFree(n: nat, width: nat, sep: char)
    requires !IsHexDigit(sep)
    ensures Free(ToHex(n, width), sep)
  {
    HexRoundTrip(n, width);
  }

  // ---------------------------------------------------------------- lists of values

  /** Parses every text, or fails if one of them does not parse. */
  function ParseEach<A>(parse: string -> Option<A>, texts: seq<string>): (r: Option<seq<A>>)
    ensures r.Some? <==> forall i :: 0 <= i < |texts| ==> parse(texts[i]).Some?
    ensures r.Some? ==> |r.value| == |texts| && forall i :: 0 <= i < |texts| ==> r.value[i] == parse(texts[i]).value
  {
    if texts == [] then Some([])
    else
      var before := ParseEach(parse, texts[..|texts| - 1]);
      var last := parse(texts[|texts| - 1]);
      if before.None? || last.None? then None else Some(before.value + [last.value])
  }

  /** Parses the texts one by one and stops at the first that does not parse. */
  method ParseList<A>(parse: string -> Option<A>, texts: seq<string>) returns (r: Option<seq<A>>)
    ensures r == ParseEach(parse, texts)
  {
    var xs := [];
    for i := 0 to |texts|
      invariant |xs| == i && forall j :: 0 <= j < i ==> parse(texts[j]) == Some(xs[j])
    {
      var x := parse(texts[i]);
      if x.None? {
        return None;
      }
      xs := xs + [x.value];
    }
    r := Some(xs);
    assert ParseEach(parse, texts).value == xs;
  }

  function PrintEach<A>(show: A -> string, xs: seq<A>): (texts: seq<string>)
    ensures |texts| == |xs| && forall i :: 0 <= i < |xs| ==> texts[i] == show(xs[i])
  {
    seq(|xs|, i requires 0 <= i < |xs| => show(xs[i]))
  }

  /** If each value survives printing and parsing, so does a list of them, also when it is joined
      with a separator that no printed value contains. */
  lemma ParsePrintEach<A>(parse: string -> Option<A>, show: A -> string, xs: seq<A>, sep: char)
    requires forall i :: 0 <= i < |xs| ==> parse(show(xs[i])) == Some(xs[i]) && Free(show(xs[i]), sep)
    ensures ParseEach(parse, PrintEach(show, xs)) == Some(xs)
    ensures xs != [] ==> Split(Join(PrintEach(show, xs), sep), sep) == PrintEach(show, xs)
  {
    var texts := PrintEach(show, xs);
    assert ParseEach(parse, texts).value == xs;
    if xs != [] {
      forall t | t in texts ensures Free(t, sep) {
        var i :| 0 <= i < |texts| && texts[i] == t;
      }
      SplitJoin(texts, sep);
    }
  }

  /** The text is what its own value prints as. */
  predicate Reprints<A>(parse: string -> Option<A>, show: A -> string, text: string) {
    parse(text).Some? && show(parse(text).value) == text
  }

  predicate AllReprint<A>(parse: string -> Option<A>, show: A -> string, texts: seq<string>) {
    forall i :: 0 <= i < |texts| ==> Reprints(parse, show, texts[i])
  }

  lemma ReprintEach<A>(parse: string -> Option<A>, show: A -> string, texts: seq<string>)
    requires ParseEach(parse, texts).Some?
    ensures PrintEach(show, ParseEach(parse, texts).value) == texts <==> AllReprint(parse, show, texts)
  {
    var printed := PrintEach(show, ParseEach(parse, texts).value);
    forall i | 0 <= i < |texts| ensures printed[i] == texts[i] <==> Reprints(parse, show, texts[i]) {
      assert parse(texts[i]).Some?;
    }
    if printed == texts {
      forall i | 0 <= i < |texts| ensures Reprints(parse, show, texts[i]) {
        assert printed[i] == texts[i];
      }
    }
  }

  /** Parsing a joined list and printing it again gives the text itself exactly when each piece is what its
      own value prints as. */
  lemma ReprintJoined<A>(parse: string -> Option<A>, show: A -> string, text: string, sep: char)
    requires ParseEach(parse, Split(text, sep)).Some?
    requires forall x :: x in ParseEach(parse, Split(text, sep)).value ==> Free(show(x), sep)
    ensures Join(PrintEach(show, ParseEach(parse, Split(text, sep)).value), sep) == text <==>
            AllReprint(parse, show, Split(text, sep))
  {
    var pieces := Split(text, sep);
    var printed := PrintEach(show, ParseEach(parse, pieces).value);
    ReprintEach(parse, show, pieces);
    JoinSplit(text, sep);
    forall p | p in printed ensures Free(p, sep) {
      var i :| 0 <= i < |printed| && printed[i] == p;
      assert ParseEach(parse, pieces).value[i] in ParseEach(parse, pieces).value;
    }
    SplitJoin(printed, sep);
  }

  /** Parses a text, looks the value up and prints what it maps to. */
  function TranslateText<A(==)>(parse: string -> Option<A>, show: A -> string, m: map<A, A>, text: string): Option<string> {
    var x := parse(text);
    if x.None? || x.value !in m then None else Some(show(m[x.value]))
  }

  function MapEach<A>(m: map<A, A>, xs: seq<A>): (r: seq<A>)
    requires forall i :: 0 <= i < |xs| ==> xs[i] in m
    ensures |r| == |xs| && forall i :: 0 <= i < |xs| ==> r[i] == m[xs[i]]
  {
    seq(|xs|, i requires 0 <= i < |xs| => m[xs[i]])
  }

  /** Translates every text, or fails if one of them does not parse to a known value. */
  function TranslateList<A(==)>(parse: string -> Option<A>, show: A -> string, m: map<A, A>, texts: seq<string>): Option<seq<string>> {
    ParseEach(text => TranslateText(parse, show, m, text), texts)
  }

  method TranslateTexts<A(==)>(parse: string -> Option<A>, show: A -> string, m: map<A, A>, texts: seq<string>)
    returns (r: Option<seq<string>>)
    ensures r == TranslateList(parse, show, m, texts)
  {
    r := ParseList(text => TranslateText(parse, show, m, text), texts);
  }

  /** Translating a list succeeds exactly when every text parses to a known value, and then prints
      the images in order. */
  lemma TranslateEach<A>(parse: string -> Option<A>, show: A -> string, m: map<A, A>, texts: seq<string>)
    ensures var r := TranslateList(parse, show, m, texts);
            var xs := ParseEach(parse, texts);
            && (r.Some? <==> xs.Some? && forall i :: 0 <= i < |xs.value| ==> xs.value[i] in m)
            && (r.Some? ==> r.value == PrintEach(show, MapEach(m, xs.value)))
  {
    var one := (text: string) => TranslateText(parse, show, m, text);
    var r, xs := ParseEach(one, texts), ParseEach(parse, texts);
    if r.Some? {
      forall i | 0 <= i < |texts| ensures parse(texts[i]).Some? && parse(texts[i]).value in m {
        assert one(texts[i]).Some?;
      }
    }
    if xs.Some? && forall i :: 0 <= i < |xs.value| ==> xs.value[i] in m {
      forall i | 0 <= i < |texts| ensures one(texts[i]).Some? && one(texts[i]).value == show(m[xs.value[i]]) {
        assert parse(texts[i]).Some?;
      }
    }
  }
}
