/**
 The encoders that the private-path matcher has to see through, defined on their own: what
 each writes is what its decoder reads back, for every text, so a path hidden behind any of
 them is found. UTF-8 is that of section 3 of RFC 3629.
 */
module Encodings {
  import opened ExportModel
  import opened Decimal
  import opened Decoding
  import OptionKeys

  const HEX: string := "0123456789ABCDEF"

  lemma HexDigitOfHex(d: nat)
    requires d < 16
    ensures HexDigit(HEX[d]) == Some(d) && HEX[d] as int < 0x80
    ensures HEX[d] !in "%&\\#;"
  {
    assert HEX[0] == '0' && HEX[1] == '1' && HEX[2] == '2' && HEX[3] == '3' && HEX[4] == '4' && HEX[5] == '5' && HEX[6] == '6' && HEX[7] == '7';
    assert HEX[8] == '8' && HEX[9] == '9' && HEX[10] == 'A' && HEX[11] == 'B' && HEX[12] == 'C' && HEX[13] == 'D' && HEX[14] == 'E' && HEX[15] == 'F';
  }

  // ------------------------------------------------------------ encoding character by character

  const LOWER_HEX := "0123456789abcdef"

  /** A digit in either case, and nothing else, has a value: its place among the sixteen. */
  lemma HexDigitIs(c: char, d: nat)
    ensures HexDigit(c) == Some(d) <==> d < 16 && (c == HEX[d] || c == LOWER_HEX[d])
  {
    if d < 16 {
      HexDigitOfHex(d);
      LowerHexDigit(d);
    }
    if HexDigit(c) == Some(d) {
      DigitHasItsPlace(c);
    }
  }

  lemma LowerHexDigit(d: nat)
    requires d < 16
    ensures HexDigit(LOWER_HEX[d]) == Some(d)
  {
    var h := LOWER_HEX;
    assert h[0] == '0' && h[1] == '1' && h[2] == '2' && h[3] == '3' && h[4] == '4' && h[5] == '5' && h[6] == '6' && h[7] == '7';
    assert h[8] == '8' && h[9] == '9' && h[10] == 'a' && h[11] == 'b' && h[12] == 'c' && h[13] == 'd' && h[14] == 'e' && h[15] == 'f';
  }

  lemma DigitHasItsPlace(c: char)
    requires HexDigit(c).Some?
    ensures HexDigit(c).value < 16 && (c == HEX[HexDigit(c).value] || c == LOWER_HEX[HexDigit(c).value])
  {
    var d := HexDigit(c).value;
    if '0' <= c <= '9' {
      HexDigitOfHex(d);
    } else if 'a' <= c <= 'f' {
      LowerHexDigit(d);
    } else {
      HexDigitOfHex(d);
    }
  }

  function Written(enc: char -> string, s: string): string {
    if s == [] then [] else enc(s[0]) + Written(enc, s[1..])
  }

  /** A decoder that reads each encoded character off the front of any encoded text reads back the whole text. */
  lemma {:induction false} ReadsBack(token: string -> Option<Token<char>>, enc: char -> string, s: string)
    requires forall i | 0 <= i < |s| :: enc(s[i]) != [] && token(Written(enc, s[i..])) == Some(Token([s[i]], |enc(s[i])|))
    ensures Decoded(token, Same, Written(enc, s)) == s
  {
    if s != [] {
      var w, rest := Written(enc, s), Written(enc, s[1..]);
      assert s[0..] == s;
      assert w[|enc(s[0])|..] == rest;
      forall i | 0 <= i < |s[1..]|
        ensures enc(s[1..][i]) != [] && token(Written(enc, s[1..][i..])) == Some(Token([s[1..][i]], |enc(s[1..][i])|))
      {
        assert s[1..][i..] == s[i + 1..];
      }
      ReadsBack(token, enc, s[1..]);
    }
  }

  /** Which characters an encoded text may contain. */
  ghost predicate Only(s: string, ok: char -> bool) {
    forall i | 0 <= i < |s| :: ok(s[i])
  }

  lemma {:induction false} WrittenOnly(enc: char -> string, s: string, ok: char -> bool)
    requires forall c :: Only(enc(c), ok)
    ensures Only(Written(enc, s), ok)
  {
    if s != [] {
      WrittenOnly(enc, s[1..], ok);
    }
  }

  // ------------------------------------------------------------ percent-encoding

  function PercentByte(b: nat): string
    requires b < 256
  {
    ['%', HEX[b / 16], HEX[b % 16]]
  }

  ghost predicate AreBytes(bs: seq<nat>) { forall i | 0 <= i < |bs| :: bs[i] < 256 }

  function PercentBytes(bs: seq<nat>): string
    requires AreBytes(bs)
  {
    if bs == [] then [] else PercentByte(bs[0]) + PercentBytes(bs[1..])
  }

  function Units(bs: seq<nat>): (us: seq<Unit>)
    ensures |us| == |bs| && forall i | 0 <= i < |bs| :: us[i] == Byte(bs[i])
  {
    seq(|bs|, i requires 0 <= i < |bs| => Byte(bs[i]))
  }

  lemma {:induction false} PercentReadsBytes(bs: seq<nat>)
    requires AreBytes(bs)
    ensures Decoded(PercentToken, Kept, PercentBytes(bs)) == Units(bs)
  {
    if bs != [] {
      var b, s := bs[0], PercentBytes(bs);
      HexDigitOfHex(b / 16);
      HexDigitOfHex(b % 16);
      assert s[1] == HEX[b / 16] && s[2] == HEX[b % 16];
      assert PercentToken(s) == Some(Token([Byte(b)], 3));
      assert s[3..] == PercentBytes(bs[1..]);
      PercentReadsBytes(bs[1..]);
      assert [Byte(b)] + Units(bs[1..]) == Units(bs);
    }
  }

  function Utf8(s: string): seq<nat> {
    if s == [] then [] else OptionKeys.Encode(s[0]) + Utf8(s[1..])
  }

  lemma EncodeIsBytes(c: char)
    ensures AreBytes(OptionKeys.Encode(c))
  {
  }

  lemma {:induction false} Utf8IsBytes(s: string)
    ensures AreBytes(Utf8(s))
  {
    if s != [] {
      EncodeIsBytes(s[0]);
      Utf8IsBytes(s[1..]);
    }
  }

  /** The six-bit groups of a code point. */
  lemma Groups(p: int)
    requires 0 <= p < 0x11_0000
    ensures p == p / 0x40 * 0x40 + p % 0x40
    ensures p / 0x40 == p / 0x1000 * 0x40 + p / 0x40 % 0x40
    ensures p / 0x1000 == p / 0x4_0000 * 0x40 + p / 0x1000 % 0x40
  {
  }

  lemma LeadReadsTwo(c: char, rest: seq<Unit>)
    requires 0x80 <= c as int < 0x800
    ensures Lead(Units(OptionKeys.Encode(c)) + rest) == (c, 2)
  {
    Groups(c as int);
  }

  lemma LeadReadsThree(c: char, rest: seq<Unit>)
    requires 0x800 <= c as int < 0x1_0000
    ensures Lead(Units(OptionKeys.Encode(c)) + rest) == (c, 3)
  {
    Groups(c as int);
  }

  lemma LeadReadsFour(c: char, rest: seq<Unit>)
    requires 0x1_0000 <= c as int
    ensures Lead(Units(OptionKeys.Encode(c)) + rest) == (c, 4)
  {
    Groups(c as int);
  }

  /** The lossy reader takes exactly the bytes of one encoded character. */
  lemma LeadReads(c: char, rest: seq<Unit>)
    ensures var us := Units(OptionKeys.Encode(c)) + rest; us[0].Byte? && Lead(us) == (c, |OptionKeys.Encode(c)|)
  {
    var p := c as int;
    if p >= 0x1_0000 { LeadReadsFour(c, rest); }
    else if p >= 0x800 { LeadReadsThree(c, rest); }
    else if p >= 0x80 { LeadReadsTwo(c, rest); }
  }

  lemma EncodesTwo(x: int, y: int)
    requires 0xC2 <= x <= 0xDF && 0x80 <= y <= 0xBF
    ensures OptionKeys.Encode(((x - 0xC0) * 0x40 + (y - 0x80)) as char) == [x, y]
  {
  }

  lemma EncodesThree(x: int, y: int, z: int)
    requires 0xE0 <= x <= 0xEF && 0x80 <= y <= 0xBF && 0x80 <= z <= 0xBF
    requires (x == 0xE0 ==> y >= 0xA0) && (x == 0xED ==> y <= 0x9F)
    ensures OptionKeys.Encode(((x - 0xE0) * 0x1000 + (y - 0x80) * 0x40 + (z - 0x80)) as char) == [x, y, z]
  {
    var p := (x - 0xE0) * 0x1000 + (y - 0x80) * 0x40 + (z - 0x80);
    assert p / 0x40 == (x - 0xE0) * 0x40 + (y - 0x80) && p / 0x1000 == x - 0xE0;
  }

  lemma EncodesFour(w: int, x: int, y: int, z: int)
    requires 0xF0 <= w <= 0xF4 && 0x80 <= x <= 0xBF && 0x80 <= y <= 0xBF && 0x80 <= z <= 0xBF
    requires (w == 0xF0 ==> x >= 0x90) && (w == 0xF4 ==> x <= 0x8F)
    ensures OptionKeys.Encode(((w - 0xF0) * 0x4_0000 + (x - 0x80) * 0x1000 + (y - 0x80) * 0x40 + (z - 0x80)) as char) == [w, x, y, z]
  {
    var p := (w - 0xF0) * 0x4_0000 + (x - 0x80) * 0x1000 + (y - 0x80) * 0x40 + (z - 0x80);
    assert p / 0x40 == (w - 0xF0) * 0x1000 + (x - 0x80) * 0x40 + (y - 0x80);
    assert p / 0x1000 == (w - 0xF0) * 0x40 + (x - 0x80) && p / 0x4_0000 == w - 0xF0;
  }

  /** Nothing ill-formed is read as a character: a lead that is not replaced stands before exactly that character's encoding. */
  lemma LeadSound(units: seq<Unit>)
    requires units != [] && units[0].Byte?
    ensures var r := Lead(units); r.0 == REPLACEMENT || units[..r.1] == Units(OptionKeys.Encode(r.0))
  {
    hide OptionKeys.Encode;
    var r := Lead(units);
    if r.0 != REPLACEMENT {
      var b := units[0].b;
      if b < 0x80 {
        EncodesOne(b);
      } else if b <= 0xDF {
        EncodesTwo(b, units[1].b);
      } else if b <= 0xEF {
        EncodesThree(b, units[1].b, units[2].b);
      } else {
        EncodesFour(b, units[1].b, units[2].b, units[3].b);
      }
    }
  }

  lemma EncodesOne(x: int)
    requires 0 <= x < 0x80
    ensures OptionKeys.Encode(x as char) == [x]
  {
  }

  lemma {:induction false} LossyReads(s: string)
    ensures Lossy(Units(Utf8(s))) == s
  {
    if s != [] {
      hide Lead;
      var bs, rest := OptionKeys.Encode(s[0]), Units(Utf8(s[1..]));
      var us := Units(Utf8(s));
      assert us == Units(bs) + rest;
      LeadReads(s[0], rest);
      assert us[|bs|..] == rest;
      LossyReads(s[1..]);
    }
  }

  function PercentEncoded(s: string): string {
    Utf8IsBytes(s);
    PercentBytes(Utf8(s))
  }

  /** Percent-encoding every UTF-8 byte, high digit first, is undone in one step. */
  lemma PercentRoundTrip(s: string)
    ensures Lossy(Decoded(PercentToken, Kept, PercentEncoded(s))) == s
  {
    Utf8IsBytes(s);
    PercentReadsBytes(Utf8(s));
    LossyReads(s);
  }

  // ------------------------------------------------------------ numbers in digits

  lemma {:induction false} CountsDigits(s: string, rest: string, radix: nat, limit: nat)
    requires forall i | 0 <= i < |s| :: IsDigit(s[i], radix)
    requires |s| == limit || (|s| < limit && (rest == [] || !IsDigit(rest[0], radix)))
    ensures DigitCount(s + rest, radix, limit) == |s|
  {
    if s == [] {
      assert s + rest == rest;
    } else {
      assert (s + rest)[1..] == s[1..] + rest;
      CountsDigits(s[1..], rest, radix, limit - 1);
    }
  }

  function HexNumeral(n: nat): (s: string)
    ensures s != []
  {
    if n < 16 then [HEX[n]] else HexNumeral(n / 16) + [HEX[n % 16]]
  }

  lemma NumberPush(s: string, c: char, radix: nat)
    requires IsDigit(c, radix) && forall i | 0 <= i < |s| :: IsDigit(s[i], radix)
    ensures forall i | 0 <= i < |s + [c]| :: IsDigit((s + [c])[i], radix)
    ensures Number(s + [c], radix) == Number(s, radix) * radix + HexDigit(c).value
  {
    assert (s + [c])[..|s|] == s;
  }

  lemma {:induction false} HexNumeralReads(n: nat)
    ensures forall i | 0 <= i < |HexNumeral(n)| :: IsDigit(HexNumeral(n)[i], 16)
    ensures Number(HexNumeral(n), 16) == n
  {
    HexDigitOfHex(n % 16);
    if n < 16 {
      NumberPush([], HEX[n], 16);
      assert [] + [HEX[n]] == HexNumeral(n);
    } else {
      HexNumeralReads(n / 16);
      NumberPush(HexNumeral(n / 16), HEX[n % 16], 16);
    }
  }

  lemma DigitReads(d: nat)
    requires d < 10
    ensures HexDigit(Digit(d)) == Some(d)
  {
  }

  lemma {:induction false} NumeralReads(n: nat)
    ensures forall i | 0 <= i < |Numeral(n)| :: IsDigit(Numeral(n)[i], 10)
    ensures Number(Numeral(n), 10) == n
  {
    DigitReads(n % 10);
    if n < 10 {
      NumberPush([], Digit(n), 10);
      assert [] + [Digit(n)] == Numeral(n);
    } else {
      NumeralReads(n / 10);
      NumberPush(Numeral(n / 10), Digit(n % 10), 10);
    }
  }

  // ------------------------------------------------------------ CSS escapes

  /** Exactly `k` hexadecimal digits, high digit first. */
  function HexDigits(n: nat, k: nat): (s: string)
    ensures |s| == k
  {
    if k == 0 then [] else HexDigits(n / 16, k - 1) + [HEX[n % 16]]
  }

  function Power16(k: nat): nat { if k == 0 then 1 else 16 * Power16(k - 1) }

  lemma {:induction false} HexDigitsRead(n: nat, k: nat)
    requires n < Power16(k)
    ensures forall i | 0 <= i < k :: IsDigit(HexDigits(n, k)[i], 16)
    ensures Number(HexDigits(n, k), 16) == n
  {
    if k > 0 {
      HexDigitOfHex(n % 16);
      HexDigitsRead(n / 16, k - 1);
      NumberPush(HexDigits(n / 16, k - 1), HEX[n % 16], 16);
    }
  }

  function CssEscape(c: char): string { "\\" + HexDigits(c as int, 6) }

  lemma ScalarOfChar(c: char)
    ensures Scalar(c as int) == Some(c)
  {
  }

  lemma CssTokenReads(c: char, rest: string)
    requires c != '\0' && (rest == [] || rest[0] == '\\')
    ensures CssToken(CssEscape(c) + rest) == Some(Token([c], 7))
  {
    var digits := HexDigits(c as int, 6);
    var s := CssEscape(c) + rest;
    assert Power16(6) == 0x100_0000;
    HexDigitsRead(c as int, 6);
    CountsDigits(digits, rest, 16, 6);
    ScalarOfChar(c);
    assert s[1..] == digits + rest;
    assert (digits + rest)[..6] == digits && (digits + rest)[6..] == rest;
    assert IsDigit(s[1], 16) && s[1] == digits[0];
  }

  /** Six-digit escapes of any text without the null character are undone in one step. */
  lemma {:induction false} CssRoundTrip(s: string)
    requires '\0' !in s
    ensures Decoded(CssToken, Same, Written(CssEscape, s)) == s
  {
    hide CssToken;
    forall i | 0 <= i < |s|
      ensures CssEscape(s[i]) != [] && CssToken(Written(CssEscape, s[i..])) == Some(Token([s[i]], |CssEscape(s[i])|))
    {
      var rest := Written(CssEscape, s[i + 1..]);
      assert s[i..][1..] == s[i + 1..] && s[i] in s;
      CssTokenReads(s[i], rest);
    }
    ReadsBack(CssToken, CssEscape, s);
  }

  lemma {:induction false} HexNumeralLength(n: nat, k: nat)
    requires k > 0 && n < Power16(k)
    ensures |HexNumeral(n)| <= k
  {
    if n >= 16 {
      HexNumeralLength(n / 16, k - 1);
    }
  }

  /** What may end an escape of fewer than six digits. */
  const GAPS: set<string> := {" ", "\t", "\n", "\r\n", "\U{000C}"}

  function GapLength(after: string): nat {
    if CssNewline(after) > 0 then CssNewline(after) else if after != [] && after[0] in {' ', '\t'} then 1 else 0
  }

  lemma CssGapIsRead(gap: string, rest: string)
    requires gap in GAPS
    ensures !IsDigit((gap + rest)[0], 16) && GapLength(gap + rest) == |gap|
  {
  }

  lemma {:induction false} CssTokenAt(s: string, rest: string, digits: string, after: string)
    requires s != [] && s[0] == '\\' && s[1..] == rest && CssNewline(rest) == 0 && DigitCount(rest, 16, 6) == |digits| > 0
    requires rest[..|digits|] == digits && rest[|digits|..] == after && forall i | 0 <= i < |digits| :: IsDigit(digits[i], 16)
    ensures CssToken(s) == Some(Token([CssCodePoint(Number(digits, 16))], 1 + |digits| + GapLength(after)))
  {
    hide IsDigit, Number, CssCodePoint, DigitCount, CssNewline;
  }

  lemma {:induction false} CssTokenOfDigits(digits: string, after: string)
    requires 0 < |digits| <= 6 && forall i | 0 <= i < |digits| :: IsDigit(digits[i], 16)
    requires after == [] || !IsDigit(after[0], 16)
    ensures CssToken("\\" + (digits + after)) == Some(Token([CssCodePoint(Number(digits, 16))], 1 + |digits| + GapLength(after)))
  {
    hide IsDigit, Number, CssCodePoint, DigitCount, CssNewline, CssToken, GapLength;
    var rest := digits + after;
    CountsDigits(digits, after, 16, 6);
    DigitIsNoNewline(digits, after);
    assert rest[..|digits|] == digits && rest[|digits|..] == after;
    CssTokenAt("\\" + rest, rest, digits, after);
  }

  /** A short escape ends with one gap, which belongs to it. */
  lemma CssShortReads(c: char, gap: string, rest: string)
    requires c != '\0' && gap in GAPS
    ensures CssToken("\\" + (HexNumeral(c as int) + (gap + rest))) == Some(Token([c], 1 + |HexNumeral(c as int)| + |gap|))
  {
    hide GAPS, IsDigit, CssToken, Number, HexNumeral, GapLength;
    assert Power16(6) == 0x100_0000;
    HexNumeralLength(c as int, 6);
    HexNumeralReads(c as int);
    CssGapIsRead(gap, rest);
    CssTokenOfDigits(HexNumeral(c as int), gap + rest);
    ScalarOfChar(c);
  }

  lemma DigitIsNoNewline(digits: string, after: string)
    requires digits != [] && IsDigit(digits[0], 16)
    ensures CssNewline(digits + after) == 0
  {
  }

  /** A character that is no hexadecimal digit and no newline is read back from a lone backslash before it. */
  lemma CssEscapesItself(c: char, rest: string)
    requires HexDigit(c) == None && c !in "\n\r\U{000C}"
    ensures CssToken("\\" + [c] + rest) == Some(Token([c], 2))
  {
    var s := "\\" + [c] + rest;
    assert s[1..] == [c] + rest;
  }

  /** An escaped newline joins its two lines. */
  lemma CssJoinsLines(rest: string)
    ensures CssToken("\\\n" + rest) == Some(Token([], 2)) && CssToken("\\\r\n" + rest) == Some(Token([], 3))
  {
    assert ("\\\n" + rest)[1..] == "\n" + rest;
    assert ("\\\r\n" + rest)[1..] == "\r\n" + rest;
  }

  // ------------------------------------------------------------ HTML character references

  function DecimalReference(c: char): string { "&#" + Numeral(c as int) + ";" }

  function HexReference(c: char): string { "&#x" + HexNumeral(c as int) + ";" }

  lemma DecimalDigitIsNoX(c: char)
    requires IsDigit(c, 10)
    ensures c !in {'x', 'X'}
  {
  }

  lemma NumericReads(prefix: string, digits: string, rest: string, radix: nat, c: char)
    requires (prefix == "#" && radix == 10) || (prefix == "#x" && radix == 16)
    requires digits != [] && forall i | 0 <= i < |digits| :: IsDigit(digits[i], radix)
    requires Number(digits, radix) == c as int
    ensures Numeric(prefix + digits + ";" + rest) == Some(Token([c], |prefix| + |digits| + 1))
  {
    hide IsDigit, Number, Scalar;
    var entity, start := prefix + digits + ";" + rest, |prefix|;
    if radix == 10 {
      DecimalDigitIsNoX(digits[0]);
      assert entity[1] == digits[0];
    }
    assert entity[start..] == digits + (";" + rest);
    SemicolonIsNoDigit(radix);
    CountsDigits(digits, ";" + rest, radix, |entity|);
    assert entity[start..][..|digits|] == digits;
    ScalarOfChar(c);
    assert entity[start + |digits|] == ';';
  }

  lemma SemicolonIsNoDigit(radix: nat)
    ensures !IsDigit(';', radix)
  {
  }

  lemma TokenOfNumeric(entity: string)
    requires entity != [] && entity[0] == '#'
    ensures HtmlToken("&" + entity) == if Numeric(entity).None? then None else Some(Numeric(entity).value.(consumed := Numeric(entity).value.consumed + 1))
  {
    hide Numeric;
    assert ("&" + entity)[1..] == entity;
  }

  lemma DecimalTokenReads(c: char, rest: string)
    ensures HtmlToken(DecimalReference(c) + rest) == Some(Token([c], |DecimalReference(c)|))
  {
    hide Numeric, HtmlToken, Number, IsDigit;
    var digits := Numeral(c as int);
    var entity := "#" + digits + ";" + rest;
    NumeralReads(c as int);
    NumericReads("#", digits, rest, 10, c);
    TokenOfNumeric(entity);
    assert DecimalReference(c) + rest == "&" + entity;
  }

  lemma HexTokenReads(c: char, rest: string)
    ensures HtmlToken(HexReference(c) + rest) == Some(Token([c], |HexReference(c)|))
  {
    hide Numeric, HtmlToken, Number, IsDigit;
    var digits := HexNumeral(c as int);
    var entity := "#x" + digits + ";" + rest;
    HexNumeralReads(c as int);
    NumericReads("#x", digits, rest, 16, c);
    TokenOfNumeric(entity);
    assert HexReference(c) + rest == "&" + entity;
  }

  /** Decimal and hexadecimal references of any text are undone in one step. */
  lemma {:induction false} ReferenceRoundTrip(s: string)
    ensures Decoded(HtmlToken, Same, Written(DecimalReference, s)) == s
    ensures Decoded(HtmlToken, Same, Written(HexReference, s)) == s
  {
    hide HtmlToken;
    forall i | 0 <= i < |s|
      ensures HtmlToken(Written(DecimalReference, s[i..])) == Some(Token([s[i]], |DecimalReference(s[i])|))
      ensures HtmlToken(Written(HexReference, s[i..])) == Some(Token([s[i]], |HexReference(s[i])|))
    {
      assert s[i..][1..] == s[i + 1..];
      DecimalTokenReads(s[i], Written(DecimalReference, s[i + 1..]));
      HexTokenReads(s[i], Written(HexReference, s[i + 1..]));
    }
    ReadsBack(HtmlToken, DecimalReference, s);
    ReadsBack(HtmlToken, HexReference, s);
  }

  // ------------------------------------------------------------ named references

  /** The named references in use, from the list of the HTML standard, section "Named character references". */
  const NAMES: seq<(string, char)> := [
    ("amp", '&'), ("apos", '\''), ("ast", '*'), ("bsol", '\\'), ("colon", ':'), ("comma", ','), ("commat", '@'), ("dollar", '$'),
    ("equals", '='), ("excl", '!'), ("grave", '`'), ("gt", '>'), ("hyphen", '-'), ("minus", '-'), ("lbrack", '['), ("lsqb", '['),
    ("lpar", '('), ("lowbar", '_'), ("lt", '<'), ("nbsp", '\U{00A0}'), ("zerowidthspace", '\U{200B}'), ("wj", '\U{2060}'),
    ("num", '#'), ("percnt", '%'), ("period", '.'), ("plus", '+'), ("quest", '?'), ("quot", '"'), ("rbrack", ']'), ("rsqb", ']'),
    ("rpar", ')'), ("semi", ';'), ("shy", '\U{00AD}'), ("sol", '/'), ("vert", '|'), ("zwj", '\U{200D}'), ("zwnj", '\U{200C}'),
    ("lrm", '\U{200E}'), ("rlm", '\U{200F}'), ("nobreak", '\U{2060}'), ("negativemediumspace", '\U{200B}'),
    ("negativethickspace", '\U{200B}'), ("negativethinspace", '\U{200B}'), ("negativeverythinspace", '\U{200B}')]

  lemma {:induction false} FindsFirst(name: string, rest: string)
    requires ';' !in name
    ensures Find(name + ";" + rest, ';') == |name|
  {
    if name == [] {
      assert name + ";" + rest == ";" + rest;
    } else {
      assert (name + ";" + rest)[1..] == name[1..] + ";" + rest;
      FindsFirst(name[1..], rest);
    }
  }

  /** The lowered window the name is looked up in. */
  function Window(entity: string): string { LowerAll(if |entity| < 32 then entity else entity[..32]) }

  const UPPER := "ABCDEFGHIJKLMNOPQRSTUVWXYZ"
  const LOWER := "abcdefghijklmnopqrstuvwxyz"

  /** The letters follow each other in both alphabets. */
  lemma AlphabetsRun(i: nat)
    requires i < 26
    ensures UPPER[i] as int == 'A' as int + i && LOWER[i] as int == 'a' as int + i
  {
  }

  /** Lower-casing changes the letters A to Z alone, each to its own small letter. */
  lemma LowerIs(c: char)
    ensures (exists i :: 0 <= i < 26 && c == UPPER[i] && Lower(c) == LOWER[i]) || (c !in UPPER && Lower(c) == c)
  {
    hide UPPER, LOWER;
    TwentySix();
    if 'A' <= c <= 'Z' {
      var i := c as int - 'A' as int;
      AlphabetsRun(i);
      assert c == UPPER[i];
    } else {
      forall i | 0 <= i < |UPPER|
        ensures UPPER[i] != c
      {
        AlphabetsRun(i);
      }
    }
  }

  lemma TwentySix()
    ensures |UPPER| == 26 && |LOWER| == 26
  {
  }

  lemma LowerParts(a: string, b: string)
    ensures LowerAll(a + b) == LowerAll(a) + LowerAll(b)
  {
  }

  lemma WindowOfName(cased: string, rest: string) returns (tail: string)
    requires |cased| < 32
    ensures Window(cased + ";" + rest) == LowerAll(cased) + ";" + tail
  {
    hide LowerAll;
    var entity := cased + ";" + rest;
    var shown := if |entity| < 32 then entity else entity[..32];
    var after := shown[|cased| + 1..];
    tail := LowerAll(after);
    assert shown == cased + (";" + after);
    LowerParts(cased, ";" + after);
    LowerParts(";", after);
    assert LowerAll(";") == ";";
    assert LowerAll(cased) + (";" + tail) == LowerAll(cased) + ";" + tail;
  }

  lemma ReferenceByWindow(entity: string)
    requires entity == [] || entity[0] != '#'
    ensures var prefix := Window(entity); var end := Find(prefix, ';');
      CharacterReference(entity) ==
        if end < |prefix| && NamedCharacter(prefix[..end]).Some? then Some(Token([NamedCharacter(prefix[..end]).value], end + 1))
        else Legacy(prefix, LEGACY)
  {
    hide NamedCharacter, Legacy, LowerAll;
  }

  /** A known name in any letter case, closed by a semicolon, reads as its character. */
  lemma NamedTokenReads(name: string, c: char, cased: string, rest: string)
    requires NamedCharacter(name) == Some(c) && LowerAll(cased) == name && |name| < 32 && ';' !in name && name != []
    requires '#' !in name
    ensures HtmlToken("&" + cased + ";" + rest) == Some(Token([c], |name| + 2))
  {
    hide NamedCharacter, Legacy, CharacterReference, Window, Find;
    var entity := cased + ";" + rest;
    assert ("&" + cased + ";" + rest)[1..] == entity;
    assert Lower(cased[0]) == name[0] && name[0] in name;
    var tail := WindowOfName(cased, rest);
    FindsFirst(name, tail);
    ReferenceByWindow(entity);
    assert (name + ";" + tail)[..|name|] == name;
  }

  lemma NamesAreKnown(i: nat)
    requires i < |NAMES|
    ensures NamedCharacter(NAMES[i].0) == Some(NAMES[i].1) && 0 < |NAMES[i].0| < 32
  {
  }

  lemma {:induction false} FindsNothing(s: string)
    requires ';' !in s
    ensures Find(s, ';') == |s|
  {
    if s != [] {
      assert s[0] in s;
      FindsNothing(s[1..]);
    }
  }

  lemma {:induction false} LegacyFinds(names: seq<string>, i: nat, prefix: string)
    requires i < |names| && names[i] <= prefix && forall k | 0 <= k < i :: !(names[k] <= prefix)
    requires NamedCharacter(names[i]).Some?
    ensures Legacy(prefix, names) == Some(Token([NamedCharacter(names[i]).value], |names[i]|))
  {
    hide NamedCharacter;
    if i > 0 {
      LegacyFinds(names[1..], i - 1, prefix);
    }
  }

  lemma LegacyReads(i: nat, prefix: string)
    requires i < |LEGACY| && LEGACY[i] <= prefix
    ensures NamedCharacter(LEGACY[i]).Some?
    ensures Legacy(prefix, LEGACY) == Some(Token([NamedCharacter(LEGACY[i]).value], |LEGACY[i]|))
  {
    assert prefix[0] == LEGACY[i][0];
    assert forall k | 0 <= k < i :: LEGACY[k] != [] && LEGACY[k][0] != prefix[0];
    LegacyFinds(LEGACY, i, prefix);
  }

  lemma WindowOfLegacy(i: nat, rest: string)
    requires i < |LEGACY| && ';' !in rest && |LEGACY[i] + rest| < 32
    ensures Window(LEGACY[i] + rest) == LEGACY[i] + LowerAll(rest) && ';' !in Window(LEGACY[i] + rest)
  {
    LegacyIsLower(i);
    LowerParts(LEGACY[i], rest);
    var low := LowerAll(rest);
    forall k | 0 <= k < |low|
      ensures low[k] != ';'
    {
      assert rest[k] in rest;
    }
  }

  /** The five old names are read without a semicolon too. */
  lemma LegacyTokenReads(i: nat, rest: string)
    requires i < |LEGACY| && ';' !in rest && |LEGACY[i] + rest| < 32
    ensures NamedCharacter(LEGACY[i]).Some?
    ensures HtmlToken("&" + LEGACY[i] + rest) == Some(Token([NamedCharacter(LEGACY[i]).value], |LEGACY[i]| + 1))
  {
    hide NamedCharacter, Legacy, CharacterReference, Find, Window, LowerAll;
    var name := LEGACY[i];
    var entity := name + rest;
    assert ("&" + name + rest)[1..] == entity;
    LegacyIsLower(i);
    WindowOfLegacy(i, rest);
    FindsNothing(Window(entity));
    ReferenceByWindow(entity);
    LegacyReads(i, Window(entity));
  }

  lemma LegacyIsLower(i: nat)
    requires i < |LEGACY|
    ensures LowerAll(LEGACY[i]) == LEGACY[i] && LEGACY[i][0] != '#' && ';' !in LEGACY[i]
  {
  }

  // ------------------------------------------------------------ the matcher sees through them

  lemma {:induction false} NotTriggered<T>(token: string -> Option<Token<T>>, trigger: char, s: string)
    requires trigger !in s && forall t | t != [] && t[0] != trigger :: token(t) == None
    ensures !Fires(token, s)
  {
    if s != [] {
      assert s[0] in s;
      NotTriggered(token, trigger, s[1..]);
    }
  }

  lemma TriggerCharacters()
    ensures forall t | t != [] && t[0] != '&' :: HtmlToken(t) == None
    ensures forall t | t != [] && t[0] != '%' :: PercentToken(t) == None
    ensures forall t | t != [] && t[0] != '\\' :: CssToken(t) == None
  {
  }

  lemma {:induction false} AsciiIsVisible(s: string)
    requires forall i | 0 <= i < |s| :: s[i] as int < 0x80
    ensures Visible(s) == s
  {
    if s != [] {
      AsciiIsVisible(s[1..]);
    }
  }

  /** An ASCII text without ampersands reaches the percent decoder unchanged. */
  lemma FirstStepsKeep(s: string)
    requires forall i | 0 <= i < |s| :: s[i] as int < 0x80
    ensures Within(s, 1) == s
    ensures '&' !in s ==> Within(s, 2) == s
    ensures '&' !in s && '%' !in s ==> Within(s, 3) == s
  {
    hide HtmlToken, PercentToken, CssToken, Decoded, Lossy, Fires, Visible;
    AsciiIsVisible(s);
    TriggerCharacters();
    HtmlShrinks();
    TokenStep(HtmlToken, s);
    PercentStep(s);
    assert Within(s, 0) == s && Within(s, 1) == Visible(s);
    if '&' !in s {
      NotTriggered(HtmlToken, '&', s);
      assert Within(s, 2) == Decoded(HtmlToken, Same, s);
    }
    if '&' !in s && '%' !in s {
      NotTriggered(PercentToken, '%', s);
      assert Within(s, 3) == Lossy(Decoded(PercentToken, Kept, s));
    }
  }

  lemma {:induction false} PercentAlphabet(bs: seq<nat>)
    requires AreBytes(bs)
    ensures forall i | 0 <= i < |PercentBytes(bs)| :: PercentBytes(bs)[i] as int < 0x80 && PercentBytes(bs)[i] != '&'
  {
    if bs != [] {
      HexDigitOfHex(bs[0] / 16);
      HexDigitOfHex(bs[0] % 16);
      PercentAlphabet(bs[1..]);
    }
  }

  /** A percent-encoded path is found, whatever the path. */
  lemma PercentEncodedIsExposed(s: string, raw: string -> bool)
    requires raw(s)
    ensures Exposes(raw, PercentEncoded(s))
  {
    hide Decoded, Lossy, Visible, HtmlToken, PercentToken, CssToken;
    var e := PercentEncoded(s);
    Utf8IsBytes(s);
    PercentAlphabet(Utf8(s));
    FirstStepsKeep(e);
    PercentRoundTrip(s);
    assert Within(e, 3) == s;
    assert After(e, 0) == e;
    assert raw(Within(After(e, 0), 3));
  }

  lemma {:induction false} HexAlphabet(n: nat, k: nat)
    ensures forall i | 0 <= i < k :: HexDigits(n, k)[i] as int < 0x80 && HexDigits(n, k)[i] !in "%&\\#;"
  {
    if k > 0 {
      HexDigitOfHex(n % 16);
      HexAlphabet(n / 16, k - 1);
    }
  }

  predicate CssCharacter(c: char) { (c as int) < 0x80 && c != '&' && c != '%' }

  lemma CssEscapeAlphabet(c: char)
    ensures Only(CssEscape(c), CssCharacter)
  {
    HexAlphabet(c as int, 6);
  }

  /** A path hidden behind CSS escapes is found at the end of the first round. */
  lemma CssEscapedIsExposed(s: string, raw: string -> bool)
    requires raw(s) && '\0' !in s
    ensures Exposes(raw, Written(CssEscape, s))
  {
    hide Decoded, Lossy, Visible, HtmlToken, PercentToken, CssToken, Written;
    var e := Written(CssEscape, s);
    forall c { CssEscapeAlphabet(c); }
    WrittenOnly(CssEscape, s, CssCharacter);
    FirstStepsKeep(e);
    CssRoundTrip(s);
    assert Within(e, 4) == s;
    assert After(e, 0) == e && After(e, 1) == s;
    assert raw(Within(After(e, 1), 0));
  }

  predicate AsciiCharacter(c: char) { (c as int) < 0x80 }

  lemma {:induction false} NumeralAlphabet(n: nat)
    ensures Only(Numeral(n), AsciiCharacter)
  {
  }

  lemma {:induction false} HexNumeralAlphabet(n: nat)
    ensures Only(HexNumeral(n), AsciiCharacter)
  {
    HexDigitOfHex(n % 16);
    if n >= 16 {
      HexNumeralAlphabet(n / 16);
    }
  }

  /** A path hidden behind decimal or hexadecimal references is found. */
  lemma ReferencedIsExposed(s: string, raw: string -> bool)
    requires raw(s)
    ensures Exposes(raw, Written(DecimalReference, s)) && Exposes(raw, Written(HexReference, s))
  {
    hide Decoded, Lossy, Visible, HtmlToken, PercentToken, CssToken, Written;
    forall c
      ensures Only(DecimalReference(c), AsciiCharacter) && Only(HexReference(c), AsciiCharacter)
    {
      NumeralAlphabet(c as int);
      HexNumeralAlphabet(c as int);
    }
    WrittenOnly(DecimalReference, s, AsciiCharacter);
    WrittenOnly(HexReference, s, AsciiCharacter);
    ReferenceRoundTrip(s);
    ReferenceExposes(Written(DecimalReference, s), s, raw);
    ReferenceExposes(Written(HexReference, s), s, raw);
  }

  lemma ReferenceExposes(e: string, s: string, raw: string -> bool)
    requires Only(e, AsciiCharacter) && Decoded(HtmlToken, Same, e) == s && raw(s)
    ensures Exposes(raw, e)
  {
    hide Decoded, Lossy, Visible, HtmlToken, PercentToken, CssToken;
    FirstStepsKeep(e);
    assert Within(e, 2) == s;
    assert After(e, 0) == e;
    assert raw(Within(After(e, 0), 2));
  }

  // ------------------------------------------------------------ encodings within encodings

  /** CSS escapes, percent-encoded, behind decimal references. */
  function Wrapped(s: string): string {
    Written(DecimalReference, PercentEncoded(Written(CssEscape, s)))
  }

  lemma {:induction false} ReferencesAreAscii(s: string)
    ensures Only(Written(DecimalReference, s), AsciiCharacter)
  {
    forall c
      ensures Only(DecimalReference(c), AsciiCharacter)
    {
      NumeralAlphabet(c as int);
    }
    WrittenOnly(DecimalReference, s, AsciiCharacter);
  }

  /** One round undoes all three, because it applies its decoders in that order. */
  lemma {:induction false} OneRoundUnwraps(s: string)
    requires '\0' !in s
    ensures Within(Wrapped(s), STEPS) == s
  {
    hide Decoded, Lossy, Visible, HtmlToken, PercentToken, CssToken, Written, PercentEncoded;
    var css := Written(CssEscape, s);
    var percent := PercentEncoded(css);
    var e := Wrapped(s);
    ReferencesAreAscii(percent);
    FirstStepsKeep(e);
    ReferenceRoundTrip(percent);
    PercentRoundTrip(css);
    CssRoundTrip(s);
    assert Within(e, 2) == percent;
    assert Within(e, 3) == css;
  }

  function Nested(s: string, depth: nat): string {
    if depth == 0 then s else Wrapped(Nested(s, depth - 1))
  }

  predicate IsInk(c: char) { c != '\0' }

  lemma {:induction false} NoNul(s: string, depth: nat)
    requires '\0' !in s
    ensures '\0' !in Nested(s, depth)
  {
    hide Written, PercentEncoded;
    if depth > 0 {
      var inner := PercentEncoded(Written(CssEscape, Nested(s, depth - 1)));
      forall c
        ensures Only(DecimalReference(c), IsInk)
      {
        NumeralHasInk(c as int);
      }
      WrittenOnly(DecimalReference, inner, IsInk);
    }
  }

  lemma {:induction false} NumeralHasInk(n: nat)
    ensures Only(Numeral(n), IsInk)
  {
    if n >= 10 {
      NumeralHasInk(n / 10);
    }
  }

  lemma {:induction false} RoundsUnwrap(s: string, depth: nat, r: nat)
    requires '\0' !in s && r <= depth
    ensures After(Nested(s, depth), r) == Nested(s, depth - r)
  {
    hide Wrapped, Within;
    if r > 0 {
      RoundsUnwrap(s, depth, r - 1);
      NoNul(s, depth - r);
      OneRoundUnwraps(Nested(s, depth - r));
    }
  }

  /** However deeply a path is wrapped, unbounded decoding exposes it. */
  lemma {:induction false} NestedIsExposed(s: string, depth: nat, raw: string -> bool)
    requires raw(s) && '\0' !in s
    ensures Exposes(raw, Nested(s, depth))
  {
    hide Nested;
    RoundsUnwrap(s, depth, depth);
    assert Nested(s, 0) == s by { NestedNone(s); }
    assert raw(Within(After(Nested(s, depth), depth), 0));
  }

  lemma NestedNone(s: string)
    ensures Nested(s, 0) == s
  {
  }

  // ------------------------------------------------------------ invisible code points

  /** Marks that render as nothing: soft hyphen, joiners, directional controls, variation selectors, tags, byte order mark. */
  const MARKS: seq<char> := [
    '\U{00AD}', '\U{034F}', '\U{061C}', '\U{180E}', '\U{200B}', '\U{200C}', '\U{200D}', '\U{200E}', '\U{200F}', '\U{202A}',
    '\U{202E}', '\U{2060}', '\U{2064}', '\U{2066}', '\U{206F}', '\U{FE00}', '\U{FE0F}', '\U{FEFF}', '\U{FFF9}', '\U{E0001}',
    '\U{E0020}', '\U{E007F}', '\U{E0100}', '\U{E01EF}']

  /** General category Cf of the Unicode Character Database, the grapheme joiner and the variation selectors, as ranges in order. */
  const RANGES: seq<(int, int)> := [
    (0xAD, 0xAD), (0x34F, 0x34F), (0x600, 0x605), (0x61C, 0x61C), (0x6DD, 0x6DD), (0x70F, 0x70F), (0x890, 0x891), (0x8E2, 0x8E2),
    (0x180E, 0x180E), (0x200B, 0x200F), (0x202A, 0x202E), (0x2060, 0x2064), (0x2066, 0x206F), (0xFE00, 0xFE0F), (0xFEFF, 0xFEFF),
    (0xFFF9, 0xFFFB), (0x110BD, 0x110BD), (0x110CD, 0x110CD), (0x13430, 0x1343F), (0x1BCA0, 0x1BCA3), (0x1D173, 0x1D17A),
    (0xE0001, 0xE0001), (0xE0020, 0xE007F), (0xE0100, 0xE01EF)]

  predicate InRange(c: char, i: nat)
    requires i < |RANGES|
  {
    RANGES[i].0 <= c as int <= RANGES[i].1
  }

  lemma RangesAreInvisible(c: char, i: nat)
    requires i < |RANGES| && InRange(c, i)
    ensures Invisible(c)
  {
  }

  lemma InvisibleIsInRange(c: char)
    requires Invisible(c)
    ensures exists i: nat :: i < |RANGES| && InRange(c, i)
  {
    assert InRange(c, 0) || InRange(c, 1) || InRange(c, 2) || InRange(c, 3) || InRange(c, 4) || InRange(c, 5)
      || InRange(c, 6) || InRange(c, 7) || InRange(c, 8) || InRange(c, 9) || InRange(c, 10) || InRange(c, 11)
      || InRange(c, 12) || InRange(c, 13) || InRange(c, 14) || InRange(c, 15) || InRange(c, 16) || InRange(c, 17)
      || InRange(c, 18) || InRange(c, 19) || InRange(c, 20) || InRange(c, 21) || InRange(c, 22) || InRange(c, 23);
  }

  lemma {:induction false} VisibleParts(a: string, b: string)
    ensures Visible(a + b) == Visible(a) + Visible(b)
  {
    if a == [] {
      assert a + b == b;
    } else {
      assert (a + b)[1..] == a[1..] + b;
      VisibleParts(a[1..], b);
    }
  }

  /** A mark set anywhere into a text is stripped, and nothing else changes. */
  lemma MarkIsStripped(a: string, i: nat, b: string)
    requires i < |MARKS|
    ensures Visible(a + [MARKS[i]] + b) == Visible(a + b)
  {
    VisibleParts(a, [MARKS[i]] + b);
    VisibleParts([MARKS[i]], b);
    VisibleParts(a, b);
    MarksAreInvisible(i);
    assert a + [MARKS[i]] + b == a + ([MARKS[i]] + b);
    assert Visible([MARKS[i]]) == [];
  }

  lemma MarksAreInvisible(i: nat)
    requires i < |MARKS|
    ensures Invisible(MARKS[i])
  {
  }
}
