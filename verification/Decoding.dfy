/**
 The private-path matcher's four decoders and its bounded search through their fixpoint:
 invisible code points, HTML character references, percent-encoding (section 2.1 of RFC
 3986) and CSS escapes (section 4.3.7 of CSS Syntax Level 3).
 */
module Decoding {
  import opened ExportModel

  // ------------------------------------------------------------ token-wise decoding

  /** What one encoded token stands for and how many characters it spans. */
  datatype Token<T> = Token(text: seq<T>, consumed: nat)

  /** A token, where one starts, spans at least two characters it can shrink to fewer. */
  ghost predicate Shrinks<T>(token: string -> Option<Token<T>>) {
    forall s | s != [] && token(s).Some? :: |token(s).value.text| < token(s).value.consumed <= |s|
  }

  function Decoded<T>(token: string -> Option<Token<T>>, copy: char -> T, s: string): seq<T> {
    if s == [] then [] else
      match token(s)
      case None => [copy(s[0])] + Decoded(token, copy, s[1..])
      case Some(t) =>
        if 0 < t.consumed <= |s| then t.text + Decoded(token, copy, s[t.consumed..]) else []
  }

  /** Whether any token was decoded. */
  function Fires<T>(token: string -> Option<Token<T>>, s: string): bool {
    s != [] && (token(s).Some? || Fires(token, s[1..]))
  }

  /** A pass that decodes no token copies its input; one that does is strictly shorter. */
  lemma {:induction false} DecodedShrinks<T>(token: string -> Option<Token<T>>, copy: char -> T, s: string)
    requires Shrinks(token)
    ensures |Decoded(token, copy, s)| <= |s|
    ensures Fires(token, s) ==> |Decoded(token, copy, s)| < |s|
    ensures !Fires(token, s) ==> |Decoded(token, copy, s)| == |s| && forall i | 0 <= i < |s| :: Decoded(token, copy, s)[i] == copy(s[i])
    decreases |s|
  {
    if s != [] {
      match token(s)
      case None => DecodedShrinks(token, copy, s[1..]);
      case Some(t) => DecodedShrinks(token, copy, s[t.consumed..]);
    }
  }

  /** One step of a decoding loop that stands at `index` with `done` already written. */
  ghost predicate DecodingAt<T>(token: string -> Option<Token<T>>, copy: char -> T, s: string, index: nat, done: seq<T>, changed: bool) {
    && index <= |s|
    && done + Decoded(token, copy, s[index..]) == Decoded(token, copy, s)
    && (Fires(token, s) <==> changed || Fires(token, s[index..]))
  }

  lemma DecodingStarts<T>(token: string -> Option<Token<T>>, copy: char -> T, s: string)
    ensures DecodingAt(token, copy, s, 0, [], false)
  {
    assert s[0..] == s;
  }

  lemma DecodingCopies<T>(token: string -> Option<Token<T>>, copy: char -> T, s: string, index: nat, done: seq<T>, changed: bool)
    requires index < |s| && DecodingAt(token, copy, s, index, done, changed) && token(s[index..]).None?
    ensures DecodingAt(token, copy, s, index + 1, done + [copy(s[index])], changed)
  {
    var rest, c := s[index..], [copy(s[index])];
    assert rest[1..] == s[index + 1..];
    var later := Decoded(token, copy, s[index + 1..]);
    assert Decoded(token, copy, rest) == c + later;
    hide Decoded;
    assert done + c + later == done + (c + later);
  }

  lemma DecodingSteps<T>(token: string -> Option<Token<T>>, copy: char -> T, s: string, index: nat, done: seq<T>, changed: bool)
    requires Shrinks(token) && index < |s| && DecodingAt(token, copy, s, index, done, changed)
    ensures token(s[index..]).None? ==> DecodingAt(token, copy, s, index + 1, done + [copy(s[index])], changed)
    ensures token(s[index..]).Some? ==>
      var t := token(s[index..]).value;
      0 < t.consumed <= |s| - index && DecodingAt(token, copy, s, index + t.consumed, done + t.text, true)
  {
    var rest := s[index..];
    match token(rest)
    case None => DecodingCopies(token, copy, s, index, done, changed);
    case Some(t) =>
      assert rest[t.consumed..] == s[index + t.consumed..];
      var later := Decoded(token, copy, s[index + t.consumed..]);
      assert Decoded(token, copy, rest) == t.text + later;
      hide Decoded;
      assert done + t.text + later == done + (t.text + later);
  }

  lemma DecodingEnds<T>(token: string -> Option<Token<T>>, copy: char -> T, s: string, done: seq<T>, changed: bool)
    requires DecodingAt(token, copy, s, |s|, done, changed)
    ensures done == Decoded(token, copy, s) && changed == Fires(token, s)
  {
    assert s[|s|..] == [];
  }

  function Same(c: char): char { c }

  // ------------------------------------------------------------ invisible code points

  predicate Between(p: int, low: int, high: int) { low <= p <= high }

  predicate Invisible(c: char) {
    var p := c as int;
    || p in {0x00AD, 0x034F, 0x061C, 0x06DD, 0x070F, 0x08E2, 0x180E, 0xFEFF, 0x110BD, 0x110CD, 0xE0001}
    || Between(p, 0x0600, 0x0605) || Between(p, 0x0890, 0x0891) || Between(p, 0x200B, 0x200F) || Between(p, 0x202A, 0x202E)
    || Between(p, 0x2060, 0x2064) || Between(p, 0x2066, 0x206F) || Between(p, 0xFE00, 0xFE0F) || Between(p, 0xFFF9, 0xFFFB)
    || Between(p, 0x13430, 0x1343F) || Between(p, 0x1BCA0, 0x1BCA3) || Between(p, 0x1D173, 0x1D17A)
    || Between(p, 0xE0020, 0xE007F) || Between(p, 0xE0100, 0xE01EF)
  }

  function Visible(s: string): string {
    if s == [] then [] else (if Invisible(s[0]) then [] else [s[0]]) + Visible(s[1..])
  }

  lemma {:induction false} VisibleShrinks(s: string)
    ensures |Visible(s)| <= |s| && (|Visible(s)| == |s| ==> Visible(s) == s)
  {
    if s != [] {
      VisibleShrinks(s[1..]);
    }
  }

  lemma VisibleFrom(s: string, i: nat, kept: string)
    requires i < |s|
    ensures kept + Visible(s[i..]) == (if Invisible(s[i]) then kept else kept + [s[i]]) + Visible(s[i + 1..])
  {
    hide Invisible;
    assert s[i..][1..] == s[i + 1..];
  }

  method StripInvisibleCodePoints(s: string) returns (visible: string, changed: bool)
    ensures visible == Visible(s) && changed == (Visible(s) != s)
  {
    hide Invisible, Visible;
    visible := [];
    assert s[0..] == s;
    for i := 0 to |s|
      invariant visible + Visible(s[i..]) == Visible(s)
    {
      VisibleFrom(s, i, visible);
      if !Invisible(s[i]) {
        visible := visible + [s[i]];
      }
    }
    NothingVisible(s);
    changed := |visible| != |s|;
    VisibleShrinks(s);
  }

  lemma NothingVisible(s: string)
    ensures Visible(s[|s|..]) == []
  {
  }

  // ------------------------------------------------------------ hexadecimal and decimal digits

  function HexDigit(c: char): Option<nat> {
    if '0' <= c <= '9' then Some(c as int - '0' as int)
    else if 'a' <= c <= 'f' then Some(c as int - 'a' as int + 10)
    else if 'A' <= c <= 'F' then Some(c as int - 'A' as int + 10)
    else None
  }

  predicate IsDigit(c: char, radix: nat) {
    HexDigit(c).Some? && HexDigit(c).value < radix
  }

  /** How many of the first `limit` characters are digits, with no gap. */
  function DigitCount(s: string, radix: nat, limit: nat): (n: nat)
    ensures n <= |s| && n <= limit && forall i | 0 <= i < n :: IsDigit(s[i], radix)
  {
    if s == [] || limit == 0 || !IsDigit(s[0], radix) then 0 else 1 + DigitCount(s[1..], radix, limit - 1)
  }

  function Scaled(n: nat, radix: nat): nat { n * radix }

  function Number(s: string, radix: nat): nat
    requires forall i | 0 <= i < |s| :: IsDigit(s[i], radix)
  {
    if s == [] then 0 else
      var high, digit := Number(s[..|s| - 1], radix), s[|s| - 1];
      assert IsDigit(digit, radix);
      Scaled(high, radix) + HexDigit(digit).value
  }

  /** A Unicode scalar value; surrogates and numbers past the last plane are none. */
  function Scalar(n: nat): Option<char> {
    if n < 0xD800 || 0xE000 <= n < 0x11_0000 then Some(n as char) else None
  }

  const REPLACEMENT: char := '\U{FFFD}'

  // ------------------------------------------------------------ CSS escapes

  function CssNewline(rest: string): nat {
    if |rest| >= 2 && rest[0] == '\r' && rest[1] == '\n' then 2
    else if rest != [] && rest[0] in {'\n', '\r', '\U{000C}'} then 1
    else 0
  }

  function CssCodePoint(n: nat): char {
    if n == 0 || Scalar(n).None? then REPLACEMENT else Scalar(n).value
  }

  function CssToken(s: string): Option<Token<char>> {
    if s == [] || s[0] != '\\' then None else
      var rest := s[1..];
      if CssNewline(rest) > 0 then Some(Token([], 1 + CssNewline(rest))) else
        var digits := DigitCount(rest, 16, 6);
        if digits > 0 then
          var after := rest[digits..];
          var space := if CssNewline(after) > 0 then CssNewline(after) else if after != [] && after[0] in {' ', '\t'} then 1 else 0;
          Some(Token([CssCodePoint(Number(rest[..digits], 16))], 1 + digits + space))
        else if rest != [] then Some(Token([rest[0]], 2))
        else None
  }

  method DecodeCssEscapesOnce(s: string) returns (decoded: string, changed: bool)
    ensures decoded == Decoded(CssToken, Same, s) && changed == Fires(CssToken, s)
  {
    CssShrinks();
    hide CssToken, DecodingAt, Decoded, Fires, Shrinks;
    decoded, changed := [], false;
    var index := 0;
    DecodingStarts(CssToken, Same, s);
    while index < |s|
      invariant 0 <= index <= |s| && DecodingAt(CssToken, Same, s, index, decoded, changed)
      decreases |s| - index
    {
      DecodingSteps(CssToken, Same, s, index, decoded, changed);
      match CssToken(s[index..])
      case None =>
        decoded := decoded + [s[index]];
        index := index + 1;
      case Some(t) =>
        decoded := decoded + t.text;
        index := index + t.consumed;
        changed := true;
    }
    DecodingEnds(CssToken, Same, s, decoded, changed);
  }

  lemma CssShrinks()
    ensures Shrinks(CssToken)
  {
  }

  // ------------------------------------------------------------ percent-encoding

  /** Decoded text before it is read as UTF-8: untouched characters and single decoded bytes. */
  datatype Unit = Char(c: char) | Byte(b: nat)

  function PercentToken(s: string): Option<Token<Unit>> {
    if |s| > 2 && s[0] == '%' && HexDigit(s[1]).Some? && HexDigit(s[2]).Some?
    then Some(Token([Byte(HexDigit(s[1]).value * 16 + HexDigit(s[2]).value)], 3))
    else None
  }

  function Kept(c: char): Unit { Char(c) }

  /** The unit at `i` is a decoded byte in the given range; an untouched character never continues one. */
  predicate ByteIn(units: seq<Unit>, i: nat, low: nat, high: nat) {
    i < |units| && units[i].Byte? && low <= units[i].b <= high
  }

  /** The length of the longest well-formed or truncated sequence a lead byte starts, and its character. */
  function Lead(units: seq<Unit>): (r: (char, nat))
    requires units != [] && units[0].Byte?
    ensures 1 <= r.1 <= |units|
  {
    var b := units[0].b;
    if b < 0x80 then (b as char, 1)
    else if 0xC2 <= b <= 0xDF then
      if ByteIn(units, 1, 0x80, 0xBF) then (((b - 0xC0) * 0x40 + (units[1].b - 0x80)) as char, 2) else (REPLACEMENT, 1)
    else if 0xE0 <= b <= 0xEF then
      if !ByteIn(units, 1, if b == 0xE0 then 0xA0 else 0x80, if b == 0xED then 0x9F else 0xBF) then (REPLACEMENT, 1)
      else if !ByteIn(units, 2, 0x80, 0xBF) then (REPLACEMENT, 2)
      else (((b - 0xE0) * 0x1000 + (units[1].b - 0x80) * 0x40 + (units[2].b - 0x80)) as char, 3)
    else if 0xF0 <= b <= 0xF4 then
      if !ByteIn(units, 1, if b == 0xF0 then 0x90 else 0x80, if b == 0xF4 then 0x8F else 0xBF) then (REPLACEMENT, 1)
      else if !ByteIn(units, 2, 0x80, 0xBF) then (REPLACEMENT, 2)
      else if !ByteIn(units, 3, 0x80, 0xBF) then (REPLACEMENT, 3)
      else (((b - 0xF0) * 0x4_0000 + (units[1].b - 0x80) * 0x1000 + (units[2].b - 0x80) * 0x40 + (units[3].b - 0x80)) as char, 4)
    else (REPLACEMENT, 1)
  }

  /** Reading the units as UTF-8, each maximal ill-formed part becoming one replacement character. */
  function Lossy(units: seq<Unit>): string {
    if units == [] then [] else
      match units[0]
      case Char(c) => [c] + Lossy(units[1..])
      case Byte(_) => [Lead(units).0] + Lossy(units[Lead(units).1..])
  }

  lemma {:induction false} LossyShrinks(units: seq<Unit>)
    ensures |Lossy(units)| <= |units|
    decreases |units|
  {
    if units != [] {
      match units[0]
      case Char(_) => LossyShrinks(units[1..]);
      case Byte(_) => LossyShrinks(units[Lead(units).1..]);
    }
  }

  lemma {:induction false} LossyCopies(units: seq<Unit>, s: string)
    requires |units| == |s| && forall i | 0 <= i < |s| :: units[i] == Char(s[i])
    ensures Lossy(units) == s
  {
    if units != [] {
      LossyCopies(units[1..], s[1..]);
    }
  }

  lemma PercentShrinks()
    ensures Shrinks(PercentToken)
  {
  }

  method PercentDecodeOnce(s: string) returns (decoded: string, changed: bool)
    ensures decoded == Lossy(Decoded(PercentToken, Kept, s)) && changed == Fires(PercentToken, s)
  {
    PercentShrinks();
    hide PercentToken, DecodingAt, Decoded, Fires, Shrinks;
    var units: seq<Unit> := [];
    changed := false;
    var index := 0;
    DecodingStarts(PercentToken, Kept, s);
    while index < |s|
      invariant 0 <= index <= |s| && DecodingAt(PercentToken, Kept, s, index, units, changed)
      decreases |s| - index
    {
      DecodingSteps(PercentToken, Kept, s, index, units, changed);
      match PercentToken(s[index..])
      case Some(t) =>
        units := units + t.text;
        index := index + t.consumed;
        changed := true;
      case None =>
        units := units + [Char(s[index])];
        index := index + 1;
    }
    DecodingEnds(PercentToken, Kept, s, units, changed);
    decoded := Lossy(units);
  }

  // ------------------------------------------------------------ HTML character references

  function Lower(c: char): char {
    if 'A' <= c <= 'Z' then (c as int + 32) as char else c
  }

  function LowerAll(s: string): (r: string)
    ensures |r| == |s| && forall i | 0 <= i < |s| :: r[i] == Lower(s[i])
  {
    seq(|s|, i requires 0 <= i < |s| => Lower(s[i]))
  }

  function NamedCharacter(name: string): Option<char> {
    match name
    case "amp" => Some('&') case "apos" => Some('\'') case "ast" => Some('*') case "bsol" => Some('\\')
    case "colon" => Some(':') case "comma" => Some(',') case "commat" => Some('@') case "dollar" => Some('$')
    case "equals" => Some('=') case "excl" => Some('!') case "grave" => Some('`') case "gt" => Some('>')
    case "hyphen" => Some('-') case "minus" => Some('-') case "lbrack" => Some('[') case "lsqb" => Some('[')
    case "lpar" => Some('(') case "lowbar" => Some('_') case "lrm" => Some('\U{200E}') case "lt" => Some('<')
    case "nbsp" => Some('\U{00A0}')
    case "negativemediumspace" => Some('\U{200B}') case "negativethickspace" => Some('\U{200B}')
    case "negativethinspace" => Some('\U{200B}') case "negativeverythinspace" => Some('\U{200B}')
    case "zerowidthspace" => Some('\U{200B}')
    case "nobreak" => Some('\U{2060}') case "wj" => Some('\U{2060}')
    case "num" => Some('#') case "percnt" => Some('%') case "period" => Some('.') case "plus" => Some('+')
    case "quest" => Some('?') case "quot" => Some('"') case "rbrack" => Some(']') case "rsqb" => Some(']')
    case "rlm" => Some('\U{200F}') case "rpar" => Some(')') case "semi" => Some(';') case "shy" => Some('\U{00AD}')
    case "sol" => Some('/') case "vert" => Some('|') case "zwj" => Some('\U{200D}') case "zwnj" => Some('\U{200C}')
    case _ => None
  }

  /** The position of the first `c`, or the length where there is none. */
  function Find(s: string, c: char): (n: nat)
    ensures n <= |s| && (n < |s| ==> s[n] == c)
  {
    if s == [] || s[0] == c then 0 else 1 + Find(s[1..], c)
  }

  function Numeric(entity: string): Option<Token<char>>
    requires entity != [] && entity[0] == '#'
  {
    var hex := |entity| > 1 && entity[1] in {'x', 'X'};
    var radix, start := if hex then 16 else 10, if hex then 2 else 1;
    var count := DigitCount(entity[start..], radix, |entity|);
    if count == 0 then None else
      var character := Scalar(Number(entity[start..][..count], radix));
      if character.None? then None else
        var end := start + count;
        Some(Token([character.value], end + if end < |entity| && entity[end] == ';' then 1 else 0))
  }

  const LEGACY := ["amp", "lt", "gt", "quot", "nbsp"]

  function Legacy(prefix: string, names: seq<string>): Option<Token<char>> {
    if names == [] then None
    else if names[0] <= prefix then
      match NamedCharacter(names[0]) case None => None case Some(c) => Some(Token([c], |names[0]|))
    else Legacy(prefix, names[1..])
  }

  /** What the text after an ampersand refers to. */
  function CharacterReference(entity: string): Option<Token<char>> {
    if entity != [] && entity[0] == '#' then Numeric(entity) else
      var prefix := LowerAll(if |entity| < 32 then entity else entity[..32]);
      var end := Find(prefix, ';');
      if end < |prefix| && NamedCharacter(prefix[..end]).Some? then Some(Token([NamedCharacter(prefix[..end]).value], end + 1))
      else Legacy(prefix, LEGACY)
  }

  function HtmlToken(s: string): Option<Token<char>> {
    if s == [] || s[0] != '&' then None else
      match CharacterReference(s[1..]) case None => None case Some(t) => Some(t.(consumed := t.consumed + 1))
  }

  lemma {:induction false} LegacyFits(prefix: string, names: seq<string>)
    requires forall i | 0 <= i < |names| :: names[i] != []
    ensures Legacy(prefix, names).Some? ==>
      |Legacy(prefix, names).value.text| == 1 <= Legacy(prefix, names).value.consumed <= |prefix|
  {
    if names != [] && !(names[0] <= prefix) {
      LegacyFits(prefix, names[1..]);
    }
  }

  lemma HtmlShrinks()
    ensures Shrinks(HtmlToken)
  {
    hide NamedCharacter, Scalar, Number;
    forall s | s != [] && HtmlToken(s).Some?
      ensures |HtmlToken(s).value.text| < HtmlToken(s).value.consumed <= |s|
    {
      var entity := s[1..];
      if !(entity != [] && entity[0] == '#') {
        LegacyFits(LowerAll(if |entity| < 32 then entity else entity[..32]), LEGACY);
      }
    }
  }

  /** Copies up to the next ampersand, then decodes or copies it. */
  method DecodeHtmlCharacterReferencesOnce(s: string) returns (decoded: string, changed: bool)
    ensures decoded == Decoded(HtmlToken, Same, s) && changed == Fires(HtmlToken, s)
  {
    HtmlShrinks();
    hide CharacterReference, DecodingAt, Decoded, Fires, Shrinks;
    decoded, changed := [], false;
    var index := 0;
    DecodingStarts(HtmlToken, Same, s);
    while index < |s|
      invariant 0 <= index <= |s| && DecodingAt(HtmlToken, Same, s, index, decoded, changed)
      decreases |s| - index
    {
      DecodingSteps(HtmlToken, Same, s, index, decoded, changed);
      if s[index] != '&' {
        decoded := decoded + [s[index]];
        index := index + 1;
      } else {
        match CharacterReference(s[index + 1..])
        case Some(t) =>
          assert s[index..][1..] == s[index + 1..];
          decoded := decoded + t.text;
          index := index + t.consumed + 1;
          changed := true;
        case None =>
          assert s[index..][1..] == s[index + 1..];
          decoded := decoded + ['&'];
          index := index + 1;
      }
    }
    DecodingEnds(HtmlToken, Same, s, decoded, changed);
  }

  // ------------------------------------------------------------ rounds of the four decoders

  const NORMALIZATION_ROUNDS := 16

  const STEPS := 4

  /** One of the four decoding steps, in the order a round applies them. */
  function Step(i: nat, s: string): string {
    match i
    case 0 => Visible(s)
    case 1 => Decoded(HtmlToken, Same, s)
    case 2 => Lossy(Decoded(PercentToken, Kept, s))
    case _ => Decoded(CssToken, Same, s)
  }

  /** The text after the first `i` steps of a round. */
  function Within(s: string, i: nat): string {
    if i == 0 then s else Step(i - 1, Within(s, i - 1))
  }

  /** The text after `r` whole rounds. */
  function After(s: string, r: nat): string {
    if r == 0 then s else Within(After(s, r - 1), STEPS)
  }

  lemma TokenStep(token: string -> Option<Token<char>>, s: string)
    requires Shrinks(token)
    ensures |Decoded(token, Same, s)| <= |s|
    ensures Fires(token, s) <==> Decoded(token, Same, s) != s
    ensures Fires(token, s) <==> |Decoded(token, Same, s)| < |s|
  {
    DecodedShrinks(token, Same, s);
    if !Fires(token, s) {
      assert Decoded(token, Same, s) == s;
    }
  }

  lemma PercentStep(s: string)
    ensures |Lossy(Decoded(PercentToken, Kept, s))| <= |s|
    ensures Fires(PercentToken, s) <==> Lossy(Decoded(PercentToken, Kept, s)) != s
    ensures Fires(PercentToken, s) <==> |Lossy(Decoded(PercentToken, Kept, s))| < |s|
  {
    PercentShrinks();
    hide PercentToken;
    var units := Decoded(PercentToken, Kept, s);
    DecodedShrinks(PercentToken, Kept, s);
    LossyShrinks(units);
    if !Fires(PercentToken, s) {
      LossyCopies(units, s);
    }
  }

  /** Every step returns its input or a text with strictly fewer code points. */
  lemma StepShrinks(i: nat, s: string)
    ensures Step(i, s) == s || |Step(i, s)| < |s|
  {
    hide CssToken, HtmlToken, PercentToken, Decoded, Lossy, Fires, Shrinks;
    VisibleShrinks(s);
    HtmlShrinks();
    CssShrinks();
    TokenStep(HtmlToken, s);
    PercentStep(s);
    TokenStep(CssToken, s);
  }

  /** Applies one step; the decoder's own report of a change is exact. */
  method ApplyStep(i: nat, s: string) returns (next: string, changed: bool)
    ensures next == Step(i, s) && changed == (Step(i, s) != s)
  {
    hide CssToken, HtmlToken, PercentToken, Decoded, Lossy, Fires, Shrinks, Visible;
    if i == 0 {
      next, changed := StripInvisibleCodePoints(s);
    } else if i == 1 {
      HtmlShrinks();
      TokenStep(HtmlToken, s);
      next, changed := DecodeHtmlCharacterReferencesOnce(s);
    } else if i == 2 {
      PercentStep(s);
      next, changed := PercentDecodeOnce(s);
    } else {
      CssShrinks();
      TokenStep(CssToken, s);
      next, changed := DecodeCssEscapesOnce(s);
    }
  }

  /** No step changes the text. */
  ghost predicate Settled(s: string) {
    forall i | 0 <= i < STEPS :: Step(i, s) == s
  }

  /** A round leaves a settled text alone at every step, and a round that does so started from one. */
  lemma {:induction false} SettledWithin(s: string, i: nat)
    requires i <= STEPS
    ensures |Within(s, i)| <= |s|
    ensures (forall k | 0 <= k < i :: Step(k, s) == s) ==> Within(s, i) == s
    ensures Within(s, i) == s ==> forall k | 0 <= k < i :: Step(k, s) == s && Within(s, k) == s
    ensures Within(s, i) == s || |Within(s, i)| < |s|
  {
    hide Step;
    if i > 0 {
      SettledWithin(s, i - 1);
      StepShrinks(i - 1, Within(s, i - 1));
    }
  }

  /** Once a round starts from a settled text, nothing changes any more. */
  lemma {:induction false} SettledForever(s: string, m: nat, n: nat)
    requires m <= n && Settled(After(s, m))
    ensures After(s, n) == After(s, m)
  {
    hide Step, Within;
    if m < n {
      SettledForever(s, m, n - 1);
      SettledWithin(After(s, m), STEPS);
    }
  }

  /** Every round settles the text or takes at least one code point from it. */
  lemma {:induction false} DecodingShrinks(s: string, r: nat)
    ensures Settled(After(s, r)) || |After(s, r)| + r <= |s|
  {
    hide Step, Within;
    if r > 0 {
      DecodingShrinks(s, r - 1);
      SettledWithin(After(s, r - 1), STEPS);
    }
  }

  /** Unbounded decoding ends: after one round more than the text has code points it is settled. */
  lemma DecodingSettles(s: string)
    ensures Settled(After(s, |s| + 1))
  {
    hide Settled;
    DecodingShrinks(s, |s| + 1);
  }

  // ------------------------------------------------------------ the matcher

  /** Some number of rounds and steps exposes a configured path. */
  ghost predicate Exposes(raw: string -> bool, s: string) {
    exists r: nat, i: nat :: i < STEPS && raw(Within(After(s, r), i))
  }

  ghost predicate SettlesInTime(s: string) {
    exists r: nat :: r < NORMALIZATION_ROUNDS && Settled(After(s, r))
  }

  /**
   With nothing configured the answer is no. Otherwise it is yes exactly when some number of
   decoding steps, however large, exposes a configured path, or the bounded search ran out
   of rounds before the text settled. `raw` is the plain containment test.
   */
  method ContainsPrivatePath(value: string, configured: bool, raw: string -> bool) returns (found: bool)
    ensures found <==> configured && (Exposes(raw, value) || !SettlesInTime(value))
  {
    hide Step, Settled, Within;
    if !configured {
      return false;
    }
    var candidate := value;
    for round := 0 to NORMALIZATION_ROUNDS
      invariant candidate == After(value, round)
      invariant forall r: nat, i: nat | r < round && i < STEPS :: !raw(Within(After(value, r), i))
      invariant forall r: nat | r < round :: !Settled(After(value, r))
    {
      var start := candidate;
      assert Within(start, 0) == start by { WithinStarts(start); }
      if raw(candidate) {
        return true;
      }
      var exposed, changed;
      exposed, candidate, changed := DecodeRound(start, raw);
      if exposed {
        ExposedLater(value, round, raw);
        return true;
      }
      if !changed {
        NothingLater(value, round, raw);
        return false;
      }
    }
    found := true;
  }

  /** One round, checked after every step that changed something. */
  method DecodeRound(s: string, raw: string -> bool) returns (exposed: bool, next: string, changed: bool)
    requires !raw(s)
    ensures exposed <==> exists i :: 0 <= i <= STEPS && raw(Within(s, i))
    ensures !exposed ==> next == Within(s, STEPS) && (changed <==> !Settled(s))
  {
    hide Step;
    next, changed := s, false;
    for i := 0 to STEPS
      invariant next == Within(s, i)
      invariant forall k | 0 <= k <= i :: !raw(Within(s, k))
      invariant !changed <==> Within(s, i) == s
    {
      var stepChanged;
      next, stepChanged := ApplyStep(i, next);
      SettledWithin(s, i);
      SettledWithin(s, i + 1);
      if stepChanged && raw(next) {
        assert raw(Within(s, i + 1));
        exposed := true;
        return;
      }
      changed := changed || stepChanged;
    }
    SettledWithin(s, STEPS);
    exposed := false;
  }

  lemma WithinStarts(s: string)
    ensures Within(s, 0) == s
  {
  }

  lemma ExposedLater(s: string, round: nat, raw: string -> bool)
    requires exists i :: 0 <= i <= STEPS && raw(Within(After(s, round), i))
    ensures Exposes(raw, s)
  {
    hide Step;
    var i :| 0 <= i <= STEPS && raw(Within(After(s, round), i));
    if i == STEPS {
      assert raw(Within(After(s, round + 1), 0));
    }
  }

  lemma NothingLater(s: string, round: nat, raw: string -> bool)
    requires Settled(After(s, round)) && !raw(After(s, round))
    requires forall r: nat, i: nat | r < round && i < STEPS :: !raw(Within(After(s, r), i))
    ensures !Exposes(raw, s)
  {
    hide Step, Within;
    forall r: nat, i: nat | i < STEPS
      ensures !raw(Within(After(s, r), i))
    {
      if r >= round {
        SettledForever(s, round, r);
        SettledWithin(After(s, round), i);
      }
    }
  }
}
