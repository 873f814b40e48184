/**
 Portable option keys: redacted, cut to 128 UTF-8 bytes on a character boundary, trimmed,
 and made distinct by a numbered suffix; and the select answers that use them.
 */
module OptionKeys {
  import opened Text
  import opened Decimal
  import opened Sorting
  import opened GraphChecks
  import opened ExportModel

  const KEY_BYTES := 128
  /** A Rust collection holds fewer than 2^64 elements. */
  const USIZE_MAX := 0xFFFF_FFFF_FFFF_FFFF

  // ------------------------------------------------------------ UTF-8

  function Encode(c: char): (b: seq<nat>)
    ensures 1 <= |b| <= 4
  {
    var p := c as int;
    if p < 0x80 then [p]
    else if p < 0x800 then [0xC0 + p / 0x40, 0x80 + p % 0x40]
    else if p < 0x1_0000 then [0xE0 + p / 0x1000, 0x80 + p / 0x40 % 0x40, 0x80 + p % 0x40]
    else [0xF0 + p / 0x4_0000, 0x80 + p / 0x1000 % 0x40, 0x80 + p / 0x40 % 0x40, 0x80 + p % 0x40]
  }

  function Utf8(s: string): seq<nat> {
    if s == [] then [] else Utf8(s[..|s| - 1]) + Encode(s[|s| - 1])
  }

  function ByteLen(s: string): nat {
    |Utf8(s)|
  }

  lemma {:induction false} BytesGrow(s: string, i: nat, j: nat)
    requires i <= j <= |s|
    ensures ByteLen(s[..i]) <= ByteLen(s[..j]) && (i < j ==> ByteLen(s[..i]) < ByteLen(s[..j]))
  {
    if i < j {
      BytesGrow(s, i, j - 1);
      assert s[..j][..j - 1] == s[..j - 1];
    }
  }

  lemma {:induction false} BytesAppend(s: string, t: string)
    ensures ByteLen(s + t) == ByteLen(s) + ByteLen(t)
  {
    if t == [] {
      assert s + t == s;
    } else {
      BytesAppend(s, t[..|t| - 1]);
      assert (s + t)[..|s + t| - 1] == s + t[..|t| - 1];
    }
  }

  /** A byte offset between two characters, or at either end. */
  predicate Boundary(s: string, end: nat) {
    exists k | 0 <= k <= |s| :: ByteLen(s[..k]) == end
  }

  // ------------------------------------------------------------ cutting

  /** The longest prefix of at most `max` bytes. */
  function Clip(s: string, max: nat): (r: string)
    ensures r <= s && ByteLen(r) <= max
  {
    if ByteLen(s) <= max then s else Clip(s[..|s| - 1], max)
  }

  lemma {:induction false} ClipIsLongest(s: string, max: nat, k: nat)
    requires k <= |s| && ByteLen(s[..k]) <= max
    ensures k <= |Clip(s, max)|
  {
    if ByteLen(s) > max {
      assert s[..|s|] == s;
      assert s[..|s| - 1][..if k < |s| then k else 0] == s[..if k < |s| then k else 0];
      ClipIsLongest(s[..|s| - 1], max, k);
    }
  }

  function Bounded(base: string, max: nat): string {
    TrimEnd(Clip(base, max))
  }

  method BoundedKey(base: string, max: nat) returns (key: string)
    ensures key == Bounded(base, max)
  {
    var end := if ByteLen(base) < max then ByteLen(base) else max;
    assert base[..0] == [] && base[..|base|] == base;
    forall k | 0 <= k <= |base|
      ensures ByteLen(base[..k]) <= ByteLen(base)
    {
      BytesGrow(base, k, |base|);
    }
    while !Boundary(base, end)
      invariant end <= max && end <= ByteLen(base)
      invariant forall k | 0 <= k <= |base| && ByteLen(base[..k]) <= max :: ByteLen(base[..k]) <= end
      decreases end
    {
      end := end - 1;
    }
    var k: nat :| k <= |base| && ByteLen(base[..k]) == end;
    CutIsClip(base, max, k);
    key := TrimEnd(base[..k]);
  }

  lemma CutIsClip(base: string, max: nat, k: nat)
    requires k <= |base| && ByteLen(base[..k]) <= max
    requires forall i | 0 <= i <= |base| && ByteLen(base[..i]) <= max :: ByteLen(base[..i]) <= ByteLen(base[..k])
    ensures base[..k] == Clip(base, max)
  {
    var n := |Clip(base, max)|;
    assert base[..n] == Clip(base, max);
    ClipIsLongest(base, max, k);
    if k < n {
      BytesGrow(base, k, n);
    }
  }

  // ------------------------------------------------------------ suffixes

  function Suffix(ordinal: nat): string {
    "~" + Numeral(ordinal)
  }

  function Suffixed(base: string, ordinal: nat): string {
    var room := if KEY_BYTES < ByteLen(Suffix(ordinal)) then 0 else KEY_BYTES - ByteLen(Suffix(ordinal));
    Bounded(base, room) + Suffix(ordinal)
  }

  /** The last `~` of a suffixed key starts its number, so different numbers give different keys. */
  lemma SuffixTells(x: string, a: nat, y: string, b: nat)
    requires x + Suffix(a) == y + Suffix(b)
    ensures a == b
  {
    var s, m, n := x + Suffix(a), |Numeral(a)|, |Numeral(b)|;
    assert forall k | |s| - m <= k < |s| :: s[k] == Numeral(a)[k - (|s| - m)] != '~';
    assert forall k | |s| - n <= k < |s| :: s[k] == Numeral(b)[k - (|s| - n)] != '~';
    assert s[|s| - m - 1] == '~' && s[|s| - n - 1] == '~';
    assert m == n;
    assert Numeral(a) == s[|s| - m..] == Numeral(b);
    NumeralInjective(a, b);
  }

  lemma {:induction false} AsciiBytes(s: string)
    requires forall i | 0 <= i < |s| :: (s[i] as int) < 0x80
    ensures ByteLen(s) == |s|
  {
    if s != [] {
      AsciiBytes(s[..|s| - 1]);
    }
  }

  lemma SuffixBytes(ordinal: nat)
    requires ordinal <= USIZE_MAX + 1
    ensures ByteLen(Suffix(ordinal)) <= 21
  {
    assert Power10(20) > USIZE_MAX + 1 by {
      assert Power10(5) == 100_000;
      assert Power10(10) == 10_000_000_000;
      assert Power10(15) == 1_000_000_000_000_000;
      assert Power10(20) == 100_000_000_000_000_000_000;
    }
    NumeralLength(ordinal, 20);
    AsciiBytes(Suffix(ordinal));
  }

  /** At most 128 bytes, and no whitespace at the end. */
  ghost predicate KeyOk(key: string) {
    ByteLen(key) <= KEY_BYTES && (key != [] ==> !IsWhitespace(key[|key| - 1]))
  }

  lemma BoundedFits(base: string, max: nat)
    ensures ByteLen(Bounded(base, max)) <= max
    ensures Bounded(base, max) != [] ==> !IsWhitespace(Bounded(base, max)[|Bounded(base, max)| - 1])
  {
    var c := Clip(base, max);
    BytesGrow(c, |TrimEnd(c)|, |c|);
    assert c[..|TrimEnd(c)|] == TrimEnd(c) && c[..|c|] == c;
  }

  lemma SuffixedFits(base: string, ordinal: nat)
    requires ordinal <= USIZE_MAX + 1
    ensures KeyOk(Suffixed(base, ordinal))
  {
    SuffixBytes(ordinal);
    var room := KEY_BYTES - ByteLen(Suffix(ordinal));
    BoundedFits(base, room);
    BytesAppend(Bounded(base, room), Suffix(ordinal));
    var key := Suffixed(base, ordinal);
    assert key[|key| - 1] == Numeral(ordinal)[|Numeral(ordinal)| - 1];
  }

  /** A suffixed key is a prefix of its base, a tilde and the number; the whole base where it fits and ends in no whitespace. */
  lemma SuffixedIs(base: string, n: nat) returns (front: string)
    ensures Suffixed(base, n) == front + "~" + Numeral(n) && front <= base
    ensures ByteLen(base) + 1 + |Numeral(n)| <= 128 && (base != [] ==> !IsWhitespace(base[|base| - 1])) ==> front == base
  {
    var suffix := "~" + Numeral(n);
    AsciiBytes(suffix);
    var room := if KEY_BYTES < ByteLen(suffix) then 0 else KEY_BYTES - ByteLen(suffix);
    front := Bounded(base, room);
    assert front + suffix == front + "~" + Numeral(n);
  }

  // ------------------------------------------------------------ allocation

  /** The first of base, base~2, base~3, ... that is not used; the search ends because each name tried is a different used one. */
  method FreshKey(base: string, used: set<string>) returns (key: string)
    requires KeyOk(base) && |used| < USIZE_MAX
    ensures key !in used && KeyOk(key)
    ensures key == base || exists n :: 2 <= n && key == Suffixed(base, n)
    ensures base !in used ==> key == base
  {
    hide Suffixed, KeyOk;
    key := base;
    var ordinal := 2;
    ghost var tried: set<string> := {};
    while key in used
      invariant 2 <= ordinal
      invariant KeyOk(key)
      invariant if ordinal == 2 then key == base && tried == {} else key == Suffixed(base, ordinal - 1)
      invariant tried <= used && ordinal <= |tried| + 3 && (ordinal > 2 ==> base in used)
      invariant ordinal > 2 ==> |tried| == ordinal - 3
      invariant forall k | k in tried :: exists n :: 2 <= n < ordinal - 1 && k == Suffixed(base, n)
      decreases |used| + 3 - ordinal
    {
      if ordinal > 2 {
        assert key !in tried by { NotTried(base, ordinal - 1, tried); }
        tried := tried + {key};
      }
      assert |tried| <= |used| by { SubsetSize(tried, used); }
      SuffixedFits(base, ordinal);
      key := Suffixed(base, ordinal);
      ordinal := ordinal + 1;
    }
  }

  lemma NotTried(base: string, n: nat, tried: set<string>)
    requires forall k | k in tried :: exists m :: 2 <= m < n && k == Suffixed(base, m)
    ensures Suffixed(base, n) !in tried
  {
    forall m | 2 <= m < n
      ensures Suffixed(base, m) != Suffixed(base, n)
    {
      if Suffixed(base, m) == Suffixed(base, n) {
        SuffixedTells(base, m, n);
      }
    }
  }

  lemma SuffixedTells(base: string, m: nat, n: nat)
    requires Suffixed(base, m) == Suffixed(base, n)
    ensures m == n
  {
    var x := Suffixed(base, m)[..|Suffixed(base, m)| - |Suffix(m)|];
    var y := Suffixed(base, n)[..|Suffixed(base, n)| - |Suffix(n)|];
    assert Suffixed(base, m) == x + Suffix(m) && Suffixed(base, n) == y + Suffix(n);
    SuffixTells(x, m, y, n);
  }

  lemma SubsetSize<T>(s: set<T>, t: set<T>)
    requires s <= t
    ensures |s| <= |t|
  {
    assert t == s + (t - s);
  }

  ghost predicate Keyed(m: map<string, string>, keys: seq<string>, used: set<string>) {
    && m.Keys == Elements(keys)
    && (forall k | k in m :: m[k] in used && KeyOk(m[k]))
    && (forall x, y | x in m && y in m && m[x] == m[y] :: x == y)
  }

  /** The portable key is the redacted key, cut to 128 bytes, or that with a number from two on behind it. */
  ghost predicate MadeFrom(portable: string, key: string, redact: string -> string) {
    var base := Bounded(redact(key), 128);
    portable == base || exists n :: 2 <= n && portable == Suffixed(base, n)
  }

  /** Distinct keys get distinct portable keys, each within bounds, however they are redacted and cut. */
  method InjectivePortableOptionKeys(keys: seq<string>, redact: string -> string) returns (portable: map<string, string>)
    requires |keys| <= USIZE_MAX
    ensures portable.Keys == Elements(keys)
    ensures forall k | k in portable :: KeyOk(portable[k]) && MadeFrom(portable[k], k, redact)
    ensures forall x, y | x in portable && y in portable && portable[x] == portable[y] :: x == y
  {
    hide KeyOk, Bounded, MadeFrom, Suffixed, Keyed;
    portable := map[];
    var used := {};
    assert Keyed(portable, keys[..0], used) by { NothingKeyed(keys); }
    for i := 0 to |keys|
      invariant Keyed(portable, keys[..i], used)
      invariant forall k | k in portable :: MadeFrom(portable[k], k, redact)
      invariant |used| <= i
    {
      var base := BoundedKey(redact(keys[i]), KEY_BYTES);
      assert KeyOk(base) by { BoundedIsKey(redact(keys[i])); }
      var candidate := FreshKey(base, used);
      assert MadeFrom(candidate, keys[i], redact) by { IsMadeFrom(candidate, keys[i], redact); }
      KeyedMore(portable, keys, i, used, candidate);
      used := used + {candidate};
      portable := portable[keys[i] := candidate];
    }
    assert keys[..|keys|] == keys;
    assert Keyed(portable, keys, used);
    KeyedMeans(portable, keys, used);
  }

  lemma NothingKeyed(keys: seq<string>)
    ensures Keyed(map[], keys[..0], {})
  {
  }

  lemma KeyedMore(m: map<string, string>, keys: seq<string>, i: nat, used: set<string>, candidate: string)
    requires i < |keys| && Keyed(m, keys[..i], used) && candidate !in used && KeyOk(candidate)
    ensures Keyed(m[keys[i] := candidate], keys[..i + 1], used + {candidate})
  {
    hide KeyOk;
    assert keys[..i + 1] == keys[..i] + [keys[i]];
    assert Elements(keys[..i + 1]) == Elements(keys[..i]) + {keys[i]};
  }

  lemma KeyedMeans(m: map<string, string>, keys: seq<string>, used: set<string>)
    requires Keyed(m, keys, used)
    ensures m.Keys == Elements(keys) && (forall k | k in m :: KeyOk(m[k]))
    ensures forall x, y | x in m && y in m && m[x] == m[y] :: x == y
  {
    hide KeyOk;
  }

  lemma IsMadeFrom(candidate: string, key: string, redact: string -> string)
    requires var base := Bounded(redact(key), KEY_BYTES); candidate == base || exists n :: 2 <= n && candidate == Suffixed(base, n)
    ensures MadeFrom(candidate, key, redact)
  {
    hide Bounded, Suffixed;
  }

  lemma BoundedIsKey(s: string)
    ensures KeyOk(Bounded(s, KEY_BYTES))
  {
    BoundedFits(s, KEY_BYTES);
  }

  // ------------------------------------------------------------ select answers

  datatype Choice = Choice(key: string, caption: string)

  datatype Control = SingleSelect | MultiSelect(minimum: Option<nat>)

  predicate BytesLe(a: seq<nat>, b: seq<nat>) {
    a == [] || (b != [] && (a[0] < b[0] || (a[0] == b[0] && BytesLe(a[1..], b[1..]))))
  }

  lemma {:induction false} BytesTotal(a: seq<nat>, b: seq<nat>)
    ensures BytesLe(a, b) || BytesLe(b, a)
  {
    if a != [] && b != [] && a[0] == b[0] {
      BytesTotal(a[1..], b[1..]);
    }
  }

  lemma {:induction false} BytesTransitive(a: seq<nat>, b: seq<nat>, c: seq<nat>)
    requires BytesLe(a, b) && BytesLe(b, c)
    ensures BytesLe(a, c)
  {
    if a != [] && a[0] == b[0] && b[0] == c[0] {
      BytesTransitive(a[1..], b[1..], c[1..]);
    }
  }

  predicate KeyLe(x: Choice, y: Choice) {
    BytesLe(Utf8(x.key), Utf8(y.key))
  }

  lemma KeyLeOrders()
    ensures TotalPreorder(KeyLe)
  {
    forall x, y
      ensures KeyLe(x, y) || KeyLe(y, x)
    {
      BytesTotal(Utf8(x.key), Utf8(y.key));
    }
    forall x, y, z | KeyLe(x, y) && KeyLe(y, z)
      ensures KeyLe(x, z)
    {
      BytesTransitive(Utf8(x.key), Utf8(y.key), Utf8(z.key));
    }
  }

  ghost predicate KeysDistinct(cs: seq<Choice>) {
    forall i, j | 0 <= i < j < |cs| :: cs[i].key != cs[j].key
  }

  predicate CountOk(control: Control, n: nat) {
    match control case SingleSelect => n == 1 case MultiSelect(minimum) => minimum.Some? ==> n >= minimum.value
  }

  /** What the validator demands of a submitted selection: distinct, offered, in key order, enough of them. */
  ghost predicate SelectionAccepted(control: Control, options: seq<Choice>, selected: seq<Choice>) {
    && KeysDistinct(selected)
    && (forall c | c in selected :: c in options)
    && (control.MultiSelect? ==> forall i | 0 <= i < |selected| - 1 :: KeyLe(selected[i], selected[i + 1]))
    && CountOk(control, |selected|)
  }

  /** A single selection is one offered option; a multiple one needs the minimum, where there is one. */
  lemma ControlsDemand(options: seq<Choice>, selected: seq<Choice>, minimum: nat)
    ensures SelectionAccepted(SingleSelect, options, selected) <==> exists c :: c in options && selected == [c]
    ensures SelectionAccepted(MultiSelect(Some(minimum)), options, selected) <==>
      SelectionAccepted(MultiSelect(None), options, selected) && minimum <= |selected|
    ensures SelectionAccepted(MultiSelect(None), options, [])
  {
    hide KeyLe;
    if |selected| == 1 {
      assert selected == [selected[0]] && selected[0] in selected;
    }
    if c :| c in options && selected == [c] {
      assert forall d | d in selected :: d == c;
    }
  }

  function KeysOf(cs: seq<Choice>): (ks: seq<string>)
    ensures |ks| == |cs| && forall i | 0 <= i < |cs| :: ks[i] == cs[i].key
  {
    seq(|cs|, i requires 0 <= i < |cs| => cs[i].key)
  }

  /** A key that was not offered is only redacted. */
  function PortableChoice(c: Choice, portable: map<string, string>, redact: string -> string): Choice {
    Choice(if c.key in portable then portable[c.key] else redact(c.key), redact(c.caption))
  }

  function PortableChoices(cs: seq<Choice>, portable: map<string, string>, redact: string -> string): (r: seq<Choice>)
    ensures |r| == |cs| && forall i | 0 <= i < |cs| :: r[i] == PortableChoice(cs[i], portable, redact)
  {
    seq(|cs|, i requires 0 <= i < |cs| => PortableChoice(cs[i], portable, redact))
  }

  /**
   The options and the sorted selection that an export carries for one answered input. A
   selection that was acceptable, whatever the control asks for, is acceptable again.
   */
  method ExportSelection(options: seq<Choice>, selected: seq<Choice>, redact: string -> string)
    returns (options': seq<Choice>, selected': seq<Choice>, portable: map<string, string>)
    requires |options| <= USIZE_MAX
    ensures portable.Keys == Elements(KeysOf(options))
    ensures forall k | k in portable :: KeyOk(portable[k])
    ensures forall x, y | x in portable && y in portable && portable[x] == portable[y] :: x == y
    ensures |options'| == |options|
    ensures forall i | 0 <= i < |options| :: options[i].key in portable && options'[i] == Choice(portable[options[i].key], redact(options[i].caption))
    ensures forall k | k in portable :: MadeFrom(portable[k], k, redact)
    ensures multiset(selected') == multiset(PortableChoices(selected, portable, redact)) && |selected'| == |selected|
    ensures forall control | KeysDistinct(selected) && (forall c | c in selected :: c in options) && CountOk(control, |selected|) ::
      SelectionAccepted(control, options', selected')
  {
    hide KeyOk;
    portable := InjectivePortableOptionKeys(KeysOf(options), redact);
    options' := PortableChoices(options, portable, redact);
    forall i | 0 <= i < |options|
      ensures options[i].key in portable
    {
      assert KeysOf(options)[i] in KeysOf(options);
    }
    var mapped := PortableChoices(selected, portable, redact);
    selected' := Sort(KeyLe, mapped);
    KeyLeOrders();
    SortKeeps(KeyLe, mapped);
    assert |multiset(selected')| == |multiset(mapped)|;
    forall control | KeysDistinct(selected) && (forall c | c in selected :: c in options) && CountOk(control, |selected|)
      ensures SelectionAccepted(control, options', selected')
    {
      ExportedSelectionAccepted(control, options, selected, portable, redact);
    }
  }

  /**
   A selection of distinct offered options, of an acceptable count, is still one after
   export: no two choices collapse, none leaves the options, none is lost, and the order
   is the one the validator demands.
   */
  lemma ExportedSelectionAccepted(control: Control, options: seq<Choice>, selected: seq<Choice>,
                                  portable: map<string, string>, redact: string -> string)
    requires KeysDistinct(selected) && (forall c | c in selected :: c in options) && CountOk(control, |selected|)
    requires portable.Keys == Elements(KeysOf(options))
    requires forall x, y | x in portable && y in portable && portable[x] == portable[y] :: x == y
    ensures SelectionAccepted(control, PortableChoices(options, portable, redact),
                              Sort(KeyLe, PortableChoices(selected, portable, redact)))
    ensures |Sort(KeyLe, PortableChoices(selected, portable, redact))| == |selected|
  {
    var mapped, offered := PortableChoices(selected, portable, redact), PortableChoices(options, portable, redact);
    var sorted := Sort(KeyLe, mapped);
    KeyLeOrders();
    SortKeeps(KeyLe, mapped);
    SameMembers(sorted, mapped);
    forall i | 0 <= i < |selected|
      ensures selected[i].key in portable && mapped[i] in offered
    {
      assert selected[i] in options;
      var k :| 0 <= k < |options| && options[k] == selected[i];
      assert KeysOf(options)[k] == selected[i].key;
      assert offered[k] == mapped[i];
    }
    assert KeysDistinct(mapped);
    hide Sort, KeyLe;
    DistinctInAnyOrder(mapped, sorted);
  }

  lemma DistinctInAnyOrder(s: seq<Choice>, t: seq<Choice>)
    requires multiset(s) == multiset(t) && KeysDistinct(s)
    ensures KeysDistinct(t)
  {
    SameMembers(s, t);
    forall i, j | 0 <= i < j < |t|
      ensures t[i].key != t[j].key
    {
      assert t[i] in s && t[j] in s;
      if t[i] == t[j] {
        TwoCopies(t, i, j);
        OneCopy(s, t[i]);
      }
    }
  }
}
