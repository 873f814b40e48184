/**
 UTF-8 keeps order: comparing encoded texts byte by byte, as the validator compares option
 keys, is comparing their code points. The order on texts is stated without any encoding.
 */
module Utf8Order {
  import opened OptionKeys
  import Encodings

  /** `a` is a prefix of `b`, or has the smaller code point where they first differ. */
  ghost predicate CodePointLe(a: string, b: string) {
    a <= b || exists k: nat :: DifferAt(a, b, k) && a[k] < b[k]
  }

  ghost predicate DifferAt(a: string, b: string, k: nat) {
    k < |a| && k < |b| && a[..k] == b[..k] && a[k] != b[k]
  }

  lemma {:induction false} SameUtf8(s: string)
    ensures Encodings.Utf8(s) == Utf8(s)
  {
    if s != [] {
      SameUtf8(s[1..]);
      Utf8Front(s[0], s[1..]);
      assert [s[0]] + s[1..] == s;
    }
  }

  lemma {:induction false} Utf8Front(c: char, s: string)
    ensures Utf8([c] + s) == Encode(c) + Utf8(s)
  {
    hide Encode;
    if s == [] {
      assert [c] + s == [c] && [c][..0] == [];
    } else {
      var n := |s| - 1;
      Utf8Front(c, s[..n]);
      assert ([c] + s)[..|[c] + s| - 1] == [c] + s[..n];
    }
  }

  lemma {:induction false} CommonFront(x: seq<nat>, y: seq<nat>, z: seq<nat>)
    ensures BytesLe(x + y, x + z) <==> BytesLe(y, z)
  {
    if x == [] {
      assert x + y == y && x + z == z;
    } else {
      assert (x + y)[1..] == x[1..] + y && (x + z)[1..] == x[1..] + z;
      CommonFront(x[1..], y, z);
    }
  }

  /** The first differing byte decides. */
  lemma {:induction false} FirstDifference(x: seq<nat>, y: seq<nat>, k: nat)
    requires k < |x| && k < |y| && x[..k] == y[..k] && x[k] < y[k]
    ensures BytesLe(x, y) && !BytesLe(y, x)
  {
    if k > 0 {
      assert x[0] == x[..k][0] == y[..k][0] == y[0];
      assert x[1..][..k - 1] == x[..k][1..] && y[1..][..k - 1] == y[..k][1..];
      FirstDifference(x[1..], y[1..], k - 1);
    }
  }

  /** Where two encodings first differ, and that the first has the smaller byte there. */
  ghost predicate SmallerAt(x: seq<nat>, y: seq<nat>, k: nat) {
    k < |x| && k < |y| && x[..k] == y[..k] && x[k] < y[k]
  }

  lemma FewerBytesFirst(c: char, d: char)
    requires c < d && |Encode(c)| != |Encode(d)|
    ensures SmallerAt(Encode(c), Encode(d), 0)
  {
  }

  lemma TwoBytesDiffer(c: char, d: char) returns (k: nat)
    requires 0x80 <= c as int < d as int < 0x800
    ensures SmallerAt(Encode(c), Encode(d), k)
  {
    var p, q := c as int, d as int;
    Encodings.Groups(p);
    Encodings.Groups(q);
    k := if p / 0x40 != q / 0x40 then 0 else 1;
  }

  lemma ThreeBytesDiffer(c: char, d: char) returns (k: nat)
    requires 0x800 <= c as int < d as int < 0x1_0000
    ensures SmallerAt(Encode(c), Encode(d), k)
  {
    var p, q := c as int, d as int;
    Encodings.Groups(p);
    Encodings.Groups(q);
    k := if p / 0x1000 != q / 0x1000 then 0 else if p / 0x40 != q / 0x40 then 1 else 2;
  }

  lemma FourBytesDiffer(c: char, d: char) returns (k: nat)
    requires 0x1_0000 <= c as int < d as int
    ensures SmallerAt(Encode(c), Encode(d), k)
  {
    var p, q := c as int, d as int;
    Encodings.Groups(p);
    Encodings.Groups(q);
    k := if p / 0x4_0000 != q / 0x4_0000 then 0 else if p / 0x1000 != q / 0x1000 then 1 else if p / 0x40 != q / 0x40 then 2 else 3;
  }

  lemma OneByteDiffers(c: char, d: char)
    requires c < d && (d as int) < 0x80
    ensures SmallerAt(Encode(c), Encode(d), 0)
  {
  }

  lemma EncodeLength(c: char)
    ensures var p := c as int; |Encode(c)| == if p < 0x80 then 1 else if p < 0x800 then 2 else if p < 0x1_0000 then 3 else 4
  {
  }

  /** The encodings of two code points differ first where the larger code point has the larger byte. */
  lemma EncodeDiffers(c: char, d: char) returns (k: nat)
    requires c < d
    ensures SmallerAt(Encode(c), Encode(d), k)
  {
    hide Encode, SmallerAt;
    EncodeLength(c);
    EncodeLength(d);
    k := 0;
    if |Encode(c)| != |Encode(d)| { FewerBytesFirst(c, d); }
    else if (d as int) < 0x80 { OneByteDiffers(c, d); }
    else if (d as int) < 0x800 { k := TwoBytesDiffer(c, d); }
    else if (d as int) < 0x1_0000 { k := ThreeBytesDiffer(c, d); }
    else { k := FourBytesDiffer(c, d); }
  }

  lemma LargerByte(c: char, d: char, x: seq<nat>, y: seq<nat>)
    requires c < d
    ensures BytesLe(Encode(c) + x, Encode(d) + y) && !BytesLe(Encode(d) + y, Encode(c) + x)
  {
    hide Encode;
    var k := EncodeDiffers(c, d);
    assert (Encode(c) + x)[..k] == Encode(c)[..k] && (Encode(d) + y)[..k] == Encode(d)[..k];
    FirstDifference(Encode(c) + x, Encode(d) + y, k);
  }

  lemma CodePointStep(a: string, b: string)
    requires a != [] && b != [] && a[0] == b[0]
    ensures CodePointLe(a, b) <==> CodePointLe(a[1..], b[1..])
  {
    if k: nat :| DifferAt(a, b, k) && a[k] < b[k] {
      assert a[1..][..k - 1] == a[..k][1..] && b[1..][..k - 1] == b[..k][1..];
      assert DifferAt(a[1..], b[1..], k - 1);
    }
    if k: nat :| DifferAt(a[1..], b[1..], k) && a[1..][k] < b[1..][k] {
      assert a[..k + 1] == [a[0]] + a[1..][..k] && b[..k + 1] == [b[0]] + b[1..][..k];
      assert DifferAt(a, b, k + 1);
    }
  }

  lemma SameBefore(a: string, b: string, k: nat)
    requires DifferAt(a, b, k)
    ensures forall i | 0 <= i < k :: a[i] == b[i]
  {
    assert forall i | 0 <= i < k :: a[i] == a[..k][i] && b[i] == b[..k][i];
  }

  lemma CodePointFirst(a: string, b: string)
    requires a != [] && b != [] && a[0] != b[0]
    ensures CodePointLe(a, b) <==> a[0] < b[0]
  {
    if a[0] < b[0] {
      assert DifferAt(a, b, 0);
    }
    if k: nat :| DifferAt(a, b, k) && a[k] < b[k] {
      SameBefore(a, b, k);
    }
  }

  /** Byte order of the encodings is code-point order of the texts. */
  lemma {:induction false} OrderAgrees(a: string, b: string)
    ensures BytesLe(Utf8(a), Utf8(b)) <==> CodePointLe(a, b)
  {
    hide Encode, CodePointLe;
    if a == [] {
      EmptyIsLeast(b);
    } else if b == [] {
      NothingBelowEmpty(a);
    } else {
      assert [a[0]] + a[1..] == a && [b[0]] + b[1..] == b;
      Utf8Front(a[0], a[1..]);
      Utf8Front(b[0], b[1..]);
      if a[0] == b[0] {
        CommonFront(Encode(a[0]), Utf8(a[1..]), Utf8(b[1..]));
        CodePointStep(a, b);
        OrderAgrees(a[1..], b[1..]);
      } else {
        CodePointFirst(a, b);
        if a[0] < b[0] {
          LargerByte(a[0], b[0], Utf8(a[1..]), Utf8(b[1..]));
        } else {
          LargerByte(b[0], a[0], Utf8(b[1..]), Utf8(a[1..]));
        }
      }
    }
  }

  lemma EmptyIsLeast(b: string)
    ensures CodePointLe([], b)
  {
  }

  lemma NothingBelowEmpty(a: string)
    requires a != []
    ensures !CodePointLe(a, []) && Utf8(a) != []
  {
  }

  /** The order the validator demands of selected keys. */
  lemma KeyOrderIsCodePointOrder(a: Choice, b: Choice)
    ensures KeyLe(a, b) <==> CodePointLe(a.key, b.key)
  {
    OrderAgrees(a.key, b.key);
  }
}
