/** UTF-8 as the program relies on it: detections carry byte offsets into the
    encoded text, so offsets, characters and slices have to agree exactly. */
module Utf8 {
  newtype byte = x: int | 0 <= x < 256

  type Bytes = seq<byte>

  function CharBytes(c: char): (bs: Bytes)
    ensures 1 <= |bs| <= 4
    ensures !IsContinuation(bs[0]) && LeadLength(bs[0]) == |bs|
    ensures forall i :: 1 <= i < |bs| ==> IsContinuation(bs[i])
  {
    var n := c as int;
    if n < 0x80 then [n as byte]
    else if n < 0x800 then [(0xC0 + n / 64) as byte, (0x80 + n % 64) as byte]
    else if n < 0x10000 then
      [(0xE0 + n / 4096) as byte, (0x80 + (n / 64) % 64) as byte, (0x80 + n % 64) as byte]
    else
      [(0xF0 + n / 262144) as byte, (0x80 + (n / 4096) % 64) as byte,
       (0x80 + (n / 64) % 64) as byte, (0x80 + n % 64) as byte]
  }

  predicate IsContinuation(b: byte) {
    0x80 <= b < 0xC0
  }

  function LeadLength(b: byte): nat {
    if b < 0x80 then 1 else if b < 0xE0 then 2 else if b < 0xF0 then 3 else 4
  }

  lemma CharBytesInjective(c: char, d: char)
    requires CharBytes(c) == CharBytes(d)
    ensures c == d
  {
    DecodeChar(c);
    DecodeChar(d);
  }

  /** The bytes spell the code point, in as few bytes as its size allows. */
  lemma DecodeChar(c: char)
    ensures CodePoint(CharBytes(c)) == c as int
    ensures |CharBytes(c)| <= 1 <==> c as int < 0x80
    ensures |CharBytes(c)| <= 2 <==> c as int < 0x800
    ensures |CharBytes(c)| <= 3 <==> c as int < 0x10000
  {
    var n := c as int;
    var bs := CharBytes(c);
    if n < 0x80 {
    } else if n < 0x800 {
      assert |bs| == 2;
    } else if n < 0x10000 {
      assert |bs| == 3;
      SixBits(n);
    } else {
      assert |bs| == 4;
      SixBits(n);
    }
  }

  lemma SixBits(n: nat)
    ensures n == (n / 64) * 64 + n % 64
    ensures n / 64 == (n / 4096) * 64 + (n / 64) % 64
    ensures n / 4096 == (n / 262144) * 64 + (n / 4096) % 64
  {
    assert (n / 64) / 64 == n / 4096;
    assert (n / 4096) / 64 == n / 262144;
  }

  function CodePoint(bs: Bytes): int {
    if |bs| == 1 then bs[0] as int
    else if |bs| == 2 then (bs[0] as int - 0xC0) * 64 + (bs[1] as int - 0x80)
    else if |bs| == 3 then (bs[0] as int - 0xE0) * 4096 + (bs[1] as int - 0x80) * 64 + (bs[2] as int - 0x80)
    else if |bs| == 4 then
      (bs[0] as int - 0xF0) * 262144 + (bs[1] as int - 0x80) * 4096 + (bs[2] as int - 0x80) * 64 + (bs[3] as int - 0x80)
    else 0
  }

  function Encode(s: string): (bs: Bytes)
    ensures |s| <= |bs|
  {
    if s == "" then [] else CharBytes(s[0]) + Encode(s[1..])
  }

  function Width(s: string): nat {
    |Encode(s)|
  }

  lemma {:induction false} EncodeConcat(a: string, b: string)
    ensures Encode(a + b) == Encode(a) + Encode(b)
  {
    if a == "" {
      assert a + b == b;
    } else {
      assert (a + b)[1..] == a[1..] + b;
      EncodeConcat(a[1..], b);
      assert CharBytes(a[0]) + (Encode(a[1..]) + Encode(b)) == CharBytes(a[0]) + Encode(a[1..]) + Encode(b);
    }
  }

  lemma WidthConcat(a: string, b: string)
    ensures Width(a + b) == Width(a) + Width(b)
  {
    EncodeConcat(a, b);
  }

  lemma EncodeSplit(s: string, k: nat)
    requires k <= |s|
    ensures Encode(s) == Encode(s[..k]) + Encode(s[k..])
  {
    assert s == s[..k] + s[k..];
    EncodeConcat(s[..k], s[k..]);
  }

  /** The encoding is prefix-decodable: an encoded prefix is the encoding of a prefix. */
  lemma {:induction false} PrefixText(v: string, t: string)
    requires Encode(v) <= Encode(t)
    ensures v <= t
  {
    if v != "" {
      var e, f := Encode(v), Encode(t);
      assert t != "" by {
        assert |f| >= |e| >= 1;
      }
      var n := |CharBytes(v[0])|;
      assert f[0] == e[0] == CharBytes(v[0])[0];
      assert CharBytes(t[0])[0] == f[0];
      assert |CharBytes(t[0])| == n;
      assert CharBytes(t[0]) == f[..n] == e[..n] == CharBytes(v[0]);
      CharBytesInjective(v[0], t[0]);
      assert Encode(v[1..]) == e[n..] && Encode(t[1..]) == f[n..];
      assert Encode(v[1..]) <= Encode(t[1..]);
      PrefixText(v[1..], t[1..]);
    }
  }

  lemma EncodeInjective(a: string, b: string)
    requires Encode(a) == Encode(b)
    ensures a == b
  {
    PrefixText(a, b);
    PrefixText(b, a);
  }

  /** A byte that is not a continuation byte starts a character. */
  lemma {:induction false} StartsCharacter(s: string, i: nat) returns (k: nat)
    requires i < Width(s) && !IsContinuation(Encode(s)[i])
    ensures k < |s| && Width(s[..k]) == i
  {
    var n := |CharBytes(s[0])|;
    if i < n {
      assert Encode(s)[i] == CharBytes(s[0])[i];
      k := 0;
    } else {
      assert Encode(s)[i] == Encode(s[1..])[i - n];
      var j := StartsCharacter(s[1..], i - n);
      k := j + 1;
      assert s[..k][1..] == s[1..][..j];
    }
  }

  /** A byte slice that encodes a non-empty text is a slice of characters. */
  lemma SliceIsText(s: string, i: nat, j: nat, v: string) returns (k: nat, l: nat)
    requires i <= j <= Width(s) && v != "" && Encode(s)[i..j] == Encode(v)
    ensures k < l <= |s| && Width(s[..k]) == i && Width(s[..l]) == j && s[k..l] == v
  {
    hide CharBytes;
    assert Encode(s)[i] == Encode(s)[i..j][0] == CharBytes(v[0])[0];
    k := StartsCharacter(s, i);
    EncodeSplit(s, k);
    assert Encode(s)[i..] == Encode(s[k..]);
    assert Encode(s)[i..j] == Encode(s)[i..][..j - i];
    PrefixText(v, s[k..]);
    l := k + |v|;
    assert s[..l] == s[..k] + v;
    EncodeConcat(s[..k], v);
  }

  /** Character offsets grow with byte offsets. */
  lemma WidthMonotone(s: string, k: nat, l: nat)
    requires k <= l <= |s|
    ensures Width(s[..l]) == Width(s[..k]) + Width(s[k..l])
    ensures k < l ==> Width(s[..k]) < Width(s[..l])
  {
    assert s[..l] == s[..k] + s[k..l];
    EncodeConcat(s[..k], s[k..l]);
  }
}
