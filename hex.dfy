/**
 * The rendering of a raw 20-byte object hash as text: every byte as
 * two lowercase hexadecimal digits, high half first.
 */
module Hex {
  import opened Nom

  /** '0'..'9' or 'a'..'f'. */
  predicate IsLowerHexDigit(c: uint8) { 0x30 <= c <= 0x39 || 0x61 <= c <= 0x66 }

  function HexDigit(n: nat): (c: uint8)
    requires n < 16
    ensures IsLowerHexDigit(c)
  {
    if n < 10 then 0x30 + n else 0x61 + (n - 10)
  }

  function DigitValue(c: uint8): (n: nat)
    requires IsLowerHexDigit(c)
    ensures n < 16 && HexDigit(n) == c
  {
    if c <= 0x39 then c - 0x30 else c - 0x61 + 10
  }

  lemma DigitValueOfHexDigit(n: nat)
    requires n < 16
    ensures DigitValue(HexDigit(n)) == n
  {
  }

  /** Lowercase hexadecimal text of `h`, two digits per byte, in byte order. */
  function HexString(h: Bytes): (r: Bytes)
    ensures |r| == 2 * |h|
    ensures All(r, IsLowerHexDigit)
  {
    if h == [] then [] else [HexDigit(h[0] / 16), HexDigit(h[0] % 16)] + HexString(h[1..])
  }

  /** Byte `i` is rendered at positions `2 * i` (high half) and `2 * i + 1`. */
  lemma {:induction false} HexStringAt(h: Bytes, i: nat)
    requires i < |h|
    ensures HexString(h)[2 * i] == HexDigit(h[i] / 16)
    ensures HexString(h)[2 * i + 1] == HexDigit(h[i] % 16)
  {
    if i > 0 {
      HexStringAt(h[1..], i - 1);
      assert HexString(h)[2..] == HexString(h[1..]);
    }
  }

  /** Reading hexadecimal text back as bytes. */
  function HexDecode(s: Bytes): (h: Bytes)
    requires |s| % 2 == 0 && All(s, IsLowerHexDigit)
    ensures |h| == |s| / 2
    decreases |s|
  {
    if s == [] then [] else [DigitValue(s[0]) * 16 + DigitValue(s[1])] + HexDecode(s[2..])
  }

  /** Decoding the rendered hash gives back the original bytes. */
  lemma {:induction false} HexRoundTrip(h: Bytes)
    ensures HexDecode(HexString(h)) == h
  {
    if h != [] {
      var r := HexString(h);
      assert r[2..] == HexString(h[1..]);
      DigitValueOfHexDigit(h[0] / 16);
      DigitValueOfHexDigit(h[0] % 16);
      HexRoundTrip(h[1..]);
    }
  }

  /** Every lowercase hexadecimal text of even length is the rendering of its decoding. */
  lemma {:induction false} HexRoundTripText(s: Bytes)
    requires |s| % 2 == 0 && All(s, IsLowerHexDigit)
    ensures HexString(HexDecode(s)) == s
  {
    if s != [] {
      var h := HexDecode(s);
      var b := DigitValue(s[0]) * 16 + DigitValue(s[1]);
      assert b / 16 == DigitValue(s[0]) && b % 16 == DigitValue(s[1]);
      assert h[1..] == HexDecode(s[2..]);
      HexRoundTripText(s[2..]);
      assert s == [s[0], s[1]] + s[2..];
    }
  }
}
