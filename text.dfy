/**
 * What the parsers do with bytes they turn into Rust strings: the UTF-8
 * check of `str::from_utf8` and the whitespace trimming of `str::trim`.
 * A Rust string is modelled by its UTF-8 bytes.
 */
module Text {
  import opened Nom

  predicate IsContinuation(b: uint8) { 0x80 <= b <= 0xBF }

  /**
   * Length of the well-formed UTF-8 character that `s` starts with, or 0 when
   * `s` does not start with one (the table of well-formed byte sequences in
   * section 4 of RFC 3629, which is what `str::from_utf8` checks).
   */
  function CharLength(s: Bytes): (k: nat)
    ensures k <= |s| && k <= 4
    ensures s != [] && s[0] < 0x80 ==> k == 1
    ensures s != [] && 0x80 <= s[0] < 0xC2 ==> k == 0
  {
    if s == [] then 0
    else if s[0] < 0x80 then 1
    else if 0xC2 <= s[0] <= 0xDF then
      if 2 <= |s| && IsContinuation(s[1]) then 2 else 0
    else if 0xE0 <= s[0] <= 0xEF then
      var lo := if s[0] == 0xE0 then 0xA0 else 0x80;
      var hi := if s[0] == 0xED then 0x9F else 0xBF;
      if 3 <= |s| && lo <= s[1] <= hi && IsContinuation(s[2]) then 3 else 0
    else if 0xF0 <= s[0] <= 0xF4 then
      var lo := if s[0] == 0xF0 then 0x90 else 0x80;
      var hi := if s[0] == 0xF4 then 0x8F else 0xBF;
      if 4 <= |s| && lo <= s[1] <= hi && IsContinuation(s[2]) && IsContinuation(s[3]) then 4 else 0
    else 0
  }

  /** `s` is a sequence of well-formed UTF-8 characters. */
  predicate ValidUtf8(s: Bytes)
    decreases |s|
  {
    s == [] || (CharLength(s) > 0 && ValidUtf8(s[CharLength(s)..]))
  }

  predicate IsAscii(b: uint8) { b < 0x80 }

  /** ASCII text is always valid UTF-8. */
  lemma {:induction false} AsciiIsUtf8(s: Bytes)
    requires All(s, IsAscii)
    ensures ValidUtf8(s)
  {
    if s != [] {
      AsciiIsUtf8(s[1..]);
    }
  }

  /**
   * `c` is the UTF-8 encoding of one character with the Unicode White_Space
   * property, which is what `char::is_whitespace` tests: U+0009..U+000D,
   * U+0020, U+0085, U+00A0, U+1680, U+2000..U+200A, U+2028, U+2029, U+202F,
   * U+205F and U+3000.
   */
  predicate IsWhitespaceChar(c: Bytes)
  {
    || (|c| == 1 && (c[0] == 0x20 || 0x09 <= c[0] <= 0x0D))
    || (|c| == 2 && c[0] == 0xC2 && (c[1] == 0x85 || c[1] == 0xA0))
    || (|c| == 3 && c[0] == 0xE1 && c[1] == 0x9A && c[2] == 0x80)
    || (|c| == 3 && c[0] == 0xE2 && c[1] == 0x80 && (0x80 <= c[2] <= 0x8A || c[2] == 0xA8 || c[2] == 0xA9 || c[2] == 0xAF))
    || (|c| == 3 && c[0] == 0xE2 && c[1] == 0x81 && c[2] == 0x9F)
    || (|c| == 3 && c[0] == 0xE3 && c[1] == 0x80 && c[2] == 0x80)
  }

  /** The whitespace characters of `IsWhitespaceChar`, by their bytes. */
  predicate IsWhitespace1(x: uint8) { x == 0x20 || 0x09 <= x <= 0x0D }

  predicate IsWhitespace2(x: uint8, y: uint8) { x == 0xC2 && (y == 0x85 || y == 0xA0) }

  predicate IsWhitespace3(x: uint8, y: uint8, z: uint8)
  {
    || (x == 0xE1 && y == 0x9A && z == 0x80)
    || (x == 0xE2 && y == 0x80 && (0x80 <= z <= 0x8A || z == 0xA8 || z == 0xA9 || z == 0xAF))
    || (x == 0xE2 && y == 0x81 && z == 0x9F)
    || (x == 0xE3 && y == 0x80 && z == 0x80)
  }

  /** Byte length of the whitespace character `s` starts with, or 0. */
  function LeadingWhitespace(s: Bytes): (k: nat)
    ensures k <= 3 && k <= |s|
  {
    if 1 <= |s| && IsWhitespace1(s[0]) then 1
    else if 2 <= |s| && IsWhitespace2(s[0], s[1]) then 2
    else if 3 <= |s| && IsWhitespace3(s[0], s[1], s[2]) then 3
    else 0
  }

  /** Byte length of the whitespace character `s` ends with, or 0. */
  function TrailingWhitespace(s: Bytes): (k: nat)
    ensures k <= 3 && k <= |s|
  {
    var n := |s|;
    if 1 <= n && IsWhitespace1(s[n - 1]) then 1
    else if 2 <= n && IsWhitespace2(s[n - 2], s[n - 1]) then 2
    else if 3 <= n && IsWhitespace3(s[n - 3], s[n - 2], s[n - 1]) then 3
    else 0
  }

  /** `LeadingWhitespace` finds exactly the whitespace character `s` starts with. */
  lemma LeadingWhitespaceIsChar(s: Bytes)
    ensures var k := LeadingWhitespace(s);
      && (k > 0 ==> IsWhitespaceChar(s[..k]))
      && (k == 0 ==> forall j | 1 <= j <= 3 && j <= |s| :: !IsWhitespaceChar(s[..j]))
  {
  }

  /** `TrailingWhitespace` finds exactly the whitespace character `s` ends with. */
  lemma TrailingWhitespaceIsChar(s: Bytes)
    ensures var k := TrailingWhitespace(s);
      && (k > 0 ==> IsWhitespaceChar(s[|s| - k..]))
      && (k == 0 && 1 <= |s| ==> !IsWhitespaceChar(s[|s| - 1..]))
      && (k == 0 && 2 <= |s| ==> !IsWhitespaceChar(s[|s| - 2..]))
      && (k == 0 && 3 <= |s| ==> !IsWhitespaceChar(s[|s| - 3..]))
  {
  }

  /** The first `n` bytes of `s` are whole whitespace characters, read from the front. */
  predicate WhitespacePrefix(s: Bytes, n: nat)
    decreases n
  {
    n == 0 || (var k := LeadingWhitespace(s); 0 < k <= n && WhitespacePrefix(s[k..], n - k))
  }

  /** The last `n` bytes of `s` are whole whitespace characters, read from the back. */
  predicate WhitespaceSuffix(s: Bytes, n: nat)
    decreases n
  {
    n == 0 || (var k := TrailingWhitespace(s); 0 < k <= n && WhitespaceSuffix(s[..|s| - k], n - k))
  }

  /** `str::trim_start`: drop whitespace characters from the front. */
  function TrimStart(s: Bytes): (r: Bytes)
    ensures |r| <= |s| && r == s[|s| - |r|..]
    ensures WhitespacePrefix(s, |s| - |r|)
    ensures LeadingWhitespace(r) == 0
    ensures LeadingWhitespace(s) == 0 ==> r == s
    decreases |s|
  {
    var k := LeadingWhitespace(s);
    if k == 0 then s
    else
      var r := TrimStart(s[k..]);
      WhitespacePrefixStep(s, k, |s| - |r|, |s[k..]| - |r|);
      r
  }

  /** One more whitespace character in front extends a whitespace prefix. */
  lemma WhitespacePrefixStep(s: Bytes, k: nat, n: nat, m: nat)
    requires 0 < k == LeadingWhitespace(s) && n == m + k
    requires WhitespacePrefix(s[k..], m)
    ensures WhitespacePrefix(s, n)
  {
  }

  /** `str::trim_end`: drop whitespace characters from the back. */
  function TrimEnd(s: Bytes): (r: Bytes)
    ensures |r| <= |s| && r == s[..|r|]
    ensures WhitespaceSuffix(s, |s| - |r|)
    ensures TrailingWhitespace(r) == 0
    ensures TrailingWhitespace(s) == 0 ==> r == s
    decreases |s|
  {
    var k := TrailingWhitespace(s);
    if k == 0 then s
    else
      var r := TrimEnd(s[..|s| - k]);
      assert s[..|s| - k][..|r|] == s[..|r|];
      WhitespaceSuffixStep(s, k, |s| - |r|, |s[..|s| - k]| - |r|);
      r
  }

  /** One more whitespace character at the back extends a whitespace suffix. */
  lemma WhitespaceSuffixStep(s: Bytes, k: nat, n: nat, m: nat)
    requires 0 < k == TrailingWhitespace(s) && n == m + k
    requires WhitespaceSuffix(s[..|s| - k], m)
    ensures WhitespaceSuffix(s, n)
  {
  }

  /** Cutting the end off cannot create leading whitespace. */
  lemma PrefixKeepsNoLeadingWhitespace(s: Bytes, n: nat)
    requires n <= |s| && LeadingWhitespace(s) == 0
    ensures LeadingWhitespace(s[..n]) == 0
  {
  }

  /**
   * `s` is whole whitespace characters, then `r` at offset `a`, then whole
   * whitespace characters.
   */
  predicate Surrounds(s: Bytes, a: nat, r: Bytes)
  {
    && a + |r| <= |s|
    && s == s[..a] + r + s[a + |r|..]
    && WhitespacePrefix(s, a)
    && WhitespaceSuffix(s[a..], |s| - a - |r|)
  }

  /** `r`, found at offset `a` of `s` between dropped whitespace, is surrounded by it. */
  lemma Surrounded(s: Bytes, t: Bytes, r: Bytes, a: nat)
    requires |t| <= |s| && t == s[|s| - |t|..] && a == |s| - |t|
    requires |r| <= |t| && r == t[..|r|]
    requires WhitespacePrefix(s, a) && WhitespaceSuffix(t, |t| - |r|)
    ensures Surrounds(s, a, r)
  {
    SurroundedParts(s, t, r, a);
    SurroundedSuffix(s, t, r, a);
  }

  lemma SurroundedParts(s: Bytes, t: Bytes, r: Bytes, a: nat)
    requires |t| <= |s| && t == s[|s| - |t|..] && a == |s| - |t|
    requires |r| <= |t| && r == t[..|r|]
    ensures a + |r| <= |s| && s == s[..a] + r + s[a + |r|..]
  {
    assert s == s[..a] + s[a..a + |r|] + s[a + |r|..];
  }

  lemma SurroundedSuffix(s: Bytes, t: Bytes, r: Bytes, a: nat)
    requires |t| <= |s| && t == s[|s| - |t|..] && a == |s| - |t|
    requires |r| <= |t| && WhitespaceSuffix(t, |t| - |r|)
    ensures WhitespaceSuffix(s[a..], |s| - a - |r|)
  {
    SameSuffix(s[a..], t, |s| - a - |r|, |t| - |r|);
  }

  lemma SameSuffix(u: Bytes, t: Bytes, n: nat, m: nat)
    requires u == t && n == m && WhitespaceSuffix(t, m)
    ensures WhitespaceSuffix(u, n)
  {
  }

  /**
   * `str::trim`: the input is whitespace characters, then `r`, then
   * whitespace characters, and `r` has no whitespace at either end.
   */
  function Trim(s: Bytes): (r: Bytes)
    ensures Surrounds(s, |s| - |TrimStart(s)|, r)
    ensures LeadingWhitespace(r) == 0 && TrailingWhitespace(r) == 0
  {
    var t := TrimStart(s);
    Surrounded(s, t, TrimEnd(t), |s| - |t|);
    PrefixKeepsNoLeadingWhitespace(t, |TrimEnd(t)|);
    TrimEnd(t)
  }

  /** Text without whitespace at either end is left as it is. */
  lemma TrimmedIsUnchanged(s: Bytes)
    requires LeadingWhitespace(s) == 0 && TrailingWhitespace(s) == 0
    ensures Trim(s) == s
  {
  }
}
