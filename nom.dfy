/**
 * The byte-level parser combinators of the `nom` crate that the Git object
 * parsers are built from, each as a function from the remaining input to a
 * `ParseResult`.
 *
 * nom distinguishes three outcomes of a parser: success with the unconsumed
 * remainder, a recoverable `Error` (which `alt`, `opt`, `many0`, `many_till`
 * and `separated_list0` catch), and `Incomplete` (which a "streaming"
 * parser returns when the input ends too early, and which every combinator
 * passes upward). The Git parsers additionally call
 * `str::from_utf8(..).expect(..)`, which aborts the process on invalid UTF-8;
 * that abort is the fourth outcome, `Panic`, and like `Incomplete` no
 * combinator catches it.
 */
module Nom {

  type uint8 = b: int | 0 <= b < 256

  type Bytes = seq<uint8>

  datatype Option<+T> = None | Some(value: T)

  datatype ParseResult<+T> = Done(rest: Bytes, value: T) | Error | Incomplete | Panic
  {
    /** The same failure, at another value type (what `?` does in Rust). */
    function Propagate<U>(): (r: ParseResult<U>)
      requires !Done?
      ensures r.Error? == Error? && r.Incomplete? == Incomplete? && r.Panic? == Panic?
    {
      if Error? then Error else if Incomplete? then Incomplete else Panic
    }
  }

  /** The bytes of an ASCII string literal. */
  function Ascii(s: string): (b: Bytes)
    requires forall i | 0 <= i < |s| :: s[i] as int < 128
    ensures |b| == |s| && forall i | 0 <= i < |s| :: b[i] == s[i] as int
  {
    seq(|s|, i requires 0 <= i < |s| => s[i] as int)
  }

  const NUL: uint8 := 0x00
  const TAB: uint8 := 0x09
  const LF: uint8 := 0x0A
  const CR: uint8 := 0x0D
  const SPACE: uint8 := 0x20

  predicate IsDigit(b: uint8) { 0x30 <= b <= 0x39 }

  /** nom's `space`: blank or tab. */
  predicate IsSpace(b: uint8) { b == SPACE || b == TAB }

  /** nom's `multispace`: blank, tab, carriage return or line feed. */
  predicate IsMultispace(b: uint8) { b == SPACE || b == TAB || b == CR || b == LF }

  predicate IsLineBreak(b: uint8) { b == CR || b == LF }

  predicate All(s: Bytes, p: uint8 -> bool) { forall i | 0 <= i < |s| :: p(s[i]) }

  predicate StartsWith(s: Bytes, t: Bytes) { |t| <= |s| && s[..|t|] == t }

  lemma StartsWithSplit(s: Bytes, t: Bytes)
    requires StartsWith(s, t)
    ensures s == t + s[|t|..]
  {
  }

  /** `t` occurs in `s` at position `k`. */
  predicate OccursAt(s: Bytes, t: Bytes, k: int) { 0 <= k && k + |t| <= |s| && s[k..k + |t|] == t }

  /** Length of the longest prefix of `s` whose bytes all satisfy `keep`. */
  function PrefixLength(keep: uint8 -> bool, s: Bytes): (n: nat)
    ensures n <= |s|
    ensures forall i | 0 <= i < n :: keep(s[i])
    ensures n < |s| ==> !keep(s[n])
    decreases |s|
  {
    if s == [] || !keep(s[0]) then 0 else 1 + PrefixLength(keep, s[1..])
  }

  /** The prefix length is determined by where `keep` first fails. */
  lemma {:induction false} PrefixLengthOf(keep: uint8 -> bool, a: Bytes, b: Bytes)
    requires All(a, keep)
    requires b == [] || !keep(b[0])
    ensures PrefixLength(keep, a + b) == |a|
  {
    if a != [] {
      assert (a + b)[0] == a[0];
      assert (a + b)[1..] == a[1..] + b;
      PrefixLengthOf(keep, a[1..], b);
    }
  }

  /**
   * nom's complete `split_at_position_complete`: the longest prefix whose bytes
   * satisfy `keep`, possibly empty. Never fails.
   */
  function SplitWhile(keep: uint8 -> bool, input: Bytes): (r: ParseResult<Bytes>)
    ensures r.Done? && input == r.value + r.rest
    ensures All(r.value, keep) && (r.rest == [] || !keep(r.rest[0]))
  {
    var n := PrefixLength(keep, input);
    assert input == input[..n] + input[n..];
    Done(input[n..], input[..n])
  }

  /**
   * nom's complete `split_at_position1_complete`: the longest prefix whose
   * bytes satisfy `keep`, which must not be empty.
   */
  function SplitWhile1(keep: uint8 -> bool, input: Bytes): (r: ParseResult<Bytes>)
    ensures r.Done? || r.Error?
    ensures r.Error? <==> input == [] || !keep(input[0])
    ensures r.Done? ==> input == r.value + r.rest && r.value != []
    ensures r.Done? ==> All(r.value, keep) && (r.rest == [] || !keep(r.rest[0]))
  {
    var n := PrefixLength(keep, input);
    assert input == input[..n] + input[n..];
    if n == 0 then Error else Done(input[n..], input[..n])
  }

  /** `character::complete::digit1`. */
  function Digit1(input: Bytes): ParseResult<Bytes> { SplitWhile1(IsDigit, input) }

  /** `character::complete::space1`. */
  function Space1(input: Bytes): ParseResult<Bytes> { SplitWhile1(IsSpace, input) }

  /** `character::complete::multispace0`. */
  function Multispace0(input: Bytes): ParseResult<Bytes> { SplitWhile(IsMultispace, input) }

  predicate NotIn(stops: set<uint8>, b: uint8) { b !in stops }

  /** `bytes::complete::is_not(stops)`: a non-empty run of bytes outside `stops`. */
  function IsNot(stops: set<uint8>, input: Bytes): (r: ParseResult<Bytes>)
    ensures r.Done? || r.Error?
    ensures r.Error? <==> input == [] || input[0] in stops
    ensures r.Done? ==> input == r.value + r.rest && r.value != []
    ensures r.Done? ==> (forall i | 0 <= i < |r.value| :: r.value[i] !in stops) && (r.rest == [] || r.rest[0] in stops)
  {
    SplitWhile1((b: uint8) => NotIn(stops, b), input)
  }

  /** `bytes::complete::take_till(stop)`: the bytes before the first `stop` byte. */
  function TakeTill(stop: uint8 -> bool, input: Bytes): (r: ParseResult<Bytes>)
    ensures r.Done? && input == r.value + r.rest
    ensures (forall i | 0 <= i < |r.value| :: !stop(r.value[i])) && (r.rest == [] || stop(r.rest[0]))
  {
    SplitWhile((b: uint8) => !stop(b), input)
  }

  /** `take_till` stops exactly at the first `stop` byte. */
  lemma TakeTillOf(stop: uint8 -> bool, a: Bytes, b: Bytes)
    requires forall i | 0 <= i < |a| :: !stop(a[i])
    requires b == [] || stop(b[0])
    ensures TakeTill(stop, a + b) == Done(b, a)
  {
    PrefixLengthOf((b: uint8) => !stop(b), a, b);
    assert (a + b)[..|a|] == a && (a + b)[|a|..] == b;
  }

  /** `is_not` stops exactly at the first byte of `stops`. */
  lemma IsNotOf(stops: set<uint8>, a: Bytes, b: Bytes)
    requires a != [] && forall i | 0 <= i < |a| :: a[i] !in stops
    requires b == [] || b[0] in stops
    ensures IsNot(stops, a + b) == Done(b, a)
  {
    PrefixLengthOf((b: uint8) => NotIn(stops, b), a, b);
    assert (a + b)[..|a|] == a && (a + b)[|a|..] == b;
  }

  /** `split_at_position1_complete` stops exactly where `keep` first fails. */
  lemma SplitWhile1Of(keep: uint8 -> bool, a: Bytes, b: Bytes)
    requires a != [] && All(a, keep)
    requires b == [] || !keep(b[0])
    ensures SplitWhile1(keep, a + b) == Done(b, a)
  {
    PrefixLengthOf(keep, a, b);
    assert (a + b)[..|a|] == a && (a + b)[|a|..] == b;
  }

  /** `split_at_position_complete` stops exactly where `keep` first fails. */
  lemma SplitWhileOf(keep: uint8 -> bool, a: Bytes, b: Bytes)
    requires All(a, keep)
    requires b == [] || !keep(b[0])
    ensures SplitWhile(keep, a + b) == Done(b, a)
  {
    PrefixLengthOf(keep, a, b);
    assert (a + b)[..|a|] == a && (a + b)[|a|..] == b;
  }

  /**
   * `bytes::streaming::tag(t)`: `Incomplete` when the input ends while still
   * agreeing with `t`.
   */
  function StreamingTag(t: Bytes, input: Bytes): (r: ParseResult<Bytes>)
    ensures r.Done? || r.Error? || r.Incomplete?
    ensures r.Done? <==> StartsWith(input, t)
    ensures r.Done? ==> r.rest == input[|t|..] && r.value == t
    ensures r.Incomplete? <==> |input| < |t| && input == t[..|input|]
  {
    if StartsWith(input, t) then Done(input[|t|..], t)
    else if |input| < |t| && input == t[..|input|] then Incomplete
    else Error
  }

  /** `bytes::complete::tag(t)`. */
  function CompleteTag(t: Bytes, input: Bytes): (r: ParseResult<Bytes>)
    ensures r.Done? || r.Error?
    ensures r.Done? <==> StartsWith(input, t)
    ensures r.Done? ==> r.rest == input[|t|..] && r.value == t
  {
    if StartsWith(input, t) then Done(input[|t|..], t) else Error
  }

  /** A complete tag followed by anything is read as the tag. */
  lemma TagThen(t: Bytes, rest: Bytes)
    ensures CompleteTag(t, t + rest) == Done(rest, t)
    ensures StreamingTag(t, t + rest) == Done(rest, t)
  {
    assert (t + rest)[..|t|] == t && (t + rest)[|t|..] == rest;
  }

  /** `bytes::streaming::take(n)`. */
  function Take(n: nat, input: Bytes): (r: ParseResult<Bytes>)
    ensures r.Done? || r.Incomplete?
    ensures r.Done? <==> n <= |input|
    ensures r.Done? ==> r.value == input[..n] && r.rest == input[n..]
  {
    if n <= |input| then Done(input[n..], input[..n]) else Incomplete
  }

  /** `character::streaming::char(c)`. */
  function Char(c: uint8, input: Bytes): (r: ParseResult<uint8>)
    ensures r.Done? || r.Error? || r.Incomplete?
    ensures r.Incomplete? <==> input == []
    ensures r.Done? <==> input != [] && input[0] == c
    ensures r.Done? ==> r.rest == input[1..] && r.value == c
  {
    if input == [] then Incomplete else if input[0] == c then Done(input[1..], c) else Error
  }

  /** `character::complete::one_of(chars)`. */
  function OneOf(chars: set<uint8>, input: Bytes): (r: ParseResult<uint8>)
    ensures r.Done? || r.Error?
    ensures r.Done? <==> input != [] && input[0] in chars
    ensures r.Done? ==> r.rest == input[1..] && r.value == input[0]
  {
    if input != [] && input[0] in chars then Done(input[1..], input[0]) else Error
  }

  /** The first position at or after `from` where `t` occurs in `s`. */
  function FindFrom(t: Bytes, s: Bytes, from: nat): (r: Option<nat>)
    ensures r.Some? ==> from <= r.value && OccursAt(s, t, r.value)
    ensures r.Some? ==> forall k | from <= k < r.value :: !OccursAt(s, t, k)
    ensures r.None? ==> forall k | from <= k :: !OccursAt(s, t, k)
    decreases |s| - from
  {
    if from + |t| > |s| then None
    else if s[from..from + |t|] == t then Some(from)
    else FindFrom(t, s, from + 1)
  }

  /** The search finds the first occurrence at or after `from`. */
  lemma {:induction false} FindFromFirst(t: Bytes, s: Bytes, from: nat, k: nat)
    requires from <= k && OccursAt(s, t, k)
    requires forall j | from <= j < k :: !OccursAt(s, t, j)
    ensures FindFrom(t, s, from) == Some(k)
    decreases k - from
  {
    if from < k {
      assert !OccursAt(s, t, from);
      FindFromFirst(t, s, from + 1, k);
    }
  }

  /** `bytes::complete::take_until(t)`: everything before the first `t`. */
  function TakeUntil(t: Bytes, input: Bytes): (r: ParseResult<Bytes>)
  {
    match FindFrom(t, input, 0)
    case None => Error
    case Some(k) => Done(input[k..], input[..k])
  }

  /** `character::complete::line_ending`: "\n" or "\r\n". */
  function LineEnding(input: Bytes): (r: ParseResult<Bytes>)
    ensures r.Done? || r.Error?
    ensures r.Done? <==> StartsWith(input, [LF]) || StartsWith(input, [CR, LF])
    ensures r.Done? ==> input == r.value + r.rest && (r.value == [LF] || r.value == [CR, LF])
  {
    if StartsWith(input, [LF]) then Done(input[1..], [LF])
    else if StartsWith(input, [CR, LF]) then Done(input[2..], [CR, LF])
    else Error
  }

  /** A line ending is read as itself. */
  lemma LineEndingOf(eol: Bytes, rest: Bytes)
    requires eol == [LF] || eol == [CR, LF]
    ensures LineEnding(eol + rest) == Done(rest, eol)
  {
    assert (eol + rest)[..|eol|] == eol && (eol + rest)[|eol|..] == rest;
    if eol == [CR, LF] {
      assert (eol + rest)[..1] != [LF] by {
        assert (eol + rest)[..1][0] == CR;
      }
    }
  }

  /** `combinator::rest`. */
  function Rest(input: Bytes): ParseResult<Bytes>
  {
    Done([], input)
  }

  /** The unsigned number written big-endian in `b`. */
  function BigEndian(b: Bytes): (n: nat)
    ensures n < Power256(|b|)
  {
    if b == [] then 0 else BigEndian(b[..|b| - 1]) * 256 + b[|b| - 1]
  }

  function Power256(k: nat): (p: nat)
    ensures p >= 1
  {
    if k == 0 then 1 else 256 * Power256(k - 1)
  }

  /** `number::streaming::be_u32`. */
  function BeU32(input: Bytes): (r: ParseResult<nat>)
    ensures r.Done? || r.Incomplete?
    ensures r.Done? <==> 4 <= |input|
    ensures r.Done? ==> r.rest == input[4..] && r.value == BigEndian(input[..4]) < 0x1_0000_0000
  {
    if |input| < 4 then Incomplete else Done(input[4..], BigEndian(input[..4]))
  }

  /** `multi::count(p, n)`: `p` exactly `n` times; any failure ends the parse. */
  function Count<T>(p: Bytes -> ParseResult<T>, n: nat, input: Bytes): ParseResult<seq<T>>
  {
    if n == 0 then Done(input, [])
    else
      var head := p(input);
      if !head.Done? then head.Propagate()
      else
        var tail := Count(p, n - 1, head.rest);
        if !tail.Done? then tail.Propagate()
        else Done(tail.rest, [head.value] + tail.value)
  }

  /**
   * `p` reads exactly `w` bytes when that many are available and is
   * `Incomplete` otherwise (as nom's streaming `take`, `be_u32` are).
   */
  ghost predicate FixedWidth<T>(p: Bytes -> ParseResult<T>, w: nat)
  {
    forall s: Bytes :: ReadsWidth(p, w, s)
  }

  ghost predicate ReadsWidth<T>(p: Bytes -> ParseResult<T>, w: nat, s: Bytes)
  {
    if w <= |s| then p(s).Done? && p(s).rest == s[w..] else p(s).Incomplete?
  }

  lemma MulSucc(i: nat, w: nat)
    ensures i * w + w == (i + 1) * w
  {
  }

  /** What `FixedWidth` says about one input. */
  lemma FixedWidthAt<T>(p: Bytes -> ParseResult<T>, w: nat, s: Bytes)
    requires FixedWidth(p, w)
    ensures w <= |s| ==> p(s).Done? && p(s).rest == s[w..]
    ensures |s| < w ==> p(s).Incomplete?
  {
    assert ReadsWidth(p, w, s);
  }

  /**
   * `count` of a fixed-width parser succeeds exactly when `n * w` bytes are
   * there, and otherwise is `Incomplete`.
   */
  lemma {:induction false} CountFixedWidth<T>(p: Bytes -> ParseResult<T>, w: nat, n: nat, s: Bytes)
    requires FixedWidth(p, w)
    ensures Count(p, n, s).Done? <==> n * w <= |s|
    ensures !Count(p, n, s).Done? ==> Count(p, n, s).Incomplete?
    ensures Count(p, n, s).Done? ==> Count(p, n, s).rest == s[n * w..] && |Count(p, n, s).value| == n
  {
    if n > 0 {
      MulSucc(n - 1, w);
      FixedWidthAt(p, w, s);
      if w <= |s| {
        CountFixedWidth(p, w, n - 1, s[w..]);
      }
    }
  }

  lemma {:induction false} MulMono(i: nat, n: nat, w: nat)
    requires i < n
    ensures i * w + w <= n * w
    decreases n - i
  {
    MulSucc(i, w);
    if i + 1 < n {
      MulMono(i + 1, n, w);
    }
  }

  /** Item `i` of a fixed-width `count` is what the parser reads at byte `i * w`. */
  lemma {:induction false} CountItem<T>(p: Bytes -> ParseResult<T>, w: nat, n: nat, s: Bytes, i: nat)
    requires FixedWidth(p, w)
    requires Count(p, n, s).Done? && i < n
    ensures |Count(p, n, s).value| == n && i * w + w <= |s|
    ensures p(s[i * w..]).Done? && Count(p, n, s).value[i] == p(s[i * w..]).value
  {
    CountFixedWidth(p, w, n, s);
    MulMono(i, n, w);
    FixedWidthAt(p, w, s[i * w..]);
    MulMono(0, n, w);
    FixedWidthAt(p, w, s);
    var head := p(s);
    var tail := Count(p, n - 1, head.rest);
    assert Count(p, n, s).value == [head.value] + tail.value;
    if i == 0 {
      assert s[i * w..] == s;
    } else {
      CountItem(p, w, n - 1, s[w..], i - 1);
      MulSucc(i - 1, w);
      assert s[w..][(i - 1) * w..] == s[i * w..];
    }
  }
}
