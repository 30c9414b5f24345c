/**
 * The older object parser of `git_parser.rs`. Its header and tree parsers
 * are the same as those of `Parsers`; it differs in how commits and blobs are
 * read: text is read as runs of non-empty lines, a commit as two such runs
 * with the line breaks between them skipped, and a blob as one string.
 */
module LegacyParser {
  import opened Nom
  import opened Text
  import opened Types
  import opened Parsers

  /** The legacy object: the blob holds all of its text as one string. */
  datatype LegacyObject =
    | LegacyCommit(commit: GitCommit)
    | LegacyTree(tree: GitTree)
    | LegacyBlob(content: Bytes)

  /** A non-empty line: neither empty nor holding a CR or LF, and UTF-8. */
  predicate IsTextLine(l: Bytes) { l != [] && NoLineBreak(l) && ValidUtf8(l) }

  /** One non-empty line: the bytes up to the next CR or LF, which must be UTF-8. */
  function ParseLine(input: Bytes): (r: ParseResult<Bytes>)
    ensures r.Error? <==> input == [] || IsLineBreak(input[0])
    ensures r.Done? ==> IsTextLine(r.value) && input == r.value + r.rest
    ensures r.Done? ==> r.rest == [] || IsLineBreak(r.rest[0])
    ensures r.Done? || r.Error? || r.Panic?
    ensures r.Done? <==> !(input == [] || IsLineBreak(input[0])) && ValidUtf8(TakeTill(IsLineBreak, input).value)
  {
    LineRun(input);
    var line := IsNot({CR, LF}, input);
    if !line.Done? then line.Propagate()
    else if !ValidUtf8(line.value) then Panic
    else line
  }

  /** `is_not("\r\n")` reads the same run as `take_till` on a line break, when that run is not empty. */
  lemma LineRun(input: Bytes)
    ensures !(input == [] || IsLineBreak(input[0])) ==>
      IsNot({CR, LF}, input) == Done(TakeTill(IsLineBreak, input).rest, TakeTill(IsLineBreak, input).value)
  {
    var t := TakeTill(IsLineBreak, input);
    if !(input == [] || IsLineBreak(input[0])) {
      IsNotOf({CR, LF}, t.value, t.rest);
    }
  }

  /**
   * `parse_lines`: a list of lines separated by one CR or LF each. It reads lines
   * separated by single line breaks, and stops before a break that is not
   * followed by another line.
   */
  function ParseLines(input: Bytes): ParseResult<seq<Bytes>>
  {
    var first := ParseLine(input);
    if first.Error? then Done(input, [])
    else if !first.Done? then first.Propagate()
    else
      var more := MoreLines(first.rest);
      if !more.Done? then more.Propagate()
      else Done(more.rest, [first.value] + more.value)
  }

  /** The loop of `separated_list0` after the first line. */
  function MoreLines(input: Bytes): ParseResult<seq<Bytes>>
    decreases |input|
  {
    var sep := OneOf({CR, LF}, input);
    if sep.Error? then Done(input, [])
    else
      var line := ParseLine(sep.rest);
      if line.Error? then Done(input, [])
      else if !line.Done? then line.Propagate()
      else
        var tail := MoreLines(line.rest);
        if !tail.Done? then tail.Propagate()
        else Done(tail.rest, [line.value] + tail.value)
  }

  /** Skips every line break at the front. */
  function SkipBreaks(input: Bytes): ParseResult<Bytes>
    decreases |input|
  {
    var b := OneOf({CR, LF}, input);
    if b.Error? then Done(input, [])
    else
      var tail := SkipBreaks(b.rest);
      if !tail.Done? then tail.Propagate()
      else Done(tail.rest, [b.value] + tail.value)
  }

  /** The part of the legacy `parse_git_object` after the header, by kind. */
  function ParseLegacyBody(kind: ObjectType, body: Bytes): ParseResult<LegacyObject>
  {
    match kind
    case Tree =>
      var entries := ParseTreeEntries(body);
      if !entries.Done? then entries.Propagate()
      else Done(entries.rest, LegacyTree(GitTree(entries.value)))
    case Commit =>
      var metadata := ParseLines(body);
      if !metadata.Done? then metadata.Propagate()
      else
        var gap := SkipBreaks(metadata.rest);
        if !gap.Done? then gap.Propagate()
        else
          var content := ParseLines(gap.rest);
          if !content.Done? then content.Propagate()
          else Done(content.rest, LegacyCommit(GitCommit(metadata.value, content.value)))
    case Blob =>
      var all := Rest(body);
      if !ValidUtf8(all.value) then Panic
      else Done(all.rest, LegacyBlob(all.value))
  }

  /** The legacy `parse_git_object`. */
  function ParseLegacyObject(input: Bytes): ParseResult<LegacyObject>
  {
    var header := ParseHeader(input);
    if !header.Done? then header.Propagate()
    else ParseLegacyBody(header.value.0, header.rest)
  }

  // ---------------------------------------------------------------------
  // Properties

  /** Where a run of lines ends: at the end, or at a break that no line follows. */
  predicate EndsRun(rest: Bytes)
  {
    rest == [] || (IsLineBreak(rest[0]) && (|rest| == 1 || IsLineBreak(rest[1])))
  }

  /** No lines are read when the input is empty or starts with a line break. */
  lemma LinesEmpty(input: Bytes)
    requires input == [] || IsLineBreak(input[0])
    ensures ParseLines(input) == Done(input, [])
  {
  }

  /** The separator loop, once no further line follows. */
  lemma MoreLinesEnd(rest: Bytes)
    requires EndsRun(rest)
    ensures MoreLines(rest) == Done(rest, [])
  {
    if rest != [] {
      assert OneOf({CR, LF}, rest) == Done(rest[1..], rest[0]);
      assert ParseLine(rest[1..]).Error?;
    }
  }

  /** One round of the separator loop. */
  lemma MoreLinesCons(input: Bytes, l: Bytes, after: Bytes, rest: Bytes, ls: seq<Bytes>)
    requires input != [] && IsLineBreak(input[0])
    requires ParseLine(input[1..]) == Done(after, l)
    requires MoreLines(after) == Done(rest, ls)
    ensures MoreLines(input) == Done(rest, [l] + ls)
  {
  }

  lemma JoinRegroup(l: Bytes, sep: uint8, j: Bytes, rest: Bytes)
    ensures l + [sep] + j + rest == l + ([sep] + (j + rest))
  {
  }

  /** A line is read up to the break (or end) after it. */
  lemma LineOf(l: Bytes, rest: Bytes)
    requires IsTextLine(l)
    requires rest == [] || IsLineBreak(rest[0])
    ensures ParseLine(l + rest) == Done(rest, l)
  {
    IsNotOf({CR, LF}, l, rest);
  }

  /** What follows the first line of a run: the next separator, or the end. */
  function After(ls: seq<Bytes>, seps: Bytes, rest: Bytes): Bytes
    requires |ls| == |seps| + 1
  {
    if seps == [] then rest else [seps[0]] + (Join(ls[1..], seps[1..]) + rest)
  }

  /** The first line of a run is read up to its separator. */
  lemma FirstLineOf(ls: seq<Bytes>, seps: Bytes, rest: Bytes)
    requires |ls| == |seps| + 1 && IsTextLine(ls[0])
    requires seps != [] ==> IsLineBreak(seps[0])
    requires rest == [] || IsLineBreak(rest[0])
    ensures Join(ls, seps) + rest == ls[0] + After(ls, seps, rest)
    ensures ParseLine(Join(ls, seps) + rest) == Done(After(ls, seps, rest), ls[0])
  {
    if seps != [] {
      JoinRegroup(ls[0], seps[0], Join(ls[1..], seps[1..]), rest);
    }
    LineOf(ls[0], After(ls, seps, rest));
  }

  /** Non-empty text lines with one line break between each two. */
  predicate Run(ls: seq<Bytes>, seps: Bytes)
    decreases |seps|
  {
    && |ls| == |seps| + 1 && IsTextLine(ls[0])
    && (seps != [] ==> IsLineBreak(seps[0]) && Run(ls[1..], seps[1..]))
  }

  lemma {:induction false} RunOf(ls: seq<Bytes>, seps: Bytes)
    requires |ls| == |seps| + 1 && All(seps, IsLineBreak)
    requires forall i | 0 <= i < |ls| :: IsTextLine(ls[i])
    ensures Run(ls, seps)
    decreases |seps|
  {
    if seps != [] {
      assert forall i | 0 <= i < |ls[1..]| :: ls[1..][i] == ls[i + 1];
      assert forall i | 0 <= i < |seps[1..]| :: seps[1..][i] == seps[i + 1];
      RunOf(ls[1..], seps[1..]);
    }
  }

  /**
   * After a break, lines separated by single breaks are read up to where the
   * run ends.
   */
  lemma {:induction false} MoreLinesLayout(sep: uint8, ls: seq<Bytes>, seps: Bytes, rest: Bytes)
    requires IsLineBreak(sep) && Run(ls, seps) && EndsRun(rest)
    ensures MoreLines([sep] + (Join(ls, seps) + rest)) == Done(rest, ls)
    decreases |seps|, 1
  {
    var input := [sep] + (Join(ls, seps) + rest);
    assert input[1..] == Join(ls, seps) + rest;
    FirstLineOf(ls, seps, rest);
    RunTail(ls, seps, rest);
    MoreLinesCons(input, ls[0], After(ls, seps, rest), rest, ls[1..]);
    assert [ls[0]] + ls[1..] == ls;
  }

  /** The lines of a run after its first are read from the separator on. */
  lemma {:induction false} RunTail(ls: seq<Bytes>, seps: Bytes, rest: Bytes)
    requires Run(ls, seps) && EndsRun(rest)
    ensures MoreLines(After(ls, seps, rest)) == Done(rest, ls[1..])
    decreases |seps|, 0
  {
    if seps == [] {
      MoreLinesEnd(rest);
      assert ls[1..] == [];
    } else {
      MoreLinesLayout(seps[0], ls[1..], seps[1..], rest);
    }
  }

  /**
   * Non-empty lines separated by single line breaks are read back as they
   * were written, and the remainder starts where the run ends.
   */
  lemma LinesLayout(ls: seq<Bytes>, seps: Bytes, rest: Bytes)
    requires |ls| == |seps| + 1 && All(seps, IsLineBreak)
    requires forall i | 0 <= i < |ls| :: IsTextLine(ls[i])
    requires EndsRun(rest)
    ensures ParseLines(Join(ls, seps) + rest) == Done(rest, ls)
  {
    RunOf(ls, seps);
    RunLayout(ls, seps, rest);
  }

  lemma RunLayout(ls: seq<Bytes>, seps: Bytes, rest: Bytes)
    requires Run(ls, seps) && EndsRun(rest)
    ensures ParseLines(Join(ls, seps) + rest) == Done(rest, ls)
  {
    FirstLineOf(ls, seps, rest);
    RunTail(ls, seps, rest);
    LinesCons(Join(ls, seps) + rest, ls[0], After(ls, seps, rest), rest, ls[1..]);
    assert [ls[0]] + ls[1..] == ls;
  }

  /** The first line, then the separator loop. */
  lemma LinesCons(input: Bytes, l: Bytes, after: Bytes, rest: Bytes, ls: seq<Bytes>)
    requires ParseLine(input) == Done(after, l)
    requires MoreLines(after) == Done(rest, ls)
    ensures ParseLines(input) == Done(rest, [l] + ls)
  {
  }

  /** A line that is not UTF-8 aborts, up to the break (or end) after it. */
  lemma BadLineOf(bad: Bytes, rest: Bytes)
    requires bad != [] && NoLineBreak(bad) && !ValidUtf8(bad)
    requires rest == [] || IsLineBreak(rest[0])
    ensures ParseLine(bad + rest).Panic?
  {
    IsNotOf({CR, LF}, bad, rest);
  }

  /** A break followed by a line that aborts. */
  predicate AbortsNext(t: Bytes)
  {
    t != [] && IsLineBreak(t[0]) && ParseLine(t[1..]).Panic?
  }

  /**
   * Lines separated by single breaks, followed by a break and a line that is
   * not UTF-8: the whole list aborts, and the lines already read are lost.
   */
  lemma LinesAbort(ls: seq<Bytes>, seps: Bytes, sep: uint8, bad: Bytes, rest: Bytes)
    requires |ls| == |seps| + 1 && All(seps, IsLineBreak)
    requires forall i | 0 <= i < |ls| :: IsTextLine(ls[i])
    requires IsLineBreak(sep) && bad != [] && NoLineBreak(bad) && !ValidUtf8(bad)
    requires rest == [] || IsLineBreak(rest[0])
    ensures ParseLines(Join(ls, seps) + ([sep] + (bad + rest))).Panic?
  {
    var t := [sep] + (bad + rest);
    assert t[1..] == bad + rest;
    BadLineOf(bad, rest);
    RunOf(ls, seps);
    FirstLineOf(ls, seps, t);
    RunTailAbort(ls, seps, t);
    LinesPanicCons(Join(ls, seps) + t, ls[0], After(ls, seps, t));
  }

  /** The first line is read, and the separator loop after it aborts. */
  lemma LinesPanicCons(input: Bytes, l: Bytes, after: Bytes)
    requires ParseLine(input) == Done(after, l)
    requires MoreLines(after).Panic?
    ensures ParseLines(input).Panic?
  {
  }

  /** After a break and a run of lines, a line that aborts aborts the loop. */
  lemma {:induction false} MoreLinesAbort(sep: uint8, ls: seq<Bytes>, seps: Bytes, t: Bytes)
    requires IsLineBreak(sep) && Run(ls, seps) && AbortsNext(t)
    ensures MoreLines([sep] + (Join(ls, seps) + t)).Panic?
    decreases |seps|, 1
  {
    var input := [sep] + (Join(ls, seps) + t);
    assert input[1..] == Join(ls, seps) + t;
    FirstLineOf(ls, seps, t);
    RunTailAbort(ls, seps, t);
    MoreLinesPanicCons(input, ls[0], After(ls, seps, t));
  }

  /** The loop after the first line of a run reaches the line that aborts. */
  lemma {:induction false} RunTailAbort(ls: seq<Bytes>, seps: Bytes, t: Bytes)
    requires Run(ls, seps) && AbortsNext(t)
    ensures MoreLines(After(ls, seps, t)).Panic?
    decreases |seps|, 0
  {
    if seps == [] {
      assert OneOf({CR, LF}, t) == Done(t[1..], t[0]);
    } else {
      MoreLinesAbort(seps[0], ls[1..], seps[1..], t);
    }
  }

  /** One round of the separator loop whose later rounds abort. */
  lemma MoreLinesPanicCons(input: Bytes, l: Bytes, after: Bytes)
    requires input != [] && IsLineBreak(input[0])
    requires ParseLine(input[1..]) == Done(after, l)
    requires MoreLines(after).Panic?
    ensures MoreLines(input).Panic?
  {
  }

  /** Line breaks at the front are skipped, and nothing else. */
  lemma {:induction false} SkipBreaksOf(gap: Bytes, rest: Bytes)
    requires All(gap, IsLineBreak)
    requires rest == [] || !IsLineBreak(rest[0])
    ensures SkipBreaks(gap + rest) == Done(rest, gap)
  {
    if gap != [] {
      assert (gap + rest)[1..] == gap[1..] + rest;
      SkipBreaksOf(gap[1..], rest);
      assert [gap[0]] + gap[1..] == gap;
    } else {
      assert gap + rest == rest;
    }
  }

  /**
   * A legacy commit body is read as the first run of lines (the header),
   * then all the breaks after it, then the next run (the first paragraph of
   * the message); whatever follows the first blank line of the message is
   * left unparsed.
   */
  lemma LegacyCommitLayout(h: seq<Bytes>, hs: Bytes, gap: Bytes, m: seq<Bytes>, ms: Bytes, rest: Bytes)
    requires |h| == |hs| + 1 && All(hs, IsLineBreak) && forall i | 0 <= i < |h| :: IsTextLine(h[i])
    requires |gap| >= 2 && All(gap, IsLineBreak)
    requires |m| == |ms| + 1 && All(ms, IsLineBreak) && forall i | 0 <= i < |m| :: IsTextLine(m[i])
    requires EndsRun(rest)
    ensures ParseLegacyBody(Commit, Join(h, hs) + gap + Join(m, ms) + rest)
      == Done(rest, LegacyCommit(GitCommit(h, m)))
  {
    var message := Join(m, ms) + rest;
    Associative(Join(h, hs) + gap, Join(m, ms), rest);
    Associative(Join(h, hs), gap, message);
    LinesLayout(h, hs, gap + message);
    LinesLayout(m, ms, rest);
    MessageStartsWithText(m, ms, rest);
    SkipBreaksOf(gap, message);
  }

  /** A run of lines starts with a byte that is not a line break. */
  lemma MessageStartsWithText(m: seq<Bytes>, ms: Bytes, rest: Bytes)
    requires |m| == |ms| + 1 && IsTextLine(m[0])
    ensures var message := Join(m, ms) + rest;
      message != [] && !IsLineBreak(message[0])
  {
    if ms != [] {
      assert Join(m, ms) == m[0] + [ms[0]] + Join(m[1..], ms[1..]);
    }
    assert (Join(m, ms) + rest)[0] == m[0][0];
  }

  /** A legacy blob is its whole body as one string; text that is not UTF-8 aborts. */
  lemma LegacyBlobBody(body: Bytes)
    ensures ParseLegacyBody(Blob, body) == if ValidUtf8(body) then Done([], LegacyBlob(body)) else Panic
  {
  }

  /** Trees are read exactly as by `Parsers`. */
  lemma LegacyTreeLayout(blanks: Bytes, digits: Bytes, es: seq<RawTreeEntry>)
    requires All(blanks, IsMultispace)
    requires digits != [] && All(digits, IsDigit)
    requires forall i | 0 <= i < |es| :: WellFormed(es[i])
    ensures ParseLegacyObject(KindWord(Tree) + blanks + digits + [NUL] + TreeBytes(es))
      == Done([], LegacyTree(GitTree(RenderedAll(es))))
  {
    var input := KindWord(Tree) + blanks + digits + [NUL] + TreeBytes(es);
    HeaderLayout(Tree, blanks, digits, TreeBytes(es));
    LegacyAfterHeader(Tree, blanks, digits, TreeBytes(es));
    TreeEntriesInOrder(es, []);
    assert TreeBytes(es) + [] == TreeBytes(es);
  }

  /**
   * After the header the body parser for its kind takes over: the declared
   * length plays no part.
   */
  lemma LegacyAfterHeader(k: ObjectType, blanks: Bytes, digits: Bytes, body: Bytes)
    requires All(blanks, IsMultispace)
    requires digits != [] && All(digits, IsDigit)
    ensures ParseLegacyObject(KindWord(k) + blanks + digits + [NUL] + body) == ParseLegacyBody(k, body)
  {
    HeaderLayout(k, blanks, digits, body);
  }
}
