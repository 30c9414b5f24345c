/**
 * The loose-object parser of `git_parser/parsers.rs`: the decompressed object
 * `"<kind> <digits>\0<body>"` is split into its kind and body, and the body is
 * read as tree entries, as commit header and message lines, or as blob lines.
 */
module Parsers {
  import opened Nom
  import opened Text
  import opened Hex
  import opened Types

  /** "blob", "commit" and "tree" in ASCII. */
  const BLOB: Bytes := [0x62, 0x6C, 0x6F, 0x62]
  const COMMIT: Bytes := [0x63, 0x6F, 0x6D, 0x6D, 0x69, 0x74]
  const TREE: Bytes := [0x74, 0x72, 0x65, 0x65]

  /** The word that names each kind in an object header. */
  function KindWord(k: ObjectType): Bytes
  {
    match k
    case Blob => BLOB
    case Commit => COMMIT
    case Tree => TREE
  }

  predicate ProperPrefix(s: Bytes, t: Bytes) { |s| < |t| && s == t[..|s|] }

  /** The kind words start with 'b', 'c' and 't'. */
  lemma KindLetters()
    ensures |BLOB| == 4 && |COMMIT| == 6 && |TREE| == 4
    ensures BLOB[0] == 0x62 && COMMIT[0] == 0x63 && TREE[0] == 0x74
  {
  }

  /**
   * `parse_object_type`: `alt` over the streaming tags "blob", "commit" and
   * "tree"; a proper prefix of one of them asks for more input.
   */
  function ParseObjectType(input: Bytes): (r: ParseResult<ObjectType>)
    ensures r.Done? ==> input == KindWord(r.value) + r.rest
  {
    var blob := StreamingTag(BLOB, input);
    if blob.Done? then Done(blob.rest, Blob)
    else if blob.Incomplete? then Incomplete
    else
      var commit := StreamingTag(COMMIT, input);
      if commit.Done? then Done(commit.rest, Commit)
      else if commit.Incomplete? then Incomplete
      else
        var tree := StreamingTag(TREE, input);
        if tree.Done? then Done(tree.rest, Tree)
        else if tree.Incomplete? then Incomplete
        else Error
  }

  /**
   * `parse_object_length`: one or more ASCII digits followed by NUL. Digits
   * that run to the end of the input ask for more.
   */
  function ParseObjectLength(input: Bytes): (r: ParseResult<Bytes>)
    ensures r.Done? || r.Error? || r.Incomplete?
    ensures r.Done? ==> r.value != [] && All(r.value, IsDigit) && input == r.value + [NUL] + r.rest
    ensures r.Incomplete? <==> input != [] && All(input, IsDigit)
  {
    var digits := Digit1(input);
    if !digits.Done? then digits.Propagate()
    else
      var nul := Char(NUL, digits.rest);
      if !nul.Done? then nul.Propagate()
      else Done(nul.rest, digits.value)
  }

  /**
   * The header part of `parse_git_object`: the kind, optional whitespace, and
   * the length digits (returned, and then ignored by the caller).
   */
  function ParseHeader(input: Bytes): (r: ParseResult<(ObjectType, Bytes)>)
    ensures r.Done? ==> |r.rest| < |input| && r.value.1 != [] && All(r.value.1, IsDigit)
  {
    var kind := ParseObjectType(input);
    if !kind.Done? then kind.Propagate()
    else
      var blanks := Multispace0(kind.rest);
      var length := ParseObjectLength(blanks.rest);
      if !length.Done? then length.Propagate()
      else Done(length.rest, (kind.value, length.value))
  }

  /** `parse_tree_entry`: `mode SP name NUL hash`, the hash rendered as 40 hex digits. */
  function ParseTreeEntry(input: Bytes): (r: ParseResult<GitTreeEntry>)
    ensures r.Done? ==> |r.rest| + 24 <= |input|
  {
    var mode := Digit1(input);
    if !mode.Done? then mode.Propagate()
    else
      var blanks := Space1(mode.rest);
      if !blanks.Done? then blanks.Propagate()
      else
        // The mode is ASCII digits, so its `from_utf8` cannot fail (`ModeDecodes`).
        var name := IsNot({NUL}, blanks.rest);
        if !name.Done? then name.Propagate()
        else
          var nul := Char(NUL, name.rest);
          if !nul.Done? then nul.Propagate()
          else if !ValidUtf8(name.value) then Panic
          else
            var hash := Take(20, nul.rest);
            if !hash.Done? then hash.Propagate()
            else Done(hash.rest, GitTreeEntry(mode.value, name.value, HexString(hash.value)))
  }

  /** The entries of a tree body, read until one fails with `Error`. */
  function ParseTreeEntries(input: Bytes): (r: ParseResult<seq<GitTreeEntry>>)
    decreases |input|
  {
    var entry := ParseTreeEntry(input);
    if entry.Error? then Done(input, [])
    else if !entry.Done? then entry.Propagate()
    else
      var tail := ParseTreeEntries(entry.rest);
      if !tail.Done? then tail.Propagate()
      else Done(tail.rest, [entry.value] + tail.value)
  }

  predicate NoLineBreak(s: Bytes) { forall i | 0 <= i < |s| :: !IsLineBreak(s[i]) }

  /** `parse_single_line`: the text before the first CR or LF (possibly empty). */
  function ParseSingleLine(input: Bytes): (r: ParseResult<Bytes>)
    ensures r.Done? || r.Panic?
    ensures r.Done? <==> ValidUtf8(TakeTill(IsLineBreak, input).value)
    ensures r.Done? ==> input == r.value + r.rest && NoLineBreak(r.value)
    ensures r.Done? ==> r.rest == [] || IsLineBreak(r.rest[0])
  {
    var line := TakeTill(IsLineBreak, input);
    if ValidUtf8(line.value) then Done(line.rest, line.value) else Panic
  }

  /**
   * `parse_all_lines`: single lines separated by one CR or LF each.
   * The first line is always there (it may be empty).
   */
  function ParseAllLines(input: Bytes): (r: ParseResult<seq<Bytes>>)
  {
    var first := ParseSingleLine(input);
    if first.Panic? then Panic
    else
      var more := ParseMoreLines(first.rest);
      if !more.Done? then more.Propagate()
      else Done(more.rest, [first.value] + more.value)
  }

  /** The loop of `separated_list0` after the first line: a separator, then a line. */
  function ParseMoreLines(input: Bytes): (r: ParseResult<seq<Bytes>>)
    decreases |input|
  {
    var sep := OneOf({CR, LF}, input);
    if sep.Error? then Done(input, [])
    else
      var line := ParseSingleLine(sep.rest);
      if line.Panic? then Panic
      else
        var tail := ParseMoreLines(line.rest);
        if !tail.Done? then tail.Propagate()
        else Done(tail.rest, [line.value] + tail.value)
  }

  /** Each line followed by LF. */
  function TerminatedLines(ls: seq<Bytes>): Bytes
  {
    if ls == [] then [] else ls[0] + [LF] + TerminatedLines(ls[1..])
  }

  /** A commit header line as the header loop accepts it. */
  predicate IsHeaderLine(l: Bytes) { l != [] && NoLineBreak(l) && ValidUtf8(l) }

  /**
   * The header loop of a commit: LF-terminated lines until an empty line,
   * whose LF is consumed.
   */
  function ParseCommitHeader(input: Bytes): ParseResult<seq<Bytes>>
    decreases |input|
  {
    var end := Char(LF, input);
    if end.Done? then Done(end.rest, [])
    else if end.Incomplete? then Incomplete
    else
      var line := ParseSingleLine(input);
      if line.Panic? then Panic
      else
        var lf := Char(LF, line.rest);
        if !lf.Done? then lf.Propagate()
        else
          var tail := ParseCommitHeader(lf.rest);
          if !tail.Done? then tail.Propagate()
          else Done(tail.rest, [line.value] + tail.value)
  }

  /** The part of `parse_git_object` after the header, by kind. */
  function ParseObjectBody(kind: ObjectType, body: Bytes): ParseResult<GitObject>
  {
    match kind
    case Tree =>
      var entries := ParseTreeEntries(body);
      if !entries.Done? then entries.Propagate()
      else Done(entries.rest, TreeObject(GitTree(entries.value)))
    case Commit =>
      var metadata := ParseCommitHeader(body);
      if !metadata.Done? then metadata.Propagate()
      else
        var content := ParseAllLines(metadata.rest);
        if !content.Done? then content.Propagate()
        else Done(content.rest, CommitObject(GitCommit(metadata.value, content.value)))
    case Blob =>
      var content := ParseAllLines(body);
      if !content.Done? then content.Propagate()
      else Done(content.rest, BlobObject(GitBlob(content.value)))
  }

  /** `parse_git_object`: the header, then the body read according to the kind. */
  function ParseGitObject(input: Bytes): ParseResult<GitObject>
  {
    var header := ParseHeader(input);
    if !header.Done? then header.Propagate()
    else ParseObjectBody(header.value.0, header.rest)
  }

  // ---------------------------------------------------------------------
  // The object header

  /** `StreamingTag` of one kind word on the bytes of another fails. */
  lemma OtherKindIsError(a: ObjectType, b: ObjectType, x: Bytes)
    requires a != b
    ensures StreamingTag(KindWord(a), KindWord(b) + x).Error?
  {
    KindLetters();
    assert (KindWord(b) + x)[0] == KindWord(b)[0];
  }

  /** The kind word is recognised and the remainder starts right after it. */
  lemma ObjectTypeOf(k: ObjectType, x: Bytes)
    ensures ParseObjectType(KindWord(k) + x) == Done(x, k)
  {
    var s := KindWord(k) + x;
    assert s[..|KindWord(k)|] == KindWord(k) && s[|KindWord(k)|..] == x;
    match k
    case Blob =>
    case Commit => OtherKindIsError(Blob, Commit, x);
    case Tree => OtherKindIsError(Blob, Tree, x); OtherKindIsError(Commit, Tree, x);
  }

  lemma Regroup(a: Bytes, b: Bytes, c: Bytes, x: uint8, d: Bytes)
    ensures a + (b + (c + [x] + d)) == a + b + c + [x] + d
  {
  }

  /**
   * The kind is recognised when the input starts with one of the three words,
   * more input is asked for when the input is a proper prefix of one, and
   * anything else is a recoverable error.
   */
  lemma ObjectTypeOutcomes(input: Bytes)
    ensures var r := ParseObjectType(input);
      && (r.Done? || r.Error? || r.Incomplete?)
      && (r.Done? <==> StartsWith(input, BLOB) || StartsWith(input, COMMIT) || StartsWith(input, TREE))
      && (r.Incomplete? <==> ProperPrefix(input, BLOB) || ProperPrefix(input, COMMIT) || ProperPrefix(input, TREE))
  {
    KindLetters();
    if input != [] {
      assert StartsWith(input, BLOB) || ProperPrefix(input, BLOB) ==> input[0] == BLOB[0];
      assert StartsWith(input, COMMIT) || ProperPrefix(input, COMMIT) ==> input[0] == COMMIT[0];
      assert StartsWith(input, TREE) || ProperPrefix(input, TREE) ==> input[0] == TREE[0];
    }
  }

  /** The length digits up to the NUL. */
  lemma ObjectLengthOf(digits: Bytes, body: Bytes)
    requires digits != [] && All(digits, IsDigit)
    ensures ParseObjectLength(digits + [NUL] + body) == Done(body, digits)
  {
    var afterDigits := [NUL] + body;
    assert digits + [NUL] + body == digits + afterDigits;
    SplitWhile1Of(IsDigit, digits, afterDigits);
    assert Digit1(digits + afterDigits) == Done(afterDigits, digits);
    assert Char(NUL, afterDigits) == Done(body, NUL);
  }

  /**
   * A header `kind blanks digits NUL` is read as the kind and the digits, and
   * the body is everything after the NUL.
   */
  lemma HeaderLayout(k: ObjectType, blanks: Bytes, digits: Bytes, body: Bytes)
    requires All(blanks, IsMultispace)
    requires digits != [] && All(digits, IsDigit)
    ensures ParseHeader(KindWord(k) + blanks + digits + [NUL] + body) == Done(body, (k, digits))
  {
    var afterBlanks := digits + [NUL] + body;
    var afterKind := blanks + afterBlanks;
    assert KindWord(k) + blanks + digits + [NUL] + body == KindWord(k) + afterKind;
    ObjectTypeOf(k, afterKind);
    assert afterBlanks[0] == digits[0];
    SplitWhileOf(IsMultispace, blanks, afterBlanks);
    assert Multispace0(afterKind) == Done(afterBlanks, blanks);
    ObjectLengthOf(digits, body);
  }

  /** Every header the parser accepts has the layout of `HeaderLayout`. */
  lemma HeaderSound(input: Bytes) returns (blanks: Bytes)
    requires ParseHeader(input).Done?
    ensures var r := ParseHeader(input);
      All(blanks, IsMultispace) && input == KindWord(r.value.0) + blanks + r.value.1 + [NUL] + r.rest
  {
    var kind := ParseObjectType(input);
    var gap := Multispace0(kind.rest);
    var length := ParseObjectLength(gap.rest);
    assert ParseHeader(input) == Done(length.rest, (kind.value, length.value));
    var word := KindWord(kind.value);
    StartsWithSplit(input, word);
    assert input == word + (gap.value + (length.value + [NUL] + length.rest));
    Regroup(word, gap.value, length.value, NUL, length.rest);
    blanks := gap.value;
  }

  /** Digits that run to the end of the input ask for more. */
  lemma HeaderTruncated(k: ObjectType, blanks: Bytes, digits: Bytes)
    requires All(blanks, IsMultispace)
    requires digits != [] && All(digits, IsDigit)
    ensures ParseGitObject(KindWord(k) + blanks + digits).Incomplete?
  {
    ObjectTypeOf(k, blanks + digits);
    assert KindWord(k) + blanks + digits == KindWord(k) + (blanks + digits);
    SplitWhileOf(IsMultispace, blanks, digits);
  }

  /**
   * A header with no length digit after the kind word and its blanks is an
   * error, not a request for more input: `digit1` is the complete version.
   */
  lemma HeaderWithoutDigits(k: ObjectType, blanks: Bytes, x: Bytes)
    requires All(blanks, IsMultispace)
    requires x == [] || (!IsDigit(x[0]) && !IsMultispace(x[0]))
    ensures ParseGitObject(KindWord(k) + blanks + x).Error?
  {
    ObjectTypeOf(k, blanks + x);
    assert KindWord(k) + blanks + x == KindWord(k) + (blanks + x);
    SplitWhileOf(IsMultispace, blanks, x);
  }

  /**
   * The declared length is not checked against the body: the body is read
   * according to the kind alone, whatever the digits say.
   */
  lemma DeclaredLengthIgnored(k: ObjectType, blanks: Bytes, digits: Bytes, body: Bytes)
    requires All(blanks, IsMultispace)
    requires digits != [] && All(digits, IsDigit)
    ensures ParseGitObject(KindWord(k) + blanks + digits + [NUL] + body) == ParseObjectBody(k, body)
  {
    HeaderLayout(k, blanks, digits, body);
  }

  // ---------------------------------------------------------------------
  // Tree entries

  /** The bytes of one tree entry as they are laid out in a tree object. */
  datatype RawTreeEntry = RawTreeEntry(mode: Bytes, gap: Bytes, name: Bytes, hash: Bytes)

  predicate NoNul(s: Bytes) { forall i | 0 <= i < |s| :: s[i] != NUL }

  /**
   * An entry the parser reads as written: digits, blanks, a UTF-8 name that
   * does not start with a blank, NUL, and 20 hash bytes.
   */
  predicate WellFormed(e: RawTreeEntry)
  {
    && e.mode != [] && All(e.mode, IsDigit)
    && e.gap != [] && All(e.gap, IsSpace)
    && e.name != [] && !IsSpace(e.name[0]) && NoNul(e.name) && ValidUtf8(e.name)
    && |e.hash| == 20
  }

  function EntryBytes(e: RawTreeEntry): Bytes
  {
    e.mode + e.gap + e.name + [NUL] + e.hash
  }

  /** The entry as the parser reports it: the hash becomes 40 hex digits. */
  function Rendered(e: RawTreeEntry): GitTreeEntry
  {
    GitTreeEntry(e.mode, e.name, HexString(e.hash))
  }

  lemma RegroupEntry(a: Bytes, b: Bytes, c: Bytes, x: uint8, d: Bytes, f: Bytes)
    ensures a + (b + (c + ([x] + (d + f)))) == a + b + c + [x] + d + f
  {
  }

  /** One well-formed entry is read whole, and nothing after it is touched. */
  lemma TreeEntryLayout(e: RawTreeEntry, rest: Bytes)
    requires WellFormed(e)
    ensures ParseTreeEntry(EntryBytes(e) + rest) == Done(rest, Rendered(e))
  {
    var tail := e.hash + rest;
    var afterName := [NUL] + tail;
    var afterMode := e.gap + (e.name + afterName);
    assert EntryBytes(e) + rest == e.mode + afterMode;
    SplitWhile1Of(IsDigit, e.mode, afterMode);
    SplitWhile1Of(IsSpace, e.gap, e.name + afterName);
    IsNotOf({NUL}, e.name, afterName);
    assert tail[..20] == e.hash && tail[20..] == rest;
  }

  /** Each step of an accepted entry succeeds. */
  lemma TreeEntrySteps(input: Bytes)
    requires ParseTreeEntry(input).Done?
    ensures
      var mode := Digit1(input);
      var blanks := Space1(mode.rest);
      var name := IsNot({NUL}, blanks.rest);
      var nul := Char(NUL, name.rest);
      var hash := Take(20, nul.rest);
      mode.Done? && blanks.Done? && name.Done? && nul.Done? && ValidUtf8(name.value) && hash.Done?
  {
  }

  /**
   * Every entry the parser accepts is a well-formed entry followed by the
   * remainder, reported as `Rendered`.
   */
  lemma TreeEntrySound(input: Bytes) returns (e: RawTreeEntry)
    requires ParseTreeEntry(input).Done?
    ensures var r := ParseTreeEntry(input);
      WellFormed(e) && input == EntryBytes(e) + r.rest && r.value == Rendered(e)
  {
    TreeEntrySteps(input);
    var mode := Digit1(input);
    var blanks := Space1(mode.rest);
    var name := IsNot({NUL}, blanks.rest);
    var nul := Char(NUL, name.rest);
    var hash := Take(20, nul.rest);
    EntryPieces(input, mode, blanks, name, nul, hash);
    e := RawTreeEntry(mode.value, blanks.value, name.value, hash.value);
    assert name.value[0] == blanks.rest[0];
  }

  /** A mode is ASCII digits, so decoding it as UTF-8 never aborts. */
  lemma ModeDecodes(input: Bytes)
    requires Digit1(input).Done?
    ensures ValidUtf8(Digit1(input).value)
  {
    var mode := Digit1(input).value;
    assert All(mode, IsAscii) by {
      forall i | 0 <= i < |mode| ensures IsAscii(mode[i]) {
        assert IsDigit(mode[i]);
      }
    }
    AsciiIsUtf8(mode);
  }

  /** The pieces of an accepted entry put back together give its bytes. */
  lemma EntryPieces(input: Bytes, mode: ParseResult<Bytes>, blanks: ParseResult<Bytes>,
                    name: ParseResult<Bytes>, nul: ParseResult<uint8>, hash: ParseResult<Bytes>)
    requires mode == Digit1(input) && mode.Done?
    requires blanks == Space1(mode.rest) && blanks.Done?
    requires name == IsNot({NUL}, blanks.rest) && name.Done?
    requires nul == Char(NUL, name.rest) && nul.Done?
    requires hash == Take(20, nul.rest) && hash.Done?
    ensures input == mode.value + blanks.value + name.value + [NUL] + hash.value + hash.rest
  {
    assert name.rest == [NUL] + nul.rest by {
      assert name.rest == [name.rest[0]] + name.rest[1..];
    }
    Reassemble(input, mode.value, mode.rest, blanks.value, blanks.rest, name.value, name.rest, nul.rest, hash.value, hash.rest);
  }

  lemma Reassemble(input: Bytes, a: Bytes, ar: Bytes, b: Bytes, br: Bytes, c: Bytes, cr: Bytes, nr: Bytes, d: Bytes, dr: Bytes)
    requires input == a + ar && ar == b + br && br == c + cr && cr == [NUL] + nr && nr == d + dr
    ensures input == a + b + c + [NUL] + d + dr
  {
    RegroupEntry(a, b, c, NUL, d, dr);
  }

  /** Blanks at the start of a file name are taken as part of the gap before it. */
  lemma TreeEntryNameLosesLeadingBlanks(e: RawTreeEntry, blank: uint8, rest: Bytes)
    requires WellFormed(e) && IsSpace(blank)
    ensures ParseTreeEntry(e.mode + e.gap + [blank] + e.name + [NUL] + e.hash + rest) == Done(rest, Rendered(e))
  {
    var e' := RawTreeEntry(e.mode, e.gap + [blank], e.name, e.hash);
    assert e.mode + e.gap + [blank] + e.name + [NUL] + e.hash + rest == EntryBytes(e') + rest;
    TreeEntryLayout(e', rest);
  }

  /** A NUL right after the gap (an empty file name) is a recoverable error. */
  lemma TreeEntryEmptyName(mode: Bytes, gap: Bytes, rest: Bytes)
    requires mode != [] && All(mode, IsDigit) && gap != [] && All(gap, IsSpace)
    ensures ParseTreeEntry(mode + gap + [NUL] + rest).Error?
  {
    var afterMode := gap + ([NUL] + rest);
    assert mode + gap + [NUL] + rest == mode + afterMode;
    SplitWhile1Of(IsDigit, mode, afterMode);
    SplitWhile1Of(IsSpace, gap, [NUL] + rest);
  }

  /** A name with no NUL after it asks for more input. */
  lemma TreeEntryNoNul(mode: Bytes, gap: Bytes, name: Bytes)
    requires mode != [] && All(mode, IsDigit) && gap != [] && All(gap, IsSpace)
    requires name != [] && !IsSpace(name[0]) && NoNul(name)
    ensures ParseTreeEntry(mode + gap + name).Incomplete?
  {
    var afterMode := gap + name;
    assert mode + gap + name == mode + afterMode;
    SplitWhile1Of(IsDigit, mode, afterMode);
    SplitWhile1Of(IsSpace, gap, name);
    IsNotOf({NUL}, name, []);
    assert name + [] == name;
  }

  /**
   * A name that is not UTF-8 aborts the program (before the hash is read);
   * a hash shorter than 20 bytes asks for more input.
   */
  lemma TreeEntryNameOrHashBad(e: RawTreeEntry)
    requires e.mode != [] && All(e.mode, IsDigit) && e.gap != [] && All(e.gap, IsSpace)
    requires e.name != [] && !IsSpace(e.name[0]) && NoNul(e.name)
    requires !ValidUtf8(e.name) || |e.hash| < 20
    ensures !ValidUtf8(e.name) ==> ParseTreeEntry(EntryBytes(e)).Panic?
    ensures ValidUtf8(e.name) ==> ParseTreeEntry(EntryBytes(e)).Incomplete?
  {
    var afterName := [NUL] + e.hash;
    var afterMode := e.gap + (e.name + afterName);
    assert EntryBytes(e) == e.mode + afterMode;
    SplitWhile1Of(IsDigit, e.mode, afterMode);
    SplitWhile1Of(IsSpace, e.gap, e.name + afterName);
    IsNotOf({NUL}, e.name, afterName);
  }

  function TreeBytes(es: seq<RawTreeEntry>): Bytes
  {
    if es == [] then [] else EntryBytes(es[0]) + TreeBytes(es[1..])
  }

  function RenderedAll(es: seq<RawTreeEntry>): seq<GitTreeEntry>
  {
    if es == [] then [] else [Rendered(es[0])] + RenderedAll(es[1..])
  }

  /**
   * Well-formed entries are read one after another, in order, up to the
   * first point where an entry fails with a recoverable error (in particular
   * the end of the body).
   */
  lemma {:induction false} TreeEntriesInOrder(es: seq<RawTreeEntry>, rest: Bytes)
    requires forall i | 0 <= i < |es| :: WellFormed(es[i])
    requires ParseTreeEntry(rest).Error?
    ensures ParseTreeEntries(TreeBytes(es) + rest) == Done(rest, RenderedAll(es))
  {
    if es == [] {
      assert TreeBytes(es) + rest == rest;
      TreeEntriesEnd(rest);
    } else {
      var tail := TreeBytes(es[1..]) + rest;
      TreeEntriesInOrder(es[1..], rest);
      TreeEntryLayout(es[0], tail);
      Associative(EntryBytes(es[0]), TreeBytes(es[1..]), rest);
      TreeEntriesCons(EntryBytes(es[0]) + tail, tail, Rendered(es[0]), rest, RenderedAll(es[1..]));
    }
  }

  /** `many0` stops, consuming nothing, where an entry fails with `Error`. */
  lemma TreeEntriesEnd(rest: Bytes)
    requires ParseTreeEntry(rest).Error?
    ensures ParseTreeEntries(rest) == Done(rest, [])
  {
  }

  lemma Associative(a: Bytes, b: Bytes, c: Bytes)
    ensures a + b + c == a + (b + c)
  {
  }

  /** One step of `many0`: an entry, then the entries after it. */
  lemma TreeEntriesCons(input: Bytes, tail: Bytes, entry: GitTreeEntry, rest: Bytes, entries: seq<GitTreeEntry>)
    requires ParseTreeEntry(input) == Done(tail, entry)
    requires ParseTreeEntries(tail) == Done(rest, entries)
    ensures ParseTreeEntries(input) == Done(rest, [entry] + entries)
  {
  }

  /**
   * A truncated entry or a name that is not UTF-8 after any number of good
   * entries is not a recoverable error: the whole list fails the same way
   * and the entries already read are lost.
   */
  lemma {:induction false} TreeEntriesAbort(es: seq<RawTreeEntry>, rest: Bytes)
    requires forall i | 0 <= i < |es| :: WellFormed(es[i])
    requires ParseTreeEntry(rest) == Incomplete || ParseTreeEntry(rest) == Panic
    ensures ParseTreeEntries(TreeBytes(es) + rest) == ParseTreeEntry(rest).Propagate()
  {
    if es == [] {
      assert TreeBytes(es) + rest == rest;
    } else {
      TreeEntriesAbort(es[1..], rest);
      TreeEntriesAbortStep(es, rest);
    }
  }

  /** A failure after the first entry is the failure of the whole list. */
  lemma TreeEntriesAbortStep(es: seq<RawTreeEntry>, rest: Bytes)
    requires es != [] && WellFormed(es[0])
    requires ParseTreeEntries(TreeBytes(es[1..]) + rest) == Incomplete
          || ParseTreeEntries(TreeBytes(es[1..]) + rest) == Panic
    ensures ParseTreeEntries(TreeBytes(es) + rest) == ParseTreeEntries(TreeBytes(es[1..]) + rest)
  {
    var tail := TreeBytes(es[1..]) + rest;
    TreeEntryLayout(es[0], tail);
    Associative(EntryBytes(es[0]), TreeBytes(es[1..]), rest);
    TreeEntriesFailCons(EntryBytes(es[0]) + tail, tail, Rendered(es[0]));
  }

  /** A failure after a good entry is passed on unchanged. */
  lemma TreeEntriesFailCons(input: Bytes, tail: Bytes, entry: GitTreeEntry)
    requires ParseTreeEntry(input) == Done(tail, entry)
    requires ParseTreeEntries(tail) == Incomplete || ParseTreeEntries(tail) == Panic
    ensures ParseTreeEntries(input) == ParseTreeEntries(tail)
  {
  }

  /** A whole tree object of well-formed entries, the empty tree included. */
  lemma TreeObjectLayout(blanks: Bytes, digits: Bytes, es: seq<RawTreeEntry>)
    requires All(blanks, IsMultispace)
    requires digits != [] && All(digits, IsDigit)
    requires forall i | 0 <= i < |es| :: WellFormed(es[i])
    ensures ParseGitObject(KindWord(Tree) + blanks + digits + [NUL] + TreeBytes(es))
      == Done([], TreeObject(GitTree(RenderedAll(es))))
  {
    DeclaredLengthIgnored(Tree, blanks, digits, TreeBytes(es));
    TreeBodyLayout(es);
  }

  /** The body of a tree object is read entry by entry to its end. */
  lemma TreeBodyLayout(es: seq<RawTreeEntry>)
    requires forall i | 0 <= i < |es| :: WellFormed(es[i])
    ensures ParseObjectBody(Tree, TreeBytes(es)) == Done([], TreeObject(GitTree(RenderedAll(es))))
  {
    EmptyIsNoEntry();
    TreeEntriesInOrder(es, []);
    assert TreeBytes(es) + [] == TreeBytes(es);
  }

  lemma EmptyIsNoEntry()
    ensures ParseTreeEntry([]).Error?
  {
  }

  // ---------------------------------------------------------------------
  // Lines of commit and blob bodies

  /**
   * The pieces of `s` between single CR or LF bytes: every CR and every LF
   * ends a line, so CRLF leaves an empty line between the two bytes.
   */
  function SplitLines(s: Bytes): (r: seq<Bytes>)
    ensures |r| >= 1
  {
    if s == [] then [[]]
    else if IsLineBreak(s[0]) then [[]] + SplitLines(s[1..])
    else
      var t := SplitLines(s[1..]);
      [[s[0]] + t[0]] + t[1..]
  }

  /** The CR and LF bytes of `s`, in order. */
  function Breaks(s: Bytes): (r: Bytes)
    ensures All(r, IsLineBreak)
  {
    if s == [] then []
    else if IsLineBreak(s[0]) then [s[0]] + Breaks(s[1..])
    else Breaks(s[1..])
  }

  /** The lines put back together, `seps[i]` between lines `i` and `i + 1`. */
  function Join(ls: seq<Bytes>, seps: Bytes): Bytes
    requires |ls| == |seps| + 1
  {
    if seps == [] then ls[0] else ls[0] + [seps[0]] + Join(ls[1..], seps[1..])
  }

  lemma JoinPrepend(x: uint8, ls: seq<Bytes>, seps: Bytes)
    requires |ls| == |seps| + 1
    ensures Join([[x] + ls[0]] + ls[1..], seps) == [x] + Join(ls, seps)
  {
    var ls' := [[x] + ls[0]] + ls[1..];
    assert ls'[1..] == ls[1..];
  }

  /**
   * `SplitLines` cuts `s` at exactly its line breaks: no line holds a CR or
   * LF, and joining the lines with the breaks gives `s` back.
   */
  lemma {:induction false} SplitLinesJoin(s: Bytes)
    ensures |SplitLines(s)| == |Breaks(s)| + 1
    ensures forall i | 0 <= i < |SplitLines(s)| :: NoLineBreak(SplitLines(s)[i])
    ensures Join(SplitLines(s), Breaks(s)) == s
  {
    if s != [] {
      SplitLinesJoin(s[1..]);
      var t := SplitLines(s[1..]);
      if IsLineBreak(s[0]) {
        assert SplitLines(s)[1..] == t;
        assert s == [] + [s[0]] + s[1..];
      } else {
        JoinPrepend(s[0], t, Breaks(s[1..]));
        assert s == [s[0]] + s[1..];
        forall i | 0 <= i < |SplitLines(s)|
          ensures NoLineBreak(SplitLines(s)[i])
        {
          if i > 0 {
            assert SplitLines(s)[i] == t[i];
          }
        }
      }
    }
  }

  /** A line with no break in it followed by a break (or the end). */
  lemma {:induction false} SplitLinesAt(a: Bytes, b: Bytes)
    requires NoLineBreak(a)
    requires b == [] || IsLineBreak(b[0])
    ensures SplitLines(a + b) == [a] + SplitLines(b)[1..]
  {
    if a == [] {
      assert a + b == b;
      if b != [] {
        assert SplitLines(b)[1..] == SplitLines(b[1..]);
      }
    } else {
      assert (a + b)[1..] == a[1..] + b;
      SplitLinesAt(a[1..], b);
      assert [a[0]] + a[1..] == a;
    }
  }

  /** CRLF ends a line and leaves an empty line after it. */
  lemma CrLfGivesEmptyLine(a: Bytes, b: Bytes)
    requires NoLineBreak(a)
    ensures SplitLines(a + [CR, LF] + b) == [a, []] + SplitLines(b)
  {
    var crlf := [CR, LF] + b;
    assert a + [CR, LF] + b == a + crlf;
    SplitLinesAt(a, crlf);
    assert crlf[1..] == [LF] + b;
    assert SplitLines(crlf)[1..] == SplitLines([LF] + b);
    assert ([LF] + b)[1..] == b;
  }

  /** Every line is valid UTF-8. */
  predicate AllValid(ls: seq<Bytes>) { forall i | 0 <= i < |ls| :: ValidUtf8(ls[i]) }

  /** The separator loop after a line break is the line parser again. */
  lemma MoreLinesAfterBreak(b: Bytes)
    requires b != [] && IsLineBreak(b[0])
    ensures ParseMoreLines(b) == ParseAllLines(b[1..])
  {
  }

  /**
   * `parse_all_lines` reads the whole input as its lines, and aborts when one
   * of them is not UTF-8.
   */
  lemma {:induction false} AllLinesSpec(s: Bytes)
    ensures ParseAllLines(s) == if AllValid(SplitLines(s)) then Done([], SplitLines(s)) else Panic
    decreases |s|
  {
    var first := TakeTill(IsLineBreak, s);
    var a, b := first.value, first.rest;
    SplitLinesAt(a, b);
    if !ValidUtf8(a) {
      assert SplitLines(s)[0] == a;
    } else if b == [] {
      assert SplitLines(s) == [a];
    } else {
      AllLinesSpec(b[1..]);
      AllLinesCons(s, a, b);
    }
  }

  /** The first line, then the lines after the break that ends it. */
  lemma AllLinesCons(s: Bytes, a: Bytes, b: Bytes)
    requires TakeTill(IsLineBreak, s) == Done(b, a) && ValidUtf8(a) && b != []
    requires SplitLines(s) == [a] + SplitLines(b)[1..]
    requires ParseAllLines(b[1..])
      == if AllValid(SplitLines(b[1..])) then Done([], SplitLines(b[1..])) else Panic
    ensures ParseAllLines(s) == if AllValid(SplitLines(s)) then Done([], SplitLines(s)) else Panic
  {
    MoreLinesAfterBreak(b);
    var rest := SplitLines(b[1..]);
    assert SplitLines(b)[1..] == rest;
    AllValidCons(a, rest);
  }

  lemma AllValidCons(a: Bytes, rest: seq<Bytes>)
    ensures AllValid([a] + rest) <==> ValidUtf8(a) && AllValid(rest)
  {
    if ValidUtf8(a) && AllValid(rest) {
      forall i | 0 <= i < |rest| + 1
        ensures ValidUtf8(([a] + rest)[i])
      {
        if i > 0 {
          assert ([a] + rest)[i] == rest[i - 1];
        }
      }
    }
    if AllValid([a] + rest) {
      assert ValidUtf8(([a] + rest)[0]);
      forall i | 0 <= i < |rest|
        ensures ValidUtf8(rest[i])
      {
        assert ([a] + rest)[i + 1] == rest[i];
      }
    }
  }

  // ---------------------------------------------------------------------
  // Commit and blob objects

  /**
   * What the header loop returns is what it read: non-empty UTF-8 lines, each
   * ended by LF, then the empty line.
   */
  lemma {:induction false} CommitHeaderSound(input: Bytes)
    requires ParseCommitHeader(input).Done?
    ensures input == TerminatedLines(ParseCommitHeader(input).value) + [LF] + ParseCommitHeader(input).rest
    ensures forall i | 0 <= i < |ParseCommitHeader(input).value| :: IsHeaderLine(ParseCommitHeader(input).value[i])
    decreases |input|
  {
    var end := Char(LF, input);
    if end.Done? {
      assert input == [LF] + end.rest;
    } else {
      var line := ParseSingleLine(input);
      var lf := Char(LF, line.rest);
      var tail := ParseCommitHeader(lf.rest);
      CommitHeaderSound(lf.rest);
      var ls := [line.value] + tail.value;
      assert ls[1..] == tail.value;
      assert line.rest == [LF] + lf.rest;
      TerminatedSplit(line.value, TerminatedLines(tail.value), tail.rest, input, lf.rest);
      forall i | 0 <= i < |ls|
        ensures IsHeaderLine(ls[i])
      {
        if i > 0 {
          assert ls[i] == tail.value[i - 1];
        }
      }
    }
  }

  lemma TerminatedSplit(l: Bytes, t: Bytes, rest: Bytes, input: Bytes, after: Bytes)
    requires input == l + ([LF] + after) && after == t + [LF] + rest
    ensures input == l + [LF] + t + [LF] + rest
  {
  }

  /** LF-terminated header lines, then the empty line, are read back as they were written. */
  lemma {:induction false} CommitHeaderLayout(ls: seq<Bytes>, rest: Bytes)
    requires forall i | 0 <= i < |ls| :: IsHeaderLine(ls[i])
    ensures ParseCommitHeader(TerminatedLines(ls) + [LF] + rest) == Done(rest, ls)
  {
    if ls == [] {
      assert TerminatedLines(ls) + [LF] + rest == [LF] + rest;
    } else {
      var tail := TerminatedLines(ls[1..]) + [LF] + rest;
      CommitHeaderLayout(ls[1..], rest);
      HeaderLineStep(ls[0], tail);
      TerminatedRegroup(ls[0], TerminatedLines(ls[1..]), rest);
      CommitHeaderCons(ls[0] + [LF] + tail, ls[0], tail, rest, ls[1..]);
      assert [ls[0]] + ls[1..] == ls;
    }
  }

  lemma TerminatedRegroup(l: Bytes, t: Bytes, rest: Bytes)
    ensures l + [LF] + t + [LF] + rest == l + [LF] + (t + [LF] + rest)
  {
  }

  /** One round of `many_till`: the terminator fails with `Error`, then a line is read. */
  lemma CommitHeaderCons(input: Bytes, l: Bytes, tail: Bytes, rest: Bytes, ls: seq<Bytes>)
    requires Char(LF, input).Error?
    requires ParseSingleLine(input) == Done([LF] + tail, l)
    requires ParseCommitHeader(tail) == Done(rest, ls)
    ensures ParseCommitHeader(input) == Done(rest, [l] + ls)
  {
  }

  /** One header line, its LF, and whatever follows. */
  lemma HeaderLineStep(l: Bytes, tail: Bytes)
    requires IsHeaderLine(l)
    ensures var s := l + [LF] + tail;
      && Char(LF, s).Error?
      && ParseSingleLine(s) == Done([LF] + tail, l)
  {
    var s := l + [LF] + tail;
    assert s == l + ([LF] + tail);
    TakeTillOf(IsLineBreak, l, [LF] + tail);
  }

  /**
   * A header line ended by CRLF stops the header loop with an error: the line
   * parser stops at the CR, and an LF is expected there.
   */
  lemma CommitHeaderCrLf(l: Bytes, rest: Bytes)
    requires IsHeaderLine(l)
    ensures ParseCommitHeader(l + [CR, LF] + rest).Error?
  {
    var s := l + [CR, LF] + rest;
    assert s == l + ([CR, LF] + rest);
    TakeTillOf(IsLineBreak, l, [CR, LF] + rest);
  }

  /** A header with no empty line after it asks for more input. */
  lemma {:induction false} CommitHeaderUnterminated(ls: seq<Bytes>)
    requires forall i | 0 <= i < |ls| :: IsHeaderLine(ls[i])
    ensures ParseCommitHeader(TerminatedLines(ls)).Incomplete?
  {
    if ls != [] {
      CommitHeaderUnterminated(ls[1..]);
      HeaderLineStep(ls[0], TerminatedLines(ls[1..]));
    }
  }

  /** A header whose last line has no LF at all also asks for more input. */
  lemma {:induction false} CommitHeaderLastLineOpen(ls: seq<Bytes>, l: Bytes)
    requires forall i | 0 <= i < |ls| :: IsHeaderLine(ls[i])
    requires IsHeaderLine(l)
    ensures ParseCommitHeader(TerminatedLines(ls) + l).Incomplete?
  {
    if ls == [] {
      assert TerminatedLines(ls) + l == l + [];
      TakeTillOf(IsLineBreak, l, []);
    } else {
      var tail := TerminatedLines(ls[1..]) + l;
      CommitHeaderLastLineOpen(ls[1..], l);
      TerminatedThen(ls, l);
      HeaderIncompleteCons(ls[0], tail);
    }
  }

  lemma TerminatedThen(ls: seq<Bytes>, l: Bytes)
    requires ls != []
    ensures TerminatedLines(ls) + l == ls[0] + [LF] + (TerminatedLines(ls[1..]) + l)
  {
  }

  /** A header line in front of a header that asks for more input still asks for more. */
  lemma HeaderIncompleteCons(l: Bytes, tail: Bytes)
    requires IsHeaderLine(l) && ParseCommitHeader(tail).Incomplete?
    ensures ParseCommitHeader(l + [LF] + tail).Incomplete?
  {
    HeaderLineStep(l, tail);
  }

  /**
   * A commit body is its header lines, the empty line, and the message lines,
   * the message read as by `AllLinesSpec`.
   */
  lemma CommitBodyLayout(ls: seq<Bytes>, message: Bytes)
    requires forall i | 0 <= i < |ls| :: IsHeaderLine(ls[i])
    ensures ParseObjectBody(Commit, TerminatedLines(ls) + [LF] + message)
      == if AllValid(SplitLines(message)) then Done([], CommitObject(GitCommit(ls, SplitLines(message)))) else Panic
  {
    CommitHeaderLayout(ls, message);
    AllLinesSpec(message);
  }

  /** A blob is all of its body, read as lines. */
  lemma BlobBody(body: Bytes)
    ensures ParseObjectBody(Blob, body)
      == if AllValid(SplitLines(body)) then Done([], BlobObject(GitBlob(SplitLines(body)))) else Panic
  {
    AllLinesSpec(body);
  }
}
