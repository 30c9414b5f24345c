/**
 * The structured commit parser of `git_parser/commit/mod.rs`: a commit body
 * is read field by field (tree, up to three parents, author, committer, an
 * optional signature) and the rest is the message. Every combinator used
 * here is nom's "complete" variant, so a parse never asks for more input.
 */
module CommitParser {
  import opened Nom
  import opened Text
  import opened Parsers

  /** A user line: name (trimmed), email and timestamp, as text. */
  datatype GitUser = GitUser(name: Bytes, email: Bytes, timestamp: Bytes)

  datatype GitCommitEntry = GitCommitEntry(
    tree: Bytes,
    parent: Option<Bytes>,
    author: GitUser,
    committer: GitUser,
    gpgsig: Option<Bytes>,
    message: Bytes)

  const LT: uint8 := 0x3C
  const GT: uint8 := 0x3E

  const TREE_TAG: Bytes := Ascii("tree ")
  const PARENT_TAG: Bytes := Ascii("parent ")
  const AUTHOR_TAG: Bytes := Ascii("author ")
  const COMMITTER_TAG: Bytes := Ascii("committer ")
  const SIG_BEGIN: Bytes := Ascii("gpgsig -----BEGIN PGP SIGNATURE-----")
  const SIG_END: Bytes := Ascii("-----END PGP SIGNATURE-----")

  predicate IsLt(b: uint8) { b == LT }
  predicate IsGt(b: uint8) { b == GT }
  predicate IsLf(b: uint8) { b == LF }

  /** `parse_tree`: "tree " and the rest of the line. */
  function ParseTree(input: Bytes): (r: ParseResult<Bytes>)
    ensures r.Done? || r.Error? || r.Panic?
    ensures r.Error? <==> !StartsWith(input, TREE_TAG)
  {
    var tag := CompleteTag(TREE_TAG, input);
    if !tag.Done? then tag.Propagate()
    else ParseSingleLine(tag.rest)
  }

  /** `parse_parent`: "parent " and the rest of the line. */
  function ParseParent(input: Bytes): (r: ParseResult<Bytes>)
    ensures r.Done? || r.Error? || r.Panic?
    ensures r.Error? <==> !StartsWith(input, PARENT_TAG)
  {
    var tag := CompleteTag(PARENT_TAG, input);
    if !tag.Done? then tag.Propagate()
    else ParseSingleLine(tag.rest)
  }

  /**
   * `parse_user`: the name up to '<', the email between '<' and '>', then
   * "> " and the timestamp up to LF. The three texts are converted (and the
   * name trimmed) only after all of them have been found.
   */
  function ParseUser(input: Bytes): (r: ParseResult<GitUser>)
    ensures r.Done? || r.Error? || r.Panic?
  {
    var name := TakeTill(IsLt, input);
    var open := CompleteTag([LT], name.rest);
    if !open.Done? then open.Propagate()
    else
      var email := TakeTill(IsGt, open.rest);
      var close := CompleteTag([GT, SPACE], email.rest);
      if !close.Done? then close.Propagate()
      else
        var timestamp := TakeTill(IsLf, close.rest);
        if !ValidUtf8(name.value) || !ValidUtf8(email.value) || !ValidUtf8(timestamp.value) then Panic
        else Done(timestamp.rest, GitUser(Trim(name.value), email.value, timestamp.value))
  }

  /** `parse_author`: "author " and a user. */
  function ParseAuthor(input: Bytes): (r: ParseResult<GitUser>)
    ensures !StartsWith(input, AUTHOR_TAG) ==> r.Error?
  {
    var tag := CompleteTag(AUTHOR_TAG, input);
    if !tag.Done? then tag.Propagate()
    else ParseUser(tag.rest)
  }

  /** `parse_committer`: "committer " and a user. */
  function ParseCommitter(input: Bytes): (r: ParseResult<GitUser>)
    ensures !StartsWith(input, COMMITTER_TAG) ==> r.Error?
  {
    var tag := CompleteTag(COMMITTER_TAG, input);
    if !tag.Done? then tag.Propagate()
    else ParseUser(tag.rest)
  }

  /** `parse_gpgsig`: the raw bytes between the two signature markers. */
  function ParseGpgsig(input: Bytes): (r: ParseResult<Bytes>)
    ensures r.Done? || r.Error?
  {
    var begin := CompleteTag(SIG_BEGIN, input);
    if !begin.Done? then begin.Propagate()
    else
      var body := TakeUntil(SIG_END, begin.rest);
      if !body.Done? then body.Propagate()
      else
        var end := CompleteTag(SIG_END, body.rest);
        if !end.Done? then end.Propagate()
        else Done(end.rest, body.value)
  }

  /** The tree line: the tree field, then a line ending (LF or CRLF). */
  function TreeLine(input: Bytes): ParseResult<Bytes>
  {
    var tree := ParseTree(input);
    if !tree.Done? then tree.Propagate()
    else
      var eol := LineEnding(tree.rest);
      if !eol.Done? then eol.Propagate()
      else Done(eol.rest, tree.value)
  }

  /** An optional parent line: none, consuming nothing, when the field or its line ending fails recoverably. */
  function OptParentLine(input: Bytes): (r: ParseResult<Option<Bytes>>)
    ensures r.Done? ==> |r.rest| <= |input|
    ensures r.Done? && r.value.None? ==> r.rest == input
  {
    var parent := ParseParent(input);
    if parent.Error? then Done(input, None)
    else if !parent.Done? then parent.Propagate()
    else
      var eol := LineEnding(parent.rest);
      if eol.Error? then Done(input, None)
      else Done(eol.rest, Some(parent.value))
  }

  /** The author line: the author field, then a line ending. */
  function AuthorLine(input: Bytes): ParseResult<GitUser>
  {
    var author := ParseAuthor(input);
    if !author.Done? then author.Propagate()
    else
      var eol := LineEnding(author.rest);
      if !eol.Done? then eol.Propagate()
      else Done(eol.rest, author.value)
  }

  /** The committer line: the committer field, then a line ending. */
  function CommitterLine(input: Bytes): ParseResult<GitUser>
  {
    var committer := ParseCommitter(input);
    if !committer.Done? then committer.Propagate()
    else
      var eol := LineEnding(committer.rest);
      if !eol.Done? then eol.Propagate()
      else Done(eol.rest, committer.value)
  }

  /** The optional signature line: the signature block, then a line ending. */
  function OptGpgsigLine(input: Bytes): (r: ParseResult<Option<Bytes>>)
    ensures r.Done? && r.value.None? ==> r.rest == input
  {
    var sig := ParseGpgsig(input);
    if !sig.Done? then Done(input, None)
    else
      var eol := LineEnding(sig.rest);
      if eol.Error? then Done(input, None)
      else Done(eol.rest, Some(sig.value))
  }

  /**
   * `parse_git_commit_entry`: the fields in their fixed order; the message is
   * everything that is left. The signature and the message are converted to
   * text last.
   */
  function ParseGitCommitEntry(input: Bytes): ParseResult<GitCommitEntry>
  {
    var tree := TreeLine(input);
    if !tree.Done? then tree.Propagate()
    else
      var parent := ParentLines(tree.rest);
      if !parent.Done? then parent.Propagate()
      else
        var author := AuthorLine(parent.rest);
        if !author.Done? then author.Propagate()
        else
          var committer := CommitterLine(author.rest);
          if !committer.Done? then committer.Propagate()
          else
            var sig := OptGpgsigLine(committer.rest);
            if !sig.Done? then sig.Propagate()
            else
              var message := Rest(sig.rest);
              if sig.value.Some? && !ValidUtf8(sig.value.value) then Panic
              else if !ValidUtf8(message.value) then Panic
              else Done(message.rest, GitCommitEntry(tree.value, parent.value, author.value,
                                                     committer.value, sig.value, message.value))
  }

  /**
   * The three optional parent lines of `parse_git_commit_entry`; only the
   * first one's value is kept.
   */
  function ParentLines(input: Bytes): ParseResult<Option<Bytes>>
  {
    var parent := OptParentLine(input);
    if !parent.Done? then parent.Propagate()
    else
      var parent2 := OptParentLine(parent.rest);
      if !parent2.Done? then parent2.Propagate()
      else
        var parent3 := OptParentLine(parent2.rest);
        if !parent3.Done? then parent3.Propagate()
        else Done(parent3.rest, parent.value)
  }

  // ---------------------------------------------------------------------
  // Layout of a well-formed commit

  /** The bytes of a user line after its tag. */
  datatype RawUser = RawUser(name: Bytes, email: Bytes, timestamp: Bytes)

  function UserBytes(u: RawUser): Bytes
  {
    u.name + [LT] + u.email + [GT, SPACE] + u.timestamp
  }

  predicate NoneOf(s: Bytes, stop: uint8 -> bool) { forall i | 0 <= i < |s| :: !stop(s[i]) }

  /** A user the parser reads as written: no '<' in the name, no '>' in the email, no LF in the timestamp. */
  predicate GoodUser(u: RawUser)
  {
    && NoneOf(u.name, IsLt) && ValidUtf8(u.name)
    && NoneOf(u.email, IsGt) && ValidUtf8(u.email)
    && NoneOf(u.timestamp, IsLf) && ValidUtf8(u.timestamp)
  }

  /** The user as reported: the name loses the whitespace around it. */
  function Reported(u: RawUser): GitUser
  {
    GitUser(Trim(u.name), u.email, u.timestamp)
  }

  lemma RegroupUser(a: Bytes, b: Bytes, c: Bytes, rest: Bytes)
    ensures a + [LT] + b + [GT, SPACE] + c + rest == a + ([LT] + (b + ([GT, SPACE] + (c + rest))))
  {
  }

  /** A user followed by LF (or by the end) is read up to the LF. */
  lemma UserLayout(u: RawUser, rest: Bytes)
    requires GoodUser(u)
    requires rest == [] || rest[0] == LF
    ensures ParseUser(UserBytes(u) + rest) == Done(rest, Reported(u))
  {
    var afterClose := u.timestamp + rest;
    var afterEmail := [GT, SPACE] + afterClose;
    var afterOpen := u.email + afterEmail;
    var afterName := [LT] + afterOpen;
    RegroupUser(u.name, u.email, u.timestamp, rest);
    TakeTillOf(IsLt, u.name, afterName);
    TagThen([LT], afterOpen);
    TakeTillOf(IsGt, u.email, afterEmail);
    TagThen([GT, SPACE], afterClose);
    TakeTillOf(IsLf, u.timestamp, rest);
    UserOf(UserBytes(u) + rest, u.name, afterName, afterOpen, u.email, afterEmail, afterClose, u.timestamp, rest);
  }

  /** The steps of `parse_user`, each read where the last ended. */
  lemma UserOf(input: Bytes, name: Bytes, afterName: Bytes, afterOpen: Bytes, email: Bytes,
               afterEmail: Bytes, afterClose: Bytes, timestamp: Bytes, rest: Bytes)
    requires TakeTill(IsLt, input) == Done(afterName, name)
    requires CompleteTag([LT], afterName) == Done(afterOpen, [LT])
    requires TakeTill(IsGt, afterOpen) == Done(afterEmail, email)
    requires CompleteTag([GT, SPACE], afterEmail) == Done(afterClose, [GT, SPACE])
    requires TakeTill(IsLf, afterClose) == Done(rest, timestamp)
    requires ValidUtf8(name) && ValidUtf8(email) && ValidUtf8(timestamp)
    ensures ParseUser(input) == Done(rest, GitUser(Trim(name), email, timestamp))
  {
  }

  /**
   * Every user the parser accepts has the layout of `UserLayout`: it is
   * followed by LF or by the end, and it is reported as `Reported`.
   */
  lemma UserSound(input: Bytes) returns (u: RawUser)
    requires ParseUser(input).Done?
    ensures GoodUser(u) && input == UserBytes(u) + ParseUser(input).rest
    ensures ParseUser(input).value == Reported(u)
    ensures ParseUser(input).rest == [] || ParseUser(input).rest[0] == LF
  {
    var name := TakeTill(IsLt, input);
    var open := CompleteTag([LT], name.rest);
    var email := TakeTill(IsGt, open.rest);
    var close := CompleteTag([GT, SPACE], email.rest);
    var timestamp := TakeTill(IsLf, close.rest);
    UserSteps(input, name, open, email, close, timestamp);
    u := RawUser(name.value, email.value, timestamp.value);
    TagSplit([LT], name.rest);
    TagSplit([GT, SPACE], email.rest);
    UserPieces(input, name.value, name.rest, open.rest, email.value, email.rest, close.rest,
               timestamp.value, timestamp.rest);
  }

  /** Each step of an accepted user succeeds, and what it reads is a good user. */
  lemma UserSteps(input: Bytes, name: ParseResult<Bytes>, open: ParseResult<Bytes>, email: ParseResult<Bytes>,
                  close: ParseResult<Bytes>, timestamp: ParseResult<Bytes>)
    requires ParseUser(input).Done?
    requires name == TakeTill(IsLt, input) && open == CompleteTag([LT], name.rest)
    requires email == TakeTill(IsGt, open.rest) && close == CompleteTag([GT, SPACE], email.rest)
    requires timestamp == TakeTill(IsLf, close.rest)
    ensures open.Done? && close.Done?
    ensures GoodUser(RawUser(name.value, email.value, timestamp.value))
    ensures ParseUser(input) == Done(timestamp.rest, Reported(RawUser(name.value, email.value, timestamp.value)))
    ensures timestamp.rest == [] || timestamp.rest[0] == LF
  {
  }

  /** A tag that was read is followed by what remains after it. */
  lemma TagSplit(t: Bytes, input: Bytes)
    requires CompleteTag(t, input).Done?
    ensures input == t + CompleteTag(t, input).rest
  {
    StartsWithSplit(input, t);
  }

  lemma UserPieces(input: Bytes, name: Bytes, afterName: Bytes, afterOpen: Bytes, email: Bytes,
                   afterEmail: Bytes, afterClose: Bytes, timestamp: Bytes, rest: Bytes)
    requires input == name + afterName
    requires afterName == [LT] + afterOpen && afterOpen == email + afterEmail
    requires afterEmail == [GT, SPACE] + afterClose && afterClose == timestamp + rest
    ensures input == UserBytes(RawUser(name, email, timestamp)) + rest
  {
    RegroupUser(name, email, timestamp, rest);
  }

  /** Without a '<' there is no email, and the user is rejected. */
  lemma UserNeedsLt(input: Bytes)
    requires NoneOf(input, IsLt)
    ensures ParseUser(input).Error?
  {
    assert input == input + [];
    TakeTillOf(IsLt, input, []);
  }

  /**
   * An email that is not closed by "> " is rejected: the input ends inside
   * the email, or its '>' is not followed by a blank.
   */
  lemma UserNeedsClose(name: Bytes, email: Bytes, rest: Bytes)
    requires NoneOf(name, IsLt) && NoneOf(email, IsGt)
    requires (rest == [] || rest[0] == GT) && !StartsWith(rest, [GT, SPACE])
    ensures ParseUser(name + [LT] + email + rest).Error?
  {
    var afterName := [LT] + (email + rest);
    assert name + [LT] + email + rest == name + afterName;
    TakeTillOf(IsLt, name, afterName);
    TagThen([LT], email + rest);
    TakeTillOf(IsGt, email, rest);
  }

  /**
   * On a line ended by CRLF the timestamp runs up to the LF, so it keeps the
   * CR at its end.
   */
  lemma TimestampKeepsCr(name: Bytes, email: Bytes, timestamp: Bytes, rest: Bytes)
    requires GoodUser(RawUser(name, email, timestamp + [CR]))
    ensures ParseUser(UserBytes(RawUser(name, email, timestamp)) + [CR, LF] + rest)
      == Done([LF] + rest, GitUser(Trim(name), email, timestamp + [CR]))
  {
    var u := RawUser(name, email, timestamp + [CR]);
    assert UserBytes(RawUser(name, email, timestamp)) + [CR, LF] + rest == UserBytes(u) + ([LF] + rest);
    UserLayout(u, [LF] + rest);
  }

  /** Text that may stand on a line of its own: no CR, no LF, UTF-8. */
  predicate IsLineText(t: Bytes) { NoLineBreak(t) && ValidUtf8(t) }

  predicate IsEol(eol: Bytes) { eol == [LF] || eol == [CR, LF] }

  /** The text of a field line and the line ending after it. */
  datatype EndedLine = EndedLine(text: Bytes, eol: Bytes)

  predicate GoodLine(l: EndedLine) { IsLineText(l.text) && IsEol(l.eol) }

  lemma RegroupLine(tag: Bytes, t: Bytes, eol: Bytes, rest: Bytes)
    ensures tag + t + eol + rest == tag + (t + (eol + rest))
  {
  }

  /** A line's text, read after its tag, up to its line ending. */
  lemma LineTextOf(t: Bytes, eol: Bytes, rest: Bytes)
    requires IsLineText(t) && IsEol(eol)
    ensures ParseSingleLine(t + (eol + rest)) == Done(eol + rest, t)
    ensures LineEnding(eol + rest) == Done(rest, eol)
  {
    TakeTillOf(IsLineBreak, t, eol + rest);
    LineEndingOf(eol, rest);
  }

  /** The tree line, ended by LF or by CRLF. */
  lemma TreeLineOf(t: Bytes, eol: Bytes, rest: Bytes)
    requires IsLineText(t) && IsEol(eol)
    ensures TreeLine(TREE_TAG + t + eol + rest) == Done(rest, t)
  {
    RegroupLine(TREE_TAG, t, eol, rest);
    TagThen(TREE_TAG, t + (eol + rest));
    LineTextOf(t, eol, rest);
  }

  /** A parent line, ended by LF or by CRLF. */
  lemma ParentLineOf(p: Bytes, eol: Bytes, rest: Bytes)
    requires IsLineText(p) && IsEol(eol)
    ensures OptParentLine(PARENT_TAG + p + eol + rest) == Done(rest, Some(p))
  {
    RegroupLine(PARENT_TAG, p, eol, rest);
    TagThen(PARENT_TAG, p + (eol + rest));
    LineTextOf(p, eol, rest);
  }

  /** A tag, a single line after it, and a line ending, put back together. */
  lemma TaggedLinePieces(tag: Bytes, input: Bytes, afterTag: Bytes, t: Bytes, afterText: Bytes,
                         eol: Bytes, rest: Bytes)
    requires input == tag + afterTag && afterTag == t + afterText && afterText == eol + rest
    ensures input == tag + t + eol + rest
  {
    RegroupLine(tag, t, eol, rest);
  }

  /** A tag, then `ParseSingleLine`, then a line ending: the line as it was written. */
  lemma TaggedLineSound(tag: Bytes, input: Bytes, afterTag: Bytes, line: ParseResult<Bytes>,
                        eol: ParseResult<Bytes>) returns (l: EndedLine)
    requires CompleteTag(tag, input) == Done(afterTag, tag)
    requires line == ParseSingleLine(afterTag) && line.Done?
    requires eol == LineEnding(line.rest) && eol.Done?
    ensures GoodLine(l) && l.text == line.value && input == tag + l.text + l.eol + eol.rest
  {
    TagSplit(tag, input);
    l := EndedLine(line.value, eol.value);
    TaggedLinePieces(tag, input, afterTag, line.value, line.rest, eol.value, eol.rest);
  }

  /** Every tree line the parser accepts is a good line after "tree ". */
  lemma TreeLineSound(input: Bytes) returns (t: EndedLine)
    requires TreeLine(input).Done?
    ensures var r := TreeLine(input);
      GoodLine(t) && input == TREE_TAG + t.text + t.eol + r.rest && r.value == t.text
  {
    var tag := CompleteTag(TREE_TAG, input);
    t := TaggedLineSound(TREE_TAG, input, tag.rest, ParseSingleLine(tag.rest),
                         LineEnding(ParseSingleLine(tag.rest).rest));
  }

  /** Every parent line the parser accepts is a good line after "parent ". */
  lemma ParentLineSound(input: Bytes) returns (p: EndedLine)
    requires OptParentLine(input).Done? && OptParentLine(input).value.Some?
    ensures var r := OptParentLine(input);
      GoodLine(p) && input == PARENT_TAG + p.text + p.eol + r.rest && r.value == Some(p.text)
  {
    var tag := CompleteTag(PARENT_TAG, input);
    p := TaggedLineSound(PARENT_TAG, input, tag.rest, ParseSingleLine(tag.rest),
                         LineEnding(ParseSingleLine(tag.rest).rest));
  }

  /** The author line, ended by LF. */
  lemma AuthorLineOf(u: RawUser, rest: Bytes)
    requires GoodUser(u)
    ensures AuthorLine(AUTHOR_TAG + UserBytes(u) + [LF] + rest) == Done(rest, Reported(u))
  {
    RegroupLine(AUTHOR_TAG, UserBytes(u), [LF], rest);
    TagThen(AUTHOR_TAG, UserBytes(u) + ([LF] + rest));
    UserLayout(u, [LF] + rest);
    LineEndingOf([LF], rest);
  }

  /** The committer line, ended by LF. */
  lemma CommitterLineOf(u: RawUser, rest: Bytes)
    requires GoodUser(u)
    ensures CommitterLine(COMMITTER_TAG + UserBytes(u) + [LF] + rest) == Done(rest, Reported(u))
  {
    RegroupLine(COMMITTER_TAG, UserBytes(u), [LF], rest);
    TagThen(COMMITTER_TAG, UserBytes(u) + ([LF] + rest));
    UserLayout(u, [LF] + rest);
    LineEndingOf([LF], rest);
  }

  /**
   * A tag, a user and a line ending, as read: the user stops at LF, so the
   * line ending is a bare LF (a CR before it is the timestamp's).
   */
  lemma UserLineSound(tag: Bytes, input: Bytes, afterTag: Bytes, user: ParseResult<GitUser>,
                      eol: ParseResult<Bytes>) returns (u: RawUser)
    requires CompleteTag(tag, input) == Done(afterTag, tag)
    requires user == ParseUser(afterTag) && user.Done?
    requires eol == LineEnding(user.rest) && eol.Done?
    ensures GoodUser(u) && user.value == Reported(u) && input == tag + UserBytes(u) + [LF] + eol.rest
  {
    TagSplit(tag, input);
    u := UserSound(afterTag);
    assert eol.value == [LF];
    TaggedLinePieces(tag, input, afterTag, UserBytes(u), user.rest, [LF], eol.rest);
  }

  /** Every author line the parser accepts is "author ", a good user and LF. */
  lemma AuthorLineSound(input: Bytes) returns (u: RawUser)
    requires AuthorLine(input).Done?
    ensures var r := AuthorLine(input);
      GoodUser(u) && input == AUTHOR_TAG + UserBytes(u) + [LF] + r.rest && r.value == Reported(u)
  {
    var tag := CompleteTag(AUTHOR_TAG, input);
    u := UserLineSound(AUTHOR_TAG, input, tag.rest, ParseUser(tag.rest),
                       LineEnding(ParseUser(tag.rest).rest));
  }

  /** Every committer line the parser accepts is "committer ", a good user and LF. */
  lemma CommitterLineSound(input: Bytes) returns (u: RawUser)
    requires CommitterLine(input).Done?
    ensures var r := CommitterLine(input);
      GoodUser(u) && input == COMMITTER_TAG + UserBytes(u) + [LF] + r.rest && r.value == Reported(u)
  {
    var tag := CompleteTag(COMMITTER_TAG, input);
    u := UserLineSound(COMMITTER_TAG, input, tag.rest, ParseUser(tag.rest),
                       LineEnding(ParseUser(tag.rest).rest));
  }

  /** The end marker does not occur in `s + SIG_END` before the marker itself. */
  predicate EndsAtMarker(s: Bytes)
  {
    forall k | 0 <= k < |s| :: !OccursAt(s + SIG_END, SIG_END, k)
  }

  /**
   * The signature is exactly the bytes between the begin marker and the
   * first end marker.
   */
  lemma GpgsigOf(sig: Bytes, rest: Bytes)
    requires EndsAtMarker(sig)
    ensures ParseGpgsig(SIG_BEGIN + sig + SIG_END + rest) == Done(rest, sig)
  {
    var afterBegin := sig + SIG_END + rest;
    assert SIG_BEGIN + sig + SIG_END + rest == SIG_BEGIN + afterBegin;
    TagThen(SIG_BEGIN, afterBegin);
    BodyUntilMarker(sig, rest);
    TagThen(SIG_END, rest);
  }

  /** The signature body stops right before the first end marker. */
  lemma BodyUntilMarker(sig: Bytes, rest: Bytes)
    requires EndsAtMarker(sig)
    ensures TakeUntil(SIG_END, sig + SIG_END + rest) == Done(SIG_END + rest, sig)
  {
    var x := sig + SIG_END + rest;
    FirstMarker(sig, rest);
    assert x[..|sig|] == sig;
    assert x[|sig|..] == SIG_END + rest;
  }

  /** `take_until` finds the end marker right after the signature. */
  lemma FirstMarker(sig: Bytes, rest: Bytes)
    requires EndsAtMarker(sig)
    ensures FindFrom(SIG_END, sig + SIG_END + rest, 0) == Some(|sig|)
  {
    var x := sig + SIG_END + rest;
    assert x[|sig|..|sig| + |SIG_END|] == SIG_END;
    forall k | 0 <= k < |sig|
      ensures !OccursAt(x, SIG_END, k)
    {
      assert !OccursAt(sig + SIG_END, SIG_END, k);
      assert x[k..k + |SIG_END|] == (sig + SIG_END)[k..k + |SIG_END|];
    }
    FindFromFirst(SIG_END, x, 0, |sig|);
  }

  /**
   * Every signature the parser accepts is the bytes before the first end
   * marker, so it has the layout of `GpgsigOf`.
   */
  lemma GpgsigSound(input: Bytes) returns (sig: Bytes)
    requires ParseGpgsig(input).Done?
    ensures EndsAtMarker(sig) && ParseGpgsig(input).value == sig
    ensures input == SIG_BEGIN + sig + SIG_END + ParseGpgsig(input).rest
  {
    var begin := CompleteTag(SIG_BEGIN, input);
    var body := TakeUntil(SIG_END, begin.rest);
    var end := CompleteTag(SIG_END, body.rest);
    GpgsigSteps(input, begin, body, end);
    TagSplit(SIG_BEGIN, input);
    TagSplit(SIG_END, body.rest);
    UntilFirst(SIG_END, begin.rest);
    sig := body.value;
    RegroupLine(SIG_BEGIN, sig, SIG_END, end.rest);
  }

  lemma GpgsigSteps(input: Bytes, begin: ParseResult<Bytes>, body: ParseResult<Bytes>, end: ParseResult<Bytes>)
    requires ParseGpgsig(input).Done?
    requires begin == CompleteTag(SIG_BEGIN, input) && body == TakeUntil(SIG_END, begin.rest)
    requires end == CompleteTag(SIG_END, body.rest)
    ensures begin.Done? && body.Done? && end.Done?
    ensures ParseGpgsig(input) == Done(end.rest, body.value)
  {
  }

  /**
   * What `take_until(t)` reads is followed by the rest, and `t` does not
   * occur in it followed by `t` before the end.
   */
  lemma UntilFirst(t: Bytes, x: Bytes)
    requires TakeUntil(t, x).Done?
    ensures x == TakeUntil(t, x).value + TakeUntil(t, x).rest
    ensures var v := TakeUntil(t, x).value;
      forall j | 0 <= j < |v| :: !OccursAt(v + t, t, j)
  {
    var k := FindFrom(t, x, 0).value;
    var v := x[..k];
    assert v + t == x[..k + |t|];
    forall j | 0 <= j < |v|
      ensures !OccursAt(v + t, t, j)
    {
      assert !OccursAt(x, t, j);
      if j + |t| <= |v + t| {
        assert (v + t)[j..j + |t|] == x[j..j + |t|];
      }
    }
  }

  /** The tags start with different letters. */
  lemma TagLetters()
    ensures TREE_TAG[0] == 0x74 && PARENT_TAG[0] == 0x70 && AUTHOR_TAG[0] == 0x61
    ensures COMMITTER_TAG[0] == 0x63 && SIG_BEGIN[0] == 0x67
  {
  }

  /** A line that starts with another tag is not a parent line. */
  lemma NotAParent(tag: Bytes, x: Bytes)
    requires tag != [] && tag[0] != PARENT_TAG[0]
    ensures OptParentLine(tag + x) == Done(tag + x, None)
  {
    assert (tag + x)[0] == tag[0];
  }

  /** The bytes of the parent lines. */
  function ParentBytes(ps: seq<EndedLine>): Bytes
  {
    if ps == [] then [] else PARENT_TAG + ps[0].text + ps[0].eol + ParentBytes(ps[1..])
  }

  function Head(ps: seq<EndedLine>): Option<Bytes> { if ps == [] then None else Some(ps[0].text) }

  function Tail(ps: seq<EndedLine>): seq<EndedLine> { if ps == [] then [] else ps[1..] }

  predicate GoodLines(ps: seq<EndedLine>) { forall i | 0 <= i < |ps| :: GoodLine(ps[i]) }

  lemma ParentBytesCons(ps: seq<EndedLine>, rest: Bytes)
    requires ps != []
    ensures ParentBytes(ps) + rest == PARENT_TAG + ps[0].text + ps[0].eol + (ParentBytes(ps[1..]) + rest)
  {
  }

  /** One optional parent line: the first of `ps`, or none when `ps` is empty. */
  lemma OptParentStep(ps: seq<EndedLine>, rest: Bytes)
    requires GoodLines(ps)
    requires OptParentLine(rest) == Done(rest, None)
    ensures OptParentLine(ParentBytes(ps) + rest) == Done(ParentBytes(Tail(ps)) + rest, Head(ps))
  {
    if ps != [] {
      ParentBytesCons(ps, rest);
      ParentLineOf(ps[0].text, ps[0].eol, ParentBytes(ps[1..]) + rest);
    } else {
      assert ParentBytes(ps) + rest == rest;
    }
  }

  /** The lines after the first are good, and one fewer. */
  lemma TailGood(ps: seq<EndedLine>)
    requires GoodLines(ps)
    ensures GoodLines(Tail(ps)) && |Tail(ps)| == if ps == [] then 0 else |ps| - 1
  {
    if ps != [] {
      forall i | 0 <= i < |ps| - 1
        ensures GoodLine(ps[1..][i])
      {
        assert ps[1..][i] == ps[i + 1];
      }
    }
  }

  /**
   * Up to three parent lines are consumed, and the value is the first
   * parent, or none when there is no parent line.
   */
  lemma ParentsOf(ps: seq<EndedLine>, rest: Bytes)
    requires |ps| <= 3 && GoodLines(ps)
    requires OptParentLine(rest) == Done(rest, None)
    ensures ParentLines(ParentBytes(ps) + rest) == Done(rest, Head(ps))
  {
    var ps2 := Tail(ps);
    var ps3 := Tail(ps2);
    TailGood(ps);
    TailGood(ps2);
    OptParentStep(ps, rest);
    OptParentStep(ps2, rest);
    OptParentStep(ps3, rest);
    assert Tail(ps3) == [];
    ParentLinesOf(ParentBytes(ps) + rest, ParentBytes(ps2) + rest, ParentBytes(ps3) + rest,
                  ParentBytes(Tail(ps3)) + rest, Head(ps), Head(ps2), Head(ps3));
  }

  /** The three optional parent lines, each read where the last ended. */
  lemma ParentLinesOf(input: Bytes, a: Bytes, b: Bytes, c: Bytes, p1: Option<Bytes>, p2: Option<Bytes>, p3: Option<Bytes>)
    requires OptParentLine(input) == Done(a, p1)
    requires OptParentLine(a) == Done(b, p2)
    requires OptParentLine(b) == Done(c, p3)
    ensures ParentLines(input) == Done(c, p1)
  {
  }

  /** One optional parent line as read: none, or one good parent line. */
  lemma OptParentSound(input: Bytes) returns (ps: seq<EndedLine>)
    requires OptParentLine(input).Done?
    ensures |ps| <= 1 && GoodLines(ps) && input == ParentBytes(ps) + OptParentLine(input).rest
    ensures OptParentLine(input).value == Head(ps)
  {
    if OptParentLine(input).value.None? {
      ps := [];
      assert ParentBytes(ps) + input == input;
    } else {
      var p := ParentLineSound(input);
      ps := [p];
      OneParent(p, OptParentLine(input).rest);
    }
  }

  lemma OneParent(p: EndedLine, rest: Bytes)
    requires GoodLine(p)
    ensures ParentBytes([p]) + rest == PARENT_TAG + p.text + p.eol + rest
    ensures GoodLines([p]) && Head([p]) == Some(p.text)
  {
    assert [p][1..] == [];
  }

  /**
   * Every run of parent lines the parser accepts is at most three good
   * parent lines, and the value is the first of them.
   */
  lemma ParentLinesSound(input: Bytes) returns (ps: seq<EndedLine>)
    requires ParentLines(input).Done?
    ensures |ps| <= 3 && GoodLines(ps) && input == ParentBytes(ps) + ParentLines(input).rest
    ensures ParentLines(input).value == Head(ps)
  {
    var r1 := OptParentLine(input);
    var r2 := OptParentLine(r1.rest);
    var r3 := OptParentLine(r2.rest);
    assert ParentLines(input) == Done(r3.rest, r1.value);
    var q1 := OptParentSound(input);
    var q2 := OptParentSound(r1.rest);
    var q3 := OptParentSound(r2.rest);
    ps := q1 + q2 + q3;
    ParentRuns(input, r1.rest, r2.rest, r3.rest, q1, q2, q3);
    GoodLinesAppend(q1, q2);
    GoodLinesAppend(q1 + q2, q3);
    HeadAppend(q1, q2, q3);
  }

  /** The first of three runs, when the first run is empty only if all are. */
  lemma HeadAppend(q1: seq<EndedLine>, q2: seq<EndedLine>, q3: seq<EndedLine>)
    requires |q1| <= 1 && (q1 == [] ==> q2 == [] && q3 == [])
    ensures Head(q1 + q2 + q3) == Head(q1)
  {
    if q1 != [] {
      assert (q1 + q2 + q3)[0] == q1[0];
    } else {
      assert q1 + q2 + q3 == [];
    }
  }

  lemma GoodLinesAppend(a: seq<EndedLine>, b: seq<EndedLine>)
    requires GoodLines(a) && GoodLines(b)
    ensures GoodLines(a + b)
  {
    forall i | 0 <= i < |a + b|
      ensures GoodLine((a + b)[i])
    {
      if i < |a| { assert (a + b)[i] == a[i]; } else { assert (a + b)[i] == b[i - |a|]; }
    }
  }

  /** Three runs of parent lines, each read where the last ended, make one run. */
  lemma ParentRuns(input: Bytes, a: Bytes, b: Bytes, c: Bytes,
                   q1: seq<EndedLine>, q2: seq<EndedLine>, q3: seq<EndedLine>)
    requires input == ParentBytes(q1) + a && a == ParentBytes(q2) + b && b == ParentBytes(q3) + c
    ensures input == ParentBytes(q1 + q2 + q3) + c
  {
    ParentBytes3(q1, q2, q3);
    RegroupLine(ParentBytes(q1), ParentBytes(q2), ParentBytes(q3), c);
  }

  lemma ParentBytes3(q1: seq<EndedLine>, q2: seq<EndedLine>, q3: seq<EndedLine>)
    ensures ParentBytes(q1 + q2 + q3) == ParentBytes(q1) + ParentBytes(q2) + ParentBytes(q3)
  {
    ParentBytesAppend(q1, q2);
    ParentBytesAppend(q1 + q2, q3);
  }

  lemma {:induction false} ParentBytesAppend(a: seq<EndedLine>, b: seq<EndedLine>)
    ensures ParentBytes(a + b) == ParentBytes(a) + ParentBytes(b)
  {
    if a != [] {
      ParentBytesAppend(a[1..], b);
      assert (a + b)[1..] == a[1..] + b;
    } else {
      assert a + b == b;
    }
  }

  /** The signature line, when there is one. */
  function SigBytes(sig: Option<EndedLine>): Bytes
  {
    match sig
    case None => []
    case Some(l) => SIG_BEGIN + l.text + SIG_END + l.eol
  }

  /** The signature as reported. */
  function SigText(sig: Option<EndedLine>): Option<Bytes>
  {
    match sig
    case None => None
    case Some(l) => Some(l.text)
  }

  /** A signature the parser reads as written. */
  predicate GoodSig(l: EndedLine) { EndsAtMarker(l.text) && ValidUtf8(l.text) && IsEol(l.eol) }

  /** The optional signature line. */
  lemma SigLineOf(sig: Option<EndedLine>, rest: Bytes)
    requires sig.Some? ==> EndsAtMarker(sig.value.text) && IsEol(sig.value.eol)
    requires sig.None? ==> !StartsWith(rest, SIG_BEGIN)
    ensures OptGpgsigLine(SigBytes(sig) + rest) == Done(rest, SigText(sig))
  {
    match sig
    case None =>
      assert SigBytes(sig) + rest == rest;
    case Some(l) =>
      RegroupSig(l, rest);
      GpgsigOf(l.text, l.eol + rest);
      LineEndingOf(l.eol, rest);
      OptSigOf(SigBytes(sig) + rest, l.eol + rest, l.text, l.eol, rest);
  }

  lemma RegroupSig(l: EndedLine, rest: Bytes)
    ensures SigBytes(Some(l)) + rest == SIG_BEGIN + l.text + SIG_END + (l.eol + rest)
  {
  }

  /** A signature block, then a line ending. */
  lemma OptSigOf(input: Bytes, afterBlock: Bytes, sig: Bytes, eol: Bytes, rest: Bytes)
    requires ParseGpgsig(input) == Done(afterBlock, sig)
    requires LineEnding(afterBlock) == Done(rest, eol)
    ensures OptGpgsigLine(input) == Done(rest, Some(sig))
  {
  }

  /**
   * Every signature line the parser accepts is the block between the markers
   * and a line ending; when there is none, nothing is consumed.
   */
  lemma SigLineSound(input: Bytes) returns (sig: Option<EndedLine>)
    requires OptGpgsigLine(input).Done?
    ensures var r := OptGpgsigLine(input);
      && (sig.Some? ==> EndsAtMarker(sig.value.text) && IsEol(sig.value.eol))
      && input == SigBytes(sig) + r.rest && r.value == SigText(sig)
  {
    var r := OptGpgsigLine(input);
    if r.value.None? {
      sig := None;
      assert SigBytes(sig) + input == input;
    } else {
      var block := ParseGpgsig(input);
      var text := GpgsigSound(input);
      var eol := LineEnding(block.rest);
      sig := Some(EndedLine(text, eol.value));
      SigPieces(input, text, block.rest, eol.value, eol.rest);
    }
  }

  lemma SigPieces(input: Bytes, text: Bytes, afterBlock: Bytes, eol: Bytes, rest: Bytes)
    requires input == SIG_BEGIN + text + SIG_END + afterBlock && afterBlock == eol + rest
    ensures input == SIG_BEGIN + text + SIG_END + eol + rest
  {
  }

  /** The parts of a commit as written. */
  datatype RawCommit = RawCommit(
    tree: EndedLine,
    parents: seq<EndedLine>,
    author: RawUser,
    committer: RawUser,
    gpgsig: Option<EndedLine>,
    message: Bytes)

  function AuthorBytes(u: RawUser): Bytes { AUTHOR_TAG + UserBytes(u) + [LF] }

  function CommitterBytes(u: RawUser): Bytes { COMMITTER_TAG + UserBytes(u) + [LF] }

  /** A commit body: each field on its own line, then the message. */
  function CommitBytes(c: RawCommit): Bytes
  {
    TREE_TAG + c.tree.text + c.tree.eol
      + (ParentBytes(c.parents)
      + (AuthorBytes(c.author)
      + (CommitterBytes(c.committer)
      + (SigBytes(c.gpgsig) + c.message))))
  }

  /**
   * The fields of a commit as the parser reads them: field lines without
   * breaks ended by LF or CRLF, at most three parents, and a signature that
   * stops at the first end marker.
   */
  predicate GoodFields(c: RawCommit)
  {
    && GoodLine(c.tree)
    && |c.parents| <= 3 && GoodLines(c.parents)
    && GoodUser(c.author) && GoodUser(c.committer)
    && (c.gpgsig.Some? ==> GoodSig(c.gpgsig.value))
  }

  /**
   * A commit the parser reads as written: good fields, and a message that
   * does not itself start like a signature when there is none.
   */
  predicate GoodCommit(c: RawCommit)
  {
    GoodFields(c) && (c.gpgsig.None? ==> !StartsWith(c.message, SIG_BEGIN))
  }

  /** The entry the parser reports for a commit. */
  function Expected(c: RawCommit): GitCommitEntry
  {
    GitCommitEntry(c.tree.text, Head(c.parents), Reported(c.author), Reported(c.committer),
                   SigText(c.gpgsig), c.message)
  }

  /**
   * A well-formed commit is read whole: tree, first parent, author and
   * committer (names trimmed), signature, and the message (everything after
   * the last field line, so the blank separator line stays at its front);
   * the remainder is empty. A message that is not UTF-8 aborts.
   */
  lemma CommitLayout(c: RawCommit)
    requires GoodCommit(c)
    ensures ParseGitCommitEntry(CommitBytes(c))
      == if ValidUtf8(c.message) then Done([], Expected(c)) else Panic
  {
    var afterCommitter := SigBytes(c.gpgsig) + c.message;
    var afterAuthor := CommitterBytes(c.committer) + afterCommitter;
    var afterParents := AuthorBytes(c.author) + afterAuthor;
    var afterTree := ParentBytes(c.parents) + afterParents;
    TreeLineOf(c.tree.text, c.tree.eol, afterTree);
    ParentsBeforeAuthor(c.parents, c.author, afterAuthor);
    AuthorLineOf(c.author, afterAuthor);
    CommitterLineOf(c.committer, afterCommitter);
    SigLineOf(c.gpgsig, c.message);
    CommitEntryOf(CommitBytes(c), afterTree, afterParents, afterAuthor, afterCommitter, c.message,
                  c.tree.text, Head(c.parents), Reported(c.author), Reported(c.committer), SigText(c.gpgsig));
  }

  /**
   * Every commit body the parser accepts is a commit with good fields laid
   * out as `CommitBytes`, with a UTF-8 message, and it is reported as
   * `Expected`: the converse of `CommitLayout`.
   */
  lemma CommitSound(input: Bytes) returns (c: RawCommit)
    requires ParseGitCommitEntry(input).Done?
    ensures GoodFields(c) && ValidUtf8(c.message) && input == CommitBytes(c)
    ensures ParseGitCommitEntry(input) == Done([], Expected(c))
  {
    var tree := TreeLine(input);
    var parents := ParentLines(tree.rest);
    var author := AuthorLine(parents.rest);
    var committer := CommitterLine(author.rest);
    var sig := OptGpgsigLine(committer.rest);
    CommitSteps(input, tree, parents, author, committer, sig);
    var t := TreeLineSound(input);
    var ps := ParentLinesSound(tree.rest);
    var a := AuthorLineSound(parents.rest);
    var m := CommitterLineSound(author.rest);
    var g := SigLineSound(committer.rest);
    c := RawCommit(t, ps, a, m, g, sig.rest);
    SigGood(g, sig.value);
    CommitPieces(input, tree.rest, parents.rest, author.rest, committer.rest, c);
    CommitEntryOf(input, tree.rest, parents.rest, author.rest, committer.rest, sig.rest,
                  tree.value, parents.value, author.value, committer.value, sig.value);
    ExpectedOf(c, tree.value, parents.value, author.value, committer.value, sig.value);
  }

  /** A signature line that was read, and whose text is UTF-8, is a good signature. */
  lemma SigGood(g: Option<EndedLine>, v: Option<Bytes>)
    requires g.Some? ==> EndsAtMarker(g.value.text) && IsEol(g.value.eol)
    requires v == SigText(g) && (v.Some? ==> ValidUtf8(v.value))
    ensures g.Some? ==> GoodSig(g.value)
  {
  }

  lemma ExpectedOf(c: RawCommit, t: Bytes, p: Option<Bytes>, author: GitUser, committer: GitUser,
                   sig: Option<Bytes>)
    requires t == c.tree.text && p == Head(c.parents) && sig == SigText(c.gpgsig)
    requires author == Reported(c.author) && committer == Reported(c.committer)
    ensures GitCommitEntry(t, p, author, committer, sig, c.message) == Expected(c)
  {
  }

  /** Each stage of an accepted commit succeeds, and the signature and message are UTF-8. */
  lemma CommitSteps(input: Bytes, tree: ParseResult<Bytes>, parents: ParseResult<Option<Bytes>>,
                    author: ParseResult<GitUser>, committer: ParseResult<GitUser>,
                    sig: ParseResult<Option<Bytes>>)
    requires ParseGitCommitEntry(input).Done?
    requires tree == TreeLine(input) && parents == ParentLines(tree.rest)
    requires author == AuthorLine(parents.rest) && committer == CommitterLine(author.rest)
    requires sig == OptGpgsigLine(committer.rest)
    ensures tree.Done? && parents.Done? && author.Done? && committer.Done? && sig.Done?
    ensures (sig.value.Some? ==> ValidUtf8(sig.value.value)) && ValidUtf8(sig.rest)
  {
  }

  /** The field lines of a commit, each read where the last ended, put back together. */
  lemma CommitPieces(input: Bytes, afterTree: Bytes, afterParents: Bytes, afterAuthor: Bytes,
                     afterCommitter: Bytes, c: RawCommit)
    requires input == TREE_TAG + c.tree.text + c.tree.eol + afterTree
    requires afterTree == ParentBytes(c.parents) + afterParents
    requires afterParents == AUTHOR_TAG + UserBytes(c.author) + [LF] + afterAuthor
    requires afterAuthor == COMMITTER_TAG + UserBytes(c.committer) + [LF] + afterCommitter
    requires afterCommitter == SigBytes(c.gpgsig) + c.message
    ensures input == CommitBytes(c)
  {
  }

  /** The parent lines end where the author line starts. */
  lemma ParentsBeforeAuthor(ps: seq<EndedLine>, u: RawUser, rest: Bytes)
    requires |ps| <= 3 && GoodLines(ps)
    ensures ParentLines(ParentBytes(ps) + (AuthorBytes(u) + rest)) == Done(AuthorBytes(u) + rest, Head(ps))
  {
    AuthorNotAParent(u, rest);
    ParentsOf(ps, AuthorBytes(u) + rest);
  }

  /** An author line is not a parent line. */
  lemma AuthorNotAParent(u: RawUser, rest: Bytes)
    ensures OptParentLine(AuthorBytes(u) + rest) == Done(AuthorBytes(u) + rest, None)
  {
    TagLetters();
    assert AuthorBytes(u) + rest == AUTHOR_TAG + (UserBytes(u) + [LF] + rest);
    NotAParent(AUTHOR_TAG, UserBytes(u) + [LF] + rest);
  }

  /** The stages of `parse_git_commit_entry`, each read where the last ended. */
  lemma CommitEntryOf(input: Bytes, afterTree: Bytes, afterParents: Bytes, afterAuthor: Bytes,
                      afterCommitter: Bytes, message: Bytes, t: Bytes, p: Option<Bytes>,
                      author: GitUser, committer: GitUser, sig: Option<Bytes>)
    requires TreeLine(input) == Done(afterTree, t)
    requires ParentLines(afterTree) == Done(afterParents, p)
    requires AuthorLine(afterParents) == Done(afterAuthor, author)
    requires CommitterLine(afterAuthor) == Done(afterCommitter, committer)
    requires OptGpgsigLine(afterCommitter) == Done(message, sig)
    requires sig.Some? ==> ValidUtf8(sig.value)
    ensures ParseGitCommitEntry(input)
      == if ValidUtf8(message) then Done([], GitCommitEntry(t, p, author, committer, sig, message)) else Panic
  {
  }

  /** A body that does not start with "tree " is rejected. */
  lemma MissingTreeFails(input: Bytes)
    requires !StartsWith(input, TREE_TAG)
    ensures ParseGitCommitEntry(input).Error?
  {
  }

  /** A body whose author line fails after the tree and parent lines is rejected. */
  lemma FailsAtAuthor(input: Bytes, afterTree: Bytes, afterParents: Bytes, t: Bytes, p: Option<Bytes>)
    requires TreeLine(input) == Done(afterTree, t)
    requires ParentLines(afterTree) == Done(afterParents, p)
    requires !StartsWith(afterParents, AUTHOR_TAG)
    ensures ParseGitCommitEntry(input).Error?
  {
  }

  /** A body whose committer line fails after the author line is rejected. */
  lemma FailsAtCommitter(input: Bytes, afterTree: Bytes, afterParents: Bytes, afterAuthor: Bytes,
                         t: Bytes, p: Option<Bytes>, author: GitUser)
    requires TreeLine(input) == Done(afterTree, t)
    requires ParentLines(afterTree) == Done(afterParents, p)
    requires AuthorLine(afterParents) == Done(afterAuthor, author)
    requires !StartsWith(afterAuthor, COMMITTER_TAG)
    ensures ParseGitCommitEntry(input).Error?
  {
  }

  /** The tree line's bytes. */
  function TreeBytes(t: EndedLine): Bytes { TREE_TAG + t.text + t.eol }

  /** A body without a committer line after the author line is rejected. */
  lemma MissingCommitterFails(t: EndedLine, ps: seq<EndedLine>, u: RawUser, rest: Bytes)
    requires GoodLine(t)
    requires |ps| <= 3 && GoodLines(ps)
    requires GoodUser(u) && !StartsWith(rest, COMMITTER_TAG)
    ensures ParseGitCommitEntry(TreeBytes(t) + (ParentBytes(ps) + (AuthorBytes(u) + rest))).Error?
  {
    var afterTree := ParentBytes(ps) + (AuthorBytes(u) + rest);
    TreeLineOf(t.text, t.eol, afterTree);
    ParentsBeforeAuthor(ps, u, rest);
    AuthorLineOf(u, rest);
    FailsAtCommitter(TreeBytes(t) + afterTree, afterTree, AuthorBytes(u) + rest, rest, t.text, Head(ps), Reported(u));
  }

  /** A fourth parent line is rejected: the author parser then sees "parent ". */
  lemma FourthParentFails(t: EndedLine, ps: seq<EndedLine>, fourth: Bytes)
    requires GoodLine(t)
    requires |ps| == 3 && GoodLines(ps)
    ensures ParseGitCommitEntry(TreeBytes(t) + (ParentBytes(ps) + (PARENT_TAG + fourth))).Error?
  {
    var last := PARENT_TAG + fourth;
    var afterTree := ParentBytes(ps) + last;
    TreeLineOf(t.text, t.eol, afterTree);
    ParentBytesUnderThree(ps, last);
    ParentIsNotAuthor(fourth);
    FailsAtAuthor(TreeBytes(t) + afterTree, afterTree, last, t.text, Some(ps[0].text));
  }

  lemma ParentIsNotAuthor(x: Bytes)
    ensures !StartsWith(PARENT_TAG + x, AUTHOR_TAG)
  {
    TagLetters();
    assert (PARENT_TAG + x)[0] == PARENT_TAG[0];
  }

  /** Three parent lines are all consumed whatever follows them. */
  lemma ParentBytesUnderThree(ps: seq<EndedLine>, rest: Bytes)
    requires |ps| == 3 && GoodLines(ps)
    ensures ParentLines(ParentBytes(ps) + rest) == Done(rest, Some(ps[0].text))
  {
    ParentBytesCons(ps, rest);
    assert ps[1..][1..] == ps[2..];
    ParentBytesCons(ps[1..], rest);
    ParentBytesCons(ps[2..], rest);
    assert ParentBytes(ps[2..][1..]) + rest == rest;
    ParentLineOf(ps[0].text, ps[0].eol, ParentBytes(ps[1..]) + rest);
    ParentLineOf(ps[1].text, ps[1].eol, ParentBytes(ps[2..]) + rest);
    ParentLineOf(ps[2].text, ps[2].eol, rest);
  }

  /** A committer line where the author line belongs is rejected. */
  lemma CommitterFirstFails(t: EndedLine, ps: seq<EndedLine>, rest: Bytes)
    requires GoodLine(t)
    requires |ps| <= 3 && GoodLines(ps)
    ensures ParseGitCommitEntry(TreeBytes(t) + (ParentBytes(ps) + (COMMITTER_TAG + rest))).Error?
  {
    var afterParents := COMMITTER_TAG + rest;
    var afterTree := ParentBytes(ps) + afterParents;
    TreeLineOf(t.text, t.eol, afterTree);
    CommitterIsNeither(rest);
    ParentsOf(ps, afterParents);
    FailsAtAuthor(TreeBytes(t) + afterTree, afterTree, afterParents, t.text, Head(ps));
  }

  lemma CommitterIsNeither(x: Bytes)
    ensures OptParentLine(COMMITTER_TAG + x) == Done(COMMITTER_TAG + x, None)
    ensures !StartsWith(COMMITTER_TAG + x, AUTHOR_TAG)
  {
    TagLetters();
    NotAParent(COMMITTER_TAG, x);
    assert (COMMITTER_TAG + x)[0] == COMMITTER_TAG[0];
  }
}
