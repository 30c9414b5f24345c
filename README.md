# Git2Json object and index parsers in Dafny

This project models the byte-level parsers of Git2Json. Git2Json reads Git's
on-disk formats with the `nom` parser-combinator library, and the model covers
four of its parsers:

- **Loose objects** (`src/git_parser/parsers.rs`). A decompressed loose object
  starts with a header, `<kind> <digits>\0`. The body is then read according
  to the kind:
  - a tree is read as a list of entries;
  - a commit is read as header lines followed by message lines;
  - a blob is read as lines.
- **The older loose-object parser** (`src/git_parser.rs`). It reads lines as
  runs of non-empty text, and keeps a blob as one string.
- **The structured commit parser** (`src/git_parser/commit/mod.rs`). It reads
  the fields of a commit in this order:
  - `tree`;
  - up to three `parent` lines;
  - `author` and `committer`, each split into name, email and timestamp;
  - an optional PGP signature;
  - the message.
- **The version 2 pack index reader** (`read_idx` in
  `src/git_parser/idx/mod.rs`). It reads the fanout table, the object names
  and the pack offsets out of the bytes of an `.idx` file.

Each nom combinator becomes a Dafny function (module `Nom`) that returns a
`ParseResult`:

- `Done(rest, value)`: the parser succeeded, and `rest` is the unconsumed input;
- `Error`: a recoverable failure;
- `Incomplete`: a streaming parser needs more input;
- `Panic`: `str::from_utf8(..).expect(..)` was called on bytes that are not UTF-8.

The combinators `many0`, `opt`, `alt` and `separated_list0` recover only from
an `Error` of the parser they wrap: they then stop, or try the next choice,
where that parser began. `many_till` recovers only from an `Error` of its
terminator; an `Error` of its element parser fails the whole loop.
`Incomplete` and `Panic` pass through all of them unchanged. A Rust `String` is modelled by its UTF-8 bytes. UTF-8
validity follows the table of well-formed byte sequences in section 4 of
RFC 3629 (module `Text`). `str::trim` removes the Unicode `White_Space`
characters from both ends.

Every parser is a pure function. Each one is paired with a layout function
that builds the bytes a value is written as, and a lemma proves that parsing
those bytes gives the value back. Further lemmas cover the following:

- which inputs are rejected, and how (`Error`, `Incomplete` or `Panic`);
- which bytes are ignored;
- how the results relate to reference definitions:
  - `SplitLines` for line splitting;
  - `HexString` and `HexDecode` for hash rendering;
  - `IndexLayout` for the pack index.

## Model

| member | source | states |
|---|---|---|
| Parsers.ParseObjectType | src/git_parser/parsers.rs:20-26 | On success, the input is the recognised kind word followed by the remainder. |
| Parsers.ObjectTypeOutcomes | src/git_parser/parsers.rs:20-26 | The kind parser succeeds exactly when the input starts with "blob", "commit" or "tree", so any other word, "tag" included, is rejected. It asks for more input exactly when the input is a proper prefix of one of those words. |
| Parsers.ObjectTypeOf | src/git_parser/parsers.rs:20-26 | Each kind word maps to its kind and consumes exactly the word. |
| Parsers.ParseObjectLength | src/git_parser/parsers.rs:28-30 | Succeeds with one or more digits followed directly by NUL, and returns the digits. An input of digits only asks for more input. Any other input is an error. |
| Parsers.ObjectLengthOf | src/git_parser/parsers.rs:28-30 | Digits followed by NUL are returned, and reading resumes right after the NUL. |
| Parsers.ParseHeader | src/git_parser/parsers.rs:107-110 | A parsed header consumes at least one byte, and its length field is one or more digits. |
| Parsers.HeaderLayout | src/git_parser/parsers.rs:107-110 | A kind word, any whitespace, digits and NUL parse to that kind and those digits, and the body starts right after the NUL. |
| Parsers.HeaderSound | src/git_parser/parsers.rs:107-110 | A parsed header is always a kind word, whitespace, digits and NUL, followed by the body. |
| Parsers.HeaderTruncated | src/git_parser/parsers.rs:28-30 | A header cut off after at least one length digit, before its NUL, makes the whole object parse ask for more input. |
| Parsers.HeaderWithoutDigits | src/git_parser/parsers.rs:28-30 | A kind word and whitespace followed by the end of the input, or by a byte that is neither a digit nor whitespace, is a recoverable error, not a request for more input. |
| Parsers.DeclaredLengthIgnored | src/git_parser/parsers.rs:106-112 | The parsed object does not depend on the declared length: whatever the digits say, the body is read according to the kind alone. |
| Parsers.ParseTreeEntry | src/git_parser/parsers.rs:32-51 | A parsed entry consumes at least 24 bytes: a mode digit, a blank, a name byte, NUL and 20 hash bytes. |
| Parsers.TreeEntryLayout | src/git_parser/parsers.rs:32-51 | A well-formed entry parses to its mode, its name and its hash rendered as hex. The entry is: digits, spaces or tabs, a UTF-8 name that has no NUL and does not start with a blank, NUL, and 20 hash bytes. |
| Parsers.TreeEntrySound | src/git_parser/parsers.rs:32-51 | A parsed entry consumed exactly mode + blanks + name + NUL + 20 hash bytes, of a well-formed entry, and the value is that entry rendered. |
| Parsers.ModeDecodes | src/git_parser/parsers.rs:33-34 | The mode is ASCII digits, so its UTF-8 conversion never aborts. |
| Parsers.TreeEntryNameLosesLeadingBlanks | src/git_parser/parsers.rs:33-36 | Extra blanks before the name are taken as part of the separator, so the name loses them. |
| Parsers.TreeEntryEmptyName | src/git_parser/parsers.rs:36 | An empty name is a recoverable error. |
| Parsers.TreeEntryNoNul | src/git_parser/parsers.rs:36 | A name with no NUL after it asks for more input. |
| Parsers.TreeEntryNameOrHashBad | src/git_parser/parsers.rs:36-41 | A name that is not UTF-8 aborts the parse. A hash shorter than 20 bytes asks for more input. |
| Parsers.TreeEntriesInOrder | src/git_parser/parsers.rs:113-116 | Well-formed entries come out in input order. Reading stops at the first point where an entry fails with a recoverable error, and the bytes from there on are the remainder. |
| Parsers.TreeEntriesAbort | src/git_parser/parsers.rs:113-116 | A truncated entry or a bad name after any number of good entries fails the whole list the same way, and the entries already read are lost. |
| Parsers.TreeObjectLayout | src/git_parser/parsers.rs:106-116 | A tree object of well-formed entries, the empty tree included, parses to exactly those entries and consumes everything. |
| Parsers.ParseSingleLine | src/git_parser/parsers.rs:53-57 | Reads up to the first CR or LF. It succeeds exactly when that text is UTF-8, and then the text holds no line break. |
| Parsers.SplitLinesJoin | src/git_parser/parsers.rs:59-61 | The reference split has one more piece than the input has CR and LF bytes, no piece holds a line break, and joining the pieces with the original breaks gives back the input. |
| Parsers.CrLfGivesEmptyLine | src/git_parser/parsers.rs:59-61 | CR and LF are separate separators, so CRLF leaves an empty line between them. |
| Parsers.AllLinesSpec | src/git_parser/parsers.rs:53-61 | `parse_all_lines` consumes all of its input and returns the reference split. It aborts exactly when one of the pieces is not UTF-8. |
| Parsers.CommitHeaderSound | src/git_parser/parsers.rs:119-120 | Parsed header lines are LF-terminated and hold no CR or LF, and the empty line that ends them follows directly. |
| Parsers.CommitHeaderLayout | src/git_parser/parsers.rs:119-120 | LF-terminated header lines followed by an empty line are read back as written, and the empty line is consumed. |
| Parsers.HeaderLineStep | src/git_parser/parsers.rs:120 | A header line is not the end marker, and it is read up to its LF. |
| Parsers.CommitHeaderCrLf | src/git_parser/parsers.rs:120 | A header line ended by CRLF is rejected. |
| Parsers.CommitHeaderUnterminated | src/git_parser/parsers.rs:120 | Header lines with no empty line after them ask for more input. |
| Parsers.CommitHeaderLastLineOpen | src/git_parser/parsers.rs:120 | Header lines whose last line has no LF after it also ask for more input. |
| Parsers.CommitBodyLayout | src/git_parser/parsers.rs:118-130 | The metadata of a commit is its header lines, and the content is the reference split of everything after the empty line. Nothing remains. |
| Parsers.BlobBody | src/git_parser/parsers.rs:132-140 | Blob content is the reference split of the whole body, and nothing remains. |
| Hex.HexString | src/git_parser/parsers.rs:39-41 | The hash text has two characters per byte, all of them lowercase hex digits. |
| Hex.HexStringAt | src/git_parser/parsers.rs:39-41 | Characters 2i and 2i+1 are the high and low nibbles of byte i, in byte order. |
| Hex.HexRoundTrip | src/git_parser/parsers.rs:39-41 | Decoding the pairs of the hash text gives back the original bytes. |
| Hex.HexRoundTripText | src/git_parser/parsers.rs:39-41 | Every even-length lowercase hex text is the rendering of its decoding. |
| Text.LeadingWhitespaceIsChar | src/git_parser/commit/mod.rs:49 | The whitespace found at the front is one whole `White_Space` character, and when none is found, no `White_Space` character starts the text. |
| Text.TrailingWhitespaceIsChar | src/git_parser/commit/mod.rs:49 | The same at the end of the text. |
| Text.TrimStart | src/git_parser/commit/mod.rs:49 | The result is what follows a run of whole whitespace characters at the front, and it starts with no whitespace. |
| Text.TrimEnd | src/git_parser/commit/mod.rs:49 | The result is what precedes a run of whole whitespace characters at the end, and it ends with no whitespace. |
| Text.Trim | src/git_parser/commit/mod.rs:49 | The input is whole whitespace characters, then the result, then whole whitespace characters, and the result has no whitespace at either end. |
| Text.TrimmedIsUnchanged | src/git_parser/commit/mod.rs:49 | Text with no whitespace at either end is left unchanged. |
| Text.AsciiIsUtf8 | src/git_parser/parsers.rs:34 | ASCII text always decodes. |
| CommitParser.ParseTree | src/git_parser/commit/mod.rs:33-35 | Rejects exactly the inputs that do not start with "tree ". |
| CommitParser.ParseParent | src/git_parser/commit/mod.rs:37-39 | Rejects exactly the inputs that do not start with "parent ". |
| CommitParser.ParseAuthor | src/git_parser/commit/mod.rs:56-58 | An input that does not start with "author " is rejected. |
| CommitParser.ParseCommitter | src/git_parser/commit/mod.rs:60-62 | An input that does not start with "committer " is rejected. |
| CommitParser.TreeLineOf | src/git_parser/commit/mod.rs:27-35 | The tree value is the text after "tree " up to the line end, which may be LF or CRLF. |
| CommitParser.ParentLineOf | src/git_parser/commit/mod.rs:37-39 | The parent value is the text after "parent " up to the line end, which may be LF or CRLF. |
| CommitParser.UserLayout | src/git_parser/commit/mod.rs:41-54 | A user parses to these parts: the trimmed text before the first '<', the text between '<' and the first '>', and, after a literal "> ", the text up to the next LF. |
| CommitParser.UserSound | src/git_parser/commit/mod.rs:41-54 | Conversely, every user that parses has that layout, is followed by LF or by the end, and is reported with its name trimmed. |
| CommitParser.UserNeedsLt | src/git_parser/commit/mod.rs:42-43 | A user with no '<' is rejected. |
| CommitParser.UserNeedsClose | src/git_parser/commit/mod.rs:43-44 | A user whose email is not closed by "> " is rejected: the input ends inside the email, or its '>' is not followed by a blank. |
| CommitParser.TimestampKeepsCr | src/git_parser/commit/mod.rs:45 | The timestamp runs up to LF only, so on a CRLF line it keeps the CR. |
| CommitParser.TreeLineSound | src/git_parser/commit/mod.rs:76 | Every tree line that parses is "tree ", text without a line break, and LF or CRLF. |
| CommitParser.ParentLineSound | src/git_parser/commit/mod.rs:77 | Every parent line that parses is "parent ", text without a line break, and LF or CRLF. |
| CommitParser.AuthorLineOf | src/git_parser/commit/mod.rs:56-58 | An author line parses to its user, and reading resumes after its LF. |
| CommitParser.CommitterLineOf | src/git_parser/commit/mod.rs:60-62 | A committer line parses to its user, and reading resumes after its LF. |
| CommitParser.AuthorLineSound | src/git_parser/commit/mod.rs:80 | Every author line that parses is "author ", a user, and LF. A CR before the LF belongs to the timestamp. |
| CommitParser.CommitterLineSound | src/git_parser/commit/mod.rs:81 | Every committer line that parses is "committer ", a user, and LF. |
| CommitParser.GpgsigOf | src/git_parser/commit/mod.rs:64-72 | The signature is exactly the bytes between the begin marker and the first end marker, markers excluded. |
| CommitParser.GpgsigSound | src/git_parser/commit/mod.rs:64-72 | Conversely, every signature that parses is the bytes before the first end marker. |
| CommitParser.SigLineOf | src/git_parser/commit/mod.rs:82 | A signature block and its line ending give the signature. Without one, nothing is consumed, provided the rest does not start with the begin marker. |
| CommitParser.SigLineSound | src/git_parser/commit/mod.rs:82 | Every optional signature line that parses is a block ended by LF or CRLF, or nothing at all. |
| CommitParser.ParentsOf | src/git_parser/commit/mod.rs:77-79 | Up to three parent lines, each ended by LF or CRLF, are consumed. The value is the first of them, or none when there is no parent line. |
| CommitParser.ParentLinesSound | src/git_parser/commit/mod.rs:77-79 | Every run of parent lines that parses is at most three parent lines, and the value is the first of them. |
| CommitParser.ParentBytesUnderThree | src/git_parser/commit/mod.rs:77-79 | With three parent lines, all three are consumed whatever follows them. |
| CommitParser.CommitLayout | src/git_parser/commit/mod.rs:75-96 | A commit with its fields in order parses to: its tree, its first parent, its author and committer as reported, its signature, and the rest as message. Nothing remains. The tree, parent and signature lines may end in LF or CRLF. A message that is not UTF-8 aborts. |
| CommitParser.CommitSound | src/git_parser/commit/mod.rs:75-96 | Conversely, every commit body that parses is a commit with good fields, laid out as `CommitLayout` reads it, with a UTF-8 message. It is reported as that commit, and nothing remains. |
| CommitParser.MissingTreeFails | src/git_parser/commit/mod.rs:76 | A body that does not start with a tree line is rejected. |
| CommitParser.CommitterFirstFails | src/git_parser/commit/mod.rs:80 | A committer line where the author line belongs is rejected. |
| CommitParser.MissingCommitterFails | src/git_parser/commit/mod.rs:81 | A body with no committer line after the author line is rejected. |
| CommitParser.FourthParentFails | src/git_parser/commit/mod.rs:77-80 | A fourth parent line is rejected, because the author parser then sees "parent ". |
| LegacyParser.ParseLine | src/git_parser.rs:85 | Fails recoverably exactly on empty input or a leading line break. Otherwise it reads the non-empty run up to the next break or the end: it succeeds exactly when that run is UTF-8, and aborts when it is not. |
| LegacyParser.LinesEmpty | src/git_parser.rs:82-87 | On empty input, or input that starts with CR or LF, no lines are read and nothing is consumed. |
| LegacyParser.LinesLayout | src/git_parser.rs:82-87 | Non-empty lines separated by single CR or LF bytes are read back as written. Reading stops before a break that no line follows, and that break stays in the remainder. |
| LegacyParser.MoreLinesLayout | src/git_parser.rs:82-87 | After a break, the following run of lines is read up to where the run ends. |
| LegacyParser.LinesAbort | src/git_parser.rs:82-87 | A line that is not UTF-8 after any run of good lines aborts the whole list, and the lines already read are lost. |
| LegacyParser.SkipBreaksOf | src/git_parser.rs:105 | Every CR and LF at the front is skipped, and nothing else is. |
| LegacyParser.LegacyCommitLayout | src/git_parser.rs:102-114 | The metadata is the lines before the first empty line. The breaks after them are skipped, and the content is the next block of lines. What follows the next empty line is not consumed. |
| LegacyParser.LegacyBlobBody | src/git_parser.rs:116-119 | A blob is its whole body as one string, and nothing remains. A body that is not UTF-8 aborts. |
| LegacyParser.LegacyTreeLayout | src/git_parser.rs:89-100 | Trees are read as in the newer parser: the entries come out in order, and the empty tree gives no entries. |
| LegacyParser.LegacyAfterHeader | src/git_parser.rs:89-96 | After a kind word, whitespace, digits and NUL, the object is whatever the body parser for that kind makes of the rest: the declared length plays no part. |
| Idx.ParseSha | src/git_parser/idx/mod.rs:20-24 | Succeeds exactly when 20 bytes are available, consumes exactly them, and otherwise asks for more input. |
| Idx.ShaDecodes | src/git_parser/idx/mod.rs:20-24 | The name is 40 lowercase hex characters, and decoding them gives back the 20 bytes read. |
| Idx.FanoutStep | src/git_parser/idx/mod.rs:35-42 | The fanout is 256 big-endian words taken from bytes 8 to 1032, it is read exactly when the file is that long, and N is its last word. |
| Idx.NamesStage | src/git_parser/idx/mod.rs:44-48 | N names are read from the 20N bytes at the current position, or the step asks for more input. |
| Idx.CrcStage | src/git_parser/idx/mod.rs:51-56 | The 4N CRC bytes are skipped when they are present. |
| Idx.OffsetsStage | src/git_parser/idx/mod.rs:58-63 | N big-endian offsets are read from the 4N bytes at the current position, or the step asks for more input. |
| Idx.ChecksumsStep | src/git_parser/idx/mod.rs:65-77 | Both checksums are read exactly when 40 bytes remain. |
| Idx.ReadIdxLayout | src/git_parser/idx/mod.rs:26-81 | `read_idx` is the reference layout: the names at 1032 + 20i, and the offsets at 1032 + 24N + 4i. It fails exactly when the file is shorter than the tables and checksums need. |
| Idx.ReadIdxOutcome | src/git_parser/idx/mod.rs:26-81 | Reading succeeds exactly when the file has at least 1072 + 28N bytes, and then there are N names and N offsets. |
| Idx.ReadIdxEntry | src/git_parser/idx/mod.rs:44-63 | Name i is the hex of bytes 1032 + 20i to 1052 + 20i, and offset i is the big-endian word at 1032 + 24N + 4i. |
| Idx.HeaderIgnored | src/git_parser/idx/mod.rs:29-33 | The magic number and the version bytes are never checked: files that differ only there read the same. |
| Idx.TrailingIgnored | src/git_parser/idx/mod.rs:72-81 | Bytes after the two checksums are ignored. |

## Left out

- File reading and zlib inflation in `read_git_file` (src/git_parser.rs:123-128) and `read_idx` (src/git_parser/idx/mod.rs:27) are I/O and calls into the external `flate2` crate. The model starts from the decompressed or read bytes. `read_git_file` itself is not part of this model: apart from that I/O, it only maps a parse failure to `InvalidData` and a success to a fixed string.
- `read_idx` panics in `split_at` on a file shorter than 8 bytes. The model makes that length a precondition of `Idx.ReadIdx`.
- `read_idx` converts the fanout's last word to `usize` with `try_into().unwrap()`. That never fails on 32- and 64-bit targets, so the model uses the word as a natural number.
- All `println!` diagnostics are output only, and are left out.
- src/git_parser/pack/mod.rs is not part of this model: it only reads a file and prints a count. src/main.rs is the entry point, and is not part of this model either.
- The commented-out `parse_git_commit_entry` stub at src/git_parser/parsers.rs:63-104 has no logic, and is not part of this model.
- UTF-8 decoding with `.expect` is modelled as the `Panic` outcome, not as a precondition on the input. In a tree, a file name sits between binary hashes, so no simple condition on the input bytes expresses "every name is UTF-8". Lemmas state when the line, entry, blob and commit parsers abort (`ParseSingleLine`, `AllLinesSpec`, `TreeEntryNameOrHashBad`, `ParseLine`, `LinesAbort`, `LegacyBlobBody`, `CommitLayout`). For the two-run legacy commit, only the layout of a good commit is stated.
- nom's loops stop with an error when a round consumes nothing. `separated_list0` checks this on the separator only; here the separator is `one_of`, which always consumes one byte. The `many0` over tree entries repeats a parser that consumes at least 24 bytes, the `many0` over line breaks repeats `one_of`, and each round of `many_till` consumes the LF after a line. So the check can never fire, and the model leaves it out; the element parser of `separated_list0` (`parse_single_line`) may consume nothing, which is harmless because every round consumes a separator.
- `Idx.ParseSha` returns the name as the bytes of its 40 hex characters. The model does not build a Rust `String` from them.
- The `parse_single_line` of src/git_parser/commit/mod.rs:27-31 is the same as that of src/git_parser/parsers.rs:53-57, so the commit parser reuses `Parsers.ParseSingleLine`. Likewise, the kind, length and tree-entry parsers of src/git_parser.rs:49-80 are the same as those of parsers.rs, so `LegacyParser` reuses them.
- The `GitTreeEntry` mode and name are kept as bytes. Their conversion to `String` is modelled only by the UTF-8 check.
