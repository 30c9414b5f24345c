/**
 * `read_idx`: the reader of a version 2 pack index, over the bytes of the
 * file. The layout it expects, in order:
 *   bytes 0..4         magic number (not checked)
 *   bytes 4..8         version number (not checked)
 *   bytes 8..1032      fanout table, 256 big-endian u32; the last one is N
 *   20 * N bytes       object names (SHA-1)
 *   4 * N bytes        CRC32 values (read and dropped)
 *   4 * N bytes        pack offsets, big-endian u32
 *   20 + 20 bytes      pack checksum and index checksum
 * and anything after that is ignored.
 */
module Idx {
  import opened Nom
  import opened Hex
  import opened Types

  /** The `io::Result` of `read_idx`; every parse failure is `InvalidData`. */
  datatype IoResult = Ok(file: GitIndexFile) | InvalidData

  /** `parse_sha`: 20 bytes, rendered as 40 lowercase hex digits. */
  function ParseSha(input: Bytes): (r: ParseResult<Bytes>)
    ensures r.Done? || r.Incomplete?
    ensures r.Done? <==> 20 <= |input|
    ensures r.Done? ==> r.rest == input[20..]
  {
    var h := Take(20, input);
    if !h.Done? then h.Propagate()
    else Done(h.rest, HexString(h.value))
  }

  /** A parsed hash is 40 lowercase hex digits that decode back to its 20 bytes. */
  lemma ShaDecodes(input: Bytes)
    requires 20 <= |input|
    ensures |ParseSha(input).value| == 40 && All(ParseSha(input).value, IsLowerHexDigit)
    ensures HexDecode(ParseSha(input).value) == input[..20]
  {
    HexRoundTrip(input[..20]);
  }

  /** `take(4usize)`, the parser of one CRC value. */
  function TakeCrc(input: Bytes): ParseResult<Bytes>
  {
    Take(4, input)
  }

  /** Where the object names start: after magic, version and fanout. */
  const NAMES: nat := 1032

  /**
   * `read_idx` on the bytes of the file. Splitting off magic and version
   * needs 8 bytes (a shorter file panics in `split_at`).
   */
  function ReadIdx(contents: Bytes): IoResult
    requires |contents| >= 8
  {
    var remainder := contents[8..];
    var fanout := Count(BeU32, 256, remainder);
    if !fanout.Done? then InvalidData
    else
      FixedWidthBeU32();
      CountFixedWidth(BeU32, 4, 256, remainder);
      ReadTables(fanout.value[255], fanout.rest)
  }

  /**
   * The rest of `read_idx` once the fanout gave N: names, CRCs, offsets and
   * the two checksums, each a failure as `InvalidData`.
   */
  function ReadTables(n: nat, remainder: Bytes): IoResult
  {
    var shas := Count(ParseSha, n, remainder);
    if !shas.Done? then InvalidData
    else
      var crcs := Count(TakeCrc, n, shas.rest);
      if !crcs.Done? then InvalidData
      else
        var offsets := Count(BeU32, n, crcs.rest);
        if !offsets.Done? then InvalidData
        else
          var packChecksum := ParseSha(offsets.rest);
          if !packChecksum.Done? then InvalidData
          else
            var idxChecksum := ParseSha(packChecksum.rest);
            if !idxChecksum.Done? then InvalidData
            else Ok(GitIndexFile(shas.value, offsets.value))
  }

  lemma FixedWidthBeU32()
    ensures FixedWidth(BeU32, 4)
  {
    forall s: Bytes ensures ReadsWidth(BeU32, 4, s) {
    }
  }

  lemma FixedWidthSha()
    ensures FixedWidth(ParseSha, 20)
  {
    forall s: Bytes ensures ReadsWidth(ParseSha, 20, s) {
    }
  }

  lemma FixedWidthCrc()
    ensures FixedWidth(TakeCrc, 4)
  {
    forall s: Bytes ensures ReadsWidth(TakeCrc, 4, s) {
    }
  }

  /** A fixed-width `count` started at byte `at` of `c`. */
  lemma CountAt<T>(p: Bytes -> ParseResult<T>, w: nat, n: nat, c: Bytes, at: nat)
    requires FixedWidth(p, w) && at <= |c|
    ensures Count(p, n, c[at..]).Done? <==> at + n * w <= |c|
    ensures Count(p, n, c[at..]).Done? ==> Count(p, n, c[at..]).rest == c[at + n * w..]
  {
    CountFixedWidth(p, w, n, c[at..]);
    if at + n * w <= |c| {
      assert c[at..][n * w..] == c[at + n * w..];
    }
  }

  /** Item `i` of a fixed-width `count` started at byte `at` of `c`. */
  lemma CountItemAt<T>(p: Bytes -> ParseResult<T>, w: nat, n: nat, c: Bytes, at: nat, i: nat)
    requires FixedWidth(p, w) && at <= |c|
    requires Count(p, n, c[at..]).Done? && i < n
    ensures |Count(p, n, c[at..]).value| == n && at + i * w + w <= |c|
    ensures p(c[at + i * w..]).Done? && Count(p, n, c[at..]).value[i] == p(c[at + i * w..]).value
  {
    CountItem(p, w, n, c[at..], i);
    assert c[at..][i * w..] == c[at + i * w..];
  }

  /** N: the last fanout entry, the big-endian u32 at bytes 1028..1032. */
  function ObjectCount(c: Bytes): nat
    requires |c| >= NAMES
  {
    BigEndian(c[1028..NAMES])
  }

  /** The hex names of the `n` 20-byte blocks from byte `at` of `c`. */
  function Names(c: Bytes, at: nat, n: nat): (r: seq<Bytes>)
    requires at + 20 * n <= |c|
    ensures |r| == n
  {
    seq(n, i requires 0 <= i < n => HexString(c[at + 20 * i..at + 20 * i + 20]))
  }

  /** The `n` big-endian u32 values from byte `at` of `c`. */
  function Offsets(c: Bytes, at: nat, n: nat): (r: seq<nat>)
    requires at + 4 * n <= |c|
    ensures |r| == n
  {
    seq(n, i requires 0 <= i < n => BigEndian(c[at + 4 * i..at + 4 * i + 4]))
  }

  /**
   * The version 2 index layout, stated by byte position: a file with its
   * fanout and 1072 + 28 * N bytes holds N names from byte 1032 and N
   * offsets from byte 1032 + 24 * N; any shorter file is `InvalidData`.
   */
  function IndexLayout(c: Bytes): IoResult
    requires |c| >= 8
  {
    if |c| < NAMES then InvalidData
    else
      var n := ObjectCount(c);
      if |c| < 1072 + 28 * n then InvalidData
      else Ok(GitIndexFile(Names(c, NAMES, n), Offsets(c, NAMES + 24 * n, n)))
  }

  /** The fanout table is read whole exactly when the file has its 1032 bytes. */
  lemma FanoutStep(c: Bytes)
    requires |c| >= 8
    ensures FixedWidth(BeU32, 4)
    ensures Count(BeU32, 256, c[8..]).Done? <==> |c| >= NAMES
    ensures Count(BeU32, 256, c[8..]).Done? ==>
      && Count(BeU32, 256, c[8..]).rest == c[NAMES..]
      && |Count(BeU32, 256, c[8..]).value| == 256
      && Count(BeU32, 256, c[8..]).value[255] == ObjectCount(c)
  {
    FixedWidthBeU32();
    CountAt(BeU32, 4, 256, c, 8);
    if |c| >= NAMES {
      CountItemAt(BeU32, 4, 256, c, 8, 255);
      assert c[1028..][..4] == c[1028..NAMES];
    }
  }

  /** The object-name table: `n` hex names when there are `20 * n` bytes. */
  lemma NamesStage(c: Bytes, at: nat, n: nat)
    requires at <= |c|
    ensures Count(ParseSha, n, c[at..])
      == if at + 20 * n <= |c| then Done(c[at + 20 * n..], Names(c, at, n)) else Incomplete
  {
    FixedWidthSha();
    CountAt(ParseSha, 20, n, c, at);
    CountFixedWidth(ParseSha, 20, n, c[at..]);
    if at + 20 * n <= |c| {
      var r := Count(ParseSha, n, c[at..]);
      forall i | 0 <= i < n
        ensures r.value[i] == Names(c, at, n)[i]
      {
        CountItemAt(ParseSha, 20, n, c, at, i);
        assert c[at + i * 20..][..20] == c[at + 20 * i..at + 20 * i + 20];
      }
      assert r.value == Names(c, at, n);
    }
  }

  /** The CRC table is skipped when there are `4 * n` bytes. */
  lemma CrcStage(c: Bytes, at: nat, n: nat)
    requires at <= |c|
    ensures Count(TakeCrc, n, c[at..]).Done? <==> at + 4 * n <= |c|
    ensures Count(TakeCrc, n, c[at..]).Done? ==> Count(TakeCrc, n, c[at..]).rest == c[at + 4 * n..]
  {
    FixedWidthCrc();
    CountAt(TakeCrc, 4, n, c, at);
  }

  /** The offset table: `n` big-endian u32 values when there are `4 * n` bytes. */
  lemma OffsetsStage(c: Bytes, at: nat, n: nat)
    requires at <= |c|
    ensures Count(BeU32, n, c[at..])
      == if at + 4 * n <= |c| then Done(c[at + 4 * n..], Offsets(c, at, n)) else Incomplete
  {
    FixedWidthBeU32();
    CountAt(BeU32, 4, n, c, at);
    CountFixedWidth(BeU32, 4, n, c[at..]);
    if at + 4 * n <= |c| {
      var r := Count(BeU32, n, c[at..]);
      forall i | 0 <= i < n
        ensures r.value[i] == Offsets(c, at, n)[i]
      {
        CountItemAt(BeU32, 4, n, c, at, i);
        assert c[at + i * 4..][..4] == c[at + 4 * i..at + 4 * i + 4];
      }
      assert r.value == Offsets(c, at, n);
    }
  }

  /** `read_idx` reads exactly the version 2 layout. */
  lemma ReadIdxLayout(c: Bytes)
    requires |c| >= 8
    ensures ReadIdx(c) == IndexLayout(c)
  {
    FanoutStep(c);
    if |c| >= NAMES {
      TablesLayout(c, ObjectCount(c));
    }
  }

  /** The tables after the fanout, by byte position in the file. */
  lemma TablesLayout(c: Bytes, n: nat)
    requires |c| >= NAMES
    ensures ReadTables(n, c[NAMES..])
      == if |c| < 1072 + 28 * n then InvalidData
         else Ok(GitIndexFile(Names(c, NAMES, n), Offsets(c, NAMES + 24 * n, n)))
  {
    if |c| < NAMES + 20 * n {
      NamesStage(c, NAMES, n);
    } else if |c| < NAMES + 24 * n {
      TablesWithoutCrcs(c, n);
    } else if |c| < NAMES + 28 * n {
      TablesWithoutOffsets(c, n);
    } else {
      TablesWhole(c, n);
    }
  }

  lemma TablesWithoutCrcs(c: Bytes, n: nat)
    requires NAMES + 20 * n <= |c| < NAMES + 24 * n
    ensures ReadTables(n, c[NAMES..]) == InvalidData
  {
    NamesStage(c, NAMES, n);
    CrcStage(c, NAMES + 20 * n, n);
  }

  lemma TablesWithoutOffsets(c: Bytes, n: nat)
    requires NAMES + 24 * n <= |c| < NAMES + 28 * n
    ensures ReadTables(n, c[NAMES..]) == InvalidData
  {
    NamesStage(c, NAMES, n);
    CrcStage(c, NAMES + 20 * n, n);
    OffsetsStage(c, NAMES + 24 * n, n);
  }

  lemma TablesWhole(c: Bytes, n: nat)
    requires NAMES + 28 * n <= |c|
    ensures ReadTables(n, c[NAMES..])
      == if |c| < 1072 + 28 * n then InvalidData
         else Ok(GitIndexFile(Names(c, NAMES, n), Offsets(c, NAMES + 24 * n, n)))
  {
    NamesStage(c, NAMES, n);
    CrcStage(c, NAMES + 20 * n, n);
    OffsetsStage(c, NAMES + 24 * n, n);
    ChecksumsStep(c[NAMES + 28 * n..]);
    ReadTablesOf(n, c[NAMES..], c[NAMES + 20 * n..], Names(c, NAMES, n),
                 c[NAMES + 24 * n..], c[NAMES + 28 * n..], Offsets(c, NAMES + 24 * n, n));
  }

  /** The stages of `ReadTables`, each read where the last ended. */
  lemma ReadTablesOf(n: nat, remainder: Bytes, afterNames: Bytes, names: seq<Bytes>,
                     afterCrcs: Bytes, afterOffsets: Bytes, offsets: seq<nat>)
    requires Count(ParseSha, n, remainder) == Done(afterNames, names)
    requires Count(TakeCrc, n, afterNames).Done? && Count(TakeCrc, n, afterNames).rest == afterCrcs
    requires Count(BeU32, n, afterCrcs) == Done(afterOffsets, offsets)
    ensures ReadTables(n, remainder)
      == if ParseSha(afterOffsets).Done? && ParseSha(ParseSha(afterOffsets).rest).Done?
         then Ok(GitIndexFile(names, offsets)) else InvalidData
  {
  }

  /** The two checksums are read exactly when 40 bytes are left. */
  lemma ChecksumsStep(t: Bytes)
    ensures ParseSha(t).Done? && ParseSha(ParseSha(t).rest).Done? <==> 40 <= |t|
  {
    if 20 <= |t| {
      assert |t[20..]| == |t| - 20;
    }
  }

  /**
   * The index is read exactly when the file holds the fanout table and,
   * for the N it declares, the three tables and the two checksums. On
   * success there are N names and N offsets.
   */
  lemma ReadIdxOutcome(c: Bytes)
    requires |c| >= 8
    ensures ReadIdx(c).Ok? <==> |c| >= NAMES && 1072 + 28 * ObjectCount(c) <= |c|
    ensures ReadIdx(c).Ok? ==>
      |ReadIdx(c).file.objectNames| == ObjectCount(c) == |ReadIdx(c).file.offsets|
  {
    ReadIdxLayout(c);
  }

  /**
   * Name `i` is the hex of bytes 1032 + 20i .. 1032 + 20i + 20, and offset
   * `i` the big-endian u32 at byte 1032 + 24N + 4i (after the names and
   * the CRC table).
   */
  lemma ReadIdxEntry(c: Bytes, i: nat)
    requires |c| >= 8 && ReadIdx(c).Ok?
    ensures |c| >= NAMES
    ensures |ReadIdx(c).file.objectNames| == ObjectCount(c) == |ReadIdx(c).file.offsets|
    ensures i < ObjectCount(c) ==>
      && NAMES + 24 * ObjectCount(c) + 4 * i + 4 <= |c|
      && ReadIdx(c).file.objectNames[i] == HexString(c[NAMES + 20 * i..NAMES + 20 * i + 20])
      && ReadIdx(c).file.offsets[i] == BigEndian(c[NAMES + 24 * ObjectCount(c) + 4 * i..NAMES + 24 * ObjectCount(c) + 4 * i + 4])
  {
    ReadIdxLayout(c);
  }

  /**
   * Only the bytes from the last fanout entry on decide the result: magic,
   * version and the first 255 fanout entries are never checked (so a
   * fanout that is not sorted is accepted).
   */
  lemma HeaderIgnored(c: Bytes, d: Bytes)
    requires |c| >= 1028 && |d| >= 1028 && c[1028..] == d[1028..]
    ensures ReadIdx(c) == ReadIdx(d)
  {
    ReadIdxLayout(c);
    ReadIdxLayout(d);
    LayoutIgnoresHeader(c, d);
  }

  lemma LayoutIgnoresHeader(c: Bytes, d: Bytes)
    requires |c| >= 1028 && |d| >= 1028 && c[1028..] == d[1028..]
    ensures IndexLayout(c) == IndexLayout(d)
  {
    assert |c| == |d| && c[1028..|c|] == d[1028..|c|] by {
      assert |c[1028..]| == |d[1028..]|;
    }
    if |c| >= NAMES {
      SliceWithin(c, d, 1028, |c|, 1028, NAMES);
      var n := ObjectCount(c);
      if 1072 + 28 * n <= |c| {
        SliceWithin(c, d, 1028, |c|, 1028, 1072 + 28 * n);
        SameTables(c, d, n);
      }
    }
  }

  /** Bytes after the index checksum are ignored. */
  lemma TrailingIgnored(c: Bytes, extra: Bytes)
    requires |c| >= 8 && ReadIdx(c).Ok?
    ensures ReadIdx(c + extra) == ReadIdx(c)
  {
    ReadIdxLayout(c);
    ReadIdxLayout(c + extra);
    LayoutIgnoresTrailing(c, extra);
  }

  lemma LayoutIgnoresTrailing(c: Bytes, extra: Bytes)
    requires |c| >= 8 && IndexLayout(c).Ok?
    ensures IndexLayout(c + extra) == IndexLayout(c)
  {
    var d := c + extra;
    var n := ObjectCount(c);
    PrefixKept(c, extra, 1028, 1072 + 28 * n);
    assert ObjectCount(d) == n by {
      PrefixKept(c, extra, 1028, NAMES);
    }
    SameTables(c, d, n);
  }

  /** Appending bytes leaves every slice of the original unchanged. */
  lemma PrefixKept(c: Bytes, extra: Bytes, lo: nat, hi: nat)
    requires lo <= hi <= |c|
    ensures (c + extra)[lo..hi] == c[lo..hi]
  {
  }

  /** Equal bytes in positions 1028 .. 1072 + 28 * n give equal tables. */
  lemma SameTables(c: Bytes, d: Bytes, n: nat)
    requires 1072 + 28 * n <= |c| && 1072 + 28 * n <= |d|
    requires c[1028..1072 + 28 * n] == d[1028..1072 + 28 * n]
    ensures Names(c, NAMES, n) == Names(d, NAMES, n)
    ensures Offsets(c, NAMES + 24 * n, n) == Offsets(d, NAMES + 24 * n, n)
  {
    var e := 1072 + 28 * n;
    forall i | 0 <= i < n
      ensures Names(c, NAMES, n)[i] == Names(d, NAMES, n)[i]
    {
      SliceWithin(c, d, 1028, e, NAMES + 20 * i, NAMES + 20 * i + 20);
    }
    var at := NAMES + 24 * n;
    var oc, od := Offsets(c, at, n), Offsets(d, at, n);
    forall i | 0 <= i < n
      ensures oc[i] == od[i]
    {
      SliceWithin(c, d, 1028, e, at + 4 * i, at + 4 * i + 4);
    }
    assert oc == od;
  }

  /** Two inputs that agree on `lo..hi` agree on every slice inside it. */
  lemma SliceWithin(c: Bytes, d: Bytes, lo: nat, hi: nat, a: nat, b: nat)
    requires lo <= a <= b <= hi <= |c| && hi <= |d| && c[lo..hi] == d[lo..hi]
    ensures c[a..b] == d[a..b]
  {
    forall k | a <= k < b
      ensures c[k] == d[k]
    {
      assert c[k] == c[lo..hi][k - lo] && d[k] == d[lo..hi][k - lo];
    }
  }
}
