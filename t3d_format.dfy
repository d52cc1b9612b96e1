/** The on-disk layout of a Tanarus `.t3d` archive, as pure functions: what
    `T3DArchive.Load` makes of a byte image (`Decode`) and the image that
    `T3DArchive.Save` writes for a directory (`Encode`).

      offset 0        magic, 8 bytes: 02 3D FF FF 00 57 01 00
      offset 8        stored count (u32) = entry count + 1
      offset 12       names-section size (u32), not needed for reading
      offset 16 + 8i  record i: data offset (u32), name offset (u32) relative
                      to the record's own start 16 + 8i
      offset 16 + 8n  total file size (u64)
      then            the names, each followed by a 0 byte
      then            the payloads, back to back

    All integers are little-endian. */
module T3DFormat {
  import opened Common
  import opened Bytes
  import opened Text
  import opened Directory

  const Magic: seq<byte> := [0x02, 0x3D, 0xFF, 0xFF, 0x00, 0x57, 0x01, 0x00]

  /** Where record `i` of the entry table starts. */
  function RecordStart(i: nat): nat
  {
    16 + 8 * i
  }

  lemma Pow256Limits()
    ensures Pow256(4) == U32Limit && Pow256(8) == U64Limit
  {
  }

  function U32At(c: seq<byte>, off: nat): (r: nat)
    requires off + 4 <= |c|
    ensures r < U32Limit
  {
    Pow256Limits();
    ReadLE(c[off..off + 4])
  }

  function U64At(c: seq<byte>, off: nat): (r: nat)
    requires off + 8 <= |c|
    ensures r < U64Limit
  {
    Pow256Limits();
    ReadLE(c[off..off + 8])
  }

  // =====================================================================
  // Decoding
  // =====================================================================

  /** The entry count: the stored count minus one, in `uint` arithmetic, so a
      stored 0 reads as 2^32 - 1. */
  function EntryCount(c: seq<byte>): (r: nat)
    requires |c| >= 16
    ensures r < U32Limit
  {
    (U32At(c, 8) + U32Limit - 1) % U32Limit
  }

  /** The entry table and the total-size field lie inside the image. */
  predicate TableFits(c: seq<byte>)
    requires |c| >= 16
  {
    RecordStart(EntryCount(c)) + 8 <= |c|
  }

  function DataOffsetAt(c: seq<byte>, i: nat): nat
    requires |c| >= 16 && TableFits(c) && i < EntryCount(c)
  {
    U32At(c, RecordStart(i))
  }

  /** The absolute name offset: the relative field plus the record's start,
      in `uint` arithmetic. */
  function NameOffsetAt(c: seq<byte>, i: nat): nat
    requires |c| >= 16 && TableFits(c) && i < EntryCount(c)
  {
    (U32At(c, RecordStart(i) + 4) + RecordStart(i)) % U32Limit
  }

  function FileSizeAt(c: seq<byte>): nat
    requires |c| >= 16 && TableFits(c)
  {
    U64At(c, RecordStart(EntryCount(c)))
  }

  /** The position of the first 0 byte at or after `p`. */
  function FindNul(c: seq<byte>, p: nat): (r: Option<nat>)
    ensures r.Some? ==> p <= r.value < |c| && c[r.value] == 0
    ensures r.Some? ==> forall j :: p <= j < r.value ==> c[j] != 0
    ensures r.None? ==> forall j :: p <= j < |c| ==> c[j] != 0
    decreases |c| - p
  {
    if p >= |c| then None
    else if c[p] == 0 then Some(p)
    else FindNul(c, p + 1)
  }

  /** The NUL-terminated name at `p`; reading past the end fails. */
  function ReadName(c: seq<byte>, p: nat): Option<string>
  {
    match FindNul(c, p)
    case None => None
    case Some(q) => Some(AsciiDecode(c[p..q]))
  }

  /** Entry size by differencing offsets: `uint` subtraction for all but the
      last entry, `ulong` subtraction from the total size for the last. */
  function EntrySize(c: seq<byte>, i: nat): (r: nat)
    requires |c| >= 16 && TableFits(c) && i < EntryCount(c)
    ensures var start, next := DataOffsetAt(c, i), NextOffset(c, i);
      && (start <= next ==> r == next - start)
      && (next < start <= IntMax ==> r > IntMax)
  {
    var start := DataOffsetAt(c, i);
    var m := if i == EntryCount(c) - 1 then U64Limit else U32Limit;
    WrappedDifference(start, NextOffset(c, i), m);
    if i == EntryCount(c) - 1 then (FileSizeAt(c) + U64Limit - start) % U64Limit
    else (DataOffsetAt(c, i + 1) + U32Limit - start) % U32Limit
  }

  /** Subtraction modulo `m` is the plain difference when it does not go
      below zero, and otherwise, from a start of at most `int.MaxValue`,
      wraps past `int.MaxValue`. */
  lemma WrappedDifference(start: nat, next: nat, m: nat)
    requires next < m && U32Limit <= m
    ensures start <= next ==> (next + m - start) % m == next - start
    ensures next < start <= IntMax ==> (next + m - start) % m > IntMax
  {
    if start <= next {
      DivModUnique(next + m - start, m, 1, next - start);
    } else if start <= IntMax {
      DivModUnique(next + m - start, m, 0, next + m - start);
    }
  }

  /** Entry `i`: name, then a size of at most `int.MaxValue`, then a copy of
      the payload range that must lie inside the image (`(int)start` must not
      turn negative either). */
  function ReadEntry(c: seq<byte>, i: nat): (r: Option<Entry>)
    requires |c| >= 16 && TableFits(c) && i < EntryCount(c)
    ensures r.Some? ==>
      && ReadName(c, NameOffsetAt(c, i)) == Some(r.value.name) && r.value.status == OK
      && |r.value.contents| <= IntMax && DataOffsetAt(c, i) + |r.value.contents| <= |c|
      && r.value.contents == c[DataOffsetAt(c, i)..DataOffsetAt(c, i) + |r.value.contents|]
  {
    match ReadName(c, NameOffsetAt(c, i))
    case None => None
    case Some(name) =>
      var start, size := DataOffsetAt(c, i), EntrySize(c, i);
      if size > IntMax || start > IntMax || start + size > |c| then None
      else Some(Entry(name, c[start..start + size], OK))
  }

  /** Every record of a table that fits, read or failed, in table order. */
  function ReadAll(c: seq<byte>): seq<Option<Entry>>
    requires |c| >= 16 && TableFits(c)
  {
    seq(EntryCount(c), i requires 0 <= i < EntryCount(c) => ReadEntry(c, i))
  }

  /** The outcome of decoding: the status and the directory built so far. */
  datatype Decoded = Decoded(status: Status, files: seq<Entry>)

  /** The records, added to `files` in table order; the first failure,
      including a second entry with an already present key, stops with
      `MalformedFile` and keeps what was added before it. */
  function Resolve(rs: seq<Option<Entry>>, files: seq<Entry>): (r: Decoded)
    requires Sorted(files)
    ensures Sorted(r.files)
    ensures r.status == OK || r.status == MalformedFile
  {
    if rs == [] then Decoded(OK, files)
    else match rs[0]
      case None => Decoded(MalformedFile, files)
      case Some(e) =>
        if Lookup(files, Key(e)).Some? then Decoded(MalformedFile, files)
        else Resolve(rs[1..], Insert(files, e))
  }

  /** Decoding of an image that is at least 16 bytes long (shorter ones are
      turned away before decoding starts). A table that runs past the end
      fails before any entry is added. */
  function Decode(c: seq<byte>): (r: Decoded)
    requires |c| >= 16
    ensures Sorted(r.files)
    ensures r.status == OK || r.status == MalformedFile
  {
    if !TableFits(c) then Decoded(MalformedFile, []) else Resolve(ReadAll(c), [])
  }

  // ------------------------------------------------------- decode properties

  /** Where the payload of entry `i` ends: the next data offset, or the total
      size for the last entry. */
  function NextOffset(c: seq<byte>, i: nat): nat
    requires |c| >= 16 && TableFits(c) && i < EntryCount(c)
  {
    if i == EntryCount(c) - 1 then FileSizeAt(c) else DataOffsetAt(c, i + 1)
  }

  /** An entry is read exactly when its name is terminated inside the image and
      its payload range runs forwards, inside the image, from an offset of at
      most `int.MaxValue`; then it is that name and that range. A decreasing
      pair of offsets never yields an entry: the wrapped difference is always
      larger than `int.MaxValue`. */
  lemma ReadEntryRange(c: seq<byte>, i: nat)
    requires |c| >= 16 && TableFits(c) && i < EntryCount(c)
    ensures var start, next := DataOffsetAt(c, i), NextOffset(c, i);
      && (ReadEntry(c, i).Some? <==>
            ReadName(c, NameOffsetAt(c, i)).Some? && start <= next <= |c|
            && start <= IntMax && next - start <= IntMax)
      && (ReadEntry(c, i).Some? ==>
            ReadEntry(c, i).value == Entry(ReadName(c, NameOffsetAt(c, i)).value, c[start..next], OK))
  {
  }

  /** The entries, when every record reads. */
  function Present(rs: seq<Option<Entry>>): (r: Option<seq<Entry>>)
    ensures r.Some? ==> |r.value| == |rs| && forall i :: 0 <= i < |rs| ==> rs[i] == Some(r.value[i])
    ensures r.None? <==> exists i :: 0 <= i < |rs| && rs[i].None?
  {
    if rs == [] then Some([])
    else match rs[0]
      case None => None
      case Some(e) =>
        match Present(rs[1..])
        case None =>
          var i :| 0 <= i < |rs[1..]| && rs[1..][i].None?;
          assert rs[i + 1].None?;
          None
        case Some(rest) =>
          assert forall i :: 0 < i < |rs| ==> rs[i] == rs[1..][i - 1];
          Some([e] + rest)
  }

  predicate DistinctKeys(s: seq<Entry>)
  {
    forall j, k :: 0 <= j < k < |s| ==> Key(s[j]) != Key(s[k])
  }

  lemma DistinctKeysCons(e: Entry, rest: seq<Entry>)
    ensures DistinctKeys([e] + rest) <==>
      DistinctKeys(rest) && forall x :: x in rest ==> Key(x) != Key(e)
  {
    var all := [e] + rest;
    if DistinctKeys(rest) && forall x :: x in rest ==> Key(x) != Key(e) {
      forall j, k | 0 <= j < k < |all| ensures Key(all[j]) != Key(all[k]) {
        if j > 0 { assert all[j] == rest[j - 1]; }
        assert all[k] == rest[k - 1] && all[k] in rest;
      }
    }
    if DistinctKeys(all) {
      assert all[0] == e;
      forall x | x in rest ensures Key(x) != Key(e) {
        var k :| 0 <= k < |rest| && rest[k] == x;
        assert all[k + 1] == x;
      }
      forall j, k | 0 <= j < k < |rest| ensures Key(rest[j]) != Key(rest[k]) {
        assert all[j + 1] == rest[j] && all[k + 1] == rest[k];
      }
    }
  }

  /** How resolving entries `es` into `files` ends: OK exactly when all of
      them read, their keys are distinct and none is already present, and
      then with what `files` held plus those entries. */
  ghost predicate ResolvedAs(files: seq<Entry>, es: Option<seq<Entry>>, r: Decoded)
  {
    && (r.status == OK <==>
          es.Some? && DistinctKeys(es.value)
          && forall x :: x in es.value ==> Lookup(files, Key(x)).None?)
    && (r.status == OK ==>
          |r.files| == |files| + |es.value|
          && forall x :: x in r.files <==> x in files || x in es.value)
  }

  /** Inserting one entry with a new key in front keeps `ResolvedAs`. */
  lemma ResolvedAsCons(files: seq<Entry>, e: Entry, rest: Option<seq<Entry>>, r: Decoded)
    requires Sorted(files) && Lookup(files, Key(e)).None?
    requires ResolvedAs(Insert(files, e), rest, r)
    ensures ResolvedAs(files, if rest.Some? then Some([e] + rest.value) else None, r)
  {
    if rest.Some? {
      DistinctKeysCons(e, rest.value);
    }
  }

  /** `Resolve` fails exactly on an unreadable record or a repeated key. */
  lemma {:induction false} ResolveSpec(rs: seq<Option<Entry>>, files: seq<Entry>)
    requires Sorted(files)
    ensures ResolvedAs(files, Present(rs), Resolve(rs, files))
  {
    if rs != [] && rs[0].Some? {
      var e := rs[0].value;
      if Lookup(files, Key(e)).None? {
        ResolveSpec(rs[1..], Insert(files, e));
        ResolvedAsCons(files, e, Present(rs[1..]), Resolve(rs[1..], Insert(files, e)));
      } else if Present(rs).Some? {
        assert Present(rs).value[0] in Present(rs).value;
      }
    }
  }

  /** What `Load` makes of an image: status OK exactly when the table fits,
      every entry reads and no two share a key; the directory then holds
      exactly those entries, each under its key. Otherwise `MalformedFile`. */
  lemma DecodeSpec(c: seq<byte>)
    requires |c| >= 16
    ensures Decode(c).status == OK <==>
      TableFits(c) && Present(ReadAll(c)).Some? && DistinctKeys(Present(ReadAll(c)).value)
    ensures Decode(c).status == OK ==>
      && |Decode(c).files| == EntryCount(c)
      && (forall x :: x in Decode(c).files <==> x in Present(ReadAll(c)).value)
      && (forall i :: 0 <= i < EntryCount(c) ==>
            ReadEntry(c, i).Some? && Lookup(Decode(c).files, Key(ReadEntry(c, i).value)) == ReadEntry(c, i))
  {
    if TableFits(c) {
      ResolveSpec(ReadAll(c), []);
      if Decode(c).status == OK {
        var es := Present(ReadAll(c)).value;
        forall i | 0 <= i < EntryCount(c)
          ensures ReadEntry(c, i).Some? && Lookup(Decode(c).files, Key(ReadEntry(c, i).value)) == ReadEntry(c, i)
        {
          assert ReadAll(c)[i] == Some(es[i]);
          assert es[i] in es;
          LookupMember(Decode(c).files, es[i]);
        }
      }
    }
  }

  /** Any record that does not read makes the whole decode `MalformedFile`. */
  lemma DecodeRejectsEntry(c: seq<byte>, i: nat)
    requires |c| >= 16 && TableFits(c) && i < EntryCount(c) && ReadEntry(c, i).None?
    ensures Decode(c).status == MalformedFile
  {
    DecodeSpec(c);
    assert ReadAll(c)[i].None?;
  }

  /** Two records whose names fold to the same key make the decode
      `MalformedFile`. */
  lemma DecodeRejectsDuplicate(c: seq<byte>, i: nat, j: nat)
    requires |c| >= 16 && TableFits(c) && i < j < EntryCount(c)
    requires ReadEntry(c, i).Some? && ReadEntry(c, j).Some?
    requires Key(ReadEntry(c, i).value) == Key(ReadEntry(c, j).value)
    ensures Decode(c).status == MalformedFile
  {
    DecodeSpec(c);
    if Present(ReadAll(c)).Some? {
      var es := Present(ReadAll(c)).value;
      assert ReadAll(c)[i] == Some(es[i]) && ReadAll(c)[j] == Some(es[j]);
    }
  }

  /** A stored count of 0 wraps to 2^32 - 1 entries, whose table cannot fit
      in any image a byte array can hold: the archive is malformed and empty. */
  lemma StoredCountZero(c: seq<byte>)
    requires 16 <= |c| <= IntMax && U32At(c, 8) == 0
    ensures EntryCount(c) == U32Limit - 1
    ensures Decode(c) == Decoded(MalformedFile, [])
  {
  }

  /** A stored count of 1 is the empty archive, once the size field is there. */
  lemma StoredCountOne(c: seq<byte>)
    requires |c| >= 24 && U32At(c, 8) == 1
    ensures EntryCount(c) == 0
    ensures Decode(c) == Decoded(OK, [])
  {
  }

  // =====================================================================
  // Encoding
  // =====================================================================

  /** Each name's bytes followed by its terminating 0. */
  function NameChunks(d: seq<Entry>): (r: seq<seq<byte>>)
    ensures |r| == |d|
  {
    seq(|d|, i requires 0 <= i < |d| => AsciiEncode(d[i].name) + [0])
  }

  function PayloadChunks(d: seq<Entry>): (r: seq<seq<byte>>)
    ensures |r| == |d|
  {
    seq(|d|, i requires 0 <= i < |d| => d[i].contents)
  }

  function NamesBlock(d: seq<Entry>): seq<byte>
  {
    Flatten(NameChunks(d))
  }

  function Payloads(d: seq<Entry>): seq<byte>
  {
    Flatten(PayloadChunks(d))
  }

  /** Magic, count, names size, `n` records and the total size. */
  function HeaderSize(n: nat): nat
  {
    24 + 8 * n
  }

  /** Absolute offset of name `i`: the names block follows the header. */
  function NameOffset(d: seq<Entry>, i: nat): nat
    requires i <= |d|
  {
    HeaderSize(|d|) + |Flatten(NameChunks(d)[..i])|
  }

  /** Absolute offset of payload `i`: the payload region follows the names. */
  function DataOffset(d: seq<Entry>, i: nat): nat
    requires i <= |d|
  {
    HeaderSize(|d|) + |NamesBlock(d)| + |Flatten(PayloadChunks(d)[..i])|
  }

  /** The final value of the payload cursor. */
  function EncodedSize(d: seq<Entry>): nat
  {
    DataOffset(d, |d|)
  }

  /** Record `i`: the data offset and the name offset made relative to the
      record's own start. */
  function Record(d: seq<Entry>, i: nat): seq<byte>
    requires i < |d|
  {
    LE(DataOffset(d, i), 4) + LE(NameOffset(d, i) - RecordStart(i), 4)
  }

  function Table(d: seq<Entry>, k: nat): (r: seq<byte>)
    requires k <= |d|
    ensures |r| == 8 * k
  {
    if k == 0 then [] else Table(d, k - 1) + Record(d, k - 1)
  }

  function Header(d: seq<Entry>): (r: seq<byte>)
    ensures |r| == 16
  {
    Magic + LE(|d| + 1, 4) + LE(|NamesBlock(d)|, 4)
  }

  /** The image `Save` writes: every `uint` field is written truncated to its
      width, and the total size is the 32-bit cursor widened to 64 bits. */
  function Encode(d: seq<Entry>): (r: seq<byte>)
    ensures |r| >= HeaderSize(|d|) && r[..8] == Magic
  {
    Header(d) + Table(d, |d|) + LE(EncodedSize(d) % U32Limit, 8) + NamesBlock(d) + Payloads(d)
  }

  // =====================================================================
  // Layout lemmas
  // =====================================================================

  /** The two running cursors of the encoder: names start right after the
      header, payloads right after the names, and each step advances by the
      name length plus its NUL, or by the payload length. */
  lemma CursorSteps(d: seq<Entry>, i: nat)
    requires i < |d|
    ensures NameOffset(d, 0) == HeaderSize(|d|)
    ensures DataOffset(d, 0) == NameOffset(d, |d|)
    ensures NameOffset(d, i + 1) == NameOffset(d, i) + |d[i].name| + 1
    ensures DataOffset(d, i + 1) == DataOffset(d, i) + |d[i].contents|
    ensures DataOffset(d, i + 1) <= EncodedSize(d)
  {
    FlattenSnoc(NameChunks(d), i);
    FlattenSnoc(PayloadChunks(d), i);
    assert NameChunks(d)[..|d|] == NameChunks(d);
    assert PayloadChunks(d)[..|d|] == PayloadChunks(d);
    FlattenPrefixLength(PayloadChunks(d), i + 1);
  }

  lemma NameOffsetBound(d: seq<Entry>, i: nat)
    requires i <= |d|
    ensures NameOffset(d, i) <= DataOffset(d, 0)
  {
    assert NameChunks(d)[..|d|] == NameChunks(d);
    FlattenPrefixLength(NameChunks(d), i);
  }

  lemma EncodeLength(d: seq<Entry>)
    ensures |Encode(d)| == EncodedSize(d)
  {
    assert PayloadChunks(d)[..|d|] == PayloadChunks(d);
  }

  lemma {:induction false} TableRecord(d: seq<Entry>, k: nat, i: nat)
    requires i < k <= |d|
    ensures Table(d, k)[8 * i..8 * i + 8] == Record(d, i)
  {
    var t, rec := Table(d, k - 1), Record(d, k - 1);
    assert Table(d, k) == t + rec;
    if i < k - 1 {
      TableRecord(d, k - 1, i);
      SliceOfConcat([], t, rec, 8 * i, 8 * i + 8);
      assert [] + t == t;
    } else {
      SliceOfConcat(t, rec, [], 0, 8);
      assert t + rec + [] == t + rec;
    }
  }

  lemma SliceOfConcat(a: seq<byte>, b: seq<byte>, c: seq<byte>, lo: nat, hi: nat)
    requires lo <= hi <= |b|
    ensures (a + b + c)[|a| + lo..|a| + hi] == b[lo..hi]
  {
  }

  lemma SubSlice(x: seq<byte>, a: nat, r: seq<byte>, lo: nat, hi: nat)
    requires a + |r| <= |x| && x[a..a + |r|] == r && lo <= hi <= |r|
    ensures x[a + lo..a + hi] == r[lo..hi]
  {
    forall j | 0 <= j < hi - lo ensures x[a + lo..a + hi][j] == r[lo..hi][j] {
      assert x[a..a + |r|][lo + j] == x[a + lo + j];
    }
  }

  lemma Reassociate(a: seq<byte>, b: seq<byte>, c: seq<byte>, e: seq<byte>, f: seq<byte>)
    ensures a + b + c + e + f == a + b + (c + e + f)
    ensures a + b + c + e + f == (a + b) + c + (e + f)
    ensures a + b + c + e + f == (a + b + c) + e + f
    ensures a + b + c + e + f == (a + b + c + e) + f + []
  {
  }

  /** The image is its header, the table, and the rest. */
  lemma EncodeSplitTable(d: seq<Entry>)
    ensures Encode(d) == Header(d) + Table(d, |d|) + (LE(EncodedSize(d) % U32Limit, 8) + NamesBlock(d) + Payloads(d))
  {
    Reassociate(Header(d), Table(d, |d|), LE(EncodedSize(d) % U32Limit, 8), NamesBlock(d), Payloads(d));
  }

  /** Record `i` of the image holds payload `i`'s offset and name `i`'s offset
      relative to the record's start. */
  lemma EncodeRecordAt(d: seq<Entry>, i: nat)
    requires i < |d|
    ensures RecordStart(i) + 8 <= |Encode(d)|
    ensures Encode(d)[RecordStart(i)..RecordStart(i) + 4] == LE(DataOffset(d, i), 4)
    ensures Encode(d)[RecordStart(i) + 4..RecordStart(i) + 8] == LE(NameOffset(d, i) - RecordStart(i), 4)
  {
    var rest := LE(EncodedSize(d) % U32Limit, 8) + NamesBlock(d) + Payloads(d);
    var t := Table(d, |d|);
    var x := Encode(d);
    EncodeSplitTable(d);
    TableRecord(d, |d|, i);
    SliceOfConcat(Header(d), t, rest, 8 * i, 8 * i + 8);
    var rec := Record(d, i);
    assert x[RecordStart(i)..RecordStart(i) + |rec|] == rec;
    SubSlice(x, RecordStart(i), rec, 0, 4);
    SubSlice(x, RecordStart(i), rec, 4, 8);
  }

  /** The header fields: magic, `n + 1`, names size, and the total size. */
  lemma EncodeHeader(d: seq<Entry>)
    ensures |Encode(d)| >= HeaderSize(|d|)
    ensures Encode(d)[..8] == Magic
    ensures Encode(d)[8..12] == LE(|d| + 1, 4)
    ensures Encode(d)[12..16] == LE(|NamesBlock(d)|, 4)
    ensures Encode(d)[RecordStart(|d|)..HeaderSize(|d|)] == LE(EncodedSize(d) % U32Limit, 8)
  {
    var h, t, sz := Header(d), Table(d, |d|), LE(EncodedSize(d) % U32Limit, 8);
    var n, p := NamesBlock(d), Payloads(d);
    var x := Encode(d);
    Reassociate(h, t, sz, n, p);
    SliceOfConcat(h + t, sz, n + p, 0, 8);
    SliceOfConcat([], h, t + sz + (n + p), 0, 16);
    assert x[..16] == h;
    SubSlice(x, 0, h, 0, 8);
    SubSlice(x, 0, h, 8, 12);
    SubSlice(x, 0, h, 12, 16);
  }

  /** Chunk `i` of a flattened block lies inside an image right after what
      precedes the block and the chunks before it. */
  lemma ChunkInImage(x: seq<byte>, pre: seq<byte>, chunks: seq<seq<byte>>, post: seq<byte>, i: nat)
    requires x == pre + Flatten(chunks) + post && i < |chunks|
    ensures |pre| + |Flatten(chunks[..i])| + |chunks[i]| <= |x|
    ensures x[|pre| + |Flatten(chunks[..i])|..|pre| + |Flatten(chunks[..i])| + |chunks[i]|] == chunks[i]
  {
    FlattenChunkAt(chunks, i);
    var lo := |Flatten(chunks[..i])|;
    SliceOfConcat(pre, Flatten(chunks), post, lo, lo + |chunks[i]|);
  }

  /** Name `i` and its terminator sit at its absolute name offset. */
  lemma EncodeNameAt(d: seq<Entry>, i: nat)
    requires i < |d|
    ensures NameOffset(d, i) + |d[i].name| + 1 <= |Encode(d)|
    ensures Encode(d)[NameOffset(d, i)..NameOffset(d, i) + |d[i].name| + 1] == AsciiEncode(d[i].name) + [0]
  {
    var h, t, sz := Header(d), Table(d, |d|), LE(EncodedSize(d) % U32Limit, 8);
    var n, p := NamesBlock(d), Payloads(d);
    Reassociate(h, t, sz, n, p);
    var pre := h + t + sz;
    assert Encode(d) == pre + n + p;
    assert |pre| == HeaderSize(|d|);
    ChunkInImage(Encode(d), pre, NameChunks(d), p, i);
    assert NameChunks(d)[i] == AsciiEncode(d[i].name) + [0];
  }

  /** Payload `i` fills the range from its data offset to the next one. */
  lemma EncodePayloadAt(d: seq<Entry>, i: nat)
    requires i < |d|
    ensures DataOffset(d, i) <= DataOffset(d, i + 1) <= |Encode(d)|
    ensures Encode(d)[DataOffset(d, i)..DataOffset(d, i + 1)] == d[i].contents
  {
    var h, t, sz := Header(d), Table(d, |d|), LE(EncodedSize(d) % U32Limit, 8);
    var n, p := NamesBlock(d), Payloads(d);
    Reassociate(h, t, sz, n, p);
    ChunkInImage(Encode(d), h + t + sz + n, PayloadChunks(d), [], i);
    CursorSteps(d, i);
  }

  /** The size field holds the image's length truncated to 32 bits: exactly
      the length whenever the image is shorter than 4 GiB. */
  lemma EncodeSizeField(d: seq<Entry>)
    ensures |Encode(d)| >= HeaderSize(|d|)
    ensures ReadLE(Encode(d)[RecordStart(|d|)..HeaderSize(|d|)]) == |Encode(d)| % U32Limit
  {
    EncodeHeader(d);
    EncodeLength(d);
    ReadLEOfLEFits(EncodedSize(d) % U32Limit, 8);
  }

  // =====================================================================
  // Round trip
  // =====================================================================

  /** A directory that `Save` can write and `Load` read back: sorted, names
      that are ASCII without NUL, and an image no longer than a byte array. */
  predicate Archivable(d: seq<Entry>)
  {
    && Sorted(d)
    && (forall i :: 0 <= i < |d| ==> IsArchivableName(d[i].name))
    && EncodedSize(d) <= IntMax
  }

  /** The directory as `Load` rebuilds it: same names and payloads, and each
      entry with the status of a freshly read entry. */
  function Reloaded(d: seq<Entry>): (r: seq<Entry>)
    ensures |r| == |d|
  {
    seq(|d|, i requires 0 <= i < |d| => Entry(d[i].name, d[i].contents, OK))
  }

  lemma WrapFits(x: nat, m: nat)
    requires x < m
    ensures x % m == x
  {
    DivModUnique(x, m, 0, x);
  }

  lemma ModSelf(x: nat, m: nat)
    requires x < m
    ensures (x + m) % m == x
  {
    DivModUnique(x + m, m, 1, x);
  }

  lemma EncodedCount(d: seq<Entry>)
    requires EncodedSize(d) <= IntMax
    ensures |Encode(d)| >= HeaderSize(|d|)
    ensures EntryCount(Encode(d)) == |d| && TableFits(Encode(d))
  {
    EncodeHeader(d);
    EncodeLength(d);
    ReadLEOfLEFits(|d| + 1, 4);
    ModSelf(|d|, U32Limit);
  }

  /** A `uint` field holding a value that fits reads back as it. */
  lemma U32AtLE(c: seq<byte>, off: nat, v: nat)
    requires off + 4 <= |c| && c[off..off + 4] == LE(v, 4) && v < U32Limit
    ensures U32At(c, off) == v
  {
    Pow256Limits();
    ReadLEOfLEFits(v, 4);
  }

  /** A record whose first field holds an offset that fits reads back as it. */
  lemma ReadDataOffset(c: seq<byte>, i: nat, dataOff: nat)
    requires |c| >= 16 && TableFits(c) && i < EntryCount(c) && dataOff < U32Limit
    requires c[RecordStart(i)..RecordStart(i) + 4] == LE(dataOff, 4)
    ensures DataOffsetAt(c, i) == dataOff
  {
    U32AtLE(c, RecordStart(i), dataOff);
  }

  /** A record whose second field holds a name offset made relative to the
      record's start reads back as the absolute offset, if that fits. */
  lemma ReadNameOffset(c: seq<byte>, i: nat, nameOff: nat)
    requires |c| >= 16 && TableFits(c) && i < EntryCount(c)
    requires RecordStart(i) <= nameOff < U32Limit
    requires c[RecordStart(i) + 4..RecordStart(i) + 8] == LE(nameOff - RecordStart(i), 4)
    ensures NameOffsetAt(c, i) == nameOff
  {
    var base := RecordStart(i);
    U32AtLE(c, base + 4, nameOff - base);
    WrapFits(U32At(c, base + 4) + base, U32Limit);
  }

  /** Record `i` read back gives the data offset the encoder computed. */
  lemma ReadEncodedDataOffset(d: seq<Entry>, i: nat)
    requires EncodedSize(d) <= IntMax && i < |d|
    ensures |Encode(d)| >= 16 && TableFits(Encode(d)) && EntryCount(Encode(d)) == |d|
    ensures DataOffsetAt(Encode(d), i) == DataOffset(d, i)
  {
    EncodedCount(d);
    CursorSteps(d, i);
    EncodeRecordAt(d, i);
    ReadDataOffset(Encode(d), i, DataOffset(d, i));
  }

  /** Record `i` read back gives the absolute name offset the encoder computed. */
  lemma ReadEncodedNameOffset(d: seq<Entry>, i: nat)
    requires EncodedSize(d) <= IntMax && i < |d|
    ensures |Encode(d)| >= 16 && TableFits(Encode(d)) && EntryCount(Encode(d)) == |d|
    ensures NameOffsetAt(Encode(d), i) == NameOffset(d, i)
  {
    EncodedCount(d);
    CursorSteps(d, i);
    NameOffsetBound(d, i);
    EncodeRecordAt(d, i);
    ReadNameOffset(Encode(d), i, NameOffset(d, i));
  }

  /** An archivable name written with its terminator reads back as itself. */
  lemma ReadNameFrom(c: seq<byte>, p: nat, name: string)
    requires IsArchivableName(name)
    requires p + |name| + 1 <= |c| && c[p..p + |name| + 1] == AsciiEncode(name) + [0]
    ensures ReadName(c, p) == Some(name)
  {
    AsciiRoundTrip(name);
    SubSlice(c, p, AsciiEncode(name) + [0], 0, |name|);
    assert c[p..p + |name|] == AsciiEncode(name);
    forall j | p <= j < p + |name| ensures c[j] != 0 {
      assert c[j] == AsciiEncode(name)[j - p];
    }
    assert c[p + |name|] == 0;
    assert FindNul(c, p) == Some(p + |name|);
  }

  /** Name `i` read back from its offset is the stored name. */
  lemma ReadEncodedName(d: seq<Entry>, i: nat)
    requires i < |d| && IsArchivableName(d[i].name)
    ensures ReadName(Encode(d), NameOffset(d, i)) == Some(d[i].name)
  {
    EncodeNameAt(d, i);
    ReadNameFrom(Encode(d), NameOffset(d, i), d[i].name);
  }

  /** Differencing offsets that increase gives the distance between them. */
  lemma EntrySizeFrom(c: seq<byte>, i: nat, start: nat, next: nat)
    requires |c| >= 16 && TableFits(c) && i < EntryCount(c)
    requires DataOffsetAt(c, i) == start <= next < U32Limit
    requires i == EntryCount(c) - 1 ==> FileSizeAt(c) == next
    requires i < EntryCount(c) - 1 ==> DataOffsetAt(c, i + 1) == next
    ensures EntrySize(c, i) == next - start
  {
    if i == EntryCount(c) - 1 {
      ModSelf(next - start, U64Limit);
    } else {
      ModSelf(next - start, U32Limit);
    }
  }

  /** The total-size field of an image below 2 GiB reads back as its length. */
  lemma ReadEncodedFileSize(d: seq<Entry>)
    requires EncodedSize(d) <= IntMax
    ensures |Encode(d)| >= 16 && TableFits(Encode(d)) && EntryCount(Encode(d)) == |d|
    ensures FileSizeAt(Encode(d)) == |Encode(d)| == EncodedSize(d)
  {
    EncodedCount(d);
    EncodeSizeField(d);
    EncodeLength(d);
    DivModUnique(EncodedSize(d), U32Limit, 0, EncodedSize(d));
  }

  /** The size the decoder derives for entry `i` is its payload length. */
  lemma ReadEncodedSize(d: seq<Entry>, i: nat)
    requires EncodedSize(d) <= IntMax && i < |d|
    ensures |Encode(d)| >= 16 && TableFits(Encode(d)) && EntryCount(Encode(d)) == |d|
    ensures EntrySize(Encode(d), i) == |d[i].contents|
  {
    var c := Encode(d);
    ReadEncodedDataOffset(d, i);
    CursorSteps(d, i);
    if i == |d| - 1 {
      ReadEncodedFileSize(d);
    } else {
      ReadEncodedDataOffset(d, i + 1);
    }
    EntrySizeFrom(c, i, DataOffset(d, i), DataOffset(d, i + 1));
  }

  /** An entry whose name reads back and whose payload range lies inside an
      image of at most `int.MaxValue` bytes is read as that name and range. */
  lemma ReadEntryFrom(c: seq<byte>, i: nat, name: string, contents: seq<byte>)
    requires |c| >= 16 && TableFits(c) && i < EntryCount(c) && |c| <= IntMax
    requires ReadName(c, NameOffsetAt(c, i)) == Some(name)
    requires DataOffsetAt(c, i) + EntrySize(c, i) <= |c|
    requires c[DataOffsetAt(c, i)..DataOffsetAt(c, i) + EntrySize(c, i)] == contents
    ensures ReadEntry(c, i) == Some(Entry(name, contents, OK))
  {
  }

  /** The range the decoder copies for entry `i` is its payload. */
  lemma ReadEncodedPayload(d: seq<Entry>, i: nat)
    requires EncodedSize(d) <= IntMax && i < |d|
    ensures |Encode(d)| >= 16 && TableFits(Encode(d)) && EntryCount(Encode(d)) == |d|
    ensures DataOffsetAt(Encode(d), i) + EntrySize(Encode(d), i) <= |Encode(d)|
    ensures Encode(d)[DataOffsetAt(Encode(d), i)..DataOffsetAt(Encode(d), i) + EntrySize(Encode(d), i)]
      == d[i].contents
  {
    ReadEncodedDataOffset(d, i);
    ReadEncodedSize(d, i);
    EncodePayloadAt(d, i);
    CursorSteps(d, i);
  }

  /** Reading entry `i` back from the image gives its name and payload. */
  lemma ReadEncodedEntry(d: seq<Entry>, i: nat)
    requires Archivable(d) && i < |d|
    ensures |Encode(d)| >= 16 && TableFits(Encode(d)) && EntryCount(Encode(d)) == |d|
    ensures ReadEntry(Encode(d), i) == Some(Reloaded(d)[i])
  {
    ReadEncodedPayload(d, i);
    ReadEncodedNameOffset(d, i);
    ReadEncodedName(d, i);
    EncodeLength(d);
    ReadEntryFrom(Encode(d), i, d[i].name, d[i].contents);
  }

  lemma ReloadedSorted(d: seq<Entry>)
    requires Sorted(d)
    ensures Sorted(Reloaded(d))
  {
    var r := Reloaded(d);
    forall a, b | 0 <= a < b < |r| ensures Below(Key(r[a]), Key(r[b])) {
      assert Key(r[a]) == Key(d[a]) && Key(r[b]) == Key(d[b]);
    }
  }

  /** Every entry read as it stands. */
  function Somes(es: seq<Entry>): (r: seq<Option<Entry>>)
    ensures |r| == |es| && forall i :: 0 <= i < |es| ==> r[i] == Some(es[i])
  {
    seq(|es|, i requires 0 <= i < |es| => Some(es[i]))
  }

  lemma SortedPrefix(d: seq<Entry>, i: nat)
    requires Sorted(d) && i <= |d|
    ensures Sorted(d[..i])
  {
    var p := d[..i];
    forall a, b | 0 <= a < b < |p| ensures Below(Key(p[a]), Key(p[b])) {
      assert p[a] == d[a] && p[b] == d[b];
    }
  }

  /** In a sorted directory, entry `i` comes after all entries before it, so
      inserting it into them appends it. */
  lemma InsertNext(d: seq<Entry>, i: nat)
    requires Sorted(d) && i < |d|
    ensures Sorted(d[..i])
    ensures Lookup(d[..i], Key(d[i])).None? && Insert(d[..i], d[i]) == d[..i + 1]
  {
    var p, e := d[..i], d[i];
    SortedPrefix(d, i);
    forall j | 0 <= j < |p| ensures Below(Key(p[j]), Key(e)) {
      assert p[j] == d[j];
    }
    InsertLast(p, e);
    assert p + [e] == d[..i + 1];
  }

  /** The entries of a sorted directory, resolved in order, rebuild it. */
  lemma {:induction false} ResolveInOrder(d: seq<Entry>, i: nat)
    requires Sorted(d) && i <= |d|
    ensures Sorted(d[..i])
    ensures Resolve(Somes(d)[i..], d[..i]) == Decoded(OK, d)
    decreases |d| - i
  {
    SortedPrefix(d, i);
    if i == |d| {
      assert d[..i] == d;
      assert Somes(d)[i..] == [];
    } else {
      InsertNext(d, i);
      assert Somes(d)[i..][0] == Some(d[i]);
      assert Somes(d)[i..][1..] == Somes(d)[i + 1..];
      ResolveInOrder(d, i + 1);
    }
  }

  /** Decoding what `Save` writes gives back the directory, in the same order,
      with status OK. */
  lemma RoundTrip(d: seq<Entry>)
    requires Archivable(d)
    ensures |Encode(d)| >= 16
    ensures Decode(Encode(d)) == Decoded(OK, Reloaded(d))
  {
    var c := Encode(d);
    EncodedCount(d);
    forall i | 0 <= i < |d| ensures ReadAll(c)[i] == Somes(Reloaded(d))[i] {
      ReadEncodedEntry(d, i);
    }
    assert ReadAll(c) == Somes(Reloaded(d));
    ReloadedSorted(d);
    ResolveInOrder(Reloaded(d), 0);
    assert Somes(Reloaded(d))[0..] == Somes(Reloaded(d)) && Reloaded(d)[..0] == [];
  }

  /** The round trip seen through the directory: every key of the saved
      directory looks up the same stored name and the same payload after
      reading back, and no other key is present. */
  lemma RoundTripLookup(d: seq<Entry>, k: string)
    requires Archivable(d)
    ensures |Encode(d)| >= 16
    ensures var back := Lookup(Decode(Encode(d)).files, k);
      && (Lookup(d, k).None? <==> back.None?)
      && (back.Some? ==>
            && back.value.name == Lookup(d, k).value.name
            && back.value.contents == Lookup(d, k).value.contents)
  {
    RoundTrip(d);
    var r := Reloaded(d);
    ReloadedSorted(d);
    if Lookup(d, k).Some? {
      var x := Lookup(d, k).value;
      var j :| 0 <= j < |d| && d[j] == x;
      LookupMember(r, r[j]);
    }
  }
}
