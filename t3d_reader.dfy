/** The reading half of `T3DArchive.Load`: the table loop, the NUL scan of
    each name and the entry loop over a byte array, proved to compute exactly
    `Decode` of the image. An exception the source catches (a read past the
    end, a size over `int.MaxValue`, a bad copy range, a duplicate key) is an
    early return with `MalformedFile` and the entries added so far. */
module T3DReader {
  import opened Common
  import opened Bytes
  import opened Text
  import opened Directory
  import opened T3DFormat

  /** Record `j` of image `c` holds data offset `dataOff` and, relative to
      its own start, the name at absolute offset `nameAbs`. */
  predicate RecordHolds(c: seq<byte>, j: nat, dataOff: nat, nameAbs: nat)
  {
    && RecordStart(j) + 8 <= |c|
    && dataOff == U32At(c, RecordStart(j))
    && nameAbs == (U32At(c, RecordStart(j) + 4) + RecordStart(j)) % U32Limit
  }

  /** One record of the table: the data offset, and the name offset made
      absolute by adding the record's start. */
  method ReadRecord(contents: array<byte>, i: nat) returns (dataOff: nat, nameAbs: nat)
    requires RecordStart(i) + 8 <= contents.Length
    ensures RecordHolds(contents[..], i, dataOff, nameAbs)
  {
    var recordBase := RecordStart(i);
    dataOff := U32At(contents[..], recordBase);
    var nameOffRel := U32At(contents[..], recordBase + 4);
    nameAbs := (nameOffRel + recordBase) % U32Limit;
  }

  /** The table loop over `count` records. `ok` is false when a record runs
      past the end of the image. */
  method ReadTable(contents: array<byte>, count: nat)
    returns (ok: bool, dataOffsets: array<nat>, nameOffsetsAbs: array<nat>)
    requires contents.Length >= 16
    ensures ok <==> RecordStart(count) <= contents.Length
    ensures ok ==> dataOffsets.Length == count && nameOffsetsAbs.Length == count
    ensures ok ==> forall j :: 0 <= j < count ==>
      RecordHolds(contents[..], j, dataOffsets[j], nameOffsetsAbs[j])
  {
    ghost var c := contents[..];
    dataOffsets := new nat[count];
    nameOffsetsAbs := new nat[count];
    for i := 0 to count
      invariant RecordStart(i) <= contents.Length && contents[..] == c
      invariant forall j :: 0 <= j < i ==> RecordHolds(c, j, dataOffsets[j], nameOffsetsAbs[j])
    {
      if RecordStart(i) + 8 > contents.Length {
        return false, dataOffsets, nameOffsetsAbs;
      }
      var dataOff, nameAbs := ReadRecord(contents, i);
      dataOffsets[i] := dataOff;
      nameOffsetsAbs[i] := nameAbs;
    }
    ok := true;
  }

  /** The name loop: bytes up to the first 0, read as ASCII; running off the
      end of the image fails. */
  method ScanName(contents: array<byte>, p: nat) returns (name: Option<string>)
    ensures name == ReadName(contents[..], p)
  {
    if p >= contents.Length {
      return None;
    }
    var q := p;
    var nameBytes: seq<byte> := [];
    while q < contents.Length && contents[q] != 0
      invariant p <= q <= contents.Length
      invariant nameBytes == contents[p..q]
      invariant forall j :: p <= j < q ==> contents[j] != 0
      decreases contents.Length - q
    {
      nameBytes := nameBytes + [contents[q]];
      q := q + 1;
    }
    if q == contents.Length {
      return None;
    }
    name := Some(AsciiDecode(nameBytes));
  }

  /** The size of entry `i` by differencing offsets: `uint` subtraction from
      the next data offset, or `ulong` subtraction from the total size for
      the last entry. */
  method SizeOf(contents: array<byte>, i: nat, count: nat, dataOffsets: array<nat>, fileSize: nat)
    returns (size: nat)
    requires contents.Length >= 16 && TableFits(contents[..]) && count == EntryCount(contents[..])
    requires i < count && dataOffsets.Length == count
    requires forall j :: 0 <= j < count ==> dataOffsets[j] == DataOffsetAt(contents[..], j)
    requires fileSize == FileSizeAt(contents[..])
    ensures size == EntrySize(contents[..], i)
  {
    var start := dataOffsets[i];
    if i == count - 1 {
      size := (fileSize + U64Limit - start) % U64Limit;
    } else {
      size := (dataOffsets[i + 1] + U32Limit - start) % U32Limit;
    }
  }

  /** One entry: its name, its size, a size check against `int.MaxValue`, and
      a copy of its payload range. */
  method ReadFile(contents: array<byte>, i: nat, count: nat,
                  dataOffsets: array<nat>, nameOffsetsAbs: array<nat>, fileSize: nat)
    returns (e: Option<Entry>)
    requires contents.Length >= 16 && TableFits(contents[..]) && count == EntryCount(contents[..])
    requires i < count && dataOffsets.Length == count && nameOffsetsAbs.Length == count
    requires forall j :: 0 <= j < count ==> dataOffsets[j] == DataOffsetAt(contents[..], j)
    requires forall j :: 0 <= j < count ==> nameOffsetsAbs[j] == NameOffsetAt(contents[..], j)
    requires fileSize == FileSizeAt(contents[..])
    ensures e == ReadEntry(contents[..], i)
  {
    ghost var c := contents[..];
    var name := ScanName(contents, nameOffsetsAbs[i]);
    assert name == ReadName(c, NameOffsetAt(c, i));
    if name.None? {
      return None;
    }
    var start := dataOffsets[i];
    var size := SizeOf(contents, i, count, dataOffsets, fileSize);
    assert start == DataOffsetAt(c, i);
    if size > IntMax {
      return None;
    }
    if start > IntMax || start + size > contents.Length {
      return None;
    }
    e := Some(Entry(name.value, contents[start..start + size], OK));
  }

  /** The rest of the records still to be added, from position `i`. */
  lemma ResolveStepAt(rs: seq<Option<Entry>>, i: nat)
    requires i < |rs|
    ensures rs[i..] == [rs[i]] + rs[i + 1..]
  {
  }

  /** The entry loop: each entry is added under its lower-cased name; the first
      failure stops with `MalformedFile`, keeping what was added. */
  method ReadEntries(contents: array<byte>, count: nat,
                     dataOffsets: array<nat>, nameOffsetsAbs: array<nat>, fileSize: nat)
    returns (d: Decoded)
    requires contents.Length >= 16 && TableFits(contents[..]) && count == EntryCount(contents[..])
    requires dataOffsets.Length == count && nameOffsetsAbs.Length == count
    requires forall j :: 0 <= j < count ==> dataOffsets[j] == DataOffsetAt(contents[..], j)
    requires forall j :: 0 <= j < count ==> nameOffsetsAbs[j] == NameOffsetAt(contents[..], j)
    requires fileSize == FileSizeAt(contents[..])
    ensures d == Resolve(ReadAll(contents[..]), [])
  {
    ghost var rs := ReadAll(contents[..]);
    var files: seq<Entry> := [];
    for i := 0 to count
      invariant Sorted(files)
      invariant Resolve(rs[i..], files) == Resolve(rs, [])
    {
      var e := ReadFile(contents, i, count, dataOffsets, nameOffsetsAbs, fileSize);
      ResolveStepAt(rs, i);
      if e.None? {
        return Decoded(MalformedFile, files);
      }
      if Lookup(files, Key(e.value)).Some? {
        return Decoded(MalformedFile, files);
      }
      files := Insert(files, e.value);
    }
    assert rs[count..] == [];
    d := Decoded(OK, files);
  }

  /** Everything `Load` does after the magic check: the counts, the table, the
      total size and the entries. */
  method DecodeImage(contents: array<byte>) returns (d: Decoded)
    requires contents.Length >= 16
    ensures d == Decode(contents[..])
  {
    var storedCount := U32At(contents[..], 8);
    var count := (storedCount + U32Limit - 1) % U32Limit;
    var ok, dataOffsets, nameOffsetsAbs := ReadTable(contents, count);
    if !ok || RecordStart(count) + 8 > contents.Length {
      return Decoded(MalformedFile, []);
    }
    var fileSize := U64At(contents[..], RecordStart(count));
    d := ReadEntries(contents, count, dataOffsets, nameOffsetsAbs, fileSize);
  }
}
