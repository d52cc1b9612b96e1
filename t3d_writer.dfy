/** The writing half of `T3DArchive.Save`: the offsets it computes in `uint`
    arithmetic and the bytes it writes through a seekable stream, proved to be
    exactly `Encode` of the directory. */
module T3DWriter {
  import opened Common
  import opened Bytes
  import opened Text
  import opened Directory
  import opened T3DFormat
  import opened Streams

  /** The names block: each name's ASCII bytes and a 0, in directory order. */
  method BuildNames(entries: seq<Entry>) returns (names: seq<byte>)
    ensures names == NamesBlock(entries)
  {
    names := [];
    for i := 0 to |entries|
      invariant names == Flatten(NameChunks(entries)[..i])
    {
      FlattenSnoc(NameChunks(entries), i);
      var nameBytes := AsciiEncode(entries[i].name);
      names := names + nameBytes + [0];
    }
    assert NameChunks(entries)[..|entries|] == NameChunks(entries);
  }

  /** `v` is where payload `j` goes, as a `uint`. */
  predicate DataPlaced(entries: seq<Entry>, j: nat, v: nat)
  {
    j <= |entries| && v == DataOffset(entries, j) % U32Limit
  }

  /** `v` is where name `j` goes, as a `uint`. */
  predicate NamePlaced(entries: seq<Entry>, j: nat, v: nat)
  {
    j <= |entries| && v == NameOffset(entries, j) % U32Limit
  }

  /** One step of the payload cursor: adding the wrapped size of payload `i`
      to where it goes gives where the next one goes. */
  lemma CursorAdvance(entries: seq<Entry>, i: nat, cursor: nat)
    requires i < |entries| && DataPlaced(entries, i, cursor)
    ensures DataPlaced(entries, i + 1, (cursor + |entries[i].contents| % U32Limit) % U32Limit)
  {
    CursorSteps(entries, i);
    WrapAdd(DataOffset(entries, i), |entries[i].contents| % U32Limit);
    WrapAdd(|entries[i].contents|, DataOffset(entries, i));
  }

  /** The running payload cursor: where each payload goes, in `uint`
      arithmetic, and the final cursor, which is the total size. */
  method PlacePayloads(entries: seq<Entry>, dataRegionStart: nat) returns (dataOffsets: array<nat>, cursor: nat)
    requires DataPlaced(entries, 0, dataRegionStart)
    ensures dataOffsets.Length == |entries|
    ensures forall j :: 0 <= j < |entries| ==> DataPlaced(entries, j, dataOffsets[j])
    ensures cursor == EncodedSize(entries) % U32Limit
  {
    dataOffsets := new nat[|entries|];
    var sizes := new nat[|entries|];
    cursor := dataRegionStart;
    for i := 0 to |entries|
      invariant DataPlaced(entries, i, cursor)
      invariant forall j :: 0 <= j < i ==> DataPlaced(entries, j, dataOffsets[j])
    {
      dataOffsets[i] := cursor;
      sizes[i] := |entries[i].contents| % U32Limit;
      CursorAdvance(entries, i, cursor);
      cursor := (cursor + sizes[i]) % U32Limit;
    }
  }

  /** `rolling` is how far name `i` lies past the start of the names block,
      as a `uint`. */
  predicate Rolled(entries: seq<Entry>, i: nat, rolling: nat)
  {
    i <= |entries| && rolling == (NameOffset(entries, i) - HeaderSize(|entries|)) % U32Limit
  }

  /** One step of the rolling name offset, and the absolute offset it gives. */
  lemma RollingAdvance(entries: seq<Entry>, i: nat, namesBaseAbs: nat, rolling: nat)
    requires i < |entries| && Rolled(entries, i, rolling)
    requires namesBaseAbs == HeaderSize(|entries|) % U32Limit
    ensures NamePlaced(entries, i, (namesBaseAbs + rolling) % U32Limit)
    ensures Rolled(entries, i + 1, (rolling + |AsciiEncode(entries[i].name)| + 1) % U32Limit)
  {
    CursorSteps(entries, i);
    WrapAdd(HeaderSize(|entries|), rolling);
    WrapAdd(NameOffset(entries, i) - HeaderSize(|entries|), HeaderSize(|entries|));
    WrapAdd(NameOffset(entries, i) - HeaderSize(|entries|), |AsciiEncode(entries[i].name)| + 1);
  }

  /** The absolute name offsets: the names base plus a rolling sum of the
      name lengths and their terminators, in `uint` arithmetic. */
  method PlaceNames(entries: seq<Entry>, namesBaseAbs: nat) returns (nameOffsetsAbs: array<nat>)
    requires namesBaseAbs == HeaderSize(|entries|) % U32Limit
    ensures nameOffsetsAbs.Length == |entries|
    ensures forall j :: 0 <= j < |entries| ==> NamePlaced(entries, j, nameOffsetsAbs[j])
  {
    nameOffsetsAbs := new nat[|entries|];
    var rolling: nat := 0;
    assert NameChunks(entries)[..0] == [];
    for i := 0 to |entries|
      invariant Rolled(entries, i, rolling)
      invariant forall j :: 0 <= j < i ==> NamePlaced(entries, j, nameOffsetsAbs[j])
    {
      RollingAdvance(entries, i, namesBaseAbs, rolling);
      nameOffsetsAbs[i] := (namesBaseAbs + rolling) % U32Limit;
      rolling := (rolling + |AsciiEncode(entries[i].name)| + 1) % U32Limit;
    }
  }

  /** A `uint` field is written as its four bytes. */
  lemma LEWrap32(x: nat)
    ensures LE(x % U32Limit, 4) == LE(x, 4)
  {
    Pow256Limits();
    LEMod(x, 4);
  }

  /** The name field of record `i` as the writer computes it: the wrapped
      absolute offset minus the record's start, wrapped again. */
  lemma WrittenNameField(entries: seq<Entry>, i: nat, nameAbs: nat)
    requires i < |entries| && NamePlaced(entries, i, nameAbs)
    ensures LE((nameAbs - RecordStart(i)) % U32Limit, 4) == LE(NameOffset(entries, i) - RecordStart(i), 4)
  {
    NameOffsetBound(entries, i);
    WrapSub(NameOffset(entries, i), RecordStart(i));
    LEWrap32(NameOffset(entries, i) - RecordStart(i));
  }

  /** Record `i` as the writer puts it: the wrapped data offset, then the
      wrapped name field. */
  lemma WrittenRecord(entries: seq<Entry>, i: nat, dataOff: nat, nameAbs: nat)
    requires i < |entries|
    requires DataPlaced(entries, i, dataOff) && NamePlaced(entries, i, nameAbs)
    ensures LE(dataOff, 4) + LE((nameAbs - RecordStart(i)) % U32Limit, 4) == Record(entries, i)
  {
    LEWrap32(DataOffset(entries, i));
    WrittenNameField(entries, i, nameAbs);
  }

  /** One record at the end of the stream: the data offset, then the name
      offset relative to where the record starts. */
  method WriteRecord(out: Stream, entries: seq<Entry>, i: nat, dataOff: nat, nameAbs: nat)
    requires out.Valid() && out.position == |out.bytes| == RecordStart(i)
    requires i < |entries|
    requires DataPlaced(entries, i, dataOff) && NamePlaced(entries, i, nameAbs)
    modifies out
    ensures out.Valid() && out.position == |out.bytes|
    ensures out.bytes == old(out.bytes) + Record(entries, i)
  {
    var recordBase := out.position;
    out.Write(LE(dataOff, 4));
    var rel := (nameAbs - recordBase) % U32Limit;
    out.Write(LE(rel, 4));
    WrittenRecord(entries, i, dataOff, nameAbs);
  }

  /** The records, each written at its own start `16 + 8i`. */
  method WriteTable(out: Stream, entries: seq<Entry>, dataOffsets: array<nat>, nameOffsetsAbs: array<nat>)
    requires out.Valid() && out.position == |out.bytes| && out.bytes == Header(entries)
    requires dataOffsets.Length == |entries| && nameOffsetsAbs.Length == |entries|
    requires forall j :: 0 <= j < |entries| ==> DataPlaced(entries, j, dataOffsets[j])
    requires forall j :: 0 <= j < |entries| ==> NamePlaced(entries, j, nameOffsetsAbs[j])
    modifies out
    ensures out.Valid() && out.position == |out.bytes|
    ensures out.bytes == Header(entries) + Table(entries, |entries|)
  {
    assert out.bytes == Header(entries) + Table(entries, 0);
    for i := 0 to |entries|
      invariant out.Valid() && out.position == |out.bytes|
      invariant out.bytes == Header(entries) + Table(entries, i)
    {
      assert |Table(entries, i)| == 8 * i;
      WriteRecord(out, entries, i, dataOffsets[i], nameOffsetsAbs[i]);
    }
  }

  /** Magic, stored count `n + 1` and names-block size, each `uint` field
      written in its four bytes. */
  method WriteHeader(out: Stream, entries: seq<Entry>, namesSize: nat)
    requires out.Valid() && out.bytes == [] && out.position == 0
    requires namesSize == |NamesBlock(entries)| % U32Limit
    modifies out
    ensures out.Valid() && out.position == |out.bytes| && out.bytes == Header(entries)
  {
    out.Write(Magic);
    LEWrap32(|entries| + 1);
    out.Write(LE((|entries| + 1) % U32Limit, 4));
    LEWrap32(|NamesBlock(entries)|);
    out.Write(LE(namesSize, 4));
  }

  /** The payloads, back to back, at the end of what is written. */
  method WritePayloads(out: Stream, entries: seq<Entry>)
    requires out.Valid() && out.position == |out.bytes|
    modifies out
    ensures out.Valid() && out.position == |out.bytes|
    ensures out.bytes == old(out.bytes) + Payloads(entries)
  {
    ghost var before := out.bytes;
    for i := 0 to |entries|
      invariant out.Valid() && out.position == |out.bytes|
      invariant out.bytes == before + Flatten(PayloadChunks(entries)[..i])
    {
      FlattenSnoc(PayloadChunks(entries), i);
      out.Write(entries[i].contents);
    }
    assert PayloadChunks(entries)[..|entries|] == PayloadChunks(entries);
  }

  /** Where the payload region starts, computed as the writer does in `uint`
      arithmetic from the count and the names size. */
  lemma DataRegionStart(entries: seq<Entry>, namesSize: nat)
    requires namesSize == |NamesBlock(entries)| % U32Limit
    ensures DataPlaced(entries, 0, ((8 + 4 + 4 + (|entries| * 8) % U32Limit + 8) % U32Limit + namesSize) % U32Limit)
    ensures (8 + 4 + 4 + (|entries| * 8) % U32Limit + 8) % U32Limit == HeaderSize(|entries|) % U32Limit
  {
    var n := |entries|;
    WrapAdd(n * 8, 24);
    WrapAdd(HeaderSize(n), namesSize);
    WrapAdd(|NamesBlock(entries)|, HeaderSize(n));
    assert PayloadChunks(entries)[..0] == [];
  }

  /** Everything `Save` computes before it opens the file: the names block,
      the payload offsets, the absolute name offsets and the total size. */
  method PlanImage(entries: seq<Entry>)
    returns (names: seq<byte>, dataOffsets: array<nat>, nameOffsetsAbs: array<nat>, totalFileSize: nat)
    ensures names == NamesBlock(entries) && totalFileSize == EncodedSize(entries) % U32Limit
    ensures dataOffsets.Length == |entries| && nameOffsetsAbs.Length == |entries|
    ensures forall j :: 0 <= j < |entries| ==> DataPlaced(entries, j, dataOffsets[j])
    ensures forall j :: 0 <= j < |entries| ==> NamePlaced(entries, j, nameOffsetsAbs[j])
  {
    var n := |entries|;
    names := BuildNames(entries);
    var namesSize := |names| % U32Limit;
    var pairsSize := (n * 8) % U32Limit;
    var headerBeforeNames := (8 + 4 + 4 + pairsSize + 8) % U32Limit;
    var dataRegionStart := (headerBeforeNames + namesSize) % U32Limit;
    DataRegionStart(entries, namesSize);
    var cursor;
    dataOffsets, cursor := PlacePayloads(entries, dataRegionStart);
    totalFileSize := cursor;
    nameOffsetsAbs := PlaceNames(entries, headerBeforeNames);
  }

  /** After the table: a zero placeholder for the total size, the names and
      the payloads; then a seek back to patch the total size in. */
  method WriteTail(out: Stream, entries: seq<Entry>, names: seq<byte>, totalFileSize: nat)
    requires out.Valid() && out.position == |out.bytes| && out.bytes == Header(entries) + Table(entries, |entries|)
    requires names == NamesBlock(entries) && totalFileSize == EncodedSize(entries) % U32Limit
    modifies out
    ensures out.bytes == Encode(entries)
  {
    var fileSizePos := out.position;
    ghost var prefix := out.bytes;
    out.Write(LE(0, 8));
    out.Write(names);
    WritePayloads(out, entries);
    assert out.bytes == prefix + LE(0, 8) + (names + Payloads(entries));
    out.Seek(fileSizePos);
    OverwriteBlock(prefix, LE(0, 8), names + Payloads(entries), LE(totalFileSize, 8));
    out.Write(LE(totalFileSize, 8));
  }

  /** The image `Save` writes: header, records, a placeholder for the total
      size, the names block and the payloads, then the total size patched in. */
  method WriteImage(entries: seq<Entry>) returns (image: seq<byte>)
    ensures image == Encode(entries)
  {
    var names, dataOffsets, nameOffsetsAbs, totalFileSize := PlanImage(entries);
    var out := new Stream();
    WriteHeader(out, entries, |names| % U32Limit);
    WriteTable(out, entries, dataOffsets, nameOffsetsAbs);
    WriteTail(out, entries, names, totalFileSize);
    image := out.bytes;
  }
}
