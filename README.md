# Tanarus `.t3d` archive model

A model in Dafny of the Tanarus `.t3d` container as EQZip reads and writes it (`T3DArchive`), and of the magic-byte dispatcher `ArchiveLoader.Load`, with proofs about both.

A `.t3d` file holds the following:
- An 8-byte magic `02 3D FF FF 00 57 01 00`.
- A stored count, which is the number of entries plus one.
- The size of the names section.
- One 8-byte record per entry. A record holds the entry's data offset and its name offset. The name offset is relative to the record's own start `16 + 8i`.
- A 64-bit total file size.
- The NUL-terminated names.
- The raw payloads, back to back.

All integers are little-endian. The archive object keeps its entries in a list sorted by lower-cased name. It also carries a file path, a file name, a dirty flag, a size on disk and a status.

How the model is built:
- `T3DFormat` states the format as two pure functions.
  - `Decode` is what `Load` makes of a byte image.
  - `Encode` is the image that `Save` writes.
- `T3DReader` and `T3DWriter` hold the loops of `Load` and `Save`. They work over arrays and a seekable stream (`Streams.Stream`). They are proved to compute exactly `Decode` and `Encode`.
- `T3DArchive.Archive` is the object. Each state-changing method is proved against a pure function of the archive's state (`SetName`, `Loaded`, `Saved`, `Added`, `Removed`).
- `ArchiveLoader` classifies a buffer by its signature and dispatches it.

The central theorem is `T3DFormat.RoundTrip`. Take any sorted directory with ASCII names that contain no NUL, and whose image is at most `int.MaxValue` bytes. Decoding its image gives back the same names and contents, in the same order, each entry with status `OK`, and the decode itself reports `OK`.

Behaviour of the code worth noting:
- `Save` has no create-and-rename (atomic replace) step. A failed write may leave a partial file behind.
- `SizeOnDisk` is a `uint`, so it is the length modulo 2^32.

## Model

| member | source | states |
|---|---|---|
| Bytes.ReadLEOfLE | T3DArchive.cs:184-195 | a value written as `n` little-endian bytes reads back as the same value when it fits in `n` bytes |
| Bytes.LEMod | T3DArchive.cs:184-187 | writing a value into `n` bytes keeps only its value modulo 256^n (the `(uint)` cast) |
| Text.AsciiRoundTrip | T3DArchive.cs:86-87 | an ASCII name without NUL encodes to NUL-free bytes and decodes back to itself |
| Text.FileName | T3DArchive.cs:23 | the file name is the suffix of the path after its last separator: it contains no separator, and when it is shorter than the path, the character before it is a separator |
| Text.DirectoryName | T3DArchive.cs:21-22 | the directory part is the prefix of the path before its last separator. It is empty exactly when the path has no separator. When the last separator is the first character, it is that separator alone (the root) |
| Text.Stem | T3DArchive.cs:244 | the name without extension contains no separator |
| Text.StemCutsAtLastDot | T3DArchive.cs:244 | the name without extension is the prefix of the file name before its last '.', or the whole file name when it has no '.' |
| Directory.BelowTotal | T3DArchive.cs:26 | two different keys are always ordered, so the sorted list holds one entry per key |
| Directory.Lookup | T3DArchive.cs:236 | a found entry is in the directory under that key; when nothing is found, no entry has that key |
| Directory.LookupMember | T3DArchive.cs:236 | in a sorted directory every entry is exactly what its own key looks up |
| Directory.IndexOfKey | T3DArchive.cs:268 | the position of a key, or -1 exactly when no entry has it |
| Directory.IndexOfValue | T3DArchive.cs:264 | the first position of an entry, or -1 exactly when it is absent |
| Directory.Insert | T3DArchive.cs:102 | adding an absent key keeps the list sorted, grows it by one, and makes the key find the new entry while every other key finds what it found before |
| Directory.InsertLast | T3DArchive.cs:102 | adding a key above every present key appends it |
| Directory.Put | T3DArchive.cs:268 | assigning through the indexer keeps the list sorted; the key finds the new entry and every other key is unchanged |
| Directory.RemoveAt | T3DArchive.cs:264 | removing a position keeps the list sorted, shrinks it by one, makes the removed key find nothing and leaves every other key unchanged |
| T3DFormat.EntryCount | T3DArchive.cs:53-54 | the entry count, the stored count minus one with `uint` wrap-around, always fits a `uint` |
| T3DFormat.FindNul | T3DArchive.cs:86 | the position of the first 0 byte at or after the start, or none when the image ends first |
| T3DFormat.Resolve | T3DArchive.cs:80-110 | adding the read entries keeps the directory sorted and ends with `OK` or `MalformedFile` |
| T3DFormat.Decode | T3DArchive.cs:50-110 | the decoded directory is sorted and the status is `OK` or `MalformedFile` |
| T3DFormat.EntrySize | T3DArchive.cs:89-93 | the size, a `uint` difference for all but the last entry and a `ulong` difference from the total size for the last, is the plain difference when the offsets run forwards, and exceeds `int.MaxValue` when a start of at most `int.MaxValue` lies past the next offset |
| T3DFormat.ReadEntry | T3DArchive.cs:83-100 | a read entry has the name found at its name offset, status `OK`, at most `int.MaxValue` bytes, and contents that are the image's bytes from its data offset, inside the image. `ReadEntryRange` states exactly when it reads |
| T3DFormat.ReadEntryRange | T3DArchive.cs:83-100 | entry `i` reads exactly when the following hold: its name is NUL-terminated inside the image; its payload runs forwards from data offset `i` to the next offset (the total size for the last entry); that range lies inside the image; and start and size are at most `int.MaxValue`. The entry is then that name and that slice; decreasing offsets never read |
| T3DFormat.ResolveSpec | T3DArchive.cs:80-110 | adding succeeds exactly when every record reads and no two keys collide, and then holds exactly the read entries; otherwise the status is `MalformedFile` |
| T3DFormat.DecodeSpec | T3DArchive.cs:53-110 | decoding is `OK` exactly when the table fits, every entry reads and the keys are distinct; then the directory has `storedCount - 1` entries and each lower-cased name finds its own entry |
| T3DFormat.DecodeRejectsEntry | T3DArchive.cs:83-110 | any entry that fails to read (name past the end, wrapped or oversized size, copy range outside the image) makes the decode `MalformedFile` |
| T3DFormat.DecodeRejectsDuplicate | T3DArchive.cs:102-110 | two names with the same lower-cased key make the decode `MalformedFile` |
| T3DFormat.StoredCountZero | T3DArchive.cs:53-61 | in an image no longer than `int.MaxValue` bytes, a stored count of 0 wraps to 2^32 - 1 entries and gives an empty `MalformedFile` directory |
| T3DFormat.StoredCountOne | T3DArchive.cs:53-75 | an image of at least 24 bytes with a stored count of 1 is the empty archive, status `OK` |
| T3DFormat.Encode | T3DArchive.cs:139-215 | the image `Save` writes starts with the magic and is at least as long as the header and table. Its layout is stated by the `Encode…` lemmas below, and `RoundTrip` decodes it |
| T3DFormat.CursorSteps | T3DArchive.cs:152-178 | the names start at `24 + 8n` and the payloads right after the names; each step advances by the name length plus its NUL, or by the payload length |
| T3DFormat.EncodeLength | T3DArchive.cs:159-169 | the image is as long as the final payload cursor |
| T3DFormat.EncodeHeader | T3DArchive.cs:180-187 | the image starts with the magic, `n + 1` and the names size, and holds the total size right after the table |
| T3DFormat.EncodeRecordAt | T3DArchive.cs:189-196 | record `i` holds payload `i`'s offset and name `i`'s offset minus the record's start |
| T3DFormat.EncodeNameAt | T3DArchive.cs:140-150 | name `i` and its NUL sit at its absolute name offset |
| T3DFormat.EncodePayloadAt | T3DArchive.cs:159-168 | payload `i` fills the range from its data offset to the next one |
| T3DFormat.EncodeSizeField | T3DArchive.cs:213-215 | the patched size field holds the image length modulo 2^32 |
| T3DFormat.RoundTrip | T3DArchive.cs:181-215 | decoding the image of a sorted directory with ASCII, NUL-free names gives the same names and payloads back, in the same order, with status `OK` |
| T3DFormat.RoundTripLookup | T3DArchive.cs:102 | after the round trip, each key finds an entry exactly when it did before, with the same name and payload |
| Streams.Overwrite | T3DArchive.cs:214-215 | a write at a position keeps what precedes it, replaces what it covers, and keeps or extends the rest |
| Streams.OverwriteBlock | T3DArchive.cs:214-215 | seeking back and writing over a block of the same length replaces just that block |
| Streams.Stream.Write | T3DArchive.cs:181-215 | the stream becomes the overwrite of its bytes at the position; at the end of the stream a write appends |
| Streams.Stream.Seek | T3DArchive.cs:214 | only the position moves |
| T3DReader.ReadTable | T3DArchive.cs:58-72 | the table loop succeeds exactly when every record lies inside the image, and fills both arrays with the records' values |
| T3DReader.ScanName | T3DArchive.cs:83-87 | the NUL loop reads exactly the NUL-terminated name at the offset, or fails past the end |
| T3DReader.ReadFile | T3DArchive.cs:80-100 | one iteration of the entry loop reads exactly entry `i` |
| T3DReader.ReadEntries | T3DArchive.cs:78-105 | the entry loop computes the same directory and status as adding the read entries in table order |
| T3DReader.DecodeImage | T3DArchive.cs:52-110 | everything after the magic check computes exactly `Decode` of the image |
| T3DWriter.BuildNames | T3DArchive.cs:140-150 | the names block: each name's ASCII bytes and a NUL, in key order |
| T3DWriter.PlacePayloads | T3DArchive.cs:158-169 | the payload cursor puts each payload at its data offset modulo 2^32, and ends at the total size |
| T3DWriter.PlaceNames | T3DArchive.cs:171-178 | the rolling sum puts each name at its absolute offset modulo 2^32 |
| T3DWriter.DataRegionStart | T3DArchive.cs:154-156 | the `uint` header and region sizes are the layout's offsets modulo 2^32 |
| T3DWriter.WrittenRecord | T3DArchive.cs:192-195 | the two `uint` fields written for a record are exactly the layout's record |
| T3DWriter.WriteHeader | T3DArchive.cs:180-187 | the three header writes produce the layout's header |
| T3DWriter.WriteRecord | T3DArchive.cs:192-195 | one iteration of the pairs loop appends record `i` |
| T3DWriter.WriteTable | T3DArchive.cs:189-196 | the pairs loop appends the whole table |
| T3DWriter.WritePayloads | T3DArchive.cs:206-211 | the payload loop appends the payloads in order |
| T3DWriter.WriteTail | T3DArchive.cs:198-215 | the placeholder, the names, the payloads and the back-patched size leave exactly the encoded image |
| T3DWriter.PlanImage | T3DArchive.cs:139-178 | the names block, both offset arrays and the total size that `Save` precomputes |
| T3DWriter.WriteImage | T3DArchive.cs:139-215 | what `Save` writes is exactly `Encode` of the directory |
| T3DArchive.SetName | T3DArchive.cs:15-25 | a blank value makes the name `(Untitled)` and leaves the path. Otherwise the name is the value's separator-free suffix. It equals the value when the value has no separator, and then the path is kept. When the value has a separator, the name follows its last separator and the path becomes `DirectoryName` of the value: the part before that separator, or the separator itself when it is the first character |
| T3DArchive.Archive.SetFilename | T3DArchive.cs:15-25 | the setter changes the state exactly as `SetName` |
| T3DArchive.Loaded | T3DArchive.cs:37-48 | no archive exactly when the name is blank, the contents are missing or shorter than 16 bytes, or the magic differs. Otherwise the archive is returned even when malformed, with the name, size and cleanliness set and a sorted directory |
| T3DArchive.MatchesMagic | T3DArchive.cs:45-46 | the byte comparison succeeds exactly when the first eight bytes are the magic |
| T3DArchive.Archive.Open | T3DArchive.cs:48-110 | after the checks, a fresh valid archive whose state is exactly what `Loaded` gives |
| T3DArchive.Archive.Load | T3DArchive.cs:37-114 | the magic loop and the decode loops return `null` or a fresh valid archive, exactly as `Loaded` says |
| T3DArchive.Saved | T3DArchive.cs:125-229 | `InvalidArgument` without writing when the path is empty or the name is `(Untitled)`; `FileWriteError` with the state unchanged when storage fails; otherwise the image written is `Encode` of the directory, and the archive is clean, `OK`, and sized as the image |
| T3DArchive.Archive.Save | T3DArchive.cs:125-229 | status, written bytes and new state are exactly those `Saved` gives |
| T3DArchive.Archive.SaveAs | T3DArchive.cs:119-123 | the setter, then `Save` |
| T3DArchive.SavedSizeField | T3DArchive.cs:213-218 | the patched size field holds the recorded size on disk, which is the written length below 4 GiB |
| T3DArchive.SaveThenLoad | T3DArchive.cs:37-229 | what a successful save wrote loads back with the same names and contents (each entry with status `OK`), with status `OK` and the size the save recorded |
| T3DArchive.FindIn | T3DArchive.cs:234-238 | the entry under the lower-cased file name part of the query, or none exactly when no entry has that key |
| T3DArchive.Archive.FindFile | T3DArchive.cs:234-238 | a found entry belongs to the archive and has the lower-cased file-name part of the query as its key; nothing is found exactly when no entry has that key; in a sorted directory the entry with that key is the one found |
| T3DArchive.FirstSimilar | T3DArchive.cs:245-251 | the first position in key order of an image whose extension-stripped name matches the prefix up to case, or -1 exactly when there is none |
| T3DArchive.FindSimilarIn | T3DArchive.cs:240-252 | for a non-image query it is `FindFile`; for an image query it finds only images in the directory |
| T3DArchive.Archive.FindFileOrSimilarImage | T3DArchive.cs:240-252 | the scan loop returns exactly the first similar image, or `FindFile` for a non-image query |
| T3DArchive.Archive.FindExisting | T3DArchive.cs:258-260 | the entry `Add` replaces is what `FindFileOrSimilarImage` finds when similar images are replaced, and what `FindFile` finds otherwise |
| T3DArchive.Adopted | T3DArchive.cs:262-266 | the stored entry keeps the new contents and status |
| T3DArchive.Added | T3DArchive.cs:254-271 | adding keeps the directory sorted |
| T3DArchive.AddedLookup | T3DArchive.cs:258-268 | after `Add` the stored entry, under the replaced entry's name, is found under its key, and every other key finds what it found before |
| T3DArchive.AddThenFind | T3DArchive.cs:258-268 | an entry added by exact match under a plain file name is what `FindFile` then returns |
| T3DArchive.Archive.Add | T3DArchive.cs:254-271 | `Add(null)` is `InvalidArgument` with nothing changed; otherwise the directory becomes `Added`, the archive is dirty, and the entry's own status is returned |
| T3DArchive.Removed | T3DArchive.cs:273-279 | removing a member keeps the order, shrinks the list by one, makes its key find nothing and leaves every other key unchanged |
| T3DArchive.Archive.Remove | T3DArchive.cs:273-279 | `Remove(null)` is `FileNotFound` with nothing changed; otherwise the directory becomes `Removed`, the archive is dirty, and `OK` is returned |
| T3DArchive.RemoveByNameFindsNothing | T3DArchive.cs:281 | after removing by name, that name finds nothing and every other key is unchanged |
| T3DArchive.Archive.RemoveByName | T3DArchive.cs:281 | `OK` exactly when the name resolved, and then the directory becomes `Removed` of the found entry and the archive is dirty; `FileNotFound` with nothing changed otherwise; afterwards the name finds nothing |
| ArchiveLoader.SignaturesDisjoint | ArchiveLoader.cs:13-21 | no buffer carries both signatures: byte 4 is 0x00 in one and 0x50 in the other |
| ArchiveLoader.Detect | ArchiveLoader.cs:12-27 | T3D exactly when the buffer has at least 8 bytes and the magic; PFS exactly when it has at least 12 bytes and "PFS " at offset 4; otherwise unknown |
| ArchiveLoader.Load | ArchiveLoader.cs:7-28 | unreadable contents give nothing. A T3D buffer opens as what `T3DArchive.Load` builds, and gives nothing exactly when that load refuses it. A PFS buffer is always handed on with its path and bytes. Any other buffer gives nothing |
| ArchiveLoader.ShortT3DOpensNothing | ArchiveLoader.cs:13-17 | a buffer of 8 to 15 bytes with the T3D magic passes detection, yet nothing opens |
| ArchiveLoader.T3DDelegates | ArchiveLoader.cs:13-18 | a T3D buffer opens exactly when the path is not blank and the buffer has at least 16 bytes, and then as what `T3DArchive.Load` builds |
| ArchiveLoader.SavedOpensAsT3D | ArchiveLoader.cs:13-18 | what a successful `Save` wrote is detected as a `.t3d` archive and opens with the same names and contents (each entry with status `OK`) and status `OK` |

## Left out

- File I/O is not modelled:
  - `Util.GetFileContents`, `File.Create`, `Path.Combine`, flushing and disposing.
  - The loaders take the file's contents as a parameter. A null array (`Archive.Load`) or `None` (`ArchiveLoader.Load`) stands for a file that could not be read. Reading the file is left out.
  - `Save` takes `storageOk` (whether the file system lets the file be created and written) and returns the bytes it writes. It does not model the target path `Path.Combine(FilePath, Filename)`.
  - It does not model a write that fails part-way and leaves a partial file.
- `T3DArchive.Load(filePath)` only reads the file and calls `Load(filename, contents)`, so it is covered by `Archive.Load` with the contents passed in.
- `EQArchive`, the PFS loader, is not part of this model. A PFS buffer ends as an outcome that carries its path and bytes.
- `EQArchiveFile` is not part of this model:
  - An entry is a value: name, contents, status.
  - `Add` renames the caller's entry object in place. The model stores a renamed copy, so aliasing of that object is not captured.
  - A decoded entry gets status `OK`, since `SetContents` is not shown.
  - Null contents are not modelled; an entry always has a byte sequence, possibly empty.
- Util.IsImage is a parameter `isImage: string -> bool`.
- `Util.IsBlank` is modelled as "empty or white space only", with white space being ' ' and the control characters 9 to 13.
- The `Path` helpers are modelled with '/' and '\\' as separators. Drive letters, roots, invalid characters and the normalisation .NET performs are not modelled. In particular:
  - Text.DirectoryName splits at the last separator only, so for `a//b` the model gives `a/`, where .NET trims the repeated separator.
  - T3DArchive.SetName with the value `/` sets the path to `/`. .NET's `GetDirectoryName` returns null for a root, so there the path is kept.
- Case and ordering are simplified:
  - `ToLowerInvariant` and `CurrentCultureIgnoreCase` are modelled as ASCII lower-casing.
  - The culture-aware key order of the `SortedList` is modelled as ordinal order on the lower-cased keys. The culture comparer also decides key equality, so names the model keeps apart can be duplicates in the source, for example names that differ only in control characters 1 to 31, which archivable names may contain.
- `Encoding.ASCII` maps non-ASCII characters to '?'. This is modelled, but the round trip is proved only for ASCII names without NUL.
- The model ignores the names-section size read at T3DArchive.cs:55, since the source never uses it.
- The zero-fill through `entries.IndexOf` at T3DArchive.cs:145 has no effect and is not modelled.
- The .NET array length limit is not modelled, except in T3DFormat.StoredCountZero, which assumes an image of at most `int.MaxValue` bytes.
- T3DArchive.Archive.Remove requires the entry to be in the directory. For a non-member entry, the source calls `RemoveAt(-1)`, which throws an exception that nothing catches.
- T3DFormat.RoundTrip requires the image to be at most `int.MaxValue` bytes, which the reader needs for every offset and size. Images of 4 GiB or more (where the `uint` cursor wraps) are encoded with that wrap-around, but no round trip is claimed for them.
- Concurrency and exceptions other than those the source catches are not modelled.
