/** The `T3DArchive` object: its properties, the `Filename` setter, `Load`,
    `Save`, and the directory operations `FindFile`, `FindFileOrSimilarImage`,
    `Add` and `Remove`. Each state-changing method is proved against a pure
    function of the old state, and the properties of the archive are lemmas
    about those functions. */
module T3DArchive {
  import opened Common
  import opened Bytes
  import opened Text
  import opened Directory
  import opened T3DFormat
  import opened T3DReader
  import opened T3DWriter

  /** The archive's properties, as values. */
  datatype ArchiveState = ArchiveState(
    filePath: string,
    filename: string,
    files: seq<Entry>,
    isDirty: bool,
    sizeOnDisk: nat,
    status: Status)

  /** A new archive: no path, untitled, empty, status `NotImplemented`. */
  const Fresh := ArchiveState("", Untitled, [], false, 0, NotImplemented)

  // =====================================================================
  // The Filename setter
  // =====================================================================

  /** Setting `Filename`: a blank value makes the archive untitled; otherwise
      the file name part is kept and a non-empty directory part, if any,
      replaces `FilePath`. */
  function SetName(s: ArchiveState, value: string): (r: ArchiveState)
    ensures r.files == s.files && r.isDirty == s.isDirty
    ensures r.sizeOnDisk == s.sizeOnDisk && r.status == s.status
    ensures forall i :: 0 <= i < |r.filename| ==> !IsSeparator(r.filename[i])
    ensures IsBlank(value) ==> r.filename == Untitled && r.filePath == s.filePath
    ensures !IsBlank(value) ==> |r.filename| <= |value| && r.filename == value[|value| - |r.filename|..]
    ensures !IsBlank(value) && (forall i :: 0 <= i < |value| ==> !IsSeparator(value[i])) ==>
      r.filename == value && r.filePath == s.filePath
    ensures !IsBlank(value) && (exists i :: 0 <= i < |value| && IsSeparator(value[i])) ==>
      && |r.filename| < |value| && IsSeparator(value[|value| - |r.filename| - 1])
      && r.filePath != "" && |r.filePath| <= |value| && r.filePath == value[..|r.filePath|]
    ensures !IsBlank(value) && (exists i :: 0 <= i < |value| && IsSeparator(value[i])) ==>
      r.filePath == DirectoryName(value)
  {
    if IsBlank(value) then s.(filename := Untitled)
    else
      var p := DirectoryName(value);
      s.(filePath := if p != "" then p else s.filePath, filename := FileName(value))
  }

  // =====================================================================
  // Load
  // =====================================================================

  /** `Load(filename, contents)`: no archive for a blank name, missing
      contents, fewer than 16 bytes or a wrong magic; otherwise an archive
      named after `filename`, sized as the contents, holding what `Decode`
      makes of them. */
  function Loaded(filename: string, contents: Option<seq<byte>>): (r: Option<ArchiveState>)
    ensures r.None? <==>
      IsBlank(filename) || contents.None? || |contents.value| < 16 || contents.value[..8] != Magic
    ensures r.Some? ==>
      && r.value.filename == FileName(filename) && !r.value.isDirty
      && r.value.sizeOnDisk == |contents.value| % U32Limit && Sorted(r.value.files)
      && (r.value.status == OK || r.value.status == MalformedFile)
  {
    if IsBlank(filename) || contents.None? || |contents.value| < 16 || contents.value[..8] != Magic then None
    else
      var c := contents.value;
      var d := Decode(c);
      Some(SetName(Fresh, filename).(sizeOnDisk := |c| % U32Limit, files := d.files, status := d.status))
  }

  // =====================================================================
  // Save
  // =====================================================================

  /** What `Save` reports, what it writes (nothing when it fails), and the
      archive after it. */
  datatype SaveOutcome = SaveOutcome(status: Status, written: Option<seq<byte>>, after: ArchiveState)

  /** `Save()`: refused without a path or a name; a failure of the file
      system (`storageOk` false) reports `FileWriteError`; otherwise the
      image is written and the archive is clean, `OK`, and sized as the
      image. */
  function Saved(s: ArchiveState, storageOk: bool): (r: SaveOutcome)
    ensures r.status == OK <==> r.written.Some?
    ensures r.status == OK <==> s.filePath != "" && s.filename != Untitled && storageOk
    ensures r.status != OK ==> r.after == s
    ensures s.filePath == "" || s.filename == Untitled ==> r.status == InvalidArgument
    ensures s.filePath != "" && s.filename != Untitled && !storageOk ==> r.status == FileWriteError
    ensures r.after.files == s.files && r.after.filePath == s.filePath && r.after.filename == s.filename
    ensures r.status == OK ==>
      && r.written.value == Encode(s.files)
      && !r.after.isDirty && r.after.status == OK
      && r.after.sizeOnDisk == |r.written.value| % U32Limit
  {
    if s.filePath == "" || s.filename == Untitled then SaveOutcome(InvalidArgument, None, s)
    else if !storageOk then SaveOutcome(FileWriteError, None, s)
    else
      var image := Encode(s.files);
      SaveOutcome(OK, Some(image), s.(sizeOnDisk := |image| % U32Limit, isDirty := false, status := OK))
  }

  /** The size field patched into what a successful save wrote holds the size
      the archive records, which is the written length whenever that is
      below 4 GiB. */
  lemma SavedSizeField(s: ArchiveState, storageOk: bool)
    requires Saved(s, storageOk).status == OK
    ensures var image, n := Saved(s, storageOk).written.value, |s.files|;
      && |image| >= HeaderSize(n)
      && ReadLE(image[RecordStart(n)..HeaderSize(n)]) == Saved(s, storageOk).after.sizeOnDisk
      && (|image| < U32Limit ==> Saved(s, storageOk).after.sizeOnDisk == |image|)
  {
    var image := Encode(s.files);
    assert Saved(s, storageOk).written.value == image;
    assert Saved(s, storageOk).after.sizeOnDisk == |image| % U32Limit;
    EncodeSizeField(s.files);
    if |image| < U32Limit {
      WrapFits(|image|, U32Limit);
    }
  }

  /** What a successful save wrote loads back, under any non-blank path, as the
      same entries (each with a freshly read entry's status), with status
      `OK` and the size the save recorded. */
  lemma SaveThenLoad(s: ArchiveState, storageOk: bool, path: string)
    requires Archivable(s.files) && !IsBlank(path)
    requires Saved(s, storageOk).status == OK
    ensures Loaded(path, Saved(s, storageOk).written).Some?
    ensures var back := Loaded(path, Saved(s, storageOk).written).value;
      && back.files == Reloaded(s.files) && back.status == OK
      && back.sizeOnDisk == Saved(s, storageOk).after.sizeOnDisk
      && back.filename == FileName(path)
  {
    RoundTrip(s.files);
    EncodeHeader(s.files);
  }

  // =====================================================================
  // Directory operations
  // =====================================================================

  /** `FindFile`: the entry stored under the lower-cased file name part of
      `name`. */
  function FindIn(d: seq<Entry>, name: string): (r: Option<Entry>)
    ensures r.Some? ==> r.value in d && Key(r.value) == Lower(FileName(name))
    ensures r.None? ==> forall i :: 0 <= i < |d| ==> Key(d[i]) != Lower(FileName(name))
  {
    Lookup(d, Lower(FileName(name)))
  }

  /** In a sorted directory, `FindIn` gives the one entry whose key is the
      query's. */
  lemma FindInSorted(d: seq<Entry>, name: string)
    ensures Sorted(d) ==>
      forall i :: 0 <= i < |d| && Key(d[i]) == Lower(FileName(name)) ==> FindIn(d, name) == Some(d[i])
  {
    if Sorted(d) {
      forall i | 0 <= i < |d| && Key(d[i]) == Lower(FileName(name))
        ensures FindIn(d, name) == Some(d[i])
      {
        LookupMember(d, d[i]);
      }
    }
  }

  /** An entry is similar to `prefix` when it is an image whose name without
      extension equals `prefix` up to case. */
  predicate Similar(e: Entry, prefix: string, isImage: string -> bool)
  {
    isImage(e.name) && Lower(prefix) == Lower(Stem(e.name))
  }

  /** The position of the first entry at or after `k`, in directory order,
      similar to `prefix`, or -1. */
  function FirstSimilar(d: seq<Entry>, k: nat, prefix: string, isImage: string -> bool): (r: int)
    requires k <= |d|
    ensures r == -1 || k <= r < |d|
    ensures r < 0 <==> forall i :: k <= i < |d| ==> !Similar(d[i], prefix, isImage)
    ensures r >= 0 ==> Similar(d[r], prefix, isImage) && forall j :: k <= j < r ==> !Similar(d[j], prefix, isImage)
    decreases |d| - k
  {
    if k == |d| then -1
    else if Similar(d[k], prefix, isImage) then k
    else FirstSimilar(d, k + 1, prefix, isImage)
  }

  /** `FindFileOrSimilarImage`: for an image name, the first similar image;
      for any other name, `FindFile`. */
  function FindSimilarIn(d: seq<Entry>, name: string, isImage: string -> bool): (r: Option<Entry>)
    ensures r.Some? ==> r.value in d
    ensures !isImage(name) ==> r == FindIn(d, name)
    ensures isImage(name) && r.Some? ==> isImage(r.value.name)
  {
    if !isImage(name) then FindIn(d, name)
    else
      var i := FirstSimilar(d, 0, Stem(FileName(name)), isImage);
      if i < 0 then None else Some(d[i])
  }

  /** The entry `Add` stores: the new entry, renamed to the entry it replaces
      when there is one. */
  function Adopted(d: seq<Entry>, f: Entry, replaceSimilarImage: bool, isImage: string -> bool): (r: Entry)
    ensures r.contents == f.contents && r.status == f.status
  {
    var existing := if replaceSimilarImage then FindSimilarIn(d, f.name, isImage) else FindIn(d, f.name);
    if existing.Some? then f.(name := existing.value.name) else f
  }

  /** `Add`: the entry found for the new one (exactly, or as a similar image)
      is removed, and the new entry, under the found entry's name, is stored
      under its key. */
  function Added(d: seq<Entry>, f: Entry, replaceSimilarImage: bool, isImage: string -> bool): (r: seq<Entry>)
    requires Sorted(d)
    ensures Sorted(r)
  {
    var existing := if replaceSimilarImage then FindSimilarIn(d, f.name, isImage) else FindIn(d, f.name);
    var f' := Adopted(d, f, replaceSimilarImage, isImage);
    if existing.Some? then Put(RemoveAt(d, IndexOfValue(d, existing.value)), f')
    else Put(d, f')
  }

  /** After `Add`, the stored entry is found under its key and every other key
      finds what it found before: the replaced entry shares the key, so
      nothing else is lost. */
  lemma AddedLookup(d: seq<Entry>, f: Entry, replaceSimilarImage: bool, isImage: string -> bool, k: string)
    requires Sorted(d)
    ensures var f' := Adopted(d, f, replaceSimilarImage, isImage);
      Lookup(Added(d, f, replaceSimilarImage, isImage), k) == if k == Key(f') then Some(f') else Lookup(d, k)
  {
    var existing := if replaceSimilarImage then FindSimilarIn(d, f.name, isImage) else FindIn(d, f.name);
    if existing.Some? {
      var i := IndexOfValue(d, existing.value);
      assert Key(d[i]) == Key(Adopted(d, f, replaceSimilarImage, isImage));
    }
  }

  /** An entry added without looking for a similar image, under a plain file
      name, is what `FindFile` then finds for that name. */
  lemma AddThenFind(d: seq<Entry>, f: Entry, isImage: string -> bool)
    requires Sorted(d) && FileName(f.name) == f.name
    ensures FindIn(Added(d, f, false, isImage), f.name) == Some(Adopted(d, f, false, isImage))
  {
    var f' := Adopted(d, f, false, isImage);
    var k := Lower(FileName(f.name));
    assert k == Lower(f.name);
    assert Key(f') == k by {
      if FindIn(d, f.name).Some? {
        assert Key(FindIn(d, f.name).value) == k;
      }
    }
    AddedLookup(d, f, false, isImage, k);
  }

  /** `Remove(file)` of a member: it is gone, nothing else changes. */
  function Removed(d: seq<Entry>, f: Entry): (r: seq<Entry>)
    requires Sorted(d) && f in d
    ensures Sorted(r) && |r| == |d| - 1
    ensures forall k :: Lookup(r, k) == if k == Key(f) then None else Lookup(d, k)
  {
    RemoveAt(d, IndexOfValue(d, f))
  }

  /** `Remove(name)`: after it, `FindFile` finds nothing for that name, and
      every other key finds what it found before. */
  lemma RemoveByNameFindsNothing(d: seq<Entry>, name: string)
    requires Sorted(d)
    ensures var r := if FindIn(d, name).Some? then Removed(d, FindIn(d, name).value) else d;
      && FindIn(r, name).None?
      && forall k :: k != Lower(FileName(name)) ==> Lookup(r, k) == Lookup(d, k)
  {
  }

  /** The byte-by-byte comparison of the first eight bytes with the magic. */
  method MatchesMagic(contents: array<byte>) returns (ok: bool)
    requires contents.Length >= 8
    ensures ok <==> contents[..][..8] == Magic
  {
    for i := 0 to |Magic|
      invariant forall j :: 0 <= j < i ==> contents[j] == Magic[j]
    {
      if contents[i] != Magic[i] {
        assert contents[..][..8][i] != Magic[i];
        return false;
      }
    }
    assert contents[..][..8] == Magic;
    return true;
  }

  // =====================================================================
  // The archive object
  // =====================================================================

  class Archive {
    var filePath: string
    var filename: string
    var files: seq<Entry>
    var isDirty: bool
    var sizeOnDisk: nat
    var status: Status

    function State(): ArchiveState
      reads this
    {
      ArchiveState(filePath, filename, files, isDirty, sizeOnDisk, status)
    }

    /** The directory is kept sorted by key and the size fits a `uint`. */
    ghost predicate Valid()
      reads this
    {
      Sorted(files) && sizeOnDisk < U32Limit
    }

    constructor()
      ensures Valid() && State() == Fresh
    {
      filePath := "";
      filename := Untitled;
      files := [];
      isDirty := false;
      sizeOnDisk := 0;
      status := NotImplemented;
    }

    /** The `Filename` setter. */
    method SetFilename(value: string)
      modifies this
      ensures State() == SetName(old(State()), value)
    {
      if IsBlank(value) {
        filename := Untitled;
        return;
      }
      var p := DirectoryName(value);
      if p != "" {
        filePath := p;
      }
      filename := FileName(value);
    }

    /** `Load(filename, contents)`; `null` contents stand for a file that
        could not be read. */
    static method Load(name: string, contents: array?<byte>) returns (archive: Archive?)
      ensures var l := Loaded(name, if contents == null then None else Some(contents[..]));
        && (archive == null <==> l.None?)
        && (archive != null ==> fresh(archive) && archive.Valid() && archive.State() == l.value)
    {
      if IsBlank(name) || contents == null || contents.Length < 16 {
        return null;
      }
      var magicOk := MatchesMagic(contents);
      if !magicOk {
        return null;
      }
      archive := Open(name, contents);
    }

    /** The part of `Load` after the checks: a new archive under `name`, sized
        as the contents, holding what the decode loops make of them. */
    static method Open(name: string, contents: array<byte>) returns (archive: Archive)
      requires !IsBlank(name) && contents.Length >= 16 && contents[..][..8] == Magic
      ensures fresh(archive) && archive.Valid()
      ensures archive.State() == Loaded(name, Some(contents[..])).value
    {
      var d := DecodeImage(contents);
      archive := new Archive();
      archive.SetFilename(name);
      archive.sizeOnDisk := contents.Length % U32Limit;
      archive.files := d.files;
      archive.status := d.status;
    }

    /** `Save()`. `storageOk` says whether the file system lets the file be
        created and written; `written` is the file's contents. */
    method Save(storageOk: bool) returns (r: Status, written: Option<seq<byte>>)
      requires Valid()
      modifies this
      ensures Valid()
      ensures SaveOutcome(r, written, State()) == Saved(old(State()), storageOk)
    {
      if filePath == "" || filename == Untitled {
        return InvalidArgument, None;
      }
      if !storageOk {
        return FileWriteError, None;
      }
      var image := WriteImage(files);
      sizeOnDisk := |image| % U32Limit;
      isDirty := false;
      status := OK;
      return OK, Some(image);
    }

    /** `Save(filename)`: the setter, then `Save()`. */
    method SaveAs(value: string, storageOk: bool) returns (r: Status, written: Option<seq<byte>>)
      requires Valid()
      modifies this
      ensures Valid()
      ensures SaveOutcome(r, written, State()) == Saved(SetName(old(State()), value), storageOk)
    {
      SetFilename(value);
      r, written := Save(storageOk);
    }

    /** `FindFile(name)`: the entry of this archive under the lower-cased
        file-name part of `name`; in a sorted directory, the one entry with
        that key. */
    function FindFile(name: string): (r: Option<Entry>)
      reads this
      ensures r.Some? ==> r.value in files && Key(r.value) == Lower(FileName(name))
      ensures r.None? <==> forall i :: 0 <= i < |files| ==> Key(files[i]) != Lower(FileName(name))
      ensures Sorted(files) ==>
        forall i :: 0 <= i < |files| && Key(files[i]) == Lower(FileName(name)) ==> r == Some(files[i])
    {
      FindInSorted(files, name);
      FindIn(files, name)
    }

    /** The search loop of `FindFileOrSimilarImage`. */
    method FindFileOrSimilarImage(name: string, isImage: string -> bool) returns (r: Option<Entry>)
      ensures r == FindSimilarIn(files, name, isImage)
    {
      if !isImage(name) {
        return FindFile(name);
      }
      var prefix := Stem(FileName(name));
      ghost var first := FirstSimilar(files, 0, prefix, isImage);
      for i := 0 to |files|
        invariant forall j :: 0 <= j < i ==> !Similar(files[j], prefix, isImage)
        invariant first < 0 || i <= first
      {
        if isImage(files[i].name) && Lower(prefix) == Lower(Stem(files[i].name)) {
          assert Similar(files[i], prefix, isImage);
          assert first == i;
          return Some(files[i]);
        }
      }
      return None;
    }

    /** The entry `Add` replaces: by exact name, or as a similar image. */
    method FindExisting(name: string, replaceSimilarImage: bool, isImage: string -> bool) returns (existing: Option<Entry>)
      ensures existing == if replaceSimilarImage then FindSimilarIn(files, name, isImage) else FindIn(files, name)
    {
      if replaceSimilarImage {
        existing := FindFileOrSimilarImage(name, isImage);
      } else {
        existing := FindFile(name);
      }
    }

    /** `Add(file, replaceSimilarImage)`; a missing file is refused. Returns
        the added entry's own status. */
    method Add(file: Option<Entry>, replaceSimilarImage: bool, isImage: string -> bool) returns (r: Status)
      requires Valid()
      modifies this
      ensures Valid()
      ensures file.None? ==> r == InvalidArgument && State() == old(State())
      ensures file.Some? ==>
        && r == file.value.status
        && State() == old(State()).(files := Added(old(files), file.value, replaceSimilarImage, isImage), isDirty := true)
    {
      if file.None? {
        return InvalidArgument;
      }
      var f := file.value;
      var existing := FindExisting(f.name, replaceSimilarImage, isImage);
      var updated := files;
      if existing.Some? {
        updated := RemoveAt(updated, IndexOfValue(updated, existing.value));
        f := f.(name := existing.value.name);
      }
      updated := Put(updated, f);
      assert f == Adopted(files, file.value, replaceSimilarImage, isImage);
      assert updated == Added(files, file.value, replaceSimilarImage, isImage);
      files := updated;
      isDirty := true;
      return f.status;
    }

    /** `Remove(file)`; a missing file is `FileNotFound`. */
    method Remove(file: Option<Entry>) returns (r: Status)
      requires Valid() && (file.Some? ==> file.value in files)
      modifies this
      ensures Valid()
      ensures file.None? ==> r == FileNotFound && State() == old(State())
      ensures file.Some? ==>
        r == OK && State() == old(State()).(files := Removed(old(files), file.value), isDirty := true)
    {
      if file.None? {
        return FileNotFound;
      }
      files := RemoveAt(files, IndexOfValue(files, file.value));
      isDirty := true;
      return OK;
    }

    /** `Remove(name)`: `Remove(FindFile(name))`. */
    method RemoveByName(name: string) returns (r: Status)
      requires Valid()
      modifies this
      ensures Valid()
      ensures r == OK <==> old(FindFile(name)).Some?
      ensures r == OK ==>
        State() == old(State()).(files := Removed(old(files), old(FindFile(name)).value), isDirty := true)
      ensures r != OK ==> r == FileNotFound && State() == old(State())
      ensures FindFile(name).None?
    {
      var f := FindFile(name);
      r := Remove(f);
      RemoveByNameFindsNothing(old(files), name);
    }
  }
}
