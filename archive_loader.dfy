/** `ArchiveLoader.Load`: reads a file and picks the archive kind by its magic
    bytes, the Tanarus `.t3d` magic at offset 0 first, then the PFS signature
    "PFS " at offset 4 (as used by `.s3d`, `.eqg` and `.pfs` files). */
module ArchiveLoader {
  import opened Common
  import opened Bytes
  import opened Text
  import opened T3DFormat
  import opened T3DArchive

  /** "PFS " read as a little-endian `uint`. */
  const PfsSignature: nat := 0x20534650

  predicate HasT3DMagic(b: seq<byte>)
  {
    |b| >= 8 && b[..8] == Magic
  }

  predicate HasPfsMagic(b: seq<byte>)
  {
    |b| >= 12 && U32At(b, 4) == PfsSignature
  }

  /** The low byte of a little-endian number is its first byte. */
  lemma ReadLELowByte(s: seq<byte>)
    requires |s| > 0
    ensures ReadLE(s) % 256 == s[0]
  {
    DivModUnique(ReadLE(s), 256, ReadLE(s[1..]), s[0]);
  }

  /** No image carries both signatures: byte 4 is 0x50 ('P') in one and 0x00
      in the other. */
  lemma SignaturesDisjoint(b: seq<byte>)
    ensures !(HasPfsMagic(b) && HasT3DMagic(b))
  {
    if HasPfsMagic(b) {
      ReadLELowByte(b[4..8]);
      assert b[4] == b[4..8][0];
      assert b[4] == 0x50;
    }
  }

  datatype Format = T3D | Pfs | Unknown

  /** The kind of archive the magic bytes announce. Because the signatures
      never overlap, the order of the two checks does not matter. */
  function Detect(b: seq<byte>): (r: Format)
    ensures r == T3D <==> HasT3DMagic(b)
    ensures r == Pfs <==> HasPfsMagic(b)
    ensures r == Unknown <==> !HasT3DMagic(b) && !HasPfsMagic(b)
  {
    SignaturesDisjoint(b);
    if HasT3DMagic(b) then T3D else if HasPfsMagic(b) then Pfs else Unknown
  }

  /** What `Load` returns: no archive, a `.t3d` archive, or the path and bytes
      handed to `EQArchive.Load`, which is not part of this model. */
  datatype Outcome = NoArchive | T3DOpened(archive: ArchiveState) | PfsOpened(path: string, bytes: seq<byte>)

  /** `ArchiveLoader.Load(path)`, with `bytes` the file's contents as read
      (`None` when the file could not be read). */
  function Load(path: string, bytes: Option<seq<byte>>): (r: Outcome)
    ensures bytes.None? ==> r == NoArchive
    ensures r.T3DOpened? ==> bytes.Some? && HasT3DMagic(bytes.value) && Loaded(path, bytes) == Some(r.archive)
    ensures r.PfsOpened? ==> bytes == Some(r.bytes) && r.path == path && HasPfsMagic(r.bytes)
    ensures bytes.Some? && HasT3DMagic(bytes.value) ==> (r.NoArchive? <==> Loaded(path, bytes).None?)
    ensures bytes.Some? && HasPfsMagic(bytes.value) ==> r == PfsOpened(path, bytes.value)
    ensures bytes.Some? && !HasT3DMagic(bytes.value) && !HasPfsMagic(bytes.value) ==> r == NoArchive
  {
    match bytes
    case None => NoArchive
    case Some(b) =>
      match Detect(b)
      case T3D => (match Loaded(path, bytes)
                   case None => NoArchive
                   case Some(a) => T3DOpened(a))
      case Pfs => PfsOpened(path, b)
      case Unknown => NoArchive
  }

  /** A file of 8 to 15 bytes that starts with the `.t3d` magic opens as
      nothing: it is claimed by the `.t3d` check and refused by
      `T3DArchive.Load`, never offered to the PFS loader. */
  lemma ShortT3DOpensNothing(path: string, b: seq<byte>)
    requires HasT3DMagic(b) && |b| < 16
    ensures Load(path, Some(b)) == NoArchive
  {
  }

  /** A `.t3d` image opens as a `.t3d` archive exactly when `T3DArchive.Load`
      accepts it, and then as what that load builds. */
  lemma T3DDelegates(path: string, b: seq<byte>)
    requires HasT3DMagic(b)
    ensures Load(path, Some(b)).T3DOpened? <==> !IsBlank(path) && |b| >= 16
    ensures Load(path, Some(b)).T3DOpened? ==> Some(Load(path, Some(b)).archive) == Loaded(path, Some(b))
  {
  }

  /** What a successful `Save` wrote opens, through the detector, as a `.t3d`
      archive holding the same entries. */
  lemma SavedOpensAsT3D(s: ArchiveState, storageOk: bool, path: string)
    requires Archivable(s.files) && !IsBlank(path)
    requires Saved(s, storageOk).status == OK
    ensures Load(path, Saved(s, storageOk).written).T3DOpened?
    ensures Load(path, Saved(s, storageOk).written).archive.files == Reloaded(s.files)
    ensures Load(path, Saved(s, storageOk).written).archive.status == OK
  {
    SaveThenLoad(s, storageOk, path);
  }
}
