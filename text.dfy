/** Names: ASCII transcoding, invariant lower-casing, blank test and the path
    helpers (base name, directory, extension) that the archive relies on. */
module Text {
  import opened Common

  /** The display name of an archive that has no file name. */
  const Untitled: string := "(Untitled)"

  // ---------------------------------------------------------------- ASCII

  /** `Encoding.ASCII` turns a character outside 0..127 into '?'. */
  function AsciiByte(c: char): byte
  {
    if c as int < 128 then c as int else '?' as int
  }

  function AsciiChar(b: byte): char
  {
    if b < 128 then b as char else '?'
  }

  /** `Encoding.ASCII.GetBytes`: one byte per character. */
  function AsciiEncode(s: string): (r: seq<byte>)
    ensures |r| == |s|
  {
    seq(|s|, i requires 0 <= i < |s| => AsciiByte(s[i]))
  }

  /** `Encoding.ASCII.GetString`: one character per byte. */
  function AsciiDecode(b: seq<byte>): (r: string)
    ensures |r| == |b|
  {
    seq(|b|, i requires 0 <= i < |b| => AsciiChar(b[i]))
  }

  /** A name the on-disk names block can hold unchanged: ASCII, no NUL. */
  predicate IsArchivableName(s: string)
  {
    forall i :: 0 <= i < |s| ==> 0 < s[i] as int < 128
  }

  /** An archivable name encodes to bytes without a NUL and decodes back to itself. */
  lemma AsciiRoundTrip(s: string)
    requires IsArchivableName(s)
    ensures forall i :: 0 <= i < |s| ==> AsciiEncode(s)[i] != 0
    ensures AsciiDecode(AsciiEncode(s)) == s
  {
    var r := AsciiDecode(AsciiEncode(s));
    forall i | 0 <= i < |s|
      ensures r[i] == s[i]
    {
      assert AsciiEncode(s)[i] == s[i] as int;
    }
  }

  // ----------------------------------------------------------- case folding

  function LowerChar(c: char): char
  {
    if 'A' <= c <= 'Z' then (c as int + 32) as char else c
  }

  /** `ToLowerInvariant`, on the ASCII letters. */
  function Lower(s: string): (r: string)
    ensures |r| == |s|
  {
    seq(|s|, i requires 0 <= i < |s| => LowerChar(s[i]))
  }

  // ------------------------------------------------------------ blank test

  predicate IsWhiteSpace(c: char)
  {
    c == ' ' || '\t' <= c <= '\r'
  }

  /** `Util.IsBlank`: empty or white space only. */
  predicate IsBlank(s: string)
  {
    forall i :: 0 <= i < |s| ==> IsWhiteSpace(s[i])
  }

  // ----------------------------------------------------------------- paths

  predicate IsSeparator(c: char)
  {
    c == '/' || c == '\\'
  }

  /** Index of the last character satisfying the separator test, or -1. */
  function LastSeparator(s: string): (r: int)
    ensures -1 <= r < |s|
    ensures r >= 0 ==> IsSeparator(s[r])
    ensures forall i :: r < i < |s| ==> !IsSeparator(s[i])
  {
    if s == [] then -1
    else if IsSeparator(s[|s| - 1]) then |s| - 1
    else LastSeparator(s[..|s| - 1])
  }

  /** `Path.GetFileName`: what follows the last separator. */
  function FileName(path: string): (r: string)
    ensures |r| <= |path| && r == path[|path| - |r|..]
    ensures forall i :: 0 <= i < |r| ==> !IsSeparator(r[i])
    ensures |r| < |path| ==> IsSeparator(path[|path| - |r| - 1])
  {
    path[LastSeparator(path) + 1..]
  }

  /** `Path.GetDirectoryName`: what precedes the last separator ("" when there
      is none; the root itself when the separator is the first character). */
  function DirectoryName(path: string): (r: string)
    ensures r == "" <==> forall i :: 0 <= i < |path| ==> !IsSeparator(path[i])
    ensures |r| <= |path| && r == path[..|r|]
    ensures |r| > 1 ==>
      && |r| < |path| && IsSeparator(path[|r|])
      && forall i :: |r| < i < |path| ==> !IsSeparator(path[i])
    ensures |r| == 1 ==>
      || (IsSeparator(path[0]) && forall i :: 0 < i < |path| ==> !IsSeparator(path[i]))
      || (|path| > 1 && IsSeparator(path[1]) && forall i :: 1 < i < |path| ==> !IsSeparator(path[i]))
  {
    var k := LastSeparator(path);
    if k < 0 then "" else if k == 0 then path[..1] else path[..k]
  }

  function LastDot(s: string): (r: int)
    ensures -1 <= r < |s|
    ensures r >= 0 ==> s[r] == '.'
    ensures forall i :: r < i < |s| ==> s[i] != '.'
  {
    if s == [] then -1
    else if s[|s| - 1] == '.' then |s| - 1
    else LastDot(s[..|s| - 1])
  }

  /** `Path.GetFileNameWithoutExtension`: the base name up to its last dot. */
  function Stem(path: string): (r: string)
    ensures forall i :: 0 <= i < |r| ==> !IsSeparator(r[i])
  {
    var name := FileName(path);
    var k := LastDot(name);
    if k < 0 then name else name[..k]
  }

  /** The name without extension is the file name cut at its last dot, or
      the whole file name when it has none. */
  lemma StemCutsAtLastDot(path: string)
    ensures var name, r := FileName(path), Stem(path);
      && |r| <= |name| && r == name[..|r|]
      && (|r| < |name| ==> name[|r|] == '.' && forall i :: |r| < i < |name| ==> name[i] != '.')
      && (|r| == |name| ==> forall i :: 0 <= i < |name| ==> name[i] != '.')
  {
  }
}
