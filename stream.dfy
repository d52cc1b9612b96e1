/** The `BinaryWriter` over a file stream that `Save` writes through: the
    bytes written so far and the position of the next write, which a seek can
    move back to overwrite what is already there. */
module Streams {
  import opened Common

  /** The bytes after writing `s` at `pos` into `b`: what was before `pos`
      stays, `s` replaces what it covers, the stream grows if `s` runs past
      its end. */
  function Overwrite(b: seq<byte>, pos: nat, s: seq<byte>): (r: seq<byte>)
    requires pos <= |b|
    ensures |r| == if pos + |s| <= |b| then |b| else pos + |s|
    ensures r[..pos] == b[..pos] && r[pos..pos + |s|] == s
    ensures pos + |s| <= |b| ==> r[pos + |s|..] == b[pos + |s|..]
  {
    if pos + |s| <= |b| then b[..pos] + s + b[pos + |s|..] else b[..pos] + s
  }

  /** Writing at the end appends. */
  lemma OverwriteAtEnd(b: seq<byte>, s: seq<byte>)
    ensures Overwrite(b, |b|, s) == b + s
  {
    assert b[..|b|] == b;
  }

  /** Writing over a block of the same length replaces just that block. */
  lemma OverwriteBlock(a: seq<byte>, x: seq<byte>, rest: seq<byte>, y: seq<byte>)
    requires |x| == |y|
    ensures Overwrite(a + x + rest, |a|, y) == a + y + rest
  {
    var b := a + x + rest;
    assert b[..|a|] == a;
    assert b[|a| + |y|..] == rest;
  }

  class Stream {
    var bytes: seq<byte>
    var position: nat

    ghost predicate Valid()
      reads this
    {
      position <= |bytes|
    }

    /** A new, empty file. */
    constructor()
      ensures Valid() && bytes == [] && position == 0
    {
      bytes := [];
      position := 0;
    }

    method Write(s: seq<byte>)
      requires Valid()
      modifies this
      ensures Valid()
      ensures bytes == Overwrite(old(bytes), old(position), s)
      ensures position == old(position) + |s|
      ensures old(position) == |old(bytes)| ==> bytes == old(bytes) + s && position == |bytes|
    {
      if position == |bytes| {
        OverwriteAtEnd(bytes, s);
      }
      bytes := Overwrite(bytes, position, s);
      position := position + |s|;
    }

    /** `Seek(p, SeekOrigin.Begin)` to a position inside what was written. */
    method Seek(p: nat)
      requires Valid() && p <= |bytes|
      modifies this
      ensures Valid() && bytes == old(bytes) && position == p
    {
      position := p;
    }
  }
}
