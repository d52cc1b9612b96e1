/** Little-endian integers and concatenation of byte chunks. */
module Bytes {
  import opened Common

  function Pow256(n: nat): (r: nat)
    ensures r > 0
  {
    if n == 0 then 1 else 256 * Pow256(n - 1)
  }

  /** The `n` bytes a `BinaryWriter` emits for `x` cast to an `n`-byte unsigned
      integer: least significant byte first, bits above `8 * n` dropped. */
  function LE(x: nat, n: nat): (r: seq<byte>)
    ensures |r| == n
  {
    if n == 0 then [] else [x % 256] + LE(x / 256, n - 1)
  }

  /** The unsigned value of little-endian bytes, as a `BinaryReader` reads it. */
  function ReadLE(s: seq<byte>): (r: nat)
    ensures r < Pow256(|s|)
  {
    if s == [] then 0
    else
      var rest := ReadLE(s[1..]);
      assert rest + 1 <= Pow256(|s| - 1);
      assert 256 * (rest + 1) <= 256 * Pow256(|s| - 1);
      s[0] + 256 * rest
  }

  lemma DivModUnique(x: nat, m: nat, q: nat, r: nat)
    requires 0 < m && x == m * q + r && r < m
    ensures x / m == q && x % m == r
  {
    var q', r' := x / m, x % m;
    assert x == m * q' + r';
    if q' > q {
      assert m * q' >= m * (q + 1) by { MulMonotone(m, q + 1, q'); }
      assert false;
    } else if q' < q {
      assert m * q >= m * (q' + 1) by { MulMonotone(m, q' + 1, q); }
      assert false;
    }
  }

  lemma MulMonotone(m: nat, a: nat, b: nat)
    requires a <= b
    ensures m * a <= m * b
  {
  }

  lemma ModSplit(x: nat, p: nat)
    requires 0 < p
    ensures x % (256 * p) == x % 256 + 256 * ((x / 256) % p)
  {
    var q := x / 256;
    var t, b := q / p, q % p;
    assert q == p * t + b;
    assert 256 * q == (256 * p) * t + 256 * b;
    assert x == (256 * p) * t + (256 * b + x % 256);
    assert 256 * b + x % 256 < 256 * p by {
      MulMonotone(256, b, p - 1);
    }
    DivModUnique(x, 256 * p, t, 256 * b + x % 256);
  }

  /** Reading back what was written gives the value modulo 256^n, so a value
      that fits comes back unchanged. */
  lemma {:induction false} ReadLEOfLE(x: nat, n: nat)
    ensures ReadLE(LE(x, n)) == x % Pow256(n)
  {
    if n > 0 {
      ReadLEOfLE(x / 256, n - 1);
      var s := LE(x, n);
      assert s[1..] == LE(x / 256, n - 1);
      ModSplit(x, Pow256(n - 1));
    }
  }

  lemma ReadLEOfLEFits(x: nat, n: nat)
    requires x < Pow256(n)
    ensures ReadLE(LE(x, n)) == x
  {
    ReadLEOfLE(x, n);
  }

  /** Only the value modulo 256^n is written. */
  lemma {:induction false} LEMod(x: nat, n: nat)
    ensures LE(x, n) == LE(x % Pow256(n), n)
  {
    if n > 0 {
      var p := Pow256(n - 1);
      var y := x % (256 * p);
      ModSplit(x, p);
      DivModUnique(y, 256, (x / 256) % p, x % 256);
      LEMod(x / 256, n - 1);
    }
  }

  /** Adding a multiple of 2^32 does not change a `uint`. */
  lemma WrapShift(x: int, q: int)
    ensures (x + U32Limit * q) % U32Limit == x % U32Limit
  {
  }

  /** `uint` addition wraps the same whether or not an operand was wrapped. */
  lemma WrapAdd(a: int, b: int)
    ensures (a % U32Limit + b) % U32Limit == (a + b) % U32Limit
  {
    WrapShift(a + b, -(a / U32Limit));
  }

  /** Subtracting from a wrapped `uint` and wrapping again is wrapping the
      plain difference. */
  lemma WrapSub(a: int, b: int)
    ensures (a % U32Limit - b) % U32Limit == (a - b) % U32Limit
  {
    WrapShift(a - b, -(a / U32Limit));
  }

  /** The chunks written one after another. */
  function Flatten(chunks: seq<seq<byte>>): (r: seq<byte>)
  {
    if chunks == [] then [] else Flatten(chunks[..|chunks| - 1]) + chunks[|chunks| - 1]
  }

  lemma FlattenSnoc(chunks: seq<seq<byte>>, i: nat)
    requires i < |chunks|
    ensures Flatten(chunks[..i + 1]) == Flatten(chunks[..i]) + chunks[i]
  {
    assert chunks[..i + 1][..i] == chunks[..i];
  }

  lemma {:induction false} FlattenAppend(a: seq<seq<byte>>, b: seq<seq<byte>>)
    ensures Flatten(a + b) == Flatten(a) + Flatten(b)
  {
    if b == [] {
      assert a + b == a;
    } else {
      var b' := b[..|b| - 1];
      FlattenAppend(a, b');
      assert (a + b)[..|a + b| - 1] == a + b';
    }
  }

  /** Chunk `i` sits in the flattened bytes right after the first `i` chunks. */
  lemma FlattenChunkAt(chunks: seq<seq<byte>>, i: nat)
    requires i < |chunks|
    ensures |Flatten(chunks[..i])| + |chunks[i]| <= |Flatten(chunks)|
    ensures Flatten(chunks)[|Flatten(chunks[..i])|..|Flatten(chunks[..i])| + |chunks[i]|] == chunks[i]
  {
    assert chunks == chunks[..i + 1] + chunks[i + 1..];
    FlattenAppend(chunks[..i + 1], chunks[i + 1..]);
    FlattenSnoc(chunks, i);
  }

  lemma FlattenPrefixLength(chunks: seq<seq<byte>>, i: nat)
    requires i <= |chunks|
    ensures |Flatten(chunks[..i])| <= |Flatten(chunks)|
  {
    assert chunks == chunks[..i] + chunks[i..];
    FlattenAppend(chunks[..i], chunks[i..]);
  }
}
