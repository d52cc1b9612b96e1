/** The archive directory: entries kept in a list sorted by their lower-cased
    name, which is what the source's `SortedList<string, EQArchiveFile>` is.
    The key of an entry is not stored beside it but derived from its name, so
    "every key is the lower-cased stored name" holds by construction. */
module Directory {
  import opened Common
  import opened Text

  /** An archive entry: stored name (original case), raw payload, own status. */
  datatype Entry = Entry(name: string, contents: seq<byte>, status: Status)

  /** The directory key of an entry. */
  function Key(e: Entry): string
  {
    Lower(e.name)
  }

  // ------------------------------------------------------------ key order

  /** Ordinal lexicographic order on keys. */
  predicate Below(a: string, b: string)
  {
    if b == [] then false
    else if a == [] then true
    else if a[0] != b[0] then a[0] < b[0]
    else Below(a[1..], b[1..])
  }

  lemma {:induction false} BelowIrreflexive(a: string)
    ensures !Below(a, a)
  {
    if a != [] {
      BelowIrreflexive(a[1..]);
    }
  }

  lemma {:induction false} BelowTransitive(a: string, b: string, c: string)
    requires Below(a, b) && Below(b, c)
    ensures Below(a, c)
  {
    if a != [] && a[0] == b[0] && b[0] == c[0] {
      BelowTransitive(a[1..], b[1..], c[1..]);
    }
  }

  /** Two different keys are always ordered one way or the other. */
  lemma {:induction false} BelowTotal(a: string, b: string)
    requires a != b
    ensures Below(a, b) || Below(b, a)
  {
    if a != [] && b != [] && a[0] == b[0] {
      assert a == [a[0]] + a[1..] && b == [b[0]] + b[1..];
      BelowTotal(a[1..], b[1..]);
    }
  }

  lemma BelowAsymmetric(a: string, b: string)
    requires Below(a, b)
    ensures !Below(b, a)
  {
    if Below(b, a) {
      BelowTransitive(a, b, a);
      BelowIrreflexive(a);
    }
  }

  /** Strictly increasing keys: the directory invariant. */
  predicate Sorted(d: seq<Entry>)
  {
    forall i, j :: 0 <= i < j < |d| ==> Below(Key(d[i]), Key(d[j]))
  }

  lemma SortedDistinct(d: seq<Entry>, i: nat, j: nat)
    requires Sorted(d) && i < |d| && j < |d| && i != j
    ensures Key(d[i]) != Key(d[j])
  {
    if i < j { BelowIrreflexive(Key(d[i])); } else { BelowIrreflexive(Key(d[j])); }
  }

  // -------------------------------------------------------------- lookups

  /** The entry stored under key `k`, if any (`SortedList` indexer / `TryGetValue`). */
  function Lookup(d: seq<Entry>, k: string): (r: Option<Entry>)
    ensures r.Some? ==> r.value in d && Key(r.value) == k
    ensures r.None? ==> forall i :: 0 <= i < |d| ==> Key(d[i]) != k
  {
    if d == [] then None
    else if Key(d[0]) == k then Some(d[0])
    else Lookup(d[1..], k)
  }

  /** In a sorted directory an entry is exactly what its key looks up. */
  lemma {:induction false} LookupMember(d: seq<Entry>, x: Entry)
    requires Sorted(d) && x in d
    ensures Lookup(d, Key(x)) == Some(x)
  {
    if d[0] != x {
      var i :| 0 <= i < |d| && d[i] == x;
      SortedDistinct(d, 0, i);
      assert d[1..][i - 1] == x;
      LookupMember(d[1..], x);
    }
  }

  /** Lookups in two sorted directories agree on `k` when both hold the same
      entries with key `k`. */
  lemma LookupSame(d: seq<Entry>, d': seq<Entry>, k: string)
    requires Sorted(d) && Sorted(d')
    requires forall x :: Key(x) == k ==> (x in d <==> x in d')
    ensures Lookup(d, k) == Lookup(d', k)
  {
    if Lookup(d, k).Some? {
      LookupMember(d', Lookup(d, k).value);
    } else if Lookup(d', k).Some? {
      LookupMember(d, Lookup(d', k).value);
    }
  }

  /** `SortedList.IndexOfKey`: the position of key `k`, or -1. */
  function IndexOfKey(d: seq<Entry>, k: string): (r: int)
    ensures -1 <= r < |d|
    ensures r >= 0 ==> Key(d[r]) == k
    ensures r < 0 ==> forall i :: 0 <= i < |d| ==> Key(d[i]) != k
  {
    if d == [] then -1
    else if Key(d[0]) == k then 0
    else
      var i := IndexOfKey(d[1..], k);
      if i < 0 then -1 else i + 1
  }

  /** `SortedList.IndexOfValue`: the first position holding `e`, or -1. */
  function IndexOfValue(d: seq<Entry>, e: Entry): (r: int)
    ensures -1 <= r < |d|
    ensures r >= 0 ==> d[r] == e && forall j :: 0 <= j < r ==> d[j] != e
    ensures r < 0 <==> e !in d
  {
    if d == [] then -1
    else if d[0] == e then 0
    else
      var i := IndexOfValue(d[1..], e);
      if i < 0 then -1 else i + 1
  }

  // ------------------------------------------------------------- updates

  /** `SortedList.Add` of a key not yet present: the entry goes where its key
      belongs in the order. */
  function Insert(d: seq<Entry>, e: Entry): (r: seq<Entry>)
    requires Sorted(d) && Lookup(d, Key(e)).None?
    ensures Sorted(r) && |r| == |d| + 1
    ensures forall x :: x in r <==> x in d || x == e
    ensures forall k :: Lookup(r, k) == if k == Key(e) then Some(e) else Lookup(d, k)
  {
    if d == [] then [e]
    else if Below(Key(e), Key(d[0])) then
      assert forall j :: 0 < j < |d| ==> Below(Key(e), Key(d[j])) by {
        forall j | 0 < j < |d| ensures Below(Key(e), Key(d[j])) {
          BelowTransitive(Key(e), Key(d[0]), Key(d[j]));
        }
      }
      [e] + d
    else
      BelowTotal(Key(e), Key(d[0]));
      var rest := Insert(d[1..], e);
      var r := [d[0]] + rest;
      assert forall j :: 0 < j < |r| ==> Below(Key(d[0]), Key(r[j])) by {
        forall j | 0 < j < |r| ensures Below(Key(d[0]), Key(r[j])) {
          assert r[j] in rest;
        }
      }
      r
  }

  /** The entry is placed after every key it is above: appending a key larger
      than all present ones is an `Insert`. */
  lemma {:induction false} InsertLast(d: seq<Entry>, e: Entry)
    requires Sorted(d) && forall i :: 0 <= i < |d| ==> Below(Key(d[i]), Key(e))
    ensures Lookup(d, Key(e)).None?
    ensures Insert(d, e) == d + [e]
  {
    forall i | 0 <= i < |d| ensures Key(d[i]) != Key(e) {
      BelowIrreflexive(Key(e));
    }
    if d != [] {
      BelowAsymmetric(Key(d[0]), Key(e));
      var tail := d[1..];
      assert Sorted(tail) by {
        forall a, b | 0 <= a < b < |tail| ensures Below(Key(tail[a]), Key(tail[b])) {
          assert tail[a] == d[a + 1] && tail[b] == d[b + 1];
        }
      }
      assert forall i :: 0 <= i < |tail| ==> Below(Key(tail[i]), Key(e)) by {
        forall i | 0 <= i < |tail| ensures Below(Key(tail[i]), Key(e)) {
          assert tail[i] == d[i + 1];
        }
      }
      InsertLast(tail, e);
      assert Insert(d, e) == [d[0]] + Insert(tail, e);
      assert [d[0]] + (tail + [e]) == d + [e];
    }
  }

  /** Assignment through the indexer, `Files[key] = e`: replaces the entry
      with the same key, or inserts. */
  function Put(d: seq<Entry>, e: Entry): (r: seq<Entry>)
    requires Sorted(d)
    ensures Sorted(r)
    ensures forall k :: Lookup(r, k) == if k == Key(e) then Some(e) else Lookup(d, k)
  {
    var i := IndexOfKey(d, Key(e));
    if i < 0 then Insert(d, e)
    else
      var r := d[i := e];
      assert Sorted(r) by {
        forall a, b | 0 <= a < b < |r| ensures Below(Key(r[a]), Key(r[b])) {
          assert Key(r[a]) == Key(d[a]) && Key(r[b]) == Key(d[b]);
        }
      }
      forall k ensures Lookup(r, k) == if k == Key(e) then Some(e) else Lookup(d, k) {
        if k == Key(e) {
          assert r[i] == e;
          LookupMember(r, e);
        } else {
          forall x | Key(x) == k ensures x in d <==> x in r {
            if x in d {
              var j :| 0 <= j < |d| && d[j] == x;
              assert r[j] == x;
            }
            if x in r {
              var j :| 0 <= j < |r| && r[j] == x;
              assert d[j] == x;
            }
          }
          LookupSame(d, r, k);
        }
      }
      r
  }

  /** `SortedList.RemoveAt`: drops position `i` and keeps the order. */
  function RemoveAt(d: seq<Entry>, i: nat): (r: seq<Entry>)
    requires Sorted(d) && i < |d|
    ensures Sorted(r) && |r| == |d| - 1
    ensures forall k :: Lookup(r, k) == if k == Key(d[i]) then None else Lookup(d, k)
  {
    var r := d[..i] + d[i + 1..];
    assert Sorted(r) by {
      forall a, b | 0 <= a < b < |r| ensures Below(Key(r[a]), Key(r[b])) {
        var a', b' := if a < i then a else a + 1, if b < i then b else b + 1;
        assert r[a] == d[a'] && r[b] == d[b'];
      }
    }
    forall k ensures Lookup(r, k) == if k == Key(d[i]) then None else Lookup(d, k) {
      forall x | Key(x) == k && k != Key(d[i]) ensures x in d <==> x in r {
        if x in d {
          var j :| 0 <= j < |d| && d[j] == x;
          assert j != i;
          assert r[if j < i then j else j - 1] == x;
        }
      }
      if k == Key(d[i]) {
        forall j | 0 <= j < |r| ensures Key(r[j]) != k {
          var j' := if j < i then j else j + 1;
          assert r[j] == d[j'];
          SortedDistinct(d, i, j');
        }
      } else {
        LookupSame(d, r, k);
      }
    }
    r
  }
}
