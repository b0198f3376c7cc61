/** Key/value entries in ascending key order, and the finite map they list. */
module Entries {
  import opened Bytes

  datatype Option<+T> = None | Some(value: T)

  /** A key with its payload: the value in a leaf, the child page in an internal page. */
  datatype Cell<V> = Cell(key: Bytes, val: V)

  type Entry = Cell<Bytes>

  ghost predicate Ascending<V>(s: seq<Cell<V>>) {
    forall i, j :: 0 <= i < j < |s| ==> Less(s[i].key, s[j].key)
  }

  ghost predicate AllBelow<V>(s: seq<Cell<V>>, k: Bytes) {
    forall i :: 0 <= i < |s| ==> Less(s[i].key, k)
  }

  ghost predicate AllAbove<V>(s: seq<Cell<V>>, k: Bytes) {
    forall i :: 0 <= i < |s| ==> Less(k, s[i].key)
  }

  /** The number of leading entries whose key is below k. */
  function LowerBound<V>(s: seq<Cell<V>>, k: Bytes): (i: nat)
    ensures i <= |s|
    ensures forall j :: 0 <= j < i ==> Less(s[j].key, k)
    ensures i < |s| ==> !Less(s[i].key, k)
  {
    if |s| == 0 || !Less(s[0].key, k) then 0 else 1 + LowerBound(s[1..], k)
  }

  predicate Found<V>(s: seq<Cell<V>>, k: Bytes) {
    var i := LowerBound(s, k);
    i < |s| && s[i].key == k
  }

  function Lookup<V>(s: seq<Cell<V>>, k: Bytes): Option<V> {
    var i := LowerBound(s, k);
    if i < |s| && s[i].key == k then Some(s[i].val) else None
  }

  /** s with the entries i..j replaced by mid. */
  function Splice<T>(s: seq<T>, i: nat, j: nat, mid: seq<T>): seq<T>
    requires i <= j <= |s|
  {
    s[..i] + mid + s[j..]
  }

  /** Put k -> v: replace the entry of k, or insert one in order. */
  function Upsert<V>(s: seq<Cell<V>>, k: Bytes, v: V): seq<Cell<V>> {
    var i := LowerBound(s, k);
    Splice(s, i, if Found(s, k) then i + 1 else i, [Cell(k, v)])
  }

  /** Drop the entry of k, if there is one. */
  function Remove<V>(s: seq<Cell<V>>, k: Bytes): seq<Cell<V>> {
    var i := LowerBound(s, k);
    Splice(s, i, if Found(s, k) then i + 1 else i, [])
  }

  /** The finite map that s lists. */
  ghost function ToMap<V>(s: seq<Cell<V>>): map<Bytes, V> {
    if |s| == 0 then map[] else ToMap(s[..|s| - 1])[s[|s| - 1].key := s[|s| - 1].val]
  }

  // ---- lower bound ---------------------------------------------------------

  lemma {:induction false} LowerBoundSplits<V>(s: seq<Cell<V>>, k: Bytes)
    requires Ascending(s)
    ensures forall j :: LowerBound(s, k) <= j < |s| ==> Leq(k, s[j].key)
    ensures forall j :: LowerBound(s, k) < j < |s| ==> Less(k, s[j].key)
  {
    var i := LowerBound(s, k);
    if i < |s| {
      NotLess(s[i].key, k);
      forall j | i < j < |s| ensures Less(k, s[j].key) {
        LeqLessTransitive(k, s[i].key, s[j].key);
      }
    }
  }

  /** Any index that separates the smaller keys from the rest is the lower bound. */
  lemma {:induction false} LowerBoundUnique<V>(s: seq<Cell<V>>, k: Bytes, i: nat)
    requires i <= |s|
    requires forall j :: 0 <= j < i ==> Less(s[j].key, k)
    requires i < |s| ==> !Less(s[i].key, k)
    ensures i == LowerBound(s, k)
  {
    if i != 0 {
      assert forall j :: 0 <= j < i - 1 ==> s[1..][j] == s[j + 1];
      LowerBoundUnique(s[1..], k, i - 1);
    }
  }

  lemma {:induction false} LowerBoundContext<V>(a: seq<Cell<V>>, s: seq<Cell<V>>, b: seq<Cell<V>>, k: Bytes)
    requires AllBelow(a, k) && AllAbove(b, k)
    ensures LowerBound(a + s + b, k) == |a| + LowerBound(s, k)
    ensures Found(a + s + b, k) == Found(s, k)
  {
    var w, i := a + s + b, |a| + LowerBound(s, k);
    if i == |a| + |s| && 0 < |b| {
      LessAsymmetric(k, b[0].key);
      assert w[i] == b[0];
    }
    LowerBoundUnique(w, k, i);
  }

  lemma {:induction false} SpliceIndex<T>(s: seq<T>, i: nat, j: nat, mid: seq<T>, m: nat)
    requires i <= j <= |s| && m < i + |mid| + |s| - j
    ensures |Splice(s, i, j, mid)| == i + |mid| + |s| - j
    ensures Splice(s, i, j, mid)[m] ==
            if m < i then s[m] else if m < i + |mid| then mid[m - i] else s[m - i - |mid| + j]
  {
  }

  lemma {:induction false} SpliceContext<T>(a: seq<T>, s: seq<T>, b: seq<T>, i: nat, j: nat, mid: seq<T>)
    requires i <= j <= |s|
    ensures Splice(a + s + b, |a| + i, |a| + j, mid) == a + Splice(s, i, j, mid) + b
  {
  }

  /** Below and above context is untouched by an update of k. */
  lemma {:induction false} UpsertContext<V>(a: seq<Cell<V>>, s: seq<Cell<V>>, b: seq<Cell<V>>, k: Bytes, v: V)
    requires AllBelow(a, k) && AllAbove(b, k)
    ensures Upsert(a + s + b, k, v) == a + Upsert(s, k, v) + b
  {
    var w, i, j := a + s + b, LowerBound(s, k), if Found(s, k) then LowerBound(s, k) + 1 else LowerBound(s, k);
    assert Upsert(w, k, v) == Splice(w, |a| + i, |a| + j, [Cell(k, v)]) by {
      LowerBoundContext(a, s, b, k);
    }
    SpliceContext(a, s, b, i, j, [Cell(k, v)]);
  }

  lemma {:induction false} RemoveContext<V>(a: seq<Cell<V>>, s: seq<Cell<V>>, b: seq<Cell<V>>, k: Bytes)
    requires AllBelow(a, k) && AllAbove(b, k)
    ensures Remove(a + s + b, k) == a + Remove(s, k) + b
  {
    var w, i, j := a + s + b, LowerBound(s, k), if Found(s, k) then LowerBound(s, k) + 1 else LowerBound(s, k);
    assert Remove(w, k) == Splice(w, |a| + i, |a| + j, []) by {
      LowerBoundContext(a, s, b, k);
    }
    SpliceContext(a, s, b, i, j, []);
  }

  lemma {:induction false} LookupContext<V>(a: seq<Cell<V>>, s: seq<Cell<V>>, b: seq<Cell<V>>, k: Bytes)
    requires AllBelow(a, k) && AllAbove(b, k)
    ensures Lookup(a + s + b, k) == Lookup(s, k)
  {
    LowerBoundContext(a, s, b, k);
  }

  // ---- the finite map ------------------------------------------------------

  /** An ascending listing holds at most one entry per key. */
  lemma {:induction false} KeysDistinct<V>(s: seq<Cell<V>>, e: Cell<V>, f: Cell<V>)
    requires Ascending(s) && e in s && f in s && e.key == f.key
    ensures e == f
  {
    LessIrreflexive(e.key);
  }

  lemma {:induction false} LookupIsMembership<V>(s: seq<Cell<V>>, k: Bytes)
    requires Ascending(s)
    ensures forall v :: Lookup(s, k) == Some(v) <==> Cell(k, v) in s
    ensures Found(s, k) <==> exists v :: Cell(k, v) in s
  {
    LowerBoundSplits(s, k);
    LessIrreflexive(k);
    var i := LowerBound(s, k);
    if Found(s, k) {
      assert s[i] == Cell(k, s[i].val) && s[i] in s;
      forall v | Cell(k, v) in s ensures v == s[i].val {
        KeysDistinct(s, Cell(k, v), s[i]);
      }
    } else {
      forall v ensures Cell(k, v) !in s {
        if Cell(k, v) in s {
          var j :| 0 <= j < |s| && s[j] == Cell(k, v);
          assert false;
        }
      }
    }
  }

  lemma {:induction false} ToMapIsMembership<V>(s: seq<Cell<V>>)
    requires Ascending(s)
    ensures forall e :: e in s ==> e.key in ToMap(s) && ToMap(s)[e.key] == e.val
    ensures forall k :: k in ToMap(s) ==> Cell(k, ToMap(s)[k]) in s
  {
    if |s| != 0 {
      var n := |s| - 1;
      var p := s[..n];
      assert s == p + [s[n]];
      ToMapIsMembership(p);
      forall e | e in s ensures e.key in ToMap(s) && ToMap(s)[e.key] == e.val {
        if e.key == s[n].key {
          KeysDistinct(s, e, s[n]);
        }
      }
    }
  }

  /** Looking a key up in the listing is looking it up in the map. */
  lemma {:induction false} LookupIsMapLookup<V>(s: seq<Cell<V>>, k: Bytes)
    requires Ascending(s)
    ensures Lookup(s, k) == if k in ToMap(s) then Some(ToMap(s)[k]) else None
    ensures Found(s, k) <==> k in ToMap(s)
  {
    LookupIsMembership(s, k);
    ToMapIsMembership(s);
    if k in ToMap(s) {
      assert Cell(k, ToMap(s)[k]) in s;
    }
  }

  lemma {:induction false} UpsertAscending<V>(s: seq<Cell<V>>, k: Bytes, v: V)
    requires Ascending(s)
    ensures Ascending(Upsert(s, k, v))
  {
    LowerBoundSplits(s, k);
    var n := LowerBound(s, k);
    var b := s[if Found(s, k) then n + 1 else n..];
    assert AllAbove(b, k);
    AscendingAround(s[..n], Cell(k, v), b);
  }

  lemma {:induction false} AscendingAround<V>(a: seq<Cell<V>>, e: Cell<V>, b: seq<Cell<V>>)
    requires Ascending(a) && Ascending(b) && AllBelow(a, e.key) && AllAbove(b, e.key)
    ensures Ascending(a + [e] + b)
  {
    var w := a + [e] + b;
    forall i, j | 0 <= i < j < |w| ensures Less(w[i].key, w[j].key) {
      if i < |a| < j {
        LessTransitive(a[i].key, e.key, b[j - |a| - 1].key);
      }
    }
  }

  lemma {:induction false} RemoveAscending<V>(s: seq<Cell<V>>, k: Bytes)
    requires Ascending(s)
    ensures Ascending(Remove(s, k))
  {
    var n, d := LowerBound(s, k), if Found(s, k) then 1 else 0;
    var u := Remove(s, k);
    assert forall i :: 0 <= i < |u| ==> u[i] == s[if i < n then i else i + d];
  }

  lemma {:induction false} UpsertMembership<V>(s: seq<Cell<V>>, k: Bytes, v: V)
    requires Ascending(s)
    ensures forall e :: e in Upsert(s, k, v) <==> e == Cell(k, v) || (e in s && e.key != k)
  {
    var n := LowerBound(s, k);
    LowerBoundSplits(s, k);
    LessIrreflexive(k);
    var a, b := s[..n], s[if Found(s, k) then n + 1 else n..];
    assert s == a + (if Found(s, k) then [s[n]] else []) + b;
    assert AllBelow(a, k) && AllAbove(b, k);
    assert forall e :: e in a || e in b ==> e.key != k;
  }

  lemma {:induction false} RemoveMembership<V>(s: seq<Cell<V>>, k: Bytes)
    requires Ascending(s)
    ensures forall e :: e in Remove(s, k) <==> e in s && e.key != k
  {
    LookupIsMembership(s, k);
    if Found(s, k) {
      var n := LowerBound(s, k);
      LowerBoundSplits(s, k);
      LessIrreflexive(k);
      var a, b := s[..n], s[n + 1..];
      assert s == a + [s[n]] + b;
      assert AllBelow(a, k) && AllAbove(b, k);
      assert forall e :: e in a || e in b ==> e.key != k;
    } else {
      assert forall e :: e in s ==> e == Cell(e.key, e.val);
    }
  }

  /** A map with exactly the listed entries is the map of the listing. */
  lemma {:induction false} MapOfMembers<V>(s: seq<Cell<V>>, w: map<Bytes, V>)
    requires Ascending(s)
    requires forall e :: e in s ==> e.key in w && w[e.key] == e.val
    requires forall k :: k in w ==> Cell(k, w[k]) in s
    ensures ToMap(s) == w
  {
    ToMapIsMembership(s);
    var m := ToMap(s);
    forall x | x in m ensures x in w && w[x] == m[x] {
      assert Cell(x, m[x]) in s;
    }
    forall x | x in w ensures x in m {
      assert Cell(x, w[x]) in s;
    }
    assert m.Keys == w.Keys;
  }

  /** Upsert refines map update. */
  lemma {:induction false} UpsertRefinesMap<V>(s: seq<Cell<V>>, k: Bytes, v: V)
    requires Ascending(s)
    ensures Ascending(Upsert(s, k, v))
    ensures ToMap(Upsert(s, k, v)) == ToMap(s)[k := v]
  {
    UpsertAscending(s, k, v);
    UpsertMembership(s, k, v);
    ToMapIsMembership(s);
    MapOfMembers(Upsert(s, k, v), ToMap(s)[k := v]);
  }

  /** Remove refines dropping a key from the map. */
  lemma {:induction false} RemoveRefinesMap<V>(s: seq<Cell<V>>, k: Bytes)
    requires Ascending(s)
    ensures Ascending(Remove(s, k))
    ensures ToMap(Remove(s, k)) == ToMap(s) - {k}
  {
    RemoveAscending(s, k);
    RemoveMembership(s, k);
    ToMapIsMembership(s);
    MapOfMembers(Remove(s, k), ToMap(s) - {k});
  }
}
