/** How a target string names a tree, and when two tables share none. */
module Targets {
  import opened Bytes
  import opened Entries
  import opened Tables

  const COLON: byte := 58

  /** A tree of the catalog: the heap of a table or one of its indexes, by position. */
  datatype TreeName = HeapOf(table: nat) | IndexOf(table: nat, index: nat)

  function TableNamed(cat: seq<Schema>, name: Bytes): (i: Option<nat>)
    ensures i.Some? ==> i.value < |cat| && cat[i.value].name == name
    ensures i.None? ==> forall j :: 0 <= j < |cat| ==> cat[j].name != name
  {
    if |cat| == 0 then None
    else if cat[|cat| - 1].name == name then Some(|cat| - 1)
    else TableNamed(cat[..|cat| - 1], name)
  }

  function IndexNamed(ixs: seq<Index>, name: Bytes): (i: Option<nat>)
    ensures i.Some? ==> i.value < |ixs| && ixs[i.value].name == name
    ensures i.None? ==> forall j :: 0 <= j < |ixs| ==> ixs[j].name != name
    decreases |ixs|
  {
    if |ixs| == 0 then None
    else if ixs[0].name == name then Some(0)
    else
      var i := IndexNamed(ixs[1..], name);
      assert forall j :: 0 < j < |ixs| ==> ixs[j] == ixs[1..][j - 1];
      if i.None? then None else Some(i.value + 1)
  }

  function FirstColon(b: Bytes): (i: Option<nat>)
    ensures i.Some? ==> i.value < |b| && b[i.value] == COLON && COLON !in b[..i.value]
    ensures i.None? ==> COLON !in b
  {
    if |b| == 0 then None
    else if b[0] == COLON then Some(0)
    else
      var i := FirstColon(b[1..]);
      if i.None? then assert b == [b[0]] + b[1..]; None
      else assert b[..i.value + 1] == [b[0]] + b[1..][..i.value]; Some(i.value + 1)
  }

  /** `resolve`: an index target is cut at its first colon. */
  function TreeAt(cat: seq<Schema>, target: Bytes): (r: Option<TreeName>)
    ensures r.Some? ==> r.value.table < |cat|
    ensures r.Some? && r.value.IndexOf? ==> r.value.index < |cat[r.value.table].indexes|
  {
    if [84, COLON] <= target then
      var t := TableNamed(cat, target[2..]);
      if t.None? then None else Some(HeapOf(t.value))
    else if [73, COLON] <= target then
      var rest := target[2..];
      var sep := FirstColon(rest);
      if sep.None? then None else
      var t := TableNamed(cat, rest[..sep.value]);
      if t.None? then None else
      var i := IndexNamed(cat[t.value].indexes, rest[sep.value + 1..]);
      if i.None? then None else Some(IndexOf(t.value, i.value))
    else None
  }

  /** Two different strings never name one tree, so a store keyed by target strings is a store of trees. */
  lemma {:induction false} ResolveInjective(cat: seq<Schema>, a: Bytes, b: Bytes)
    requires TreeAt(cat, a).Some? && TreeAt(cat, a) == TreeAt(cat, b)
    ensures a == b
  {
    ResolvedFrom(cat, a);
    ResolvedFrom(cat, b);
  }

  lemma {:induction false} ResolvedFrom(cat: seq<Schema>, a: Bytes)
    requires TreeAt(cat, a).Some?
    ensures var t := cat[TreeAt(cat, a).value.table];
            a == if TreeAt(cat, a).value.HeapOf? then TableTarget(t.name) else Target(t, TreeAt(cat, a).value.index)
  {
    assert a == a[..2] + a[2..];
    if TreeAt(cat, a).value.IndexOf? {
      var rest := a[2..];
      var sep := FirstColon(rest).value;
      assert rest == rest[..sep] + [COLON] + rest[sep + 1..];
    }
  }

  ghost predicate CatalogOk(cat: seq<Schema>) {
    && (forall i :: 0 <= i < |cat| ==> SchemaOk(cat[i]))
    && (forall i, j :: 0 <= i < j < |cat| ==> cat[i].name != cat[j].name)
  }

  /** A table's own target leads to its heap. */
  lemma {:induction false} HeapResolves(cat: seq<Schema>, t: nat)
    requires CatalogOk(cat) && t < |cat|
    ensures TreeAt(cat, TableTarget(cat[t].name)) == Some(HeapOf(t))
  {
    assert TableTarget(cat[t].name)[2..] == cat[t].name;
  }

  predicate Plain(name: Bytes) { COLON !in name }

  lemma {:induction false} FirstColonAt(b: Bytes, k: nat)
    requires k < |b| && b[k] == COLON
    ensures FirstColon(b).Some? && FirstColon(b).value <= k
  {
    if b[0] != COLON {
      FirstColonAt(b[1..], k - 1);
    }
  }

  lemma {:induction false} CutAtColon(name: Bytes, index: Bytes)
    ensures var rest := name + [COLON] + index;
            FirstColon(rest).Some? && (FirstColon(rest).value == |name| <==> Plain(name))
              && FirstColon(rest).value <= |name|
  {
    var rest := name + [COLON] + index;
    FirstColonAt(rest, |name|);
    var sep := FirstColon(rest).value;
    assert rest[..sep] == name[..sep];
    if sep < |name| {
      assert name[sep] == COLON;
    } else {
      assert name[..sep] == name;
    }
  }

  /** An index target leads to the index it was made for exactly when the table's name has no colon. */
  lemma {:induction false} IndexResolvesIff(cat: seq<Schema>, t: nat, i: nat)
    requires CatalogOk(cat) && t < |cat| && i < |cat[t].indexes|
    ensures TreeAt(cat, Target(cat[t], i)) == Some(IndexOf(t, i)) <==> Plain(cat[t].name)
  {
    var name, index := cat[t].name, cat[t].indexes[i].name;
    var rest := name + [COLON] + index;
    var x := Target(cat[t], i);
    assert x[0] == 73 && x[..2] == [73, COLON] && x[2..] == rest;
    assert !([84, COLON] <= x) && [73, COLON] <= x;
    CutAtColon(name, index);
    var sep := FirstColon(rest).value;
    if Plain(name) {
      assert rest[..sep] == name && rest[sep + 1..] == index;
      TableNamedIs(cat, t);
      IndexNamedIs(cat[t], i);
    } else {
      assert |rest[..sep]| < |name|;
    }
  }

  lemma {:induction false} TableNamedIs(cat: seq<Schema>, t: nat)
    requires CatalogOk(cat) && t < |cat|
    ensures TableNamed(cat, cat[t].name) == Some(t)
  {
  }

  lemma {:induction false} IndexNamedIs(s: Schema, i: nat)
    requires SchemaOk(s) && i < |s.indexes|
    ensures IndexNamed(s.indexes, s.indexes[i].name) == Some(i)
  {
    var j := IndexNamed(s.indexes, s.indexes[i].name).value;
    assert i < j ==> NamesDiffer(s, i, j);
    assert j < i ==> NamesDiffer(s, j, i);
  }

  /** b is a, a colon and more, and the index names take up the difference. */
  predicate Overlap(a: Bytes, i: Bytes, b: Bytes, j: Bytes) {
    |a| < |b| && b[..|a|] == a && b[|a|] == COLON && i == b[|a| + 1..] + [COLON] + j
  }

  /** When two index targets are one string. */
  lemma {:induction false} IndexTargetsMeetIff(a: Bytes, i: Bytes, b: Bytes, j: Bytes)
    ensures IndexTarget(a, i) == IndexTarget(b, j) <==> (a == b && i == j) || Overlap(a, i, b, j) || Overlap(b, j, a, i)
  {
    if |a| < |b| {
      MeetLonger(a, i, b, j);
    } else if |b| < |a| {
      MeetLonger(b, j, a, i);
    } else {
      EqualConcat([73, 58] + a + [58], [73, 58] + b + [58], i, j);
      EqualConcat([73, 58] + a, [73, 58] + b, [58], [58]);
      EqualConcat([73, 58], [73, 58], a, b);
    }
  }

  lemma {:induction false} MeetLonger(a: Bytes, i: Bytes, b: Bytes, j: Bytes)
    requires |a| < |b|
    ensures IndexTarget(a, i) == IndexTarget(b, j) <==> Overlap(a, i, b, j)
  {
    var x, y := IndexTarget(a, i), IndexTarget(b, j);
    assert x[2..] == a + [COLON] + i && y[2..] == b + [COLON] + j && x[..2] == y[..2];
    assert x == x[..2] + x[2..] && y == y[..2] + y[2..];
    var m := b[|a| + 1..];
    assert b == b[..|a|] + [b[|a|]] + m;
    if x == y {
      assert (a + [COLON] + i)[..|a|] == a && (b + [COLON] + j)[..|a|] == b[..|a|];
      assert (a + [COLON] + i)[|a|] == COLON && (b + [COLON] + j)[|a|] == b[|a|];
      assert (a + [COLON] + i)[|a| + 1..] == i && (b + [COLON] + j)[|a| + 1..] == m + [COLON] + j;
    }
    if Overlap(a, i, b, j) {
      assert a + [COLON] + i == b + [COLON] + j;
    }
  }

  /** Tables with different names share no tree, unless a table with indexes has a colon in its name. */
  lemma {:induction false} TreesDisjoint(s: Schema, t: Schema)
    requires s.name != t.name && (s.indexes == [] || Plain(s.name)) && (t.indexes == [] || Plain(t.name))
    ensures TreesOf(s) !! TreesOf(t)
  {
    forall x, y | x in TreesOf(s) && y in TreesOf(t) ensures x != y {
      if x == TableTarget(s.name) && y == TableTarget(t.name) {
        assert x[2..] == s.name && y[2..] == t.name;
      } else if x == TableTarget(s.name) || y == TableTarget(t.name) {
        assert {x[0], y[0]} == {73, 84};
      } else {
        var i :| 0 <= i < |s.indexes| && x == Target(s, i);
        var j :| 0 <= j < |t.indexes| && y == Target(t, j);
        IndexTargetsMeetIff(s.name, s.indexes[i].name, t.name, t.indexes[j].name);
      }
    }
  }

  /** "b:c" on table "a" and "c" on table "a:b" are one string. */
  lemma {:induction false} ColonsCollide()
    ensures IndexTarget([97], [98, COLON, 99]) == IndexTarget([97, COLON, 98], [99])
  {
    IndexTargetsMeetIff([97], [98, COLON, 99], [97, COLON, 98], [99]);
    assert [98, COLON, 99] == [97, COLON, 98][2..] + [COLON] + [99];
  }
}
