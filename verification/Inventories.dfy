/** Streaming merges over sorted object lists, one line of each file in memory at a time
    (crates/walgit-git/src/pack_segments.rs:592-615, 687-721, 869-891). */
module Inventories {
  import opened Objects
  import opened Seqs
  import opened SortedOids

  /** An object id with Git's path hint, which is passed on unchanged. */
  datatype Line = Line(oid: Oid, hint: string)

  function Oids(list: seq<Line>): seq<Oid> {
    seq(|list|, i requires 0 <= i < |list| => list[i].oid)
  }

  ghost predicate Sorted(list: seq<Line>) {
    forall i, j | 0 <= i < j < |list| :: list[i].oid < list[j].oid
  }

  lemma OidsOfLines(list: seq<Line>)
    ensures Sorted(list) <==> Ascending(Oids(list))
    ensures forall x :: x in Oids(list) <==> exists l :: l in list && l.oid == x
  {
    if Ascending(Oids(list)) {
      forall i, j | 0 <= i < j < |list|
        ensures list[i].oid < list[j].oid
      {
        assert Oids(list)[i] < Oids(list)[j];
      }
    }
    forall l | l in list
      ensures l.oid in Oids(list)
    {
      var i :| 0 <= i < |list| && list[i] == l;
      assert Oids(list)[i] == l.oid;
    }
    forall x | x in Oids(list)
      ensures exists l :: l in list && l.oid == x
    {
      var i :| 0 <= i < |list| && Oids(list)[i] == x;
      assert list[i] in list;
    }
  }

  /** Where a merge stands: what has been passed over in `ids` is smaller than every line to come. */
  ghost predicate Passed(ids: seq<Oid>, k: nat, list: seq<Line>, i: nat) {
    k <= |ids| && forall j, m | 0 <= j < k && i <= m < |list| :: ids[j] < list[m].oid
  }

  method Advance(ids: seq<Oid>, k0: nat, ghost list: seq<Line>, ghost i: nat, oid: Oid) returns (k: nat)
    requires Ascending(ids) && Sorted(list) && i < |list| && oid == list[i].oid && Passed(ids, k0, list, i)
    ensures Passed(ids, k, list, i) && Passed(ids, k, list, i + 1)
    ensures oid in ids <==> k < |ids| && ids[k] == oid
    ensures k == |ids| ==> forall m | i < m < |list| :: list[m].oid !in ids
  {
    k := k0;
    while k < |ids| && ids[k] < oid
      invariant Passed(ids, k, list, i)
    {
      k := k + 1;
    }
  }

  /** Keeps exactly the lines whose ids are selected, in order and with their hints. */
  method Intersect(list: seq<Line>, selected: seq<Oid>) returns (out: seq<Line>)
    requires Sorted(list) && Ascending(selected)
    ensures Sorted(out) && forall l :: l in out <==> l in list && l.oid in selected
  {
    out := [];
    var k: nat := 0;
    for i := 0 to |list|
      invariant Passed(selected, k, list, i)
      invariant Sorted(out) && forall l :: l in out <==> l in list[..i] && l.oid in selected
    {
      hide Passed;
      TakeNext(list, i);
      assert forall l | l in list[..i] :: l.oid < list[i].oid;
      assert forall j | 0 <= j < |out| :: out[j] in list[..i];
      k := Advance(selected, k, list, i, list[i].oid);
      if k < |selected| && selected[k] == list[i].oid {
        out := out + [list[i]];
      }
      if k == |selected| {
        NothingMore(list, i, selected);
        break;
      }
    }
    TakeAll(list);
  }

  lemma NothingMore(list: seq<Line>, i: nat, selected: seq<Oid>)
    requires i < |list| && forall m | i < m < |list| :: list[m].oid !in selected
    ensures forall l | l in list && l.oid in selected :: l in list[..i + 1]
  {
    forall l | l in list && l.oid in selected
      ensures l in list[..i + 1]
    {
      var m :| 0 <= m < |list| && list[m] == l;
      assert list[..i + 1][m] == l;
    }
  }

  ghost function Common(objects: seq<Oid>, list: seq<Line>): set<Oid> {
    set x | x in objects && x in Oids(list)
  }

  /** Counts the ids the two lists share. */
  method IntersectionCount(objects: seq<Oid>, list: seq<Line>) returns (count: nat)
    requires Ascending(objects) && Sorted(list)
    ensures count == |Common(objects, list)|
  {
    count := 0;
    var k: nat := 0;
    assert Common(objects, list[..0]) == {};
    for i := 0 to |list|
      invariant Passed(objects, k, list, i)
      invariant count == |Common(objects, list[..i])|
    {
      hide Passed;
      k := Advance(objects, k, list, i, list[i].oid);
      OneMoreCommon(objects, list, i);
      if k < |objects| && objects[k] == list[i].oid {
        count := count + 1;
      }
      if k == |objects| {
        AllCommon(objects, list, i);
        break;
      }
    }
    TakeAll(list);
  }

  lemma OneMoreCommon(objects: seq<Oid>, list: seq<Line>, i: nat)
    requires Sorted(list) && i < |list|
    ensures |Common(objects, list[..i + 1])| == |Common(objects, list[..i])| + if list[i].oid in objects then 1 else 0
  {
    assert Oids(list[..i + 1]) == Oids(list[..i]) + [list[i].oid];
    assert forall x | x in Oids(list[..i]) :: x < list[i].oid;
    if list[i].oid in objects {
      assert Common(objects, list[..i + 1]) == Common(objects, list[..i]) + {list[i].oid};
    } else {
      assert Common(objects, list[..i + 1]) == Common(objects, list[..i]);
    }
  }

  lemma AllCommon(objects: seq<Oid>, list: seq<Line>, i: nat)
    requires i < |list| && forall m | i < m < |list| :: list[m].oid !in objects
    ensures Common(objects, list[..i + 1]) == Common(objects, list)
  {
    forall x | x in objects && x in Oids(list)
      ensures x in Oids(list[..i + 1])
    {
      var m :| 0 <= m < |list| && Oids(list)[m] == x;
      assert Oids(list[..i + 1])[m] == x;
    }
    forall x | x in Oids(list[..i + 1])
      ensures x in Oids(list)
    {
      var m :| 0 <= m <= i && Oids(list[..i + 1])[m] == x;
      assert Oids(list)[m] == x;
    }
  }

  /** Divides a list by object type; an object that is missing is an error. */
  method SplitTypes(objects: Contents, list: seq<Line>) returns (ok: bool, history: seq<Line>, blobs: seq<Line>)
    requires Sorted(list)
    ensures ok <==> forall l | l in list :: l.oid in objects
    ensures ok ==> Sorted(history) && forall l :: l in history <==> l in list && l.oid in objects && !objects[l.oid].Blob?
    ensures ok ==> Sorted(blobs) && forall l :: l in blobs <==> l in list && l.oid in objects && objects[l.oid].Blob?
  {
    history, blobs := [], [];
    for i := 0 to |list|
      invariant forall l | l in list[..i] :: l.oid in objects
      invariant Sorted(history) && forall l :: l in history <==> l in list[..i] && l.oid in objects && !objects[l.oid].Blob?
      invariant Sorted(blobs) && forall l :: l in blobs <==> l in list[..i] && l.oid in objects && objects[l.oid].Blob?
    {
      TakeNext(list, i);
      assert forall l | l in list[..i] :: l.oid < list[i].oid;
      assert forall j | 0 <= j < |history| :: history[j] in list[..i];
      assert forall j | 0 <= j < |blobs| :: blobs[j] in list[..i];
      if list[i].oid !in objects {
        assert list[i] in list;
        return false, history, blobs;
      }
      if objects[list[i].oid].Blob? {
        blobs := blobs + [list[i]];
      } else {
        history := history + [list[i]];
      }
    }
    TakeAll(list);
    ok := true;
  }

  /** Sorts lines by id and keeps one line of each. */
  method SortLines(raw: seq<Line>) returns (list: seq<Line>)
    ensures Sorted(list) && (forall l | l in list :: l in raw)
    ensures forall x :: x in Oids(list) <==> x in Oids(raw)
  {
    list := [];
    for i := 0 to |raw|
      invariant Sorted(list) && forall l | l in list :: l in raw[..i]
      invariant forall x :: x in Oids(list) <==> x in Oids(raw[..i])
    {
      TakeNext(raw, i);
      assert Oids(raw[..i + 1]) == Oids(raw[..i]) + [raw[i].oid];
      var k := 0;
      while k < |list| && list[k].oid < raw[i].oid
        invariant k <= |list| && forall j | 0 <= j < k :: list[j].oid < raw[i].oid
      {
        k := k + 1;
      }
      if k == |list| || list[k].oid != raw[i].oid {
        InsertedLine(list, k, raw[i]);
        list := list[..k] + [raw[i]] + list[k..];
      } else {
        assert Oids(list)[k] == raw[i].oid;
      }
    }
    TakeAll(raw);
  }

  lemma InsertedLine(list: seq<Line>, k: nat, x: Line)
    requires Sorted(list) && k <= |list| && (forall j | 0 <= j < k :: list[j].oid < x.oid)
    requires k < |list| ==> x.oid < list[k].oid
    ensures Sorted(list[..k] + [x] + list[k..])
    ensures forall l :: l in list[..k] + [x] + list[k..] <==> l in list || l == x
    ensures forall o :: o in Oids(list[..k] + [x] + list[k..]) <==> o in Oids(list) || o == x.oid
  {
    var r := list[..k] + [x] + list[k..];
    InsertedMembers(list, k, x);
    OidsOfLines(list);
    OidsOfLines(r);
  }

  /** The ids of one list that are not in another. */
  method Difference(a: seq<Oid>, b: seq<Oid>) returns (out: seq<Oid>)
    requires Ascending(a)
    ensures Ascending(out) && forall x :: x in out <==> x in a && x !in b
  {
    out := [];
    for i := 0 to |a|
      invariant Ascending(out) && forall x :: x in out <==> x in a[..i] && x !in b
    {
      TakeNext(a, i);
      assert forall k | 0 <= k < |out| :: out[k] in a[..i];
      if a[i] !in b {
        out := out + [a[i]];
      }
    }
    TakeAll(a);
  }
}
