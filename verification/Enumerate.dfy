/** Which objects a fetch sends: a tree diff that updates one set in place and puts off what is not
    local, and the loop that faults absent objects in (crates/walgit-git/src/upload_gix.rs:235-291,
    601-831, 872-954; crates/walgit-git/src/lib.rs:3349-3522). */
module Enumerate {
  import opened Basics
  import opened Objects
  import opened Reachability
  import opened Seqs
  import opened SortedOids

  datatype Filter = NoFilter | BlobNone

  /** A parent's subtree at the path being compared. */
  datatype Old = Absent | OldTree(oid: Oid)

  datatype Enumerated = Done(objects: set<Oid>, diffed: bool) | Need(missing: seq<Oid>) | Failed

  const MAX_FAULT_ROUNDS: nat := 64

  /** Every id that is referred to stands for an object, of the kind the reference expects. Which of
      them are local is another matter. */
  ghost predicate Complete(u: Contents) {
    WellTyped(u) && Closed(Links(u), u.Keys)
  }

  function EntriesOf(u: Contents, t: Oid): seq<Entry> {
    if t in u && u[t].Tree? then u[t].entries else []
  }

  lemma EntryKnown(u: Contents, t: Oid, e: Entry)
    requires Complete(u) && e in EntriesOf(u, t) && !e.mode.Gitlink?
    ensures e.oid in Succ(Links(u), t)
    ensures e.oid in u && KindOf(u[e.oid]) == ModeKind(e.mode)
  {
    EntryReferenced(u[t].entries, e);
    assert (e.oid, ModeKind(e.mode)) in References(u[t]);
    assert e.oid in Succ(Links(u), t);
  }

  // ---- comparing one level ----

  /** A name is looked up in a map filled from the entries in order, so the last one wins. */
  function Lookup(entries: seq<Entry>, name: string): (r: Option<Entry>)
    ensures r.Some? ==> r.value in entries && r.value.name == name
  {
    if entries == [] then None
    else if entries[|entries| - 1].name == name then Some(entries[|entries| - 1])
    else Lookup(entries[..|entries| - 1], name)
  }

  predicate SameAt(m: seq<Entry>, e: Entry) {
    Lookup(m, e.name).Some? && Lookup(m, e.name).value.oid == e.oid
  }

  /** There are parents, and each has this id under this name. */
  predicate Unchanged(maps: seq<seq<Entry>>, e: Entry) {
    maps != [] && forall m | m in maps :: SameAt(m, e)
  }

  /** The last entry of this name, which there is, has the same id, whatever its mode. */
  ghost predicate LastHasId(m: seq<Entry>, e: Entry) {
    exists i: nat :: i < |m| && m[i].name == e.name && m[i].oid == e.oid && forall j | i < j < |m| :: m[j].name != e.name
  }

  /** An entry is skipped when there are sides and each of them has its id last under its name. */
  lemma UnchangedExactly(maps: seq<seq<Entry>>, e: Entry)
    ensures Unchanged(maps, e) <==> maps != [] && forall m | m in maps :: LastHasId(m, e)
  {
    hide Lookup;
    forall m: seq<Entry> | m in maps
      ensures SameAt(m, e) <==> LastHasId(m, e)
    {
      if SameAt(m, e) {
        var i := LastNamed(m, e.name);
        LookupLast(m, e.name, i);
      }
      if i: nat :| i < |m| && m[i].name == e.name && m[i].oid == e.oid && forall j | i < j < |m| :: m[j].name != e.name {
        LookupLast(m, e.name, i);
      }
    }
  }

  /** A lookup gives the last entry of the name. */
  lemma {:induction false} LookupLast(m: seq<Entry>, name: string, i: nat)
    requires i < |m| && m[i].name == name && forall j | i < j < |m| :: m[j].name != name
    ensures Lookup(m, name) == Some(m[i])
    decreases |m|
  {
    var n := |m| - 1;
    if i < n {
      assert m[n].name != name && m[..n][i] == m[i];
      LookupLast(m[..n], name, i);
    }
  }

  lemma LastNamed(m: seq<Entry>, name: string) returns (i: nat)
    requires exists e :: e in m && e.name == name
    ensures i < |m| && m[i].name == name && forall j | i < j < |m| :: m[j].name != name
  {
    i := |m| - 1;
    while m[i].name != name
      invariant i < |m| && (forall j | i < j < |m| :: m[j].name != name) && exists k :: 0 <= k <= i && m[k].name == name
      decreases i
    {
      i := i - 1;
    }
  }

  function SubOld(m: seq<Entry>, name: string): Old {
    var r := Lookup(m, name);
    if r.Some? && r.value.mode == TreeMode then OldTree(r.value.oid) else Absent
  }

  function SubOlds(maps: seq<seq<Entry>>, name: string): seq<Old> {
    seq(|maps|, i requires 0 <= i < |maps| => SubOld(maps[i], name))
  }

  function OldMap(u: Contents, o: Old): seq<Entry> {
    if o.Absent? then [] else EntriesOf(u, o.oid)
  }

  function OldMaps(u: Contents, olds: seq<Old>): seq<seq<Entry>> {
    seq(|olds|, i requires 0 <= i < |olds| => OldMap(u, olds[i]))
  }

  predicate Sent(f: Filter, e: Entry) {
    match e.mode
    case Gitlink => false
    case TreeMode => true
    case BlobMode => f.NoFilter?
  }

  // ---- the set when everything is local ----

  function Diff(u: Contents, f: Filter, t: Oid, olds: seq<Old>, s: set<Oid>): (r: set<Oid>)
    ensures s <= r
    decreases u.Keys - s, 2, 0
  {
    DiffEntries(u, f, EntriesOf(u, t), OldMaps(u, olds), s)
  }

  function DiffEntries(u: Contents, f: Filter, entries: seq<Entry>, maps: seq<seq<Entry>>, s: set<Oid>): (r: set<Oid>)
    ensures s <= r
    decreases u.Keys - s, 1, |entries|
  {
    if entries == [] then s
    else
      var s1 := DiffEntry(u, f, entries[0], maps, s);
      assert u.Keys - s1 <= u.Keys - s;
      DiffEntries(u, f, entries[1..], maps, s1)
  }

  function DiffEntry(u: Contents, f: Filter, e: Entry, maps: seq<seq<Entry>>, s: set<Oid>): (r: set<Oid>)
    ensures s <= r
    decreases u.Keys - s, 0, 0
  {
    if !Sent(f, e) || Unchanged(maps, e) || e.oid in s then s
    else if e.mode == TreeMode && e.oid in u then
      assert e.oid in u.Keys - s;
      Diff(u, f, e.oid, SubOlds(maps, e.name), s + {e.oid})
    else s + {e.oid}
  }

  // ---- the same with objects that are not local ----

  /** Objects were only appended, all of them known and absent. */
  ghost predicate MissingGrew(u: Contents, local: set<Oid>, missing0: seq<Oid>, missing: seq<Oid>) {
    missing0 <= missing && forall k | |missing0| <= k < |missing| :: missing[k] in u && missing[k] !in local
  }

  ghost predicate OldsKnown(u: Contents, olds: seq<Old>) {
    forall o | o in olds && o.OldTree? :: o.oid in u
  }

  ghost predicate MapsKnown(u: Contents, maps: seq<seq<Entry>>) {
    forall m | m in maps :: forall e | e in m && e.mode == TreeMode :: e.oid in u
  }

  lemma SubOldsKnown(u: Contents, maps: seq<seq<Entry>>, name: string)
    requires MapsKnown(u, maps)
    ensures OldsKnown(u, SubOlds(maps, name))
  {
    forall o | o in SubOlds(maps, name) && o.OldTree?
      ensures o.oid in u
    {
      var i :| 0 <= i < |maps| && SubOld(maps[i], name) == o;
      assert maps[i] in maps;
    }
  }

  lemma OldMapsKnown(u: Contents, olds: seq<Old>)
    requires Complete(u)
    ensures MapsKnown(u, OldMaps(u, olds))
  {
    hide Complete;
    forall m, e | m in OldMaps(u, olds) && e in m && e.mode == TreeMode
      ensures e.oid in u
    {
      var i :| 0 <= i < |olds| && OldMap(u, olds[i]) == m;
      EntryKnown(u, olds[i].oid, e);
    }
  }

  method ReadOlds(u: Contents, local: set<Oid>, olds: seq<Old>, missing0: seq<Oid>)
    returns (maps: seq<seq<Entry>>, missing: seq<Oid>, deferred: bool)
    requires local <= u.Keys && OldsKnown(u, olds)
    ensures MissingGrew(u, local, missing0, missing)
    ensures if deferred then missing != missing0 else missing == missing0 && maps == OldMaps(u, olds)
  {
    maps, missing, deferred := [], missing0, false;
    for i := 0 to |olds|
      invariant MissingGrew(u, local, missing0, missing)
      invariant if deferred then |missing| > |missing0| else missing == missing0 && maps == OldMaps(u, olds)[..i]
    {
      assert olds[i] in olds;
      TakeNext(OldMaps(u, olds), i);
      match olds[i] {
      case Absent =>
        maps := maps + [[]];
      case OldTree(oid) =>
        if oid in local {
          maps := maps + [EntriesOf(u, oid)];
        } else {
          missing := missing + [oid];
          deferred := true;
        }
      }
    }
    TakeAll(OldMaps(u, olds));
  }

  /** Adds what is new below a tree. What is put off is recorded as missing, and when nothing was, the
      set is the one that a fully local store gives. */
  method DiffTree(u: Contents, local: set<Oid>, f: Filter, t: Oid, olds: seq<Old>, s0: set<Oid>, missing0: seq<Oid>)
    returns (s: set<Oid>, missing: seq<Oid>)
    requires Complete(u) && local <= u.Keys && t in u && t in s0 && OldsKnown(u, olds)
    ensures MissingGrew(u, local, missing0, missing) && s0 - {t} <= s
    ensures missing == missing0 ==> s == Diff(u, f, t, olds, s0)
    decreases u.Keys - s0, 1
  {
    hide Complete, OldsKnown, MapsKnown;
    s, missing := s0, missing0;
    if t !in local {
      missing := missing + [t];
      return;
    }
    var entries := EntriesOf(u, t);
    var maps, deferred;
    maps, missing, deferred := ReadOlds(u, local, olds, missing);
    if deferred {
      s := s - {t};
      return;
    }
    OldMapsKnown(u, olds);
    ghost var goal := Diff(u, f, t, olds, s0);
    for i := 0 to |entries|
      invariant s0 <= s && MissingGrew(u, local, missing0, missing)
      invariant missing == missing0 ==> DiffEntries(u, f, entries[i..], maps, s) == goal
    {
      assert u.Keys - s <= u.Keys - s0;
      DropDrop(entries, i, 1);
      s, missing := VisitEntry(u, local, f, t, entries[i], maps, s, missing);
    }
  }

  method VisitEntry(u: Contents, local: set<Oid>, f: Filter, ghost t: Oid, e: Entry, maps: seq<seq<Entry>>,
                    s0: set<Oid>, missing0: seq<Oid>)
    returns (s: set<Oid>, missing: seq<Oid>)
    requires Complete(u) && local <= u.Keys && e in EntriesOf(u, t) && MapsKnown(u, maps)
    ensures MissingGrew(u, local, missing0, missing) && s0 <= s
    ensures missing == missing0 ==> s == DiffEntry(u, f, e, maps, s0)
    decreases u.Keys - s0, 0
  {
    hide Complete, OldsKnown, MapsKnown;
    s, missing := s0, missing0;
    if e.mode == Gitlink {
      return;
    }
    if Unchanged(maps, e) {
      return;
    }
    EntryKnown(u, t, e);
    if e.mode == TreeMode {
      if e.oid !in s {
        SubOldsKnown(u, maps, e.name);
        assert e.oid in u.Keys - s0;
        s, missing := DiffTree(u, local, f, e.oid, SubOlds(maps, e.name), s + {e.oid}, missing);
      }
    } else {
      if f == BlobNone {
        return;
      }
      s := s + {e.oid};
    }
  }

  // ---- commits ----

  function ParentTrees(u: Contents, parents: seq<Oid>): seq<Old> {
    seq(|parents|, i requires 0 <= i < |parents| =>
      if parents[i] in u && u[parents[i]].Commit? then OldTree(u[parents[i]].tree) else Absent)
  }

  /** The trees a commit is compared with: its parents', when the client has anything at all. */
  function CommitOlds(u: Contents, diffMode: bool, c: Oid): seq<Old>
    requires c in u && u[c].Commit?
  {
    if diffMode then ParentTrees(u, u[c].parents) else []
  }

  function WithTree(u: Contents, f: Filter, tree: Oid, olds: seq<Old>, s: set<Oid>): (r: set<Oid>)
    ensures s <= r
  {
    if tree in s then s else Diff(u, f, tree, olds, s + {tree})
  }

  function WithCommit(u: Contents, f: Filter, diffMode: bool, hidden: set<Oid>, c: Oid, s: set<Oid>): (r: set<Oid>)
    requires c in u && u[c].Commit?
    ensures s <= r
  {
    if c in hidden || c in s then s
    else WithTree(u, f, u[c].tree, CommitOlds(u, diffMode, c), s + {c})
  }

  predicate AreCommits(u: Contents, cs: seq<Oid>) {
    forall c | c in cs :: c in u && u[c].Commit?
  }

  /** What a fully local store sends for the commits of a walk, visited in this order. */
  function SentFor(u: Contents, f: Filter, diffMode: bool, hidden: set<Oid>, walk: seq<Oid>): set<Oid>
    requires AreCommits(u, walk)
  {
    if walk == [] then {}
    else WithCommit(u, f, diffMode, hidden, walk[|walk| - 1], SentFor(u, f, diffMode, hidden, walk[..|walk| - 1]))
  }

  lemma TreeKnown(u: Contents, c: Oid)
    requires Complete(u) && c in u && u[c].Commit?
    ensures u[c].tree in Succ(Links(u), c) && u[c].tree in u && u[u[c].tree].Tree?
  {
    assert References(u[c])[0] == (u[c].tree, TreeKind);
    assert (u[c].tree, TreeKind) in References(u[c]);
    assert u[c].tree in Succ(Links(u), c);
  }

  lemma ParentKnown(u: Contents, c: Oid, p: Oid)
    requires Complete(u) && c in u && u[c].Commit? && p in u[c].parents
    ensures p in Succ(Links(u), c) && p in u && u[p].Commit?
  {
    hide References;
    ParentReferenced(u[c], p);
    ParentIsLink(u, c, p);
  }

  lemma ParentReferenced(o: Object, p: Oid)
    requires o.Commit? && p in o.parents
    ensures (p, CommitKind) in References(o)
  {
    var i :| 0 <= i < |o.parents| && o.parents[i] == p;
    assert References(o)[i + 1] == (p, CommitKind);
  }

  method ReadParentTrees(u: Contents, local: set<Oid>, c: Oid, missing0: seq<Oid>)
    returns (olds: seq<Old>, missing: seq<Oid>, deferred: bool)
    requires Complete(u) && local <= u.Keys && c in u && u[c].Commit?
    ensures MissingGrew(u, local, missing0, missing) && OldsKnown(u, olds)
    ensures if deferred then missing != missing0 else missing == missing0 && olds == ParentTrees(u, u[c].parents)
  {
    hide Complete;
    olds, missing, deferred := [], missing0, false;
    var parents := u[c].parents;
    for i := 0 to |parents|
      invariant MissingGrew(u, local, missing0, missing) && OldsKnown(u, olds)
      invariant if deferred then |missing| > |missing0| else missing == missing0 && olds == ParentTrees(u, parents)[..i]
    {
      ParentKnown(u, c, parents[i]);
      TakeNext(ParentTrees(u, parents), i);
      if parents[i] in local {
        TreeKnown(u, parents[i]);
        olds := olds + [OldTree(u[parents[i]].tree)];
      } else {
        missing := missing + [parents[i]];
        deferred := true;
      }
    }
    TakeAll(ParentTrees(u, parents));
  }

  method AddTree(u: Contents, local: set<Oid>, f: Filter, tree: Oid, olds: seq<Old>, s0: set<Oid>, missing0: seq<Oid>)
    returns (s: set<Oid>, missing: seq<Oid>)
    requires Complete(u) && local <= u.Keys && tree in u && OldsKnown(u, olds)
    ensures MissingGrew(u, local, missing0, missing)
    ensures missing == missing0 ==> s == WithTree(u, f, tree, olds, s0)
  {
    hide Complete, OldsKnown;
    s, missing := s0, missing0;
    if tree !in s {
      s, missing := DiffTree(u, local, f, tree, olds, s + {tree}, missing);
    }
  }

  method VisitCommit(u: Contents, local: set<Oid>, f: Filter, diffMode: bool, hidden: set<Oid>, c: Oid,
                     s0: set<Oid>, missing0: seq<Oid>)
    returns (s: set<Oid>, missing: seq<Oid>)
    requires Complete(u) && local <= u.Keys && c in u && u[c].Commit?
    ensures MissingGrew(u, local, missing0, missing)
    ensures missing == missing0 ==> s == WithCommit(u, f, diffMode, hidden, c, s0)
  {
    hide Complete, OldsKnown, WithTree;
    s, missing := s0, missing0;
    if c in hidden || c in s {
      return;
    }
    s := s + {c};
    if c !in local {
      missing := missing + [c];
      return;
    }
    TreeKnown(u, c);
    NoOlds(u);
    if u[c].parents == [] || !diffMode {
      assert CommitOlds(u, diffMode, c) == [];
      s, missing := AddTree(u, local, f, u[c].tree, [], s, missing);
      return;
    }
    var olds, deferred;
    olds, missing, deferred := ReadParentTrees(u, local, c, missing);
    if deferred {
      s := s - {c};
      return;
    }
    s, missing := AddTree(u, local, f, u[c].tree, olds, s, missing);
  }

  lemma NoOlds(u: Contents)
    ensures OldsKnown(u, [])
  {
  }

  lemma GrewTransitive(u: Contents, local: set<Oid>, m0: seq<Oid>, m1: seq<Oid>, m2: seq<Oid>)
    requires MissingGrew(u, local, m0, m1) && MissingGrew(u, local, m1, m2)
    ensures MissingGrew(u, local, m0, m2) && (m0 == m2 ==> m0 == m1)
  {
  }

  // ---- enumeration ----

  /** The walk over a fully local repository: whole trees, without duplicates; an unfiltered clone sends
      the commits alone and leaves their contents to the pack writer. */
  method WalkTree(u: Contents, local: set<Oid>, f: Filter, t: Oid, s0: set<Oid>) returns (ok: bool, s: set<Oid>)
    requires Complete(u) && local <= u.Keys && t in u && u[t].Tree? && t in s0
    ensures s0 <= s && (local == u.Keys ==> ok)
    ensures ok ==> s == Diff(u, f, t, [], s0)
    decreases u.Keys - s0
  {
    hide Complete;
    s := s0;
    if t !in local {
      return false, s;
    }
    var entries := EntriesOf(u, t);
    ghost var goal := Diff(u, f, t, [], s0);
    assert OldMaps(u, []) == [];
    for i := 0 to |entries|
      invariant s0 <= s && DiffEntries(u, f, entries[i..], [], s) == goal
    {
      var e := entries[i];
      ghost var before := s;
      DropDrop(entries, i, 1);
      assert entries[i..][0] == e && !Unchanged([], e);
      if e.mode == TreeMode {
        EntryKnown(u, t, e);
        if e.oid !in s {
          assert u.Keys - s <= u.Keys - s0 && e.oid in u.Keys - s;
          assert SubOlds([], e.name) == [];
          ok, s := WalkTree(u, local, f, e.oid, s + {e.oid});
          if !ok {
            return;
          }
        }
      } else if e.mode == Gitlink || f == BlobNone {
        assert !Sent(f, e);
      } else {
        EntryKnown(u, t, e);
        s := s + {e.oid};
      }
      assert s == DiffEntry(u, f, e, [], before);
    }
    ok := true;
  }

  /** What the request's filter says; a request without one filters nothing. */
  function FilterOf(requested: Option<Filter>): Filter {
    if requested.Some? then requested.value else NoFilter
  }

  /** The classic walk. Contents are left out only for a request that names no filter at all: one whose
      filter lets everything through is walked like any other. */
  method ComputeObjectSet(u: Contents, local: set<Oid>, requested: Option<Filter>, haves: set<Oid>, walk: Option<seq<Oid>>)
    returns (r: Option<set<Oid>>)
    requires Complete(u) && local <= u.Keys && (walk.Some? ==> AreCommits(u, walk.value))
    ensures walk.Some? && local == u.Keys ==> r.Some?
    ensures r.Some? ==> walk.Some?
    ensures r.Some? && (requested.Some? || haves != {}) ==> r.value == SentFor(u, if requested == Some(BlobNone) then BlobNone else NoFilter, false, {}, walk.value)
    ensures r.Some? && (requested.Some? || haves != {}) ==> IsWhole(u, requested != Some(BlobNone), walk.value, r.value)
    ensures r.Some? && requested.None? && haves == {} ==> r.value == set c | c in walk.value
  {
    hide Complete, IsWhole;
    var f := FilterOf(requested);
    if walk.None? {
      return None;
    }
    var cs := walk.value;
    var s: set<Oid> := {};
    for i := 0 to |cs|
      invariant if requested.None? && haves == {} then s == set c | c in cs[..i] else s == SentFor(u, f, false, {}, cs[..i])
    {
      var c := cs[i];
      TakeNext(cs, i);
      assert c in cs && cs[..i + 1][..i] == cs[..i];
      if c in s {
        continue;
      }
      s := s + {c};
      if requested.None? && haves == {} {
        continue;
      }
      if c !in local {
        return None;
      }
      TreeKnown(u, c);
      var tree := u[c].tree;
      if tree !in s {
        var ok;
        ok, s := WalkTree(u, local, f, tree, s + {tree});
        if !ok {
          return None;
        }
      }
    }
    TakeAll(cs);
    SentIsWhole(u, f, cs);
    r := Some(s);
  }

  /** One attempt over the objects that are local now. */
  method Enumerate(u: Contents, local: set<Oid>, requested: Option<Filter>, haves: seq<Oid>, shallow: set<Oid>, faulter: bool, walk: Option<seq<Oid>>)
    returns (r: Enumerated)
    requires Complete(u) && local <= u.Keys && (walk.Some? ==> AreCommits(u, walk.value))
    ensures r.Done? ==> walk.Some?
    ensures r.Done? && (requested.Some? || haves != [] || faulter) ==>
              r.objects == SentFor(u, if requested == Some(BlobNone) then BlobNone else NoFilter, haves != [],
                                   (set h | h in haves && h !in shallow), walk.value)
    ensures r.Done? && haves == [] && (requested.Some? || faulter) ==> IsWhole(u, requested != Some(BlobNone), walk.value, r.objects)
    ensures r.Done? && requested == Some(BlobNone) ==> forall x | x in r.objects :: x in u && !u[x].Blob?
    ensures r.Done? && requested.None? && haves == [] && !faulter ==> r.objects == set c | c in walk.value
    ensures r.Need? ==> r.missing != [] && Ascending(r.missing) && forall m | m in r.missing :: m in u && m !in local
    ensures walk.Some? && local == u.Keys ==> r.Done?
    ensures walk.Some? && faulter ==> !r.Failed?
  {
    hide Complete, WithCommit, IsWhole;
    var f := FilterOf(requested);
    assert f == if requested == Some(BlobNone) then BlobNone else NoFilter;
    assert Hidden(haves, shallow) == set h | h in haves && h !in shallow;
    if requested == Some(BlobNone) && walk.Some? {
      SentHasNoBlobs(u, haves != [], Hidden(haves, shallow), walk.value);
    }
    if haves == [] && walk.Some? {
      assert Hidden(haves, shallow) == {};
      SentIsWhole(u, f, walk.value);
    }
    var diffMode := haves != [];
    if !diffMode && !faulter {
      assert Hidden(haves, shallow) == {};
      var classic := ComputeObjectSet(u, local, requested, {}, walk);
      return if classic.Some? then Done(classic.value, false) else Failed;
    }
    if walk.None? {
      return Failed;
    }
    var s: set<Oid>, missing := {}, [];
    var hidden := Hidden(haves, shallow);
    var cs := walk.value;
    for i := 0 to |cs|
      invariant MissingGrew(u, local, [], missing)
      invariant missing == [] ==> s == SentFor(u, f, diffMode, hidden, cs[..i])
    {
      TakeNext(cs, i);
      assert cs[i] in cs && cs[..i + 1][..i] == cs[..i];
      ghost var before := missing;
      s, missing := VisitCommit(u, local, f, diffMode, hidden, cs[i], s, missing);
      GrewTransitive(u, local, [], before, missing);
    }
    TakeAll(cs);
    if missing != [] {
      FirstIsMember(missing);
      missing := SortedDistinct(missing);
      return Need(missing);
    }
    r := Done(s, diffMode);
  }

  /** A have that is shallow on the client says nothing about its parents, so it hides nothing. */
  function Hidden(haves: seq<Oid>, shallow: set<Oid>): set<Oid> {
    set h | h in haves && h !in shallow
  }

  datatype Outcome = Produced(objects: set<Oid>) | MissingObject(oid: Oid) | NotConverged | EnumerationFailed

  /** The retry loop: absent objects are read from the remote set and the enumeration starts over. */
  method ProducePack(u: Contents, local0: set<Oid>, requested: Option<Filter>, haves: seq<Oid>, shallow: set<Oid>,
                     remote: Option<set<Oid>>, walk: Option<seq<Oid>>)
    returns (r: Outcome, local: set<Oid>)
    requires Complete(u) && local0 <= u.Keys && (walk.Some? ==> AreCommits(u, walk.value))
    ensures local0 <= local <= u.Keys
    ensures r.Produced? ==> walk.Some?
    ensures r.Produced? && (requested.Some? || haves != [] || remote.Some?) ==>
              r.objects == SentFor(u, if requested == Some(BlobNone) then BlobNone else NoFilter, haves != [],
                                   (set h | h in haves && h !in shallow), walk.value)
    ensures r.Produced? && haves == [] && (requested.Some? || remote.Some?) ==> IsWhole(u, requested != Some(BlobNone), walk.value, r.objects)
    ensures r.Produced? && requested == Some(BlobNone) ==> forall x | x in r.objects :: x in u && !u[x].Blob?
    ensures r.Produced? && requested.None? && haves == [] && remote.None? ==> r.objects == set c | c in walk.value
    ensures r.MissingObject? ==> r.oid in u && r.oid !in local
    ensures r.NotConverged? ==> |u.Keys - local0| > 64
    ensures walk.Some? && remote.Some? && u.Keys <= local0 + remote.value ==> r.Produced? || r.NotConverged?
  {
    hide Complete, AreCommits, SentFor, IsWhole;
    local := local0;
    var rounds := 0;
    while true
      invariant local0 <= local <= u.Keys
      invariant rounds + |u.Keys - local| <= |u.Keys - local0|
      decreases u.Keys - local
    {
      var attempt := Enumerate(u, local, requested, haves, shallow, remote.Some?, walk);
      match attempt {
      case Done(objects, _) =>
        return Produced(objects), local;
      case Failed =>
        return EnumerationFailed, local;
      case Need(missing) =>
        FirstIsMember(missing);
        rounds := rounds + 1;
        if remote.None? {
          return MissingObject(missing[0]), local;
        }
        var found := Found(missing, remote.value);
        var next := local + found;
        FaultShrinks(u, local, next, missing, remote.value);
        if rounds > MAX_FAULT_ROUNDS {
          return NotConverged, local;
        }
        if found == {} {
          return MissingObject(missing[0]), local;
        }
        local := next;
      }
    }
  }

  /** What the remote pack set can supply of the objects asked for. */
  function Found(missing: seq<Oid>, remote: set<Oid>): set<Oid> {
    set m | m in missing && m in remote
  }

  lemma FaultShrinks(u: Contents, local: set<Oid>, next: set<Oid>, missing: seq<Oid>, remote: set<Oid>)
    requires local <= u.Keys && missing != [] && forall m | m in missing :: m in u && m !in local
    requires next == local + Found(missing, remote)
    ensures next <= u.Keys && |u.Keys - local| >= 1
    ensures Found(missing, remote) != {} ==> u.Keys - next < u.Keys - local && |u.Keys - next| < |u.Keys - local|
    ensures u.Keys <= local + remote ==> Found(missing, remote) != {}
  {
    assert missing[0] in missing && missing[0] in u.Keys - local;
    if missing[0] in remote {
      assert missing[0] in Found(missing, remote);
    }
    if Found(missing, remote) != {} {
      var m :| m in Found(missing, remote);
      assert m in u.Keys - local && m !in u.Keys - next;
      SubsetGrows(u.Keys - next, u.Keys - local);
    }
  }

  // ---- what the set means ----

  /** The entries of each tree that a filter lets through. */
  function TreeLinks(u: Contents, f: Filter): Graph<Oid> {
    map t | t in u && u[t].Tree? :: set e | e in u[t].entries && Sent(f, e) :: e.oid
  }

  /** Content that the filter lets through. */
  predicate Content(u: Contents, f: Filter, x: Oid) {
    x in u && (u[x].Tree? || (f.NoFilter? && u[x].Blob?))
  }

  lemma SentIsContent(u: Contents, f: Filter, t: Oid, e: Entry)
    requires Complete(u) && e in EntriesOf(u, t) && Sent(f, e)
    ensures Content(u, f, e.oid) && e.oid in Succ(Links(u), t) && e.oid in Succ(TreeLinks(u, f), t)
  {
    hide Complete;
    EntryKnown(u, t, e);
  }

  /** Every tree of the set whose walk is over has its entries in the set or among the objects that
      the client holds anyway. */
  ghost predicate ClosedExcept(u: Contents, f: Filter, s: set<Oid>, base: set<Oid>, open: set<Oid>) {
    forall t | t in s && t !in open :: Succ(TreeLinks(u, f), t) <= s + base
  }

  /** An id names one object, so a gitlink, which names a commit, has the id of no tree or blob. */
  ghost predicate GitlinksNameCommits(u: Contents) {
    forall t | t in u && u[t].Tree? :: forall e | e in u[t].entries && e.mode.Gitlink? && e.oid in u :: u[e.oid].Commit?
  }

  /** What one side of a comparison names is held by the client. */
  ghost predicate MapWithin(u: Contents, f: Filter, base: set<Oid>, m: seq<Entry>) {
    forall e | e in m && Content(u, f, e.oid) :: e.oid in base && !e.mode.Gitlink?
  }

  /** One side is enough: an entry is only skipped when all sides have it. */
  ghost predicate MapsWithin(u: Contents, f: Filter, base: set<Oid>, maps: seq<seq<Entry>>) {
    maps == [] || exists m :: m in maps && MapWithin(u, f, base, m)
  }

  ghost predicate OldWithin(base: set<Oid>, o: Old) {
    o.OldTree? ==> o.oid in base
  }

  ghost predicate OldsWithin(base: set<Oid>, olds: seq<Old>) {
    olds == [] || exists o :: o in olds && OldWithin(base, o)
  }

  lemma OldMapsWithin(u: Contents, f: Filter, base: set<Oid>, olds: seq<Old>)
    requires Complete(u) && Closed(TreeLinks(u, f), base) && OldsWithin(base, olds)
    requires olds == [] || GitlinksNameCommits(u)
    ensures MapsWithin(u, f, base, OldMaps(u, olds))
  {
    hide Complete;
    if olds != [] {
      var o :| o in olds && OldWithin(base, o);
      var i :| 0 <= i < |olds| && olds[i] == o;
      var m := OldMaps(u, olds)[i];
      assert m in OldMaps(u, olds);
      forall e | e in m && Content(u, f, e.oid)
        ensures e.oid in base && !e.mode.Gitlink?
      {
        var t := o.oid;
        assert e in u[t].entries && !e.mode.Gitlink?;
        EntryKnown(u, t, e);
        SentIsContent(u, f, t, e);
      }
    }
  }

  lemma SubOldsWithin(u: Contents, f: Filter, base: set<Oid>, maps: seq<seq<Entry>>, name: string)
    requires MapsWithin(u, f, base, maps) && MapsTyped(u, maps)
    ensures OldsWithin(base, SubOlds(maps, name))
  {
    if maps != [] {
      var m :| m in maps && MapWithin(u, f, base, m);
      var i :| 0 <= i < |maps| && maps[i] == m;
      assert SubOlds(maps, name)[i] in SubOlds(maps, name) && OldWithin(base, SubOlds(maps, name)[i]);
    }
  }

  /** Entries of tree mode name trees. */
  ghost predicate MapsTyped(u: Contents, maps: seq<seq<Entry>>) {
    forall m | m in maps :: forall e | e in m && e.mode.TreeMode? :: e.oid in u && u[e.oid].Tree?
  }

  lemma OldMapsTyped(u: Contents, olds: seq<Old>)
    requires Complete(u)
    ensures MapsTyped(u, OldMaps(u, olds))
  {
    hide Complete;
    forall m, e | m in OldMaps(u, olds) && e in m && e.mode.TreeMode?
      ensures e.oid in u && u[e.oid].Tree?
    {
      var i :| 0 <= i < |olds| && OldMap(u, olds[i]) == m;
      EntryKnown(u, olds[i].oid, e);
    }
  }

  lemma UnchangedIsHeld(u: Contents, f: Filter, base: set<Oid>, maps: seq<seq<Entry>>, e: Entry)
    requires MapsWithin(u, f, base, maps) && Unchanged(maps, e) && Content(u, f, e.oid)
    ensures e.oid in base
  {
    var m :| m in maps && MapWithin(u, f, base, m);
    assert SameAt(m, e);
  }

  /** Everything the walk adds is content reachable from one of these entries. */
  ghost predicate AddedBelow(u: Contents, f: Filter, entries: seq<Entry>, s: set<Oid>, r: set<Oid>) {
    forall x | x in r && x !in s :: Content(u, f, x)
      && exists e :: e in entries && Sent(f, e) && Reaches(TreeLinks(u, f), e.oid, x)
  }

  ghost predicate AddedFrom(u: Contents, f: Filter, t: Oid, s: set<Oid>, r: set<Oid>) {
    forall x | x in r && x !in s :: Content(u, f, x) && Reaches(TreeLinks(u, f), t, x)
  }

  lemma DiffCloses(u: Contents, f: Filter, t: Oid, olds: seq<Old>, s: set<Oid>, base: set<Oid>, open: set<Oid>)
    requires Complete(u) && t in u && u[t].Tree? && t in s
    requires Closed(TreeLinks(u, f), base) && OldsWithin(base, olds) && (olds == [] || GitlinksNameCommits(u))
    requires ClosedExcept(u, f, s, base, open + {t})
    ensures ClosedExcept(u, f, Diff(u, f, t, olds, s), base, open)
    ensures AddedFrom(u, f, t, s, Diff(u, f, t, olds, s))
    decreases u.Keys - s, 2, 0
  {
    hide Complete, Closed, ClosedExcept, OldsWithin, MapsWithin, MapsTyped, AddedBelow, Reaches, GitlinksNameCommits;
    OldMapsWithin(u, f, base, olds);
    OldMapsTyped(u, olds);
    var entries := EntriesOf(u, t);
    var maps := OldMaps(u, olds);
    EntriesClose(u, f, t, entries, maps, s, base, open + {t});
    var r := Diff(u, f, t, olds, s);
    TreeCloses(u, f, t, r, base, open);
    AddedBelowTree(u, f, t, s, r);
  }

  lemma TreeCloses(u: Contents, f: Filter, t: Oid, r: set<Oid>, base: set<Oid>, open: set<Oid>)
    requires t in u && u[t].Tree? && ClosedExcept(u, f, r, base, open + {t})
    requires forall e | e in EntriesOf(u, t) && Sent(f, e) :: e.oid in r + base
    ensures ClosedExcept(u, f, r, base, open)
  {
  }

  lemma AddedBelowTree(u: Contents, f: Filter, t: Oid, s: set<Oid>, r: set<Oid>)
    requires t in u && u[t].Tree? && AddedBelow(u, f, EntriesOf(u, t), s, r)
    ensures AddedFrom(u, f, t, s, r)
  {
    hide Reaches;
    forall x | x in r && x !in s
      ensures Reaches(TreeLinks(u, f), t, x)
    {
      var e :| e in EntriesOf(u, t) && Sent(f, e) && Reaches(TreeLinks(u, f), e.oid, x);
      assert e.oid in Succ(TreeLinks(u, f), t);
      ReachesStep(TreeLinks(u, f), t, e.oid, x);
    }
  }

  lemma EntriesClose(u: Contents, f: Filter, t: Oid, entries: seq<Entry>, maps: seq<seq<Entry>>, s: set<Oid>, base: set<Oid>, open: set<Oid>)
    requires Complete(u) && forall e | e in entries :: e in EntriesOf(u, t)
    requires Closed(TreeLinks(u, f), base) && MapsWithin(u, f, base, maps) && MapsTyped(u, maps) && (maps == [] || GitlinksNameCommits(u))
    requires ClosedExcept(u, f, s, base, open)
    ensures ClosedExcept(u, f, DiffEntries(u, f, entries, maps, s), base, open)
    ensures forall e | e in entries && Sent(f, e) :: e.oid in DiffEntries(u, f, entries, maps, s) + base
    ensures AddedBelow(u, f, entries, s, DiffEntries(u, f, entries, maps, s))
    decreases u.Keys - s, 1, |entries|
  {
    hide Complete, Closed, ClosedExcept, MapsWithin, MapsTyped, Reaches, GitlinksNameCommits;
    if entries != [] {
      var s1 := DiffEntry(u, f, entries[0], maps, s);
      assert u.Keys - s1 <= u.Keys - s;
      EntryCloses(u, f, t, entries[0], maps, s, base, open);
      EntriesClose(u, f, t, entries[1..], maps, s1, base, open);
      assert entries == [entries[0]] + entries[1..];
    }
  }

  lemma EntryCloses(u: Contents, f: Filter, t: Oid, e: Entry, maps: seq<seq<Entry>>, s: set<Oid>, base: set<Oid>, open: set<Oid>)
    requires Complete(u) && e in EntriesOf(u, t)
    requires Closed(TreeLinks(u, f), base) && MapsWithin(u, f, base, maps) && MapsTyped(u, maps) && (maps == [] || GitlinksNameCommits(u))
    requires ClosedExcept(u, f, s, base, open)
    ensures ClosedExcept(u, f, DiffEntry(u, f, e, maps, s), base, open)
    ensures Sent(f, e) ==> e.oid in DiffEntry(u, f, e, maps, s) + base
    ensures AddedBelow(u, f, [e], s, DiffEntry(u, f, e, maps, s))
    decreases u.Keys - s, 0, 0
  {
    hide Complete, Closed, ClosedExcept, MapsWithin, MapsTyped, Reaches, GitlinksNameCommits, Unchanged;
    if Sent(f, e) {
      SentIsContent(u, f, t, e);
      ReachesSelf(TreeLinks(u, f), e.oid);
      assert e in [e];
      if Unchanged(maps, e) {
        UnchangedIsHeld(u, f, base, maps, e);
      } else if e.oid !in s {
        var s1 := s + {e.oid};
        Opened(u, f, s, base, open, e.oid);
        EntryKnown(u, t, e);
        if e.mode == TreeMode {
          SubOldsWithin(u, f, base, maps, e.name);
          DiffCloses(u, f, e.oid, SubOlds(maps, e.name), s1, base, open);
        } else {
          LeafCloses(u, f, s1, base, open, e.oid);
        }
      }
    }
  }

  lemma Opened(u: Contents, f: Filter, s: set<Oid>, base: set<Oid>, open: set<Oid>, x: Oid)
    requires ClosedExcept(u, f, s, base, open)
    ensures ClosedExcept(u, f, s + {x}, base, open + {x})
  {
  }

  lemma LeafCloses(u: Contents, f: Filter, s: set<Oid>, base: set<Oid>, open: set<Oid>, x: Oid)
    requires ClosedExcept(u, f, s, base, open + {x}) && (x in u ==> !u[x].Tree?)
    ensures ClosedExcept(u, f, s, base, open)
  {
  }

  // ---- whole walks ----

  /** After these commits: each one not hidden is in the set with its tree, every tree is closed up to
      what the client holds, and nothing else was added but content below a visited commit's tree. */
  ghost predicate WalkDone(u: Contents, f: Filter, hidden: set<Oid>, walk: seq<Oid>, base: set<Oid>, s: set<Oid>) {
    && ClosedExcept(u, f, s, base, {})
    && (forall c | c in walk && c !in hidden :: c in s && c in u && u[c].Commit? && u[c].tree in s)
    && (forall x | x in s :: (x in walk && x !in hidden) || (Content(u, f, x) && BelowWalk(u, f, walk, x)))
  }

  ghost predicate BelowWalk(u: Contents, f: Filter, walk: seq<Oid>, x: Oid) {
    exists c :: c in walk && c in u && u[c].Commit? && Reaches(TreeLinks(u, f), u[c].tree, x)
  }

  lemma WithTreeCloses(u: Contents, f: Filter, tree: Oid, olds: seq<Old>, s: set<Oid>, base: set<Oid>)
    requires Complete(u) && tree in u && u[tree].Tree?
    requires Closed(TreeLinks(u, f), base) && OldsWithin(base, olds) && (olds == [] || GitlinksNameCommits(u))
    requires ClosedExcept(u, f, s, base, {})
    ensures ClosedExcept(u, f, WithTree(u, f, tree, olds, s), base, {}) && tree in WithTree(u, f, tree, olds, s)
    ensures AddedFrom(u, f, tree, s, WithTree(u, f, tree, olds, s))
  {
    hide Complete, Closed, ClosedExcept, OldsWithin, Reaches, GitlinksNameCommits, Diff;
    ReachesSelf(TreeLinks(u, f), tree);
    if tree !in s {
      Opened(u, f, s, base, {}, tree);
      DiffCloses(u, f, tree, olds, s + {tree}, base, {});
    }
  }

  /** Comparing this commit skips nothing that is neither held nor sent: it was visited before, has no
      parents, or one of them is held or was visited before it. */
  ghost predicate Compared(u: Contents, hidden: set<Oid>, base: set<Oid>, before: seq<Oid>, c: Oid) {
    c !in before && c in u && u[c].Commit? && u[c].parents != [] ==>
      exists p :: p in u[c].parents && (p in base || (p in before && p !in hidden))
  }

  lemma {:induction false} SentForDone(u: Contents, f: Filter, diffMode: bool, hidden: set<Oid>, walk: seq<Oid>, base: set<Oid>)
    requires Complete(u) && AreCommits(u, walk) && Closed(Links(u), base) && (diffMode ==> GitlinksNameCommits(u))
    requires diffMode ==> forall k | 0 <= k < |walk| :: Compared(u, hidden, base, walk[..k], walk[k])
    ensures WalkDone(u, f, hidden, walk, base, SentFor(u, f, diffMode, hidden, walk))
  {
    hide Complete, Closed, WalkDone, Compared, Reaches, GitlinksNameCommits, WithCommit, Links;
    if walk == [] {
      NothingDone(u, f, hidden, base);
    } else {
      var n := |walk| - 1;
      TakeNext(walk, n);
      TakeAll(walk);
      forall k | 0 <= k < n
        ensures walk[..n][..k] == walk[..k]
      {
      }
      SentForDone(u, f, diffMode, hidden, walk[..n], base);
      OneMoreDone(u, f, diffMode, hidden, walk[..n], walk[n], base, SentFor(u, f, diffMode, hidden, walk[..n]));
    }
  }

  lemma NothingDone(u: Contents, f: Filter, hidden: set<Oid>, base: set<Oid>)
    ensures WalkDone(u, f, hidden, [], base, {})
  {
  }

  lemma OneMoreDone(u: Contents, f: Filter, diffMode: bool, hidden: set<Oid>, walk: seq<Oid>, c: Oid, base: set<Oid>, s: set<Oid>)
    requires Complete(u) && c in u && u[c].Commit? && Closed(Links(u), base) && (diffMode ==> GitlinksNameCommits(u))
    requires (diffMode ==> Compared(u, hidden, base, walk, c)) && WalkDone(u, f, hidden, walk, base, s)
    ensures WalkDone(u, f, hidden, walk + [c], base, WithCommit(u, f, diffMode, hidden, c, s))
  {
    hide Complete, Closed, ClosedExcept, Compared, GitlinksNameCommits, WithTree, CommitOlds, Reaches, Links;
    forall x | BelowWalk(u, f, walk, x)
      ensures BelowWalk(u, f, walk + [c], x)
    {
      var d :| d in walk && d in u && u[d].Commit? && Reaches(TreeLinks(u, f), u[d].tree, x);
      assert d in walk + [c];
    }
    if c !in hidden && c !in s {
      TreeKnown(u, c);
      CommitAdded(u, f, s, base, c);
      LinkClosedIsTreeClosed(u, f, base);
      KnownIsClosed(u, f, s + {c}, base);
      ComparedWithin(u, f, diffMode, hidden, walk, c, base, s);
      WithTreeCloses(u, f, u[c].tree, CommitOlds(u, diffMode, c), s + {c}, base + (s + {c}));
      BackToBase(u, f, s + {c}, WithTree(u, f, u[c].tree, CommitOlds(u, diffMode, c), s + {c}), base);
      assert c in walk + [c];
    }
  }

  /** What the set holds so far is closed together with what the client holds. */
  lemma KnownIsClosed(u: Contents, f: Filter, s: set<Oid>, base: set<Oid>)
    requires Closed(TreeLinks(u, f), base) && ClosedExcept(u, f, s, base, {})
    ensures Closed(TreeLinks(u, f), base + s) && ClosedExcept(u, f, s, base + s, {})
  {
    hide TreeLinks;
  }

  lemma BackToBase(u: Contents, f: Filter, s: set<Oid>, r: set<Oid>, base: set<Oid>)
    requires s <= r && ClosedExcept(u, f, r, base + s, {})
    ensures ClosedExcept(u, f, r, base, {})
  {
    hide TreeLinks;
    assert r + (base + s) == r + base;
  }

  /** Whatever a new commit is compared with, one side of it is held or in the set already. */
  lemma ComparedWithin(u: Contents, f: Filter, diffMode: bool, hidden: set<Oid>, walk: seq<Oid>, c: Oid, base: set<Oid>, s: set<Oid>)
    requires Complete(u) && c in u && u[c].Commit? && Closed(Links(u), base) && c !in hidden && c !in s
    requires (diffMode ==> Compared(u, hidden, base, walk, c)) && WalkDone(u, f, hidden, walk, base, s)
    ensures OldsWithin(base + (s + {c}), CommitOlds(u, diffMode, c)) && (!diffMode ==> CommitOlds(u, diffMode, c) == [])
  {
    hide Complete, ClosedExcept, BelowWalk, Links, Content;
    if diffMode && u[c].parents != [] {
      var p :| p in u[c].parents && (p in base || (p in walk && p !in hidden));
      var i :| 0 <= i < |u[c].parents| && u[c].parents[i] == p;
      ParentKnown(u, c, p);
      TreeKnown(u, p);
      assert p in base ==> Succ(Links(u), p) <= base;
      var o := CommitOlds(u, diffMode, c)[i];
      assert o in CommitOlds(u, diffMode, c) && OldWithin(base + (s + {c}), o);
    }
  }

  lemma CommitAdded(u: Contents, f: Filter, s: set<Oid>, base: set<Oid>, c: Oid)
    requires ClosedExcept(u, f, s, base, {}) && c in u && u[c].Commit?
    ensures ClosedExcept(u, f, s + {c}, base, {})
  {
  }

  /** What a walk with nothing to compare against sends: the commits, and all content below their trees. */
  ghost function WholeTrees(u: Contents, f: Filter, walk: seq<Oid>): set<Oid> {
    set x | x in u && (x in walk || BelowWalk(u, f, walk, x))
  }

  /** Without haves the order of the walk and the sharing of subtrees do not matter. */
  lemma NoHavesSendsWholeTrees(u: Contents, f: Filter, walk: seq<Oid>)
    requires Complete(u) && AreCommits(u, walk)
    ensures SentFor(u, f, false, {}, walk) == WholeTrees(u, f, walk)
  {
    hide Complete, Reaches, SentFor;
    SentForDone(u, f, false, {}, walk, {});
    var s := SentFor(u, f, false, {}, walk);
    assert Closed(TreeLinks(u, f), s);
    forall x | BelowWalk(u, f, walk, x)
      ensures x in s
    {
      var c :| c in walk && c in u && u[c].Commit? && Reaches(TreeLinks(u, f), u[c].tree, x);
      ClosedHoldsReachable(TreeLinks(u, f), s, u[c].tree, x);
    }
  }

  /** Trees and the trees they hold. */
  function Subtrees(u: Contents): Graph<Oid> {
    map t | t in u && u[t].Tree? :: set e | e in u[t].entries && e.mode == TreeMode :: e.oid
  }

  /** The walk's commits, every tree at or below their trees, and, with blobs, whatever those trees hold
      except gitlinks. */
  ghost predicate IsWhole(u: Contents, blobs: bool, walk: seq<Oid>, s: set<Oid>) {
    forall x :: x in s <==> x in walk || exists c :: c in walk && c in u && u[c].Commit? && InTree(u, blobs, u[c].tree, x)
  }

  ghost predicate InTree(u: Contents, blobs: bool, root: Oid, x: Oid) {
    || Reaches(Subtrees(u), root, x)
    || (blobs && exists t, e :: Reaches(Subtrees(u), root, t) && t in u && u[t].Tree? && e in u[t].entries && e.mode != Gitlink && e.oid == x)
  }

  lemma InTreeExactly(u: Contents, f: Filter, root: Oid, x: Oid)
    requires Complete(u) && root in u && u[root].Tree?
    ensures Reaches(TreeLinks(u, f), root, x) <==> InTree(u, f.NoFilter?, root, x)
  {
    hide Complete, Reaches, TreeLinks;
    if Reaches(TreeLinks(u, f), root, x) {
      var s := set y | y in u && InTree(u, f.NoFilter?, root, y);
      ReachesSelf(Subtrees(u), root);
      forall v, y | v in s && y in Succ(TreeLinks(u, f), v)
        ensures y in s
      {
        TreeStep(u, f, root, v, y);
      }
      ClosedHoldsReachable(TreeLinks(u, f), s, root, x);
    } else if InTree(u, f.NoFilter?, root, x) {
      if Reaches(Subtrees(u), root, x) {
        SubtreesAreLinks(u, f, root, x);
      } else {
        var t, e :| Reaches(Subtrees(u), root, t) && t in u && u[t].Tree? && e in u[t].entries && e.mode != Gitlink && e.oid == x;
        SubtreesAreLinks(u, f, root, t);
        assert x in Succ(TreeLinks(u, f), t) by { SentIsContent(u, f, t, e); }
        ReachesEdge(TreeLinks(u, f), t, x);
        ReachesTransitive(TreeLinks(u, f), root, t, x);
      }
    }
  }

  /** One entry further: a tree that was reached through trees, or a blob one of them holds. */
  lemma TreeStep(u: Contents, f: Filter, root: Oid, v: Oid, y: Oid)
    requires Complete(u) && InTree(u, f.NoFilter?, root, v) && y in Succ(TreeLinks(u, f), v)
    ensures y in u && InTree(u, f.NoFilter?, root, y)
  {
    hide Complete, Reaches;
    var e :| e in u[v].entries && Sent(f, e) && e.oid == y;
    EntryKnown(u, v, e);
    if !Reaches(Subtrees(u), root, v) {
      var t, d :| Reaches(Subtrees(u), root, t) && t in u && u[t].Tree? && d in u[t].entries && d.mode != Gitlink && d.oid == v;
      EntryKnown(u, t, d);
      assert v in Succ(Subtrees(u), t);
      ReachesEdge(Subtrees(u), t, v);
      ReachesTransitive(Subtrees(u), root, t, v);
    }
    if e.mode == TreeMode {
      assert y in Succ(Subtrees(u), v);
      ReachesEdge(Subtrees(u), v, y);
      ReachesTransitive(Subtrees(u), root, v, y);
    }
  }

  lemma SubtreesAreLinks(u: Contents, f: Filter, root: Oid, x: Oid)
    requires Reaches(Subtrees(u), root, x)
    ensures Reaches(TreeLinks(u, f), root, x)
  {
    var p :| IsPath(Subtrees(u), p) && p[0] == root && p[|p| - 1] == x;
    forall i | 0 < i < |p|
      ensures p[i] in Succ(TreeLinks(u, f), p[i - 1])
    {
      assert p[i] in Succ(Subtrees(u), p[i - 1]);
      var e :| e in u[p[i - 1]].entries && e.mode == TreeMode && e.oid == p[i];
      assert Sent(f, e);
    }
    assert IsPath(TreeLinks(u, f), p);
  }

  lemma SentIsWhole(u: Contents, f: Filter, walk: seq<Oid>)
    requires Complete(u) && AreCommits(u, walk)
    ensures IsWhole(u, f.NoFilter?, walk, SentFor(u, f, false, {}, walk))
  {
    hide Complete, Reaches, SentFor, InTree;
    NoHavesSendsWholeTrees(u, f, walk);
    forall c, x | c in walk
      ensures Reaches(TreeLinks(u, f), u[c].tree, x) <==> InTree(u, f.NoFilter?, u[c].tree, x)
      ensures InTree(u, f.NoFilter?, u[c].tree, x) ==> x in u
    {
      TreeKnown(u, c);
      InTreeExactly(u, f, u[c].tree, x);
      if Reaches(TreeLinks(u, f), u[c].tree, x) {
        TreeReachKnown(u, f, u[c].tree, x);
      }
    }
  }

  lemma TreeReachKnown(u: Contents, f: Filter, root: Oid, x: Oid)
    requires Complete(u) && root in u && Reaches(TreeLinks(u, f), root, x)
    ensures x in u
  {
    hide Complete, Reaches;
    forall t, y | t in u && y in Succ(TreeLinks(u, f), t)
      ensures y in u
    {
      var e :| e in u[t].entries && Sent(f, e) && e.oid == y;
      EntryKnown(u, t, e);
    }
    ClosedHoldsReachable(TreeLinks(u, f), u.Keys, root, x);
  }

  // ---- a filtered fetch has no blobs ----

  ghost predicate TreesAdded(u: Contents, s: set<Oid>, r: set<Oid>) {
    forall x | x in r && x !in s :: x in u && u[x].Tree?
  }

  lemma DiffAddsTrees(u: Contents, t: Oid, olds: seq<Old>, s: set<Oid>)
    requires Complete(u)
    ensures TreesAdded(u, s, Diff(u, BlobNone, t, olds, s))
    decreases u.Keys - s, 2, 0
  {
    hide Complete;
    EntriesAddTrees(u, t, EntriesOf(u, t), OldMaps(u, olds), s);
  }

  lemma EntriesAddTrees(u: Contents, t: Oid, entries: seq<Entry>, maps: seq<seq<Entry>>, s: set<Oid>)
    requires Complete(u) && forall e | e in entries :: e in EntriesOf(u, t)
    ensures TreesAdded(u, s, DiffEntries(u, BlobNone, entries, maps, s))
    decreases u.Keys - s, 1, |entries|
  {
    hide Complete;
    if entries != [] {
      var s1 := DiffEntry(u, BlobNone, entries[0], maps, s);
      assert u.Keys - s1 <= u.Keys - s;
      EntryAddsTrees(u, t, entries[0], maps, s);
      EntriesAddTrees(u, t, entries[1..], maps, s1);
    }
  }

  lemma EntryAddsTrees(u: Contents, t: Oid, e: Entry, maps: seq<seq<Entry>>, s: set<Oid>)
    requires Complete(u) && e in EntriesOf(u, t)
    ensures TreesAdded(u, s, DiffEntry(u, BlobNone, e, maps, s))
    decreases u.Keys - s, 0, 0
  {
    hide Complete, Unchanged;
    if Sent(BlobNone, e) && !Unchanged(maps, e) && e.oid !in s {
      EntryKnown(u, t, e);
      assert e.oid in u.Keys - s;
      DiffAddsTrees(u, e.oid, SubOlds(maps, e.name), s + {e.oid});
    }
  }

  lemma {:induction false} SentHasNoBlobs(u: Contents, diffMode: bool, hidden: set<Oid>, walk: seq<Oid>)
    requires Complete(u) && AreCommits(u, walk)
    ensures forall x | x in SentFor(u, BlobNone, diffMode, hidden, walk) :: x in u && !u[x].Blob?
  {
    hide Complete, Diff, CommitOlds;
    if walk != [] {
      var n := |walk| - 1;
      var c := walk[n];
      TakeNext(walk, n);
      TakeAll(walk);
      SentHasNoBlobs(u, diffMode, hidden, walk[..n]);
      TreeKnown(u, c);
      var s := SentFor(u, BlobNone, diffMode, hidden, walk[..n]);
      DiffAddsTrees(u, u[c].tree, CommitOlds(u, diffMode, c), s + {c} + {u[c].tree});
    }
  }

  /** Without a filter, the set and what the client holds are closed when every parent is in one of them. */
  lemma SentIsLinkClosed(u: Contents, diffMode: bool, hidden: set<Oid>, walk: seq<Oid>, base: set<Oid>, s: set<Oid>)
    requires Complete(u) && AreCommits(u, walk) && Closed(Links(u), base) && WalkDone(u, NoFilter, hidden, walk, base, s)
    requires hidden <= base
    requires forall c, p | c in walk && c in u && u[c].Commit? && p in u[c].parents :: p in walk || p in base
    ensures Closed(Links(u), s + base)
  {
    hide Complete, Reaches, BelowWalk, Links;
    forall x, y | x in s + base && y in Succ(Links(u), x)
      ensures y in s + base
    {
      if x in base {
        assert Succ(Links(u), x) <= base;
      } else {
        LinkOf(u, x, y);
        if x in walk {
          assert u[x].Commit?;
        }
      }
    }
  }

  /** A link from content or a commit, by case. */
  lemma LinkOf(u: Contents, x: Oid, y: Oid)
    requires Complete(u) && y in Succ(Links(u), x) && x in u && !u[x].Tag?
    ensures u[x].Commit? ==> y == u[x].tree || y in u[x].parents
    ensures u[x].Tree? ==> y in Succ(TreeLinks(u, NoFilter), x)
    ensures !u[x].Blob?
  {
    var r :| r in References(u[x]) && r.0 == y;
    if u[x].Tree? {
      var e := ReferencedEntry(u[x].entries, r);
      assert Sent(NoFilter, e);
    }
  }

  /** Closure of what the client is known to hold. */
  ghost function HeldBy(u: Contents, hidden: set<Oid>): set<Oid> {
    set x | x in u && exists h :: h in hidden && Reaches(Links(u), h, x)
  }

  lemma HeldIsClosed(u: Contents, hidden: set<Oid>)
    requires Complete(u)
    ensures Closed(Links(u), HeldBy(u, hidden))
  {
    hide Reaches;
    forall x, y | x in HeldBy(u, hidden) && y in Succ(Links(u), x)
      ensures y in HeldBy(u, hidden)
    {
      var h :| h in hidden && Reaches(Links(u), h, x);
      ReachesEdge(Links(u), x, y);
      ReachesTransitive(Links(u), h, x, y);
    }
  }

  lemma LinkClosedIsTreeClosed(u: Contents, f: Filter, s: set<Oid>)
    requires Complete(u) && Closed(Links(u), s)
    ensures Closed(TreeLinks(u, f), s)
  {
    hide Complete;
    forall t, x | t in s && x in Succ(TreeLinks(u, f), t)
      ensures x in s
    {
      var e :| e in u[t].entries && Sent(f, e) && e.oid == x;
      SentIsContent(u, f, t, e);
      assert Succ(Links(u), t) <= s;
    }
  }

  /** The parents of a visited commit are visited too, or are held. */
  lemma ParentVisitedOrHeld(u: Contents, wants: seq<Oid>, hidden: set<Oid>, walk: seq<Oid>, c: Oid, p: Oid)
    requires Complete(u) && IsRevWalk(u, wants, hidden, Some(walk)) && c in walk && c in u && u[c].Commit? && p in u[c].parents
    ensures p in walk || p in HeldBy(u, hidden)
  {
    hide Complete, Reaches;
    ParentKnown(u, c, p);
    assert Walked(u, (set t | t in wants), hidden, c);
    var t :| t in wants && Reaches(ParentGraph(u), t, c);
    assert p in Succ(ParentGraph(u), c);
    ReachesEdge(ParentGraph(u), c, p);
    ReachesTransitive(ParentGraph(u), t, c, p);
    if p !in walk {
      assert !Walked(u, (set t | t in wants), hidden, p);
      var h :| h in hidden && Reaches(ParentGraph(u), h, p);
      AncestorReachable(u, h, p);
    }
  }

  lemma WantVisitedOrHeld(u: Contents, wants: seq<Oid>, hidden: set<Oid>, walk: seq<Oid>, w: Oid)
    requires IsRevWalk(u, wants, hidden, Some(walk)) && w in wants && w in u
    ensures w in walk || w in HeldBy(u, hidden)
  {
    hide Reaches;
    ReachesSelf(ParentGraph(u), w);
    if w !in walk {
      assert !Walked(u, (set t | t in wants), hidden, w);
      var h :| h in hidden && Reaches(ParentGraph(u), h, w);
      AncestorReachable(u, h, w);
    }
  }

  lemma HiddenNotVisited(u: Contents, wants: seq<Oid>, hidden: set<Oid>, walk: seq<Oid>, c: Oid)
    requires IsRevWalk(u, wants, hidden, Some(walk)) && c in walk
    ensures c !in hidden
  {
    hide Reaches;
    ReachesSelf(ParentGraph(u), c);
    assert Walked(u, (set t | t in wants), hidden, c);
  }

  /** Whatever is compared, the set together with what the haves reach holds the wants' closure, as long
      as one parent compared with is held or was visited before, or nothing is compared. */
  lemma ClosureIsSentOrHeld(u: Contents, diffMode: bool, wants: seq<Oid>, hidden: set<Oid>, walk: seq<Oid>, w: Oid, x: Oid)
    requires Complete(u) && AreCommits(u, wants) && AreCommits(u, walk) && (diffMode ==> GitlinksNameCommits(u))
    requires hidden <= u.Keys && IsRevWalk(u, wants, hidden, Some(walk)) && w in wants && Reaches(Links(u), w, x)
    requires diffMode ==> ParentsMet(u, hidden, walk)
    ensures x in SentFor(u, NoFilter, diffMode, hidden, walk) + HeldBy(u, hidden)
  {
    hide Complete, Reaches, IsRevWalk, GitlinksNameCommits, HeldBy, SentFor, Compared, WalkDone, Closed;
    var base := HeldBy(u, hidden);
    var s := SentFor(u, NoFilter, diffMode, hidden, walk);
    HeldIsClosed(u, hidden);
    SentForDone(u, NoFilter, diffMode, hidden, walk, base);
    forall c, p | c in walk && c in u && u[c].Commit? && p in u[c].parents
      ensures p in walk || p in base
    {
      ParentVisitedOrHeld(u, wants, hidden, walk, c, p);
    }
    HiddenHeld(u, hidden);
    SentIsLinkClosed(u, diffMode, hidden, walk, base, s);
    WantVisitedOrHeld(u, wants, hidden, walk, w);
    VisitedIsSent(u, hidden, walk, base, s, wants, w);
    ClosedHoldsReachable(Links(u), s + base, w, x);
  }

  lemma VisitedIsSent(u: Contents, hidden: set<Oid>, walk: seq<Oid>, base: set<Oid>, s: set<Oid>, wants: seq<Oid>, w: Oid)
    requires WalkDone(u, NoFilter, hidden, walk, base, s) && IsRevWalk(u, wants, hidden, Some(walk))
    ensures w in walk ==> w in s
  {
    if w in walk {
      HiddenNotVisited(u, wants, hidden, walk, w);
    }
  }

  lemma HiddenHeld(u: Contents, hidden: set<Oid>)
    requires hidden <= u.Keys
    ensures hidden <= HeldBy(u, hidden)
  {
    hide Reaches;
    forall h | h in hidden
      ensures h in HeldBy(u, hidden)
    {
      ReachesSelf(Links(u), h);
    }
  }

  /** Every visited commit that has parents has one that the client holds or that was visited before it,
      when it is visited for the first time. */
  ghost predicate ParentsMet(u: Contents, hidden: set<Oid>, walk: seq<Oid>) {
    forall k | 0 <= k < |walk| :: Compared(u, hidden, HeldBy(u, hidden), walk[..k], walk[k])
  }

  /** In whatever order commits are visited: when each one that has parents has one that is held or was
      visited before, the set sent and what the haves reach hold everything the wants reach, although
      equal subtrees are skipped and a tree seen under one path is not compared again under another. */
  lemma MetParentsSuffice(u: Contents, wants: seq<Oid>, hidden: set<Oid>, walk: seq<Oid>)
    requires Complete(u) && GitlinksNameCommits(u) && AreCommits(u, wants) && hidden <= u.Keys && AreCommits(u, walk)
    requires IsRevWalk(u, wants, hidden, Some(walk)) && ParentsMet(u, hidden, walk)
    ensures NothingMissed(u, wants, hidden, walk)
  {
    hide Complete, Reaches, IsRevWalk, GitlinksNameCommits, HeldBy, SentFor, ParentsMet;
    forall w, x | w in wants && Reaches(Links(u), w, x)
      ensures x in SentFor(u, NoFilter, true, hidden, walk) || x in HeldBy(u, hidden)
    {
      ClosureIsSentOrHeld(u, true, wants, hidden, walk, w, x);
    }
  }

  /** This visited commit is compared with something the client holds, or with nothing at all. */
  ghost predicate ParentHeld(u: Contents, hidden: set<Oid>, c: Oid) {
    c in u && u[c].Commit? && u[c].parents != [] ==> exists p :: p in u[c].parents && p in HeldBy(u, hidden)
  }

  /** One held parent for each visited commit suffices without looking at the order. */
  lemma HeldParentsSuffice(u: Contents, wants: seq<Oid>, hidden: set<Oid>, walk: seq<Oid>)
    requires Complete(u) && GitlinksNameCommits(u) && AreCommits(u, wants) && hidden <= u.Keys && AreCommits(u, walk)
    requires IsRevWalk(u, wants, hidden, Some(walk)) && forall c | c in walk :: ParentHeld(u, hidden, c)
    ensures NothingMissed(u, wants, hidden, walk)
  {
    hide Complete, IsRevWalk, GitlinksNameCommits, HeldBy, NothingMissed;
    forall k | 0 <= k < |walk|
      ensures Compared(u, hidden, HeldBy(u, hidden), walk[..k], walk[k])
    {
      assert ParentHeld(u, hidden, walk[k]);
    }
    MetParentsSuffice(u, wants, hidden, walk);
  }

  /** Everything the wants reach is sent or held. */
  ghost predicate NothingMissed(u: Contents, wants: seq<Oid>, hidden: set<Oid>, walk: seq<Oid>)
    requires AreCommits(u, walk)
  {
    forall w, x | w in wants && Reaches(Links(u), w, x) ::
      x in SentFor(u, NoFilter, true, hidden, walk) || x in HeldBy(u, hidden)
  }

  /** A clone's set is exactly what the wants reach. */
  lemma CloneSendsTheClosure(u: Contents, wants: seq<Oid>, walk: seq<Oid>)
    requires Complete(u) && AreCommits(u, wants) && AreCommits(u, walk) && IsRevWalk(u, wants, {}, Some(walk))
    ensures forall x :: x in SentFor(u, NoFilter, false, {}, walk) <==> exists w :: w in wants && Reaches(Links(u), w, x)
  {
    hide Complete, Reaches, SentFor;
    var s := SentFor(u, NoFilter, false, {}, walk);
    forall w, x | w in wants && Reaches(Links(u), w, x)
      ensures x in s
    {
      ClosureIsSentOrHeld(u, false, wants, {}, walk, w, x);
    }
    NoHavesSendsWholeTrees(u, NoFilter, walk);
    forall x | x in s
      ensures exists w :: w in wants && Reaches(Links(u), w, x)
    {
      var c: Oid;
      if x in walk {
        c := x;
        ReachesSelf(Links(u), x);
      } else {
        c :| c in walk && c in u && u[c].Commit? && Reaches(TreeLinks(u, NoFilter), u[c].tree, x);
        TreeLinksAreLinks(u, NoFilter, u[c].tree, x);
        TreeKnown(u, c);
        ReachesStep(Links(u), c, u[c].tree, x);
      }
      assert Walked(u, (set t | t in wants), {}, c);
      var w :| w in wants && Reaches(ParentGraph(u), w, c);
      AncestorReachable(u, w, c);
      ReachesTransitive(Links(u), w, c, x);
    }
  }

  lemma TreeLinksAreLinks(u: Contents, f: Filter, t: Oid, x: Oid)
    requires Complete(u) && Reaches(TreeLinks(u, f), t, x)
    ensures Reaches(Links(u), t, x)
  {
    hide Complete;
    var p :| IsPath(TreeLinks(u, f), p) && p[0] == t && p[|p| - 1] == x;
    forall i | 0 < i < |p|
      ensures p[i] in Succ(Links(u), p[i - 1])
    {
      assert p[i] in Succ(TreeLinks(u, f), p[i - 1]);
      var e :| e in u[p[i - 1]].entries && Sent(f, e) && e.oid == p[i];
      SentIsContent(u, f, p[i - 1], e);
    }
    assert IsPath(Links(u), p);
  }
}
