/** When comparing trees sends everything: exactly which histories let a fetch lose an object
    (crates/walgit-git/src/upload_gix.rs:692-798, 872-954). */
module FetchCompleteness {
  import opened Basics
  import opened Enumerate
  import opened Objects
  import opened Reachability
  import opened Seqs

  /** Commits and their parents, whatever their trees are. */
  type History = map<Oid, seq<Oid>>

  function GraphOf(h: History): Graph<Oid> {
    map c | c in h :: set p | p in h[c]
  }

  /** Parents are part of the history, and no commit is its own parent. */
  ghost predicate Whole(h: History) {
    forall c | c in h :: c !in h[c] && forall p | p in h[c] :: p in h
  }

  /** These contents assign trees to the commits of the history. */
  ghost predicate HasHistory(u: Contents, h: History) {
    && (forall c :: c in h <==> c in u && u[c].Commit?)
    && forall c | c in h :: u[c].parents == h[c]
  }

  ghost predicate HeldCommit(h: History, hidden: set<Oid>, c: Oid) {
    exists d :: d in hidden && Reaches(GraphOf(h), d, c)
  }

  /** The revision walk, which depends on the commit graph alone. */
  ghost predicate VisitsOf(h: History, wants: seq<Oid>, hidden: set<Oid>, walk: seq<Oid>) {
    forall c :: c in walk <==> (exists t :: t in wants && Reaches(GraphOf(h), t, c)) && !HeldCommit(h, hidden, c)
  }

  /** No commit is visited before its children. */
  ghost predicate ChildrenFirst(h: History, walk: seq<Oid>) {
    forall i, j | 0 <= i < |walk| && 0 <= j < |walk| && walk[i] in h && walk[j] in h[walk[i]] :: i < j
  }

  /** What a caller can check on the commit graph, the haves and the order of the walk: a commit that has
      parents has one that the haves reach, or that was visited before the commit's first visit. */
  ghost predicate EachParentMet(h: History, hidden: set<Oid>, walk: seq<Oid>) {
    forall k | 0 <= k < |walk| :: Met(h, hidden, walk[..k], walk[k])
  }

  ghost predicate Met(h: History, hidden: set<Oid>, before: seq<Oid>, c: Oid) {
    c !in before && c in h && h[c] != [] ==> exists p :: p in h[c] && (HeldCommit(h, hidden, p) || p in before)
  }

  /** What is left of it when no commit is visited before its children. */
  ghost predicate EachHasHeldParent(h: History, hidden: set<Oid>, walk: seq<Oid>) {
    forall c | c in walk && c in h && h[c] != [] :: exists p :: p in h[c] && HeldCommit(h, hidden, p)
  }

  /** Contents that can be: every reference leads to an object of the expected kind, and gitlinks name commits. */
  ghost predicate Assignment(u: Contents, h: History) {
    Complete(u) && GitlinksNameCommits(u) && HasHistory(u, h)
  }

  lemma SameGraph(u: Contents, h: History)
    requires HasHistory(u, h)
    ensures ParentGraph(u) == GraphOf(h)
  {
  }

  lemma SameWalk(u: Contents, h: History, wants: seq<Oid>, hidden: set<Oid>, walk: seq<Oid>)
    requires HasHistory(u, h) && VisitsOf(h, wants, hidden, walk)
    ensures IsRevWalk(u, wants, hidden, Some(walk))
  {
    hide Reaches;
    SameGraph(u, h);
    forall c
      ensures c in walk <==> Walked(u, (set t | t in wants), hidden, c)
    {
      assert (exists t :: t in (set t | t in wants) && Reaches(ParentGraph(u), t, c)) <==> exists t :: t in wants && Reaches(GraphOf(h), t, c);
    }
  }

  lemma HeldCommitIsHeld(u: Contents, h: History, hidden: set<Oid>, p: Oid)
    requires HasHistory(u, h) && HeldCommit(h, hidden, p) && p in h
    ensures p in HeldBy(u, hidden)
  {
    hide Reaches;
    SameGraph(u, h);
    var d :| d in hidden && Reaches(GraphOf(h), d, p);
    AncestorReachable(u, d, p);
  }

  lemma MetIsCompared(u: Contents, h: History, wants: seq<Oid>, hidden: set<Oid>, walk: seq<Oid>)
    requires HasHistory(u, h) && Whole(h) && EachParentMet(h, hidden, walk) && VisitsOf(h, wants, hidden, walk)
    requires forall c | c in walk :: c in h
    ensures ParentsMet(u, hidden, walk)
  {
    hide HeldCommit, HeldBy, VisitsOf;
    forall k | 0 <= k < |walk|
      ensures Compared(u, hidden, HeldBy(u, hidden), walk[..k], walk[k])
    {
      var c := walk[k];
      assert c in walk && Met(h, hidden, walk[..k], c);
      if c !in walk[..k] && h[c] != [] {
        var p :| p in h[c] && (HeldCommit(h, hidden, p) || p in walk[..k]);
        if HeldCommit(h, hidden, p) {
          HeldCommitIsHeld(u, h, hidden, p);
        } else {
          NotHidden(h, wants, hidden, walk, p);
        }
      }
    }
  }

  // ---- a trap for any commit without a held parent ----

  /** The root tree of each commit: the trapped commit's, its parents', and an empty one for all others. */
  function RootFor(h: History, c: Oid, n: Oid, x: Oid): Oid
    requires c in h
  {
    if x == c then n + 5 else if x in h[c] then n + 6 else n + 7
  }

  /** Two directories, at n and n + 1, share "y" and differ in "q": the trapped commit has them under each
      other's names in its parents. Seen under "a" and under "b", each hides the other's "y". */
  function ObjectAt(h: History, c: Oid, n: Oid, x: Oid): Object
    requires c in h
  {
    if x in h then Commit(RootFor(h, c, n, x), h[x])
    else if x == n then Tree(Directory(n + 2, n + 4))
    else if x == n + 1 then Tree(Directory(n + 3, n + 4))
    else if x == n + 5 then Tree(Root(n + 1, n))
    else if x == n + 6 then Tree(Root(n, n + 1))
    else if x == n + 7 then Tree([])
    else Blob
  }

  ghost predicate Trapped(h: History, c: Oid, n: Oid) {
    Whole(h) && c in h && h[c] != [] && c !in h[c] && forall x | x in h :: x < n
  }

  function TrapFor(h: History, c: Oid, n: Oid): Contents
    requires c in h
  {
    map x | x in h.Keys + (set i | i in OwnIds(n)) :: ObjectAt(h, c, n, x)
  }

  /** The ids the trap adds to the history. */
  function OwnIds(n: Oid): seq<Oid> {
    [n, n + 1, n + 2, n + 3, n + 4, n + 5, n + 6, n + 7]
  }

  lemma OwnIdsAre(n: Oid, x: Oid)
    ensures x in OwnIds(n) <==> n <= x <= n + 7
  {
    if n <= x <= n + 7 {
      assert OwnIds(n)[x - n] == x;
    }
  }

  lemma TrapObject(h: History, c: Oid, n: Oid, x: Oid)
    requires Trapped(h, c, n)
    ensures x in TrapFor(h, c, n) <==> x in h || n <= x <= n + 7
    ensures x in TrapFor(h, c, n) ==> TrapFor(h, c, n)[x] == ObjectAt(h, c, n, x)
  {
    OwnIdsAre(n, x);
  }

  function Directory(q: Oid, y: Oid): seq<Entry> {
    [Entry("q", BlobMode, q), Entry("y", BlobMode, y)]
  }

  function Root(a: Oid, b: Oid): seq<Entry> {
    [Entry("a", TreeMode, a), Entry("b", TreeMode, b)]
  }

  ghost function Above(s: set<Oid>): (n: Oid)
    ensures forall x | x in s :: x < n
  {
    if s == {} then 0
    else
      var x :| x in s;
      var m := Above(s - {x});
      assert forall y | y in s :: y == x || y in s - {x};
      if x < m then m else x + 1
  }

  lemma TwoReferences(e: Entry, f: Entry, r: (Oid, Kind))
    requires !e.mode.Gitlink? && !f.mode.Gitlink? && r in References(Tree([e, f]))
    ensures r == (e.oid, ModeKind(e.mode)) || r == (f.oid, ModeKind(f.mode))
  {
    var g := ReferencedEntry([e, f], r);
  }

  lemma CommitReferences(tree: Oid, parents: seq<Oid>, r: (Oid, Kind))
    requires r in References(Commit(tree, parents))
    ensures r == (tree, TreeKind) || (r.0 in parents && r.1 == CommitKind)
  {
    var all := References(Commit(tree, parents));
    var i :| 0 <= i < |all| && all[i] == r;
    if i > 0 {
      assert r == (parents[i - 1], CommitKind) && parents[i - 1] in parents;
    }
  }

  lemma TrapReference(h: History, c: Oid, n: Oid, o: Oid, r: (Oid, Kind))
    requires Trapped(h, c, n) && o in TrapFor(h, c, n) && r in References(TrapFor(h, c, n)[o])
    ensures r.0 in TrapFor(h, c, n) && KindOf(TrapFor(h, c, n)[r.0]) == r.1
  {
    hide References, TrapFor;
    TrapObject(h, c, n, o);
    TrapObject(h, c, n, r.0);
    if o in h {
      CommitReferences(RootFor(h, c, n, o), h[o], r);
    } else if o == n || o == n + 1 {
      var es := Directory(if o == n then n + 2 else n + 3, n + 4);
      TwoReferences(es[0], es[1], r);
    } else if o == n + 5 || o == n + 6 {
      var es := if o == n + 5 then Root(n + 1, n) else Root(n, n + 1);
      TwoReferences(es[0], es[1], r);
    } else {
      NoReferences(r);
    }
  }

  lemma NoReferences(r: (Oid, Kind))
    ensures r !in References(Blob) && r !in References(Tree([]))
  {
  }

  lemma TrapIsAssignment(h: History, c: Oid, n: Oid)
    requires Trapped(h, c, n)
    ensures Assignment(TrapFor(h, c, n), h)
  {
    hide References, TrapFor;
    var u := TrapFor(h, c, n);
    forall x: Oid
      ensures x in u <==> x in h || n <= x <= n + 7
      ensures x in u ==> u[x] == ObjectAt(h, c, n, x)
    {
      TrapObject(h, c, n, x);
    }
    forall o, r | o in u && r in References(u[o])
      ensures r.0 in u && KindOf(u[r.0]) == r.1
    {
      TrapReference(h, c, n, o, r);
    }
    forall o, x | o in u && x in Succ(Links(u), o)
      ensures x in u
    {
      var r :| r in References(u[o]) && r.0 == x;
    }
    assert GitlinksNameCommits(u) by {
      forall t, e | t in u && u[t].Tree? && e in u[t].entries
        ensures !e.mode.Gitlink?
      {
      }
    }
  }

  // ---- what the comparison does in the trap ----

  /** All sides of a comparison are the same tree. */
  ghost predicate AllOld(olds: seq<Old>, o: Oid) {
    olds != [] && forall x | x in olds :: x == OldTree(o)
  }

  ghost predicate AllMaps(maps: seq<seq<Entry>>, m: seq<Entry>) {
    maps != [] && forall x | x in maps :: x == m
  }

  lemma SameMaps(u: Contents, olds: seq<Old>, o: Oid)
    requires AllOld(olds, o)
    ensures AllMaps(OldMaps(u, olds), EntriesOf(u, o))
  {
    forall x | x in OldMaps(u, olds)
      ensures x == EntriesOf(u, o)
    {
      var i :| 0 <= i < |olds| && OldMap(u, olds[i]) == x;
      assert olds[i] in olds;
    }
  }

  lemma SameSubOlds(maps: seq<seq<Entry>>, m: seq<Entry>, e: Entry)
    requires AllMaps(maps, m) && Lookup(m, e.name) == Some(e) && e.mode == TreeMode
    ensures AllOld(SubOlds(maps, e.name), e.oid)
  {
    forall x | x in SubOlds(maps, e.name)
      ensures x == OldTree(e.oid)
    {
      var i :| 0 <= i < |maps| && SubOld(maps[i], e.name) == x;
      assert maps[i] in maps;
    }
  }

  lemma UnchangedInAll(maps: seq<seq<Entry>>, m: seq<Entry>, e: Entry)
    requires AllMaps(maps, m)
    ensures Unchanged(maps, e) <==> SameAt(m, e)
  {
    assert maps[0] in maps;
  }

  lemma LookupTwo(e: Entry, f: Entry)
    requires e.name != f.name
    ensures Lookup([e, f], e.name) == Some(e) && Lookup([e, f], f.name) == Some(f)
  {
    assert [e, f][..1] == [e] && [e][..0] == [];
    assert Lookup([e], e.name) == Some(e);
  }

  lemma DiffTwo(u: Contents, e: Entry, f: Entry, maps: seq<seq<Entry>>, s: set<Oid>)
    ensures DiffEntries(u, NoFilter, [e, f], maps, s)
         == DiffEntry(u, NoFilter, f, maps, DiffEntry(u, NoFilter, e, maps, s))
  {
    hide DiffEntry;
    var s1 := DiffEntry(u, NoFilter, e, maps, s);
    var s2 := DiffEntry(u, NoFilter, f, maps, s1);
    assert [e, f][1..] == [f] && [f][1..] == [];
    assert DiffEntries(u, NoFilter, [], maps, s2) == s2;
    assert DiffEntries(u, NoFilter, [f], maps, s1) == s2;
  }

  /** Comparing the two directories adds the changed "q" and skips "y". */
  lemma DirectoryDiff(u: Contents, t: Oid, other: Oid, q: Oid, q': Oid, y: Oid, olds: seq<Old>, s: set<Oid>)
    requires t in u && u[t] == Tree(Directory(q, y)) && other in u && u[other] == Tree(Directory(q', y)) && q != q'
    requires AllOld(olds, other)
    ensures Diff(u, NoFilter, t, olds, s) == s + {q}
  {
    hide Lookup, DiffEntries, OldMaps, Unchanged;
    var maps := OldMaps(u, olds);
    var m := Directory(q', y);
    var es := Directory(q, y);
    SameMaps(u, olds, other);
    LookupTwo(m[0], m[1]);
    assert "q" != "y";
    assert !SameAt(m, es[0]) && SameAt(m, es[1]);
    UnchangedInAll(maps, m, es[0]);
    UnchangedInAll(maps, m, es[1]);
    DiffTwo(u, es[0], es[1], maps, s);
  }

  /** One directory of the trapped commit's root: it is new there, and its "y" is not. */
  lemma SwappedEntry(u: Contents, e: Entry, other: Entry, q: Oid, q': Oid, y: Oid, maps: seq<seq<Entry>>, m: seq<Entry>, s: set<Oid>)
    requires AllMaps(maps, m) && Lookup(m, e.name) == Some(other) && e.name == other.name && e.mode == other.mode == TreeMode && e.oid != other.oid
    requires e.oid in u && u[e.oid] == Tree(Directory(q, y)) && other.oid in u && u[other.oid] == Tree(Directory(q', y)) && q != q'
    requires e.oid !in s
    ensures DiffEntry(u, NoFilter, e, maps, s) == s + {e.oid, q}
  {
    hide Lookup, Diff, Unchanged, SubOlds;
    UnchangedInAll(maps, m, e);
    SameSubOlds(maps, m, other);
    DirectoryDiff(u, e.oid, other.oid, q, q', y, SubOlds(maps, e.name), s + {e.oid});
    assert s + {e.oid} + {q} == s + {e.oid, q};
  }

  lemma TrappedRoot(h: History, c: Oid, n: Oid, olds: seq<Old>, s: set<Oid>)
    requires Trapped(h, c, n) && AllOld(olds, n + 6) && n !in s && n + 1 !in s
    ensures Diff(TrapFor(h, c, n), NoFilter, n + 5, olds, s) == s + {n, n + 1, n + 2, n + 3}
  {
    hide Lookup, DiffEntries, OldMaps, Unchanged, TrapFor, DiffEntry;
    var u := TrapFor(h, c, n);
    TrapOwn(h, c, n);
    var es := Root(n + 1, n);
    var m := Root(n, n + 1);
    var maps := OldMaps(u, olds);
    SameMaps(u, olds, n + 6);
    assert "a" != "b";
    LookupTwo(m[0], m[1]);
    SwappedEntry(u, es[0], m[0], n + 3, n + 2, n + 4, maps, m, s);
    var s1 := s + {n + 1, n + 3};
    SwappedEntry(u, es[1], m[1], n + 2, n + 3, n + 4, maps, m, s1);
    DiffTwo(u, es[0], es[1], maps, s);
    assert s1 + {n, n + 2} == s + {n, n + 1, n + 2, n + 3};
  }

  lemma TrapOwn(h: History, c: Oid, n: Oid)
    requires Trapped(h, c, n)
    ensures var u := TrapFor(h, c, n);
            && (forall i | n <= i <= n + 7 :: i in u && u[i] == ObjectAt(h, c, n, i) && i !in h)
            && (forall x | x in h :: x in u && u[x] == ObjectAt(h, c, n, x))
  {
    hide TrapFor;
    forall i | n <= i <= n + 7
      ensures i in TrapFor(h, c, n) && TrapFor(h, c, n)[i] == ObjectAt(h, c, n, i) && i !in h
    {
      TrapObject(h, c, n, i);
    }
    forall x | x in h
      ensures x in TrapFor(h, c, n) && TrapFor(h, c, n)[x] == ObjectAt(h, c, n, x)
    {
      TrapObject(h, c, n, x);
    }
  }

  /** Once both directories are in the set, no root leads to anything more. */
  lemma RootAfter(u: Contents, t: Oid, a: Oid, b: Oid, olds: seq<Old>, s: set<Oid>)
    requires t in u && u[t] == Tree(Root(a, b)) && a in s && b in s
    ensures Diff(u, NoFilter, t, olds, s) == s
  {
    hide DiffEntries, OldMaps, Unchanged;
    DiffTwo(u, Root(a, b)[0], Root(a, b)[1], OldMaps(u, olds), s);
  }

  lemma EmptyAdds(u: Contents, t: Oid, olds: seq<Old>, s: set<Oid>)
    requires t in u && u[t] == Tree([])
    ensures Diff(u, NoFilter, t, olds, s) == s
  {
  }

  // ---- the visited commits ----

  /** Before the trapped commit: only commits and the empty tree. */
  ghost predicate Before(h: History, n: Oid, s: set<Oid>) {
    forall x | x in s :: x in h || x == n + 7
  }

  /** After it: both directories and its root are in the set, and "y" is not. */
  ghost predicate After(n: Oid, s: set<Oid>) {
    n in s && n + 1 in s && n + 5 in s && n + 4 !in s
  }

  lemma VisitBefore(h: History, c: Oid, n: Oid, hidden: set<Oid>, x: Oid, s: set<Oid>)
    requires Trapped(h, c, n) && Before(h, n, s) && x in h && x != c && x !in h[c]
    requires x in TrapFor(h, c, n) && TrapFor(h, c, n)[x].Commit?
    ensures Before(h, n, WithCommit(TrapFor(h, c, n), NoFilter, true, hidden, x, s))
    ensures c !in s ==> c !in WithCommit(TrapFor(h, c, n), NoFilter, true, hidden, x, s)
  {
    hide TrapFor, Diff, CommitOlds;
    TrapOwn(h, c, n);
    var u := TrapFor(h, c, n);
    EmptyAdds(u, n + 7, CommitOlds(u, true, x), s + {x} + {n + 7});
  }

  lemma VisitTrapped(h: History, c: Oid, n: Oid, hidden: set<Oid>, s: set<Oid>)
    requires Trapped(h, c, n) && Before(h, n, s) && c !in s && c !in hidden
    requires c in TrapFor(h, c, n) && TrapFor(h, c, n)[c].Commit?
    ensures After(n, WithCommit(TrapFor(h, c, n), NoFilter, true, hidden, c, s))
  {
    hide TrapFor, Diff, CommitOlds;
    TrapOwn(h, c, n);
    var u := TrapFor(h, c, n);
    var olds := CommitOlds(u, true, c);
    TrappedOlds(h, c, n);
    TrappedRoot(h, c, n, olds, s + {c} + {n + 5});
  }

  lemma TrappedOlds(h: History, c: Oid, n: Oid)
    requires Trapped(h, c, n) && c in TrapFor(h, c, n) && TrapFor(h, c, n)[c].Commit?
    ensures AllOld(CommitOlds(TrapFor(h, c, n), true, c), n + 6)
  {
    hide TrapFor;
    TrapOwn(h, c, n);
    var u := TrapFor(h, c, n);
    assert u[c].parents == h[c];
    forall o | o in CommitOlds(u, true, c)
      ensures o == OldTree(n + 6)
    {
      var i :| 0 <= i < |h[c]| && ParentTrees(u, h[c])[i] == o;
      assert h[c][i] in h[c];
    }
  }

  lemma VisitAfter(h: History, c: Oid, n: Oid, hidden: set<Oid>, x: Oid, s: set<Oid>)
    requires Trapped(h, c, n) && After(n, s) && x in h
    requires x in TrapFor(h, c, n) && TrapFor(h, c, n)[x].Commit?
    ensures After(n, WithCommit(TrapFor(h, c, n), NoFilter, true, hidden, x, s))
  {
    hide TrapFor, Diff, CommitOlds;
    TrapOwn(h, c, n);
    var u := TrapFor(h, c, n);
    var olds := CommitOlds(u, true, x);
    EmptyAdds(u, n + 7, olds, s + {x} + {n + 7});
    RootAfter(u, n + 6, n, n + 1, olds, s + {x} + {n + 6});
  }

  lemma WalkIsCommits(u: Contents, h: History, walk: seq<Oid>)
    requires HasHistory(u, h) && forall c | c in walk :: c in h
    ensures AreCommits(u, walk)
  {
  }

  lemma {:induction false} RunBefore(h: History, c: Oid, n: Oid, hidden: set<Oid>, walk: seq<Oid>)
    requires Trapped(h, c, n) && (forall x | x in walk :: x in h && x != c && x !in h[c]) && AreCommits(TrapFor(h, c, n), walk)
    ensures Before(h, n, SentFor(TrapFor(h, c, n), NoFilter, true, hidden, walk))
    ensures c !in SentFor(TrapFor(h, c, n), NoFilter, true, hidden, walk)
    decreases |walk|
  {
    hide TrapFor, WithCommit, Before;
    if walk == [] {
      NothingBefore(h, n);
    } else {
      var i := |walk| - 1;
      TakeNext(walk, i);
      TakeAll(walk);
      RunBefore(h, c, n, hidden, walk[..i]);
      VisitBefore(h, c, n, hidden, walk[i], SentFor(TrapFor(h, c, n), NoFilter, true, hidden, walk[..i]));
    }
  }

  lemma NothingBefore(h: History, n: Oid)
    ensures Before(h, n, {})
  {
  }

  lemma {:induction false} RunAfter(h: History, c: Oid, n: Oid, hidden: set<Oid>, walk: seq<Oid>, k: nat)
    requires Trapped(h, c, n) && k < |walk| && walk[k] == c && c !in hidden && (forall x | x in walk :: x in h)
    requires (forall j | 0 <= j < k :: walk[j] != c && walk[j] !in h[c]) && AreCommits(TrapFor(h, c, n), walk)
    ensures After(n, SentFor(TrapFor(h, c, n), NoFilter, true, hidden, walk))
    decreases |walk|
  {
    hide TrapFor, WithCommit, Before, After;
    var i := |walk| - 1;
    TakeNext(walk, i);
    TakeAll(walk);
    if k == i {
      RunBefore(h, c, n, hidden, walk[..i]);
      VisitTrapped(h, c, n, hidden, SentFor(TrapFor(h, c, n), NoFilter, true, hidden, walk[..i]));
    } else {
      RunAfter(h, c, n, hidden, walk[..i], k);
      VisitAfter(h, c, n, hidden, walk[i], SentFor(TrapFor(h, c, n), NoFilter, true, hidden, walk[..i]));
    }
  }

  /** The haves reach neither directory: they hold neither the trapped commit nor a parent of it. */
  lemma TrapNotHeld(h: History, c: Oid, n: Oid, hidden: set<Oid>)
    requires Trapped(h, c, n) && hidden <= h.Keys && !HeldCommit(h, hidden, c) && forall p | p in h[c] :: !HeldCommit(h, hidden, p)
    ensures n + 4 !in HeldBy(TrapFor(h, c, n), hidden)
  {
    hide TrapFor, Reaches, References;
    var u := TrapFor(h, c, n);
    TrapOwn(h, c, n);
    var e: Oid := n + 7;
    var held: set<Oid> := (set x | x in h && HeldCommit(h, hidden, x)) + {e};
    forall x, y | x in held && y in Succ(Links(u), x)
      ensures y in held
    {
      var r :| r in References(u[x]) && r.0 == y;
      if x == n + 7 {
        NoReferences(r);
      } else {
        CommitReferences(n + 7, h[x], r);
        if y != n + 7 {
          var d :| d in hidden && Reaches(GraphOf(h), d, x);
          assert y in Succ(GraphOf(h), x);
          ReachesEdge(GraphOf(h), x, y);
          ReachesTransitive(GraphOf(h), d, x, y);
        }
      }
    }
    var y: Oid := n + 4;
    forall d | d in hidden
      ensures !Reaches(Links(u), d, y)
    {
      ReachesSelf(GraphOf(h), d);
      assert d in held && y !in held;
      if Reaches(Links(u), d, y) {
        ClosedHoldsReachable(Links(u), held, d, y);
      }
    }
  }

  lemma TrapReached(h: History, c: Oid, n: Oid, w: Oid, y: Oid)
    requires Trapped(h, c, n) && Reaches(GraphOf(h), w, c) && y == n + 4
    ensures Reaches(Links(TrapFor(h, c, n)), w, y)
  {
    hide TrapFor, Reaches, References;
    var u := TrapFor(h, c, n);
    var root: Oid := n + 5;
    TrapOwn(h, c, n);
    TrapIsAssignment(h, c, n);
    SameGraph(u, h);
    AncestorReachable(u, w, c);
    TreeKnown(u, c);
    assert Root(n + 1, n)[1] in EntriesOf(u, n + 5) && Directory(n + 2, y)[1] in EntriesOf(u, n);
    EntryKnown(u, n + 5, Root(n + 1, n)[1]);
    EntryKnown(u, n, Directory(n + 2, y)[1]);
    ReachesEdge(Links(u), n, y);
    ReachesStep(Links(u), root, n, y);
    ReachesStep(Links(u), c, root, y);
    ReachesTransitive(Links(u), w, c, y);
  }

  /** A commit without a held parent, visited before its parents, loses an object for some trees. */
  lemma LosesWithoutHeldParent(h: History, wants: seq<Oid>, hidden: set<Oid>, walk: seq<Oid>, k: nat) returns (u: Contents)
    requires Whole(h) && hidden <= h.Keys && (forall c | c in walk :: c in h) && VisitsOf(h, wants, hidden, walk)
    requires k < |walk| && h[walk[k]] != [] && walk[k] !in h[walk[k]] && forall p | p in h[walk[k]] :: !HeldCommit(h, hidden, p)
    requires forall j | 0 <= j < k :: walk[j] != walk[k] && walk[j] !in h[walk[k]]
    ensures Assignment(u, h) && AreCommits(u, walk) && !NothingMissed(u, wants, hidden, walk)
  {
    hide TrapFor, Reaches, SentFor, HeldBy, Assignment;
    var c := walk[k];
    assert c in walk;
    var n := Above(h.Keys);
    u := TrapFor(h, c, n);
    TrapIsAssignment(h, c, n);
    AssignmentHistory(u, h);
    WalkIsCommits(u, h, walk);
    NotHidden(h, wants, hidden, walk, c);
    RunAfter(h, c, n, hidden, walk, k);
    TrapNotHeld(h, c, n, hidden);
    var w :| w in wants && Reaches(GraphOf(h), w, c);
    var y: Oid := n + 4;
    TrapReached(h, c, n, w, y);
    assert w in wants && Reaches(Links(u), w, y);
  }

  lemma AssignmentHistory(u: Contents, h: History)
    requires Assignment(u, h)
    ensures Complete(u) && GitlinksNameCommits(u) && HasHistory(u, h)
  {
  }

  lemma NotHidden(h: History, wants: seq<Oid>, hidden: set<Oid>, walk: seq<Oid>, c: Oid)
    requires VisitsOf(h, wants, hidden, walk) && c in walk
    ensures c !in hidden && !HeldCommit(h, hidden, c)
  {
    hide Reaches;
    ReachesSelf(GraphOf(h), c);
  }

  /** Whatever trees the commits have, nothing is missed. */
  ghost predicate NeverMisses(h: History, wants: seq<Oid>, hidden: set<Oid>, walk: seq<Oid>) {
    forall u | Assignment(u, h) :: AreCommits(u, walk) && NothingMissed(u, wants, hidden, walk)
  }

  /** Exactly when a fetch is complete for every assignment of trees, in whatever order commits are visited:
      if and only if every commit that has parents has one that the haves reach or that was visited
      before it. */
  lemma CompleteExactly(h: History, wants: seq<Oid>, hidden: set<Oid>, walk: seq<Oid>)
    requires Whole(h) && (forall w | w in wants :: w in h) && hidden <= h.Keys && (forall c | c in walk :: c in h)
    requires VisitsOf(h, wants, hidden, walk)
    ensures EachParentMet(h, hidden, walk) <==> NeverMisses(h, wants, hidden, walk)
  {
    hide Complete, GitlinksNameCommits, VisitsOf, NothingMissed, HeldCommit, HasHistory, Assignment;
    if EachParentMet(h, hidden, walk) {
      forall u | Assignment(u, h)
        ensures AreCommits(u, walk) && NothingMissed(u, wants, hidden, walk)
      {
        AssignmentHistory(u, h);
        SufficientFor(u, h, wants, hidden, walk);
      }
    } else {
      var k: nat :| k < |walk| && !Met(h, hidden, walk[..k], walk[k]);
      assert walk[k] in walk && h[walk[k]] != [] && walk[k] !in walk[..k];
      forall j | 0 <= j < k
        ensures walk[j] != walk[k] && walk[j] !in h[walk[k]]
      {
        assert walk[j] in walk[..k];
      }
      var u := LosesWithoutHeldParent(h, wants, hidden, walk, k);
      assert Assignment(u, h);
    }
  }

  lemma SufficientFor(u: Contents, h: History, wants: seq<Oid>, hidden: set<Oid>, walk: seq<Oid>)
    requires Complete(u) && GitlinksNameCommits(u) && HasHistory(u, h) && Whole(h) && (forall w | w in wants :: w in h)
    requires hidden <= h.Keys && (forall c | c in walk :: c in h) && VisitsOf(h, wants, hidden, walk) && EachParentMet(h, hidden, walk)
    ensures AreCommits(u, walk) && NothingMissed(u, wants, hidden, walk)
  {
    hide Complete, GitlinksNameCommits, VisitsOf, NothingMissed, ParentsMet, IsRevWalk, EachParentMet;
    WalkIsCommits(u, h, walk);
    WalkIsCommits(u, h, wants);
    SameWalk(u, h, wants, hidden, walk);
    MetIsCompared(u, h, wants, hidden, walk);
    MetParentsSuffice(u, wants, hidden, walk);
  }

  /** Children first, a held parent for each visited commit is what it takes. */
  lemma CompleteChildrenFirst(h: History, wants: seq<Oid>, hidden: set<Oid>, walk: seq<Oid>)
    requires Whole(h) && (forall w | w in wants :: w in h) && hidden <= h.Keys && (forall c | c in walk :: c in h)
    requires VisitsOf(h, wants, hidden, walk) && ChildrenFirst(h, walk)
    ensures EachHasHeldParent(h, hidden, walk) <==> NeverMisses(h, wants, hidden, walk)
  {
    hide VisitsOf, HeldCommit, NeverMisses;
    CompleteExactly(h, wants, hidden, walk);
    if EachParentMet(h, hidden, walk) {
      forall c | c in walk && h[c] != []
        ensures exists p :: p in h[c] && HeldCommit(h, hidden, p)
      {
        var k := FirstVisit(walk, c);
        assert Met(h, hidden, walk[..k], c) && c !in walk[..k];
        var p :| p in h[c] && (HeldCommit(h, hidden, p) || p in walk[..k]);
      }
    } else {
      var k: nat :| k < |walk| && !Met(h, hidden, walk[..k], walk[k]);
      assert walk[k] in walk;
    }
  }

  lemma FirstVisit(walk: seq<Oid>, c: Oid) returns (k: nat)
    requires c in walk
    ensures k < |walk| && walk[k] == c && forall j | 0 <= j < k :: walk[j] != c
  {
    k := 0;
    while walk[k] != c
      invariant k < |walk| && c in walk[k..] && forall j | 0 <= j < k :: walk[j] != c
      decreases |walk| - k
    {
      k := k + 1;
    }
  }

  /** Two branches, one on top of the other, both wanted by a client that holds what is below them: the
      same commits are complete when the lower branch is visited first, and can lose an object otherwise. */
  lemma OrderMatters()
    ensures var h: History := map[0 := [], 1 := [0], 2 := [1]];
            && VisitsOf(h, [1, 2], {0}, [1, 2]) && NeverMisses(h, [1, 2], {0}, [1, 2])
            && VisitsOf(h, [1, 2], {0}, [2, 1]) && !NeverMisses(h, [1, 2], {0}, [2, 1])
  {
    hide Reaches, NeverMisses, HeldCommit, VisitsOf;
    var h: History := map[0 := [], 1 := [0], 2 := [1]];
    StackedVisits(h, [1, 2]);
    StackedVisits(h, [2, 1]);
    StackedHeld(h, 0);
    StackedHeld(h, 1);
    CompleteExactly(h, [1, 2], {0}, [1, 2]);
    CompleteExactly(h, [1, 2], {0}, [2, 1]);
    assert [1, 2][..0] == [] && [1, 2][..1] == [1] && [2, 1][..0] == [];
    var one: Oid := 1;
    assert one in h[2] && HeldCommit(h, {0}, 0) && !HeldCommit(h, {0}, one);
    assert Met(h, {0}, [], 1) && Met(h, {0}, [1], 2);
    assert !Met(h, {0}, [2, 1][..0], [2, 1][0]);
  }

  lemma StackedHeld(h: History, c: Oid)
    requires h == map[0 := [], 1 := [0], 2 := [1]]
    ensures HeldCommit(h, {0}, c) <==> c == 0
  {
    hide Reaches;
    var c0: Oid, base: set<Oid> := 0, {0};
    assert Closed(GraphOf(h), base) && c0 in base;
    ReachesSelf(GraphOf(h), c0);
    if Reaches(GraphOf(h), c0, c) {
      ClosedHoldsReachable(GraphOf(h), base, c0, c);
    }
  }

  /** Both wants and what they lead to. */
  lemma StackedReached(h: History, t: Oid, c: Oid)
    requires h == map[0 := [], 1 := [0], 2 := [1]] && t in {1, 2} && Reaches(GraphOf(h), t, c)
    ensures c in {0, 1, 2}
  {
    hide Reaches;
    var all: set<Oid> := {0, 1, 2};
    assert Closed(GraphOf(h), all);
    ClosedHoldsReachable(GraphOf(h), all, t, c);
  }

  lemma StackedVisits(h: History, walk: seq<Oid>)
    requires h == map[0 := [], 1 := [0], 2 := [1]] && forall c :: c in walk <==> c in {1, 2}
    ensures VisitsOf(h, [1, 2], {0}, walk)
  {
    hide Reaches, HeldCommit, GraphOf;
    var wants: seq<Oid> := [1, 2];
    forall c: Oid
      ensures c in walk <==> (exists t :: t in wants && Reaches(GraphOf(h), t, c)) && !HeldCommit(h, {0}, c)
    {
      StackedHeld(h, c);
      if t: Oid :| t in wants && Reaches(GraphOf(h), t, c) {
        StackedReached(h, t, c);
      }
      if c in {1, 2} {
        ReachesSelf(GraphOf(h), c);
        assert c in wants;
      }
    }
  }

  // ---- a concrete history ----

  /** A directory added, changed and restored: commits 1, 2 and 3 on top of commit 0. */
  function Restored(): Contents {
    map[0 := Commit(10, []), 1 := Commit(11, [0]), 2 := Commit(12, [1]), 3 := Commit(11, [2]),
        10 := Tree([]), 11 := Tree([Entry("q", BlobMode, 31), Entry("y", BlobMode, 41)]),
        12 := Tree([Entry("q", BlobMode, 32), Entry("y", BlobMode, 41)]), 31 := Blob, 32 := Blob, 41 := Blob]
  }

  function RestoredHistory(): History {
    map[0 := [], 1 := [0], 2 := [1], 3 := [2]]
  }

  /** Over several generations the comparison can lose an object: the client holds commit 0 and wants 3.
      The walk visits 3, 2, 1; the restored tree is first met under commit 3, where the unchanged "y" is
      skipped, and it is not compared again under commit 1, which added "y". */
  lemma SeveralGenerationsCanLose()
    ensures Complete(Restored()) && GitlinksNameCommits(Restored())
    ensures AreCommits(Restored(), [3, 2, 1]) && IsRevWalk(Restored(), [3], {0}, Some([3, 2, 1]))
    ensures 41 in Succ(Links(Restored()), 11) && 11 in Succ(Links(Restored()), 3)
    ensures 41 !in SentFor(Restored(), NoFilter, true, {0}, [3, 2, 1]) && 41 !in HeldBy(Restored(), {0})
  {
    hide Links, SentFor, HeldBy, Complete, GitlinksNameCommits, IsRevWalk;
    RestoredLinks();
    RestoredHeld();
    RestoredIsAssignment();
    AssignmentHistory(Restored(), RestoredHistory());
    RestoredVisits();
    SameWalk(Restored(), RestoredHistory(), [3], {0}, [3, 2, 1]);
    hide Restored;
    RestoredSent();
  }

  lemma RestoredReference(o: Oid, r: (Oid, Kind))
    requires o in Restored() && r in References(Restored()[o])
    ensures r.0 in Restored() && KindOf(Restored()[r.0]) == r.1
  {
    hide References;
    var u := Restored();
    match u[o] {
    case Commit(tree, parents) => CommitReferences(tree, parents, r);
    case Tree(entries) =>
      if o == 10 {
        NoReferences(r);
      } else {
        TwoReferences(entries[0], entries[1], r);
      }
    case _ => NoReferences(r);
    }
  }

  lemma RestoredIsAssignment()
    ensures Assignment(Restored(), RestoredHistory())
  {
    hide References;
    var u := Restored();
    forall o, r | o in u && r in References(u[o])
      ensures r.0 in u && KindOf(u[r.0]) == r.1
    {
      RestoredReference(o, r);
    }
    hide Restored;
    forall o, x | o in u && x in Succ(Links(u), o)
      ensures x in u
    {
      var r :| r in References(u[o]) && r.0 == x;
    }
    RestoredKinds();
  }

  lemma RestoredKinds()
    ensures GitlinksNameCommits(Restored()) && HasHistory(Restored(), RestoredHistory())
  {
  }

  lemma RestoredVisits()
    ensures VisitsOf(RestoredHistory(), [3], {0}, [3, 2, 1])
  {
    hide Reaches;
    var h := RestoredHistory();
    var g := GraphOf(h);
    var all: set<Oid>, base: set<Oid> := {0, 1, 2, 3}, {0};
    assert Closed(g, all) && Closed(g, base);
    var c0: Oid, c1: Oid, c2: Oid, c3: Oid := 0, 1, 2, 3;
    ReachesSelf(g, c3);
    ReachesSelf(g, c0);
    ReachesEdge(g, c3, c2);
    ReachesEdge(g, c2, c1);
    ReachesTransitive(g, c3, c2, c1);
    forall c: Oid
      ensures c in [3, 2, 1] <==> (exists t :: t in [3] && Reaches(g, t, c)) && !HeldCommit(h, {0}, c)
    {
      assert c3 in [3] && c0 in base;
      if Reaches(g, c3, c) {
        ClosedHoldsReachable(g, all, c3, c);
      }
      if Reaches(g, c0, c) {
        ClosedHoldsReachable(g, base, c0, c);
      }
    }
  }

  lemma RestoredLinks()
    ensures AreCommits(Restored(), [3, 2, 1])
    ensures 41 in Succ(Links(Restored()), 11) && 11 in Succ(Links(Restored()), 3)
  {
    var u := Restored();
    EntryReferenced(u[11].entries, u[11].entries[1]);
    assert (41, BlobKind) in References(u[11]);
    assert References(u[3])[0] == (11, TreeKind);
    assert (11, TreeKind) in References(u[3]);
  }

  lemma RestoredHeld()
    ensures 41 !in HeldBy(Restored(), {0})
  {
    hide Reaches;
    var g := Links(Restored());
    var s: set<Oid> := {0, 10};
    assert References(Restored()[0]) == [(10, TreeKind)];
    assert Succ(g, 0) <= s && Succ(g, 10) == {};
    assert Closed(g, s);
    var x: Oid := 41;
    if x in HeldBy(Restored(), {0}) {
      ClosedHoldsReachable(g, s, 0, x);
      assert false;
    }
  }

  lemma RestoredSent()
    requires AreCommits(Restored(), [3, 2, 1])
    ensures 41 !in SentFor(Restored(), NoFilter, true, {0}, [3, 2, 1])
  {
    hide WithCommit;
    var u := Restored();
    assert [3][..0] == [] && [3, 2][..1] == [3] && [3, 2, 1][..2] == [3, 2];
    assert AreCommits(u, [3]) && AreCommits(u, [3, 2]) && AreCommits(u, []);
    var s0: set<Oid> := {};
    var s3 := RestoredStep(3, 11, 12, 31, s0);
    assert SentFor(u, NoFilter, true, {0}, [3]) == s3;
    var s2 := RestoredStep(2, 12, 11, 32, s3);
    assert SentFor(u, NoFilter, true, {0}, [3, 2]) == s2;
    RestoredSkips(s2);
    assert SentFor(u, NoFilter, true, {0}, [3, 2, 1]) == s2 + {1};
  }

  lemma RestoredStep(c: Oid, t: Oid, other: Oid, q: Oid, s: set<Oid>) returns (r: set<Oid>)
    requires (c, t, other, q) in {(3, 11, 12, 31), (2, 12, 11, 32)} && c !in s && t !in s
    ensures r == WithCommit(Restored(), NoFilter, true, {0}, c, s) == s + {c, t, q}
  {
    hide Diff;
    var u := Restored();
    assert ParentTrees(u, u[c].parents) == [OldTree(other)];
    assert s + {c} + {t} == s + {c, t};
    r := RestoredDiff(t, other, q, s + {c, t});
  }

  lemma RestoredSkips(s: set<Oid>)
    requires 1 !in s && 11 in s
    ensures WithCommit(Restored(), NoFilter, true, {0}, 1, s) == s + {1}
  {
    hide Diff;
  }

  /** Comparing the two trees adds only the changed "q". */
  lemma RestoredDiff(t: Oid, other: Oid, q: Oid, s: set<Oid>) returns (r: set<Oid>)
    requires (t, other, q) in {(11, 12, 31), (12, 11, 32)}
    ensures r == Diff(Restored(), NoFilter, t, [OldTree(other)], s) == s + {q}
  {
    var u := Restored();
    var m := EntriesOf(u, other);
    var es := EntriesOf(u, t);
    assert OldMaps(u, [OldTree(other)]) == [m];
    assert Lookup(m, "y") == Some(m[1]);
    assert m[..1] == [m[0]] && "q" != "y";
    assert Lookup(m, "q") == Lookup([m[0]], "q") == Some(m[0]);
    assert m in [m] && !SameAt(m, es[0]) && SameAt(m, es[1]);
    var s1 := DiffEntry(u, NoFilter, es[0], [m], s);
    assert s1 == s + {q};
    assert DiffEntry(u, NoFilter, es[1], [m], s1) == s1;
    assert es[1..][1..] == [] && es[1..][0] == es[1];
    assert DiffEntries(u, NoFilter, es[1..], [m], s1) == s1;
    r := s1;
  }
}
