/** Accepting a push: a walk with a seen-set that stops at existing refs, and exactly when it keeps every
    ref's closure in the store (crates/walgit-git/src/lib.rs:1609-1772, 3236-3316). */
module Connectivity {
  import opened Basics
  import opened Objects
  import opened Reachability
  import opened Seqs

  datatype Result = Connected | Missing(oid: Oid) | Failed

  const MAX_TAG_CHAIN: nat := 64

  /** What the walk goes through: tags to their targets, commits to trees and parents, trees to the
      entries of tree mode. An entry of blob mode is looked at, but not opened. */
  function OpenLinks(u: Contents): Graph<Oid> {
    map o | o in u :: set r | r in References(u[o]) && (u[o].Tag? || r.1 != BlobKind) :: r.0
  }

  ghost predicate Opened(u: Contents, tips: seq<Oid>, x: Oid) {
    exists t :: t in tips && Reaches(OpenLinks(u), t, x)
  }

  ghost predicate LookedAt(u: Contents, tips: seq<Oid>, x: Oid) {
    Opened(u, tips, x) || exists o :: Opened(u, tips, o) && x in Succ(Links(u), o)
  }

  /** An entry of blob mode names this object, which is no blob. */
  ghost predicate Misnamed(u: Contents, tips: seq<Oid>, x: Oid) {
    x in u && !u[x].Blob?
    && exists t, e :: Opened(u, tips, t) && t in u && u[t].Tree? && e in u[t].entries && e.mode == BlobMode && e.oid == x
  }

  /** Something opened is not of the kind its name promised. */
  ghost predicate WrongKind(u: Contents, tips: seq<Oid>) {
    exists o, r :: Opened(u, tips, o) && o in u && r in References(u[o]) && r.1 != BlobKind && r.0 in u && KindOf(u[r.0]) != r.1
  }

  /** What an error report says: a named missing object is absent, and the walk had to look at it. */
  ghost predicate Truthful(u: Contents, present: set<Oid>, tips: seq<Oid>, r: Result) {
    r.Missing? ==> r.oid !in present && LookedAt(u, tips, r.oid)
  }

  /** Seen objects are present and were looked at; every seen tree that is not pending, and that was not
      only seen under a wrong name, has its entries seen. */
  ghost predicate SeenInv(u: Contents, present: set<Oid>, tips: seq<Oid>, seen: set<Oid>, pending: set<Oid>) {
    && (forall x | x in seen :: x in present && LookedAt(u, tips, x))
    && (forall t | t in seen && t !in pending && t in u && u[t].Tree? && !Misnamed(u, tips, t) :: Succ(Links(u), t) <= seen)
  }

  lemma LinkLookedAt(u: Contents, tips: seq<Oid>, x: Oid, y: Oid)
    requires Opened(u, tips, x) && y in Succ(Links(u), x)
    ensures LookedAt(u, tips, y)
  {
    hide Opened;
  }

  lemma OpenedFurther(u: Contents, tips: seq<Oid>, x: Oid, y: Oid)
    requires Opened(u, tips, x) && y in Succ(OpenLinks(u), x)
    ensures Opened(u, tips, y)
  {
    hide Reaches, OpenLinks;
    var t :| t in tips && Reaches(OpenLinks(u), t, x);
    ReachesEdge(OpenLinks(u), x, y);
    ReachesTransitive(OpenLinks(u), t, x, y);
  }

  lemma OpenLinkIsLink(u: Contents, o: Oid, x: Oid)
    requires x in Succ(OpenLinks(u), o)
    ensures x in Succ(Links(u), o)
  {
  }

  lemma OpenedIsReachable(u: Contents, t: Oid, x: Oid)
    requires Reaches(OpenLinks(u), t, x)
    ensures Reaches(Links(u), t, x)
  {
    var p :| IsPath(OpenLinks(u), p) && p[0] == t && p[|p| - 1] == x;
    forall i | 0 < i < |p|
      ensures p[i] in Succ(Links(u), p[i - 1])
    {
      OpenLinkIsLink(u, p[i - 1], p[i]);
    }
    assert IsPath(Links(u), p);
  }

  ghost predicate FromTips(u: Contents, tips: seq<Oid>, x: Oid) {
    exists t :: t in tips && Reaches(Links(u), t, x)
  }

  lemma LookedAtIsReachable(u: Contents, tips: seq<Oid>, x: Oid)
    requires LookedAt(u, tips, x)
    ensures FromTips(u, tips, x)
  {
    hide Reaches, Links, OpenLinks;
    var o: Oid := x;
    if !Opened(u, tips, x) {
      o :| Opened(u, tips, o) && x in Succ(Links(u), o);
      ReachesEdge(Links(u), o, x);
    } else {
      ReachesSelf(Links(u), x);
    }
    var t :| t in tips && Reaches(OpenLinks(u), t, o);
    OpenedIsReachable(u, t, o);
    ReachesTransitive(Links(u), t, o, x);
  }

  /** Only trees, blobs, absent objects, wrongly named ones and those still pending are added. */
  ghost predicate NewAreContent(u: Contents, tips: seq<Oid>, before: set<Oid>, after: set<Oid>, pending: set<Oid>) {
    forall x | x in after && x !in before && x in u && x !in pending && !Misnamed(u, tips, x) :: u[x].Tree? || u[x].Blob?
  }

  ghost predicate QueueInv(u: Contents, tips: seq<Oid>, seen: set<Oid>, queue: seq<Oid>) {
    forall q | q in queue :: q in seen && q in u && Opened(u, tips, q) && (u[q].Tree? || WrongKind(u, tips))
  }

  function AsSet(queue: seq<Oid>): set<Oid> {
    set q | q in queue
  }

  lemma EntryLooked(u: Contents, tips: seq<Oid>, tree: Oid, e: Entry)
    requires tree in u && u[tree].Tree? && e in u[tree].entries && !e.mode.Gitlink? && Opened(u, tips, tree)
    ensures LookedAt(u, tips, e.oid)
    ensures e.mode == TreeMode ==> Opened(u, tips, e.oid) && (e.oid in u && !u[e.oid].Tree? ==> WrongKind(u, tips))
    ensures e.mode == BlobMode && e.oid in u && !u[e.oid].Blob? ==> Misnamed(u, tips, e.oid)
  {
    hide Opened, References;
    EntryReferenced(u[tree].entries, e);
    ReferencesOfTree(u[tree]);
    var r := (e.oid, ModeKind(e.mode));
    assert r in References(u[tree]) && e.oid in Succ(Links(u), tree);
    LinkLookedAt(u, tips, tree, e.oid);
    if e.mode == TreeMode {
      assert e.oid in Succ(OpenLinks(u), tree);
      OpenedFurther(u, tips, tree, e.oid);
    }
  }

  lemma ReferencesOfTree(o: Object)
    requires o.Tree?
    ensures References(o) == EntryReferences(o.entries)
  {
  }

  /** One entry of a tree: a subtree is queued when it is new, a blob is only checked. */
  method VisitEntry(u: Contents, present: set<Oid>, ghost tips: seq<Oid>, tree: Oid, e: Entry, seen0: set<Oid>, queue0: seq<Oid>)
    returns (r: Result, seen: set<Oid>, queue: seq<Oid>)
    requires present <= u.Keys && tree in u && u[tree].Tree? && e in u[tree].entries
    requires tree in queue0 && QueueInv(u, tips, seen0, queue0)
    requires SeenInv(u, present, tips, seen0, AsSet(queue0))
    ensures seen0 <= seen && queue0 <= queue && Truthful(u, present, tips, r)
    ensures r.Connected? ==> SeenInv(u, present, tips, seen, AsSet(queue)) && QueueInv(u, tips, seen, queue)
    ensures r.Connected? ==> !e.mode.Gitlink? ==> e.oid in seen
    ensures r.Connected? ==> NewAreContent(u, tips, seen0, seen, AsSet(queue))
    ensures !r.Failed? && u.Keys - seen <= u.Keys - seen0
    ensures r.Connected? ==> queue == queue0 || u.Keys - seen < u.Keys - seen0
  {
    hide LookedAt, Opened, Misnamed, WrongKind, Links;
    r, seen, queue := Connected, seen0, queue0;
    if e.mode.Gitlink? || e.oid in seen {
      return;
    }
    EntryLooked(u, tips, tree, e);
    seen := seen + {e.oid};
    if e.oid !in present {
      return Missing(e.oid), seen, queue;
    }
    assert e.oid in u.Keys - seen0;
    if e.mode == TreeMode {
      queue := queue + [e.oid];
    }
    assert AsSet(queue0) <= AsSet(queue);
  }

  /** Breadth-first walk of the trees below a root that is already seen. */
  method WalkTrees(u: Contents, present: set<Oid>, ghost tips: seq<Oid>, root: Oid, seen0: set<Oid>)
    returns (r: Result, seen: set<Oid>)
    requires present <= u.Keys && root in present && QueueInv(u, tips, seen0, [root])
    requires SeenInv(u, present, tips, seen0, {root})
    ensures seen0 <= seen && Truthful(u, present, tips, r) && (r.Failed? ==> WrongKind(u, tips))
    ensures r.Connected? ==> SeenInv(u, present, tips, seen, {}) && NewAreContent(u, tips, seen0, seen, {}) && u[root].Tree?
  {
    hide LookedAt, Opened, Misnamed, WrongKind, Links;
    seen := seen0;
    var queue := [root];
    assert AsSet(queue) == {root};
    while queue != []
      invariant seen0 <= seen && QueueInv(u, tips, seen, queue)
      invariant SeenInv(u, present, tips, seen, AsSet(queue)) && NewAreContent(u, tips, seen0, seen, AsSet(queue))
      invariant u[root].Tree? || queue == [root]
      decreases u.Keys - seen, |queue|
    {
      var t := queue[0];
      if !u[t].Tree? {
        return Failed, seen;
      }
      ghost var seen1, queue1 := seen, queue;
      r, seen, queue := WalkEntries(u, present, tips, t, seen, queue);
      if !r.Connected? {
        return;
      }
      ContentGrows(u, tips, seen0, seen1, seen, AsSet(queue1), AsSet(queue));
      EntriesSeen(u, t, seen);
      FrontDone(u, present, tips, t, seen0, seen, queue);
      queue := queue[1..];
    }
    r := Connected;
    assert AsSet(queue) == {};
  }

  /** The first tree of the queue has its entries seen. */
  lemma FrontDone(u: Contents, present: set<Oid>, tips: seq<Oid>, t: Oid, seen0: set<Oid>, seen: set<Oid>, queue: seq<Oid>)
    requires queue != [] && queue[0] == t && t in u && u[t].Tree? && Succ(Links(u), t) <= seen
    requires QueueInv(u, tips, seen, queue) && SeenInv(u, present, tips, seen, AsSet(queue)) && NewAreContent(u, tips, seen0, seen, AsSet(queue))
    ensures QueueInv(u, tips, seen, queue[1..]) && SeenInv(u, present, tips, seen, AsSet(queue[1..]))
    ensures NewAreContent(u, tips, seen0, seen, AsSet(queue[1..]))
  {
    hide LookedAt, Opened, Misnamed, WrongKind, Links;
    assert queue == [t] + queue[1..];
    assert forall q | q in AsSet(queue) :: q == t || q in AsSet(queue[1..]);
  }

  lemma ContentGrows(u: Contents, tips: seq<Oid>, a: set<Oid>, b: set<Oid>, c: set<Oid>, p: set<Oid>, q: set<Oid>)
    requires NewAreContent(u, tips, a, b, p) && NewAreContent(u, tips, b, c, q) && p <= q
    ensures NewAreContent(u, tips, a, c, q)
  {
    hide Misnamed;
  }

  method WalkEntries(u: Contents, present: set<Oid>, ghost tips: seq<Oid>, t: Oid, seen0: set<Oid>, queue0: seq<Oid>)
    returns (r: Result, seen: set<Oid>, queue: seq<Oid>)
    requires present <= u.Keys && t in queue0 && t in u && u[t].Tree? && QueueInv(u, tips, seen0, queue0)
    requires SeenInv(u, present, tips, seen0, AsSet(queue0))
    ensures seen0 <= seen && queue0 <= queue && Truthful(u, present, tips, r) && !r.Failed?
    ensures r.Connected? ==> SeenInv(u, present, tips, seen, AsSet(queue)) && QueueInv(u, tips, seen, queue)
    ensures r.Connected? ==> NewAreContent(u, tips, seen0, seen, AsSet(queue)) && AsSet(queue0) <= AsSet(queue)
    ensures r.Connected? ==> forall e | e in u[t].entries && !e.mode.Gitlink? :: e.oid in seen
    ensures u.Keys - seen <= u.Keys - seen0
    ensures r.Connected? ==> queue == queue0 || u.Keys - seen < u.Keys - seen0
  {
    hide LookedAt, Opened, Misnamed, WrongKind, Links, SeenInv, QueueInv, NewAreContent, Truthful;
    r, seen, queue := Connected, seen0, queue0;
    NoNews(u, tips, seen0, AsSet(queue0));
    var entries := u[t].entries;
    for i := 0 to |entries|
      invariant r.Connected? && seen0 <= seen && queue0 <= queue && QueueInv(u, tips, seen, queue)
      invariant SeenInv(u, present, tips, seen, AsSet(queue)) && NewAreContent(u, tips, seen0, seen, AsSet(queue))
      invariant forall k | 0 <= k < i && !entries[k].mode.Gitlink? :: entries[k].oid in seen
      invariant queue == queue0 || u.Keys - seen < u.Keys - seen0
    {
      ghost var seen1, queue1 := seen, queue;
      r, seen, queue := VisitEntry(u, present, tips, t, entries[i], seen, queue);
      if !r.Connected? {
        return;
      }
      ContentGrows(u, tips, seen0, seen1, seen, AsSet(queue1), AsSet(queue));
    }
    TruthfulConnected(u, present, tips);
  }

  lemma NoNews(u: Contents, tips: seq<Oid>, seen: set<Oid>, pending: set<Oid>)
    ensures NewAreContent(u, tips, seen, seen, pending)
  {
  }

  lemma TruthfulConnected(u: Contents, present: set<Oid>, tips: seq<Oid>)
    ensures Truthful(u, present, tips, Connected)
  {
  }

  lemma EntriesSeen(u: Contents, t: Oid, seen: set<Oid>)
    requires t in u && u[t].Tree?
    requires forall e | e in u[t].entries && !e.mode.Gitlink? :: e.oid in seen
    ensures Succ(Links(u), t) <= seen
  {
    forall x | x in Succ(Links(u), t)
      ensures x in seen
    {
      var r :| r in References(u[t]) && r.0 == x;
      var e := ReferencedEntry(u[t].entries, r);
    }
  }

  // ---- tips ----

  predicate AllTags(u: Contents, t: Oid, n: nat)
    decreases n
  {
    n == 0 || (t in u && u[t].Tag? && AllTags(u, u[t].target, n - 1))
  }

  lemma {:induction false} AllTagsExtend(u: Contents, t: Oid, id: Oid, n: nat)
    requires AllTags(u, t, n) && id == PeelSteps(u, t, n) && id in u && u[id].Tag?
    ensures AllTags(u, t, n + 1) && PeelSteps(u, t, n + 1) == u[id].target
    decreases n
  {
    if n > 0 {
      AllTagsExtend(u, u[t].target, id, n - 1);
    } else {
      assert AllTags(u, u[t].target, 0);
    }
  }

  function PeelSteps(u: Contents, t: Oid, n: nat): Oid
    requires AllTags(u, t, n)
    decreases n
  {
    if n == 0 then t else PeelSteps(u, u[t].target, n - 1)
  }

  /** A chain of n tags that ends there is no longer one. */
  lemma {:induction false} ChainEnds(u: Contents, t: Oid, n: nat, m: nat)
    requires AllTags(u, t, n) && !(PeelSteps(u, t, n) in u && u[PeelSteps(u, t, n)].Tag?) && n < m
    ensures !AllTags(u, t, m)
    decreases n
  {
    if n > 0 && AllTags(u, t, m) {
      ChainEnds(u, u[t].target, n - 1, m - 1);
    }
  }

  /** Every seen tag's target is seen too, or is one of the finals. */
  ghost predicate TagsFollowed(u: Contents, tips: seq<Oid>, seen: set<Oid>, finals: set<Oid>) {
    forall x | x in seen && x in u && u[x].Tag? && !Misnamed(u, tips, x) :: u[x].target in seen || u[x].target in finals
  }

  lemma TagLink(u: Contents, t: Oid)
    requires t in u && u[t].Tag?
    ensures Succ(Links(u), t) == {u[t].target} == Succ(OpenLinks(u), t)
  {
    assert References(u[t])[0] == (u[t].target, u[t].targetKind);
    assert (u[t].target, u[t].targetKind) in References(u[t]);
  }

  lemma OpenedLooked(u: Contents, tips: seq<Oid>, x: Oid)
    requires Opened(u, tips, x)
    ensures LookedAt(u, tips, x)
  {
    hide Opened;
  }

  lemma TipOpened(u: Contents, tips: seq<Oid>, tip: Oid)
    requires tip in tips
    ensures Opened(u, tips, tip)
  {
    hide Reaches;
    ReachesSelf(OpenLinks(u), tip);
  }

  /** Follows a tip through annotated tags; at most MAX_TAG_CHAIN objects are looked at. */
  method PeelTip(u: Contents, present: set<Oid>, ghost tips: seq<Oid>, tip: Oid, seen0: set<Oid>, ghost finals: set<Oid>)
    returns (r: Result, id: Oid, seen: set<Oid>)
    requires present <= u.Keys && tip in tips
    requires SeenInv(u, present, tips, seen0, {}) && TagsFollowed(u, tips, seen0, finals)
    ensures seen0 <= seen && SeenInv(u, present, tips, seen, {}) && Truthful(u, present, tips, r)
    ensures forall x | x in seen && x !in seen0 :: x in u && u[x].Tag?
    ensures tip in seen || tip == id
    ensures r.Connected? ==> id in present && !u[id].Tag? && Opened(u, tips, id)
    ensures r.Connected? ==> TagsFollowed(u, tips, seen, finals + {id})
    ensures r.Failed? ==> AllTags(u, tip, 64)
    ensures AllTags(u, tip, 64) ==> !r.Connected?
  {
    hide LookedAt, Opened, Misnamed, Links, OpenLinks;
    seen, id := seen0, tip;
    TipOpened(u, tips, tip);
    for n := 0 to MAX_TAG_CHAIN
      invariant seen0 <= seen && SeenInv(u, present, tips, seen, {}) && Opened(u, tips, id)
      invariant forall x | x in seen && x !in seen0 :: x in u && u[x].Tag?
      invariant AllTags(u, tip, n) && PeelSteps(u, tip, n) == id
      invariant TagsFollowed(u, tips, seen, finals + {id}) && (tip in seen || tip == id)
    {
      OpenedLooked(u, tips, id);
      if id !in present {
        return Missing(id), id, seen;
      }
      if !u[id].Tag? {
        ChainEnds(u, tip, n, 64);
        return Connected, id, seen;
      }
      seen := seen + {id};
      TagLink(u, id);
      OpenedFurther(u, tips, id, u[id].target);
      AllTagsExtend(u, tip, id, n);
      id := u[id].target;
    }
    r := Failed;
  }

  /** After peeling: what each tip led to. */
  ghost predicate Peeled(u: Contents, present: set<Oid>, tips: seq<Oid>, seen: set<Oid>, finals: set<Oid>, commits: seq<Oid>) {
    && SeenInv(u, present, tips, seen, {}) && TagsFollowed(u, tips, seen, finals)
    && (forall x | x in seen && x in u && !Misnamed(u, tips, x) :: !u[x].Commit?)
    && (forall f | f in finals :: f in present && Opened(u, tips, f)
                               && f in u && (f in commits || u[f].Blob? || (f in seen && u[f].Tree?)))
    && (forall c | c in commits :: c in finals && c in u && u[c].Commit?)
  }

  /** A tree that a tip led to. */
  method WalkTip(u: Contents, present: set<Oid>, ghost tips: seq<Oid>, id: Oid, seen0: set<Oid>, ghost finals: set<Oid>)
    returns (r: Result, seen: set<Oid>)
    requires present <= u.Keys && id in present && u[id].Tree? && Opened(u, tips, id)
    requires SeenInv(u, present, tips, seen0, {}) && TagsFollowed(u, tips, seen0, finals + {id})
    requires forall x | x in seen0 && x in u && !Misnamed(u, tips, x) :: !u[x].Commit?
    ensures seen0 <= seen && Truthful(u, present, tips, r) && (r.Failed? ==> WrongKind(u, tips))
    ensures r.Connected? ==> SeenInv(u, present, tips, seen, {}) && TagsFollowed(u, tips, seen, finals + {id}) && id in seen
    ensures r.Connected? ==> forall x | x in seen && x in u && !Misnamed(u, tips, x) :: !u[x].Commit?
  {
    hide LookedAt, Opened, Misnamed, Links, WrongKind;
    r, seen := Connected, seen0;
    if id !in seen {
      OpenedLooked(u, tips, id);
      seen := seen + {id};
      r, seen := WalkTrees(u, present, tips, id, seen);
    }
  }

  method PeelTips(u: Contents, present: set<Oid>, tips: seq<Oid>)
    returns (r: Result, seen: set<Oid>, commits: seq<Oid>, ghost finals: set<Oid>)
    requires present <= u.Keys
    ensures Truthful(u, present, tips, r)
    ensures r.Connected? ==> Peeled(u, present, tips, seen, finals, commits)
    ensures r.Connected? ==> forall t | t in tips :: t in seen || t in finals
    ensures r.Failed? ==> WrongKind(u, tips) || exists t :: t in tips && AllTags(u, t, 64)
  {
    hide LookedAt, Opened, Misnamed, Links, WrongKind, AllTags;
    r, seen, commits, finals := Connected, {}, [], {};
    for i := 0 to |tips|
      invariant r.Connected? && Peeled(u, present, tips, seen, finals, commits)
      invariant forall k | 0 <= k < i :: tips[k] in seen || tips[k] in finals
    {
      var id, s;
      r, id, s := PeelTip(u, present, tips, tips[i], seen, finals);
      seen := s;
      if !r.Connected? {
        assert tips[i] in tips;
        return;
      }
      match u[id] {
      case Commit(_, _) =>
        commits := commits + [id];
      case Tree(_) =>
        r, seen := WalkTip(u, present, tips, id, seen, finals);
        if !r.Connected? {
          return;
        }
      case Blob =>
      }
      finals := finals + {id};
    }
  }

  // ---- hidden tips and the revision walk ----

  /** A recorded ref; peeled is filled in for tags whose target is known. */
  datatype RefTip = RefTip(oid: Oid, peeled: Option<Oid>)

  ghost predicate PeeledConsistent(u: Contents, r: RefTip) {
    r.peeled.Some? ==> Reaches(Links(u), r.oid, r.peeled.value)
  }

  /** The commits existing refs lead to; anything that cannot be peeled hides nothing. */
  method HiddenTips(u: Contents, present: set<Oid>, refs: seq<RefTip>) returns (hidden: set<Oid>)
    requires present <= u.Keys
    requires forall r | r in refs :: PeeledConsistent(u, r)
    ensures forall h | h in hidden :: h in present && u[h].Commit? && exists r :: r in refs && Reaches(Links(u), r.oid, h)
  {
    hide Reaches, Opened, Links, LookedAt;
    hidden := {};
    for i := 0 to |refs|
      invariant forall h | h in hidden :: h in present && u[h].Commit? && exists r :: r in refs && Reaches(Links(u), r.oid, h)
    {
      var r := refs[i];
      assert r in refs && PeeledConsistent(u, r);
      var candidate: Oid := if r.peeled.Some? then r.peeled.value else r.oid;
      assert Reaches(Links(u), r.oid, candidate) by { ReachesSelf(Links(u), r.oid); }
      if candidate in present && u[candidate].Commit? {
        hidden := hidden + {candidate};
      } else if candidate in present && u[candidate].Tag? {
        ghost var from: seq<Oid> := [candidate];
        NothingSeen(u, present, from);
        var p, id, seen := PeelTip(u, present, from, candidate, {}, {});
        if p.Connected? && u[id].Commit? {
          FromOneTip(u, candidate, id);
          ReachesTransitive(Links(u), r.oid, candidate, id);
          hidden := hidden + {id};
        }
      }
    }
  }

  lemma FromOneTip(u: Contents, tip: Oid, x: Oid)
    requires Opened(u, [tip], x)
    ensures Reaches(Links(u), tip, x)
  {
    hide Reaches;
    OpenedIsReachable(u, tip, x);
  }

  lemma NothingSeen(u: Contents, present: set<Oid>, tips: seq<Oid>)
    ensures SeenInv(u, present, tips, {}, {}) && TagsFollowed(u, tips, {}, {})
  {
  }

  /** Every commit seen has its tree seen, unless it was only seen under a wrong name. */
  ghost predicate TreesSeen(u: Contents, tips: seq<Oid>, seen: set<Oid>) {
    forall c | c in seen && c in u && u[c].Commit? && !Misnamed(u, tips, c) :: u[c].tree in seen
  }

  lemma CommitLink(u: Contents, tips: seq<Oid>, c: Oid)
    requires c in u && u[c].Commit? && Opened(u, tips, c)
    ensures Opened(u, tips, u[c].tree) && (u[c].tree in u && !u[u[c].tree].Tree? ==> WrongKind(u, tips))
  {
    hide Opened, References;
    TreeReferenced(u[c]);
    var r := (u[c].tree, TreeKind);
    assert r in References(u[c]) && u[c].tree in Succ(OpenLinks(u), c);
    OpenedFurther(u, tips, c, u[c].tree);
  }

  lemma TreeReferenced(o: Object)
    requires o.Commit?
    ensures (o.tree, TreeKind) in References(o)
  {
    assert References(o)[0] == (o.tree, TreeKind);
  }

  lemma ParentReferenced(o: Object, p: Oid)
    requires o.Commit? && p in o.parents
    ensures (p, CommitKind) in References(o)
  {
    var i :| 0 <= i < |o.parents| && o.parents[i] == p;
    assert References(o)[i + 1] == (p, CommitKind);
  }

  lemma ParentOpens(u: Contents, c: Oid, p: Oid)
    requires p in Succ(ParentGraph(u), c)
    ensures p in Succ(OpenLinks(u), c) && (p, CommitKind) in References(u[c])
  {
    hide References;
    ParentReferenced(u[c], p);
  }

  /** A walk over parents opens what it meets; a parent that is no commit is of the wrong kind. */
  lemma {:induction false} PathOpens(u: Contents, tips: seq<Oid>, p: seq<Oid>, k: nat)
    requires IsPath(ParentGraph(u), p) && Opened(u, tips, p[0]) && k < |p| && p[0] in u && u[p[0]].Commit?
    ensures Opened(u, tips, p[k]) && (p[k] in u && !u[p[k]].Commit? ==> WrongKind(u, tips))
  {
    hide Opened, References, OpenLinks;
    if k > 0 {
      PathOpens(u, tips, p, k - 1);
      assert p[k] in Succ(ParentGraph(u), p[k - 1]);
      ParentOpens(u, p[k - 1], p[k]);
      OpenedFurther(u, tips, p[k - 1], p[k]);
      var r := (p[k], CommitKind);
      assert r in References(u[p[k - 1]]);
    }
  }

  ghost predicate CommitOrWrong(u: Contents, tips: seq<Oid>, c: Oid) {
    Opened(u, tips, c) && (c in u && !u[c].Commit? ==> WrongKind(u, tips))
  }

  lemma WalkedOpens(u: Contents, tips: seq<Oid>, starts: set<Oid>, hidden: set<Oid>, c: Oid)
    requires Walked(u, starts, hidden, c) && forall t | t in starts :: Opened(u, tips, t) && t in u && u[t].Commit?
    ensures CommitOrWrong(u, tips, c)
  {
    hide Opened;
    var t :| t in starts && Reaches(ParentGraph(u), t, c);
    var p :| IsPath(ParentGraph(u), p) && p[0] == t && p[|p| - 1] == c;
    PathOpens(u, tips, p, |p| - 1);
  }

  /** One commit of the walk: it must exist, and its tree is walked unless already seen. */
  method VisitCommit(u: Contents, present: set<Oid>, ghost tips: seq<Oid>, c: Oid, seen0: set<Oid>)
    returns (r: Result, seen: set<Oid>)
    requires present <= u.Keys && CommitOrWrong(u, tips, c)
    requires SeenInv(u, present, tips, seen0, {}) && TreesSeen(u, tips, seen0)
    ensures seen0 <= seen && Truthful(u, present, tips, r) && (r.Failed? ==> WrongKind(u, tips))
    ensures r.Connected? ==> c in seen && SeenInv(u, present, tips, seen, {}) && TreesSeen(u, tips, seen)
    ensures r.Connected? ==> NewAreContent(u, tips, seen0, seen, {c}) && (c in seen0 || (c in u && u[c].Commit?))
  {
    hide LookedAt, Opened, Misnamed, Links, WrongKind, References;
    r, seen := Connected, seen0;
    if c in seen {
      return;
    }
    OpenedLooked(u, tips, c);
    seen := seen + {c};
    if c !in present {
      return Missing(c), seen;
    }
    if !u[c].Commit? {
      return Failed, seen;
    }
    var tree := u[c].tree;
    CommitLink(u, tips, c);
    OpenedLooked(u, tips, tree);
    if tree !in seen {
      seen := seen + {tree};
      if tree !in present {
        return Missing(tree), seen;
      }
      r, seen := WalkTrees(u, present, tips, tree, seen);
    }
  }

  method VisitCommits(u: Contents, present: set<Oid>, ghost tips: seq<Oid>, walk: seq<Oid>, seen0: set<Oid>, ghost finals: set<Oid>)
    returns (r: Result, seen: set<Oid>)
    requires present <= u.Keys && forall c | c in walk :: CommitOrWrong(u, tips, c)
    requires SeenInv(u, present, tips, seen0, {}) && TreesSeen(u, tips, seen0) && TagsFollowed(u, tips, seen0, finals)
    ensures seen0 <= seen && Truthful(u, present, tips, r) && (r.Failed? ==> WrongKind(u, tips))
    ensures r.Connected? ==> SeenInv(u, present, tips, seen, {}) && TreesSeen(u, tips, seen) && TagsFollowed(u, tips, seen, finals)
    ensures r.Connected? ==> forall c | c in walk :: c in seen
    ensures r.Connected? ==> NewAreContent(u, tips, seen0, seen, AsSet(walk))
  {
    hide LookedAt, Opened, Misnamed, WrongKind, SeenInv, TreesSeen, CommitOrWrong, Truthful;
    r, seen := Connected, seen0;
    NoNews(u, tips, seen0, AsSet(walk));
    for i := 0 to |walk|
      invariant r.Connected? && seen0 <= seen
      invariant SeenInv(u, present, tips, seen, {}) && TreesSeen(u, tips, seen) && TagsFollowed(u, tips, seen, finals)
      invariant forall k | 0 <= k < i :: walk[k] in seen
      invariant NewAreContent(u, tips, seen0, seen, AsSet(walk))
    {
      assert walk[i] in walk;
      var s;
      r, s := VisitCommit(u, present, tips, walk[i], seen);
      if !r.Connected? {
        return r, s;
      }
      NoTagsAdded(u, present, tips, seen, s, walk[i], finals);
      seen := s;
    }
    TruthfulConnected(u, present, tips);
  }

  lemma NoTagsAdded(u: Contents, present: set<Oid>, tips: seq<Oid>, seen: set<Oid>, s: set<Oid>, c: Oid, finals: set<Oid>)
    requires TagsFollowed(u, tips, seen, finals) && NewAreContent(u, tips, seen, s, {c}) && seen <= s
    requires c in seen || (c in u ==> u[c].Commit?)
    ensures TagsFollowed(u, tips, s, finals)
  {
    hide Misnamed;
  }

  // ---- the verdict ----

  ghost predicate TipsPresent(u: Contents, present: set<Oid>, tips: seq<Oid>) {
    forall t | t in tips :: ClosurePresent(u, present, t)
  }

  ghost predicate RefsPresent(u: Contents, present: set<Oid>, refs: seq<RefTip>) {
    forall r | r in refs :: ClosurePresent(u, present, r.oid)
  }

  /** What the check never looks below. */
  ghost function MisnamedOnes(u: Contents, tips: seq<Oid>): set<Oid> {
    set m | m in u && Misnamed(u, tips, m)
  }

  /** Every object that a blob-mode entry names wrongly has its closure in the store. */
  ghost predicate MisnamedPresent(u: Contents, present: set<Oid>, tips: seq<Oid>) {
    forall m | m in MisnamedOnes(u, tips) :: ClosurePresent(u, present, m)
  }

  ghost predicate AllPresent(u: Contents, present: set<Oid>, roots: set<Oid>) {
    forall h | h in roots :: ClosurePresent(u, present, h)
  }

  /** Everything in the store that is reachable from a root. */
  ghost function Below(u: Contents, present: set<Oid>, roots: set<Oid>): set<Oid> {
    set x | x in present && exists h :: h in roots && Reaches(Links(u), h, x)
  }

  lemma IsBelow(u: Contents, present: set<Oid>, roots: set<Oid>, h: Oid, x: Oid)
    requires AllPresent(u, present, roots) && h in roots && Reaches(Links(u), h, x)
    ensures x in Below(u, present, roots)
  {
    hide Reaches;
    assert ClosurePresent(u, present, h);
  }

  lemma BelowClosed(u: Contents, present: set<Oid>, roots: set<Oid>)
    requires AllPresent(u, present, roots)
    ensures Closed(Links(u), Below(u, present, roots)) && roots <= Below(u, present, roots) <= present
  {
    hide Reaches, ClosurePresent;
    forall x, y | x in Below(u, present, roots) && y in Succ(Links(u), x)
      ensures y in Below(u, present, roots)
    {
      var h :| h in roots && Reaches(Links(u), h, x);
      ReachesEdge(Links(u), x, y);
      ReachesTransitive(Links(u), h, x, y);
      IsBelow(u, present, roots, h, y);
    }
    forall h | h in roots
      ensures h in Below(u, present, roots)
    {
      ReachesSelf(Links(u), h);
      IsBelow(u, present, roots, h, h);
    }
  }

  /** The state in which the check accepts: before is what the tips led to, seen is everything. */
  ghost predicate WalkedThrough(u: Contents, present: set<Oid>, tips: seq<Oid>, before: set<Oid>, finals: set<Oid>, commits: seq<Oid>,
                          hidden: set<Oid>, walk: seq<Oid>, seen: set<Oid>) {
    && Peeled(u, present, tips, before, finals, commits) && before <= seen && NewAreContent(u, tips, before, seen, AsSet(walk))
    && SeenInv(u, present, tips, seen, {}) && TreesSeen(u, tips, seen) && TagsFollowed(u, tips, seen, finals)
    && IsRevWalk(u, commits, hidden, Some(walk)) && AsSet(walk) <= seen
  }

  /** What was seen, what tags led to, and everything below hidden commits and wrongly named objects,
      together form a closed set. */
  lemma EverythingClosed(u: Contents, present: set<Oid>, tips: seq<Oid>, before: set<Oid>, finals: set<Oid>, commits: seq<Oid>,
                         hidden: set<Oid>, walk: seq<Oid>, seen: set<Oid>, deep: set<Oid>)
    requires present <= u.Keys && deep == hidden + MisnamedOnes(u, tips) && AllPresent(u, present, deep)
    requires WalkedThrough(u, present, tips, before, finals, commits, hidden, walk, seen)
    ensures Closed(Links(u), seen + finals + Below(u, present, deep))
  {
    hide Misnamed, AllPresent, Below, Links, IsRevWalk, LookedAt, Opened;
    BelowClosed(u, present, deep);
    forall x, y | x in seen + finals + Below(u, present, deep) && y in Succ(Links(u), x)
      ensures y in seen + finals + Below(u, present, deep)
    {
      if x in Below(u, present, deep) {
        assert Succ(Links(u), x) <= Below(u, present, deep);
      } else {
        assert x in u && !Misnamed(u, tips, x);
        if u[x].Commit? {
          CommitLinks(u, present, tips, commits, hidden, walk, seen, deep, x, y);
        } else {
          ContentLinks(u, present, tips, seen, finals, x, y);
        }
      }
    }
  }

  /** Links of anything that is not a commit. */
  lemma ContentLinks(u: Contents, present: set<Oid>, tips: seq<Oid>, seen: set<Oid>, finals: set<Oid>, x: Oid, y: Oid)
    requires SeenInv(u, present, tips, seen, {}) && TagsFollowed(u, tips, seen, finals)
    requires x in u && y in Succ(Links(u), x) && !u[x].Commit? && !Misnamed(u, tips, x)
    requires x in seen || u[x].Blob?
    ensures y in seen + finals
  {
    hide LookedAt, Misnamed;
    if u[x].Tag? {
      TagLink(u, x);
    }
  }

  /** Links of a commit that was walked or is hidden: its tree and parents are seen, or hidden below. */
  lemma CommitLinks(u: Contents, present: set<Oid>, tips: seq<Oid>, commits: seq<Oid>, hidden: set<Oid>, walk: seq<Oid>,
                    seen: set<Oid>, deep: set<Oid>, x: Oid, y: Oid)
    requires x in u && u[x].Commit? && y in Succ(Links(u), x) && !Misnamed(u, tips, x)
    requires IsRevWalk(u, commits, hidden, Some(walk)) && (x in walk || x in commits)
    requires AsSet(walk) <= seen && TreesSeen(u, tips, seen) && hidden <= deep && AllPresent(u, present, deep)
    ensures y in seen + Below(u, present, deep)
  {
    hide Reaches, Misnamed, AllPresent, Below;
    var starts := set t | t in commits;
    if x !in walk {
      ReachesSelf(ParentGraph(u), x);
      assert x in starts && !Walked(u, starts, hidden, x);
      var h :| h in hidden && Reaches(ParentGraph(u), h, x);
      AncestorReachable(u, h, x);
      ReachesEdge(Links(u), x, y);
      ReachesTransitive(Links(u), h, x, y);
      IsBelow(u, present, deep, h, y);
    } else {
      var r :| r in References(u[x]) && r.0 == y;
      if y != u[x].tree {
        var i :| 0 <= i < |References(u[x])| && References(u[x])[i] == r;
        assert u[x].parents[i - 1] == y;
        ParentOfWalked(u, present, starts, hidden, deep, x, y);
        assert y in walk ==> y in AsSet(walk);
      } else {
        assert x in AsSet(walk);
      }
    }
  }

  lemma ParentOfWalked(u: Contents, present: set<Oid>, starts: set<Oid>, hidden: set<Oid>, deep: set<Oid>, x: Oid, y: Oid)
    requires Walked(u, starts, hidden, x) && x in u && u[x].Commit? && y in u[x].parents
    requires hidden <= deep && AllPresent(u, present, deep)
    ensures Walked(u, starts, hidden, y) || y in Below(u, present, deep)
  {
    hide Reaches, AllPresent, Below;
    var t :| t in starts && Reaches(ParentGraph(u), t, x);
    ReachesEdge(ParentGraph(u), x, y);
    ReachesTransitive(ParentGraph(u), t, x, y);
    if h :| h in hidden && Reaches(ParentGraph(u), h, y) {
      AncestorReachable(u, h, y);
      IsBelow(u, present, deep, h, y);
    }
  }

  /** Once the walk is through, the closures of the tips are present exactly when those of the wrongly
      named objects are. */
  lemma Accepted(u: Contents, present: set<Oid>, tips: seq<Oid>, before: set<Oid>, finals: set<Oid>, commits: seq<Oid>,
                 hidden: set<Oid>, walk: seq<Oid>, seen: set<Oid>)
    requires present <= u.Keys && AllPresent(u, present, hidden)
    requires WalkedThrough(u, present, tips, before, finals, commits, hidden, walk, seen)
    requires forall t | t in tips :: t in before || t in finals
    ensures TipsPresent(u, present, tips) <==> MisnamedPresent(u, present, tips)
  {
    hide Misnamed, Below, Links, IsRevWalk, LookedAt, Opened, ClosurePresent, Closed, MisnamedOnes;
    if MisnamedPresent(u, present, tips) {
      var deep := hidden + MisnamedOnes(u, tips);
      EverythingClosed(u, present, tips, before, finals, commits, hidden, walk, seen, deep);
      BelowClosed(u, present, deep);
      var all := seen + finals + Below(u, present, deep);
      forall t | t in tips
        ensures ClosurePresent(u, present, t)
      {
        ClosedSetPresent(u, present, all, t);
      }
    }
    if TipsPresent(u, present, tips) {
      MisnamedBelowTips(u, present, tips);
    }
  }

  lemma MisnamedBelowTips(u: Contents, present: set<Oid>, tips: seq<Oid>)
    requires TipsPresent(u, present, tips)
    ensures MisnamedPresent(u, present, tips)
  {
    hide Opened, Links, Reaches, ClosurePresent;
    forall m | m in MisnamedOnes(u, tips)
      ensures ClosurePresent(u, present, m)
    {
      var t, e :| Opened(u, tips, t) && t in u && u[t].Tree? && e in u[t].entries && e.mode == BlobMode && e.oid == m;
      EntryLooked(u, tips, t, e);
      LookedAtIsReachable(u, tips, m);
      var tip :| tip in tips && Reaches(Links(u), tip, m);
      ClosureOfSuccessor(u, present, tip, m);
    }
  }

  lemma HiddenPresent(u: Contents, present: set<Oid>, refs: seq<RefTip>, h: Oid)
    requires RefsPresent(u, present, refs) && exists r :: r in refs && Reaches(Links(u), r.oid, h)
    ensures ClosurePresent(u, present, h)
  {
    hide Reaches;
    var r :| r in refs && Reaches(Links(u), r.oid, h);
    ClosureOfSuccessor(u, present, r.oid, h);
  }

  method Unique(tips: seq<Oid>) returns (unique: seq<Oid>)
    ensures forall t :: t in unique <==> t in tips
    ensures forall i, j | 0 <= i < j < |unique| :: unique[i] != unique[j]
  {
    unique := [];
    for i := 0 to |tips|
      invariant forall t :: t in unique <==> t in tips[..i]
      invariant forall a, b | 0 <= a < b < |unique| :: unique[a] != unique[b]
    {
      TakeNext(tips, i);
      if tips[i] !in unique {
        unique := unique + [tips[i]];
      }
    }
    TakeAll(tips);
  }

  /** The check itself. When it accepts, and the closures of the refs it stops at are there, the closures
      of the tips are there if and only if those of wrongly named objects are. A missing object it
      reports is absent and was looked at. */
  method CheckConnectivity(u: Contents, present: set<Oid>, tips: seq<Oid>, stopAtRefs: bool, refs: seq<RefTip>,
                           revWalk: (seq<Oid>, set<Oid>) -> Option<seq<Oid>>)
    returns (r: Result)
    requires present <= u.Keys && forall x | x in refs :: PeeledConsistent(u, x)
    requires forall commits, hidden :: IsRevWalk(u, commits, hidden, revWalk(commits, hidden))
    ensures r.Connected? && (stopAtRefs ==> RefsPresent(u, present, refs)) ==>
              (TipsPresent(u, present, tips) <==> MisnamedPresent(u, present, tips))
    ensures r.Missing? ==> r.oid !in present && LookedAt(u, tips, r.oid)
    ensures r.Failed? ==>
              || WrongKind(u, tips)
              || (exists t :: t in tips && AllTags(u, t, 64))
              || (exists commits, hidden :: revWalk(commits, hidden) == None)
  {
    hide Peeled, SeenInv, TagsFollowed, TreesSeen, LookedAt, Opened, Misnamed, WrongKind, AllTags, IsRevWalk, NewAreContent, AsSet,
         RefsPresent, ClosurePresent;
    var unique := Unique(tips);
    SameTips(u, present, unique, tips);
    if unique == [] {
      NoTips(u, present, unique);
      return Connected;
    }
    var seen, commits;
    ghost var finals;
    r, seen, commits, finals := PeelTips(u, present, unique);
    if !r.Connected? {
      return;
    }
    if commits == [] {
      EmptyWalk(u);
      WalkStarts(u, present, unique, seen, finals, commits, {}, []);
      Accepted(u, present, unique, seen, finals, commits, {}, [], seen);
      return;
    }
    var hidden: set<Oid> := {};
    if stopAtRefs {
      hidden := HiddenTips(u, present, refs);
    }
    var walk := revWalk(commits, hidden);
    assert IsRevWalk(u, commits, hidden, walk);
    if walk.None? {
      return Failed;
    }
    WalkStarts(u, present, unique, seen, finals, commits, hidden, walk.value);
    var all;
    r, all := VisitCommits(u, present, unique, walk.value, seen, finals);
    if r.Connected? && (stopAtRefs ==> RefsPresent(u, present, refs)) {
      forall h | h in hidden
        ensures ClosurePresent(u, present, h)
      {
        HiddenPresent(u, present, refs, h);
      }
      AllWalked(walk.value, all);
      Accepted(u, present, unique, seen, finals, commits, hidden, walk.value, all);
    }
  }

  lemma AllWalked(walk: seq<Oid>, seen: set<Oid>)
    requires forall c | c in walk :: c in seen
    ensures AsSet(walk) <= seen
  {
  }

  lemma EmptyWalk(u: Contents)
    ensures IsRevWalk(u, [], {}, Some([]))
  {
    hide Reaches;
  }

  lemma NoTips(u: Contents, present: set<Oid>, tips: seq<Oid>)
    requires tips == []
    ensures TipsPresent(u, present, tips) && MisnamedPresent(u, present, tips)
  {
  }

  lemma SameTips(u: Contents, present: set<Oid>, a: seq<Oid>, b: seq<Oid>)
    requires forall t :: t in a <==> t in b
    ensures forall x :: LookedAt(u, a, x) <==> LookedAt(u, b, x)
    ensures WrongKind(u, a) <==> WrongKind(u, b)
    ensures TipsPresent(u, present, a) <==> TipsPresent(u, present, b)
    ensures MisnamedPresent(u, present, a) <==> MisnamedPresent(u, present, b)
  {
    hide Reaches, Links, OpenLinks, ClosurePresent, References;
    assert forall x :: Opened(u, a, x) <==> Opened(u, b, x);
    hide Opened;
    assert forall x :: Misnamed(u, a, x) <==> Misnamed(u, b, x);
  }

  /** What the commit loop needs to know about the walk, before it starts. */
  lemma WalkStarts(u: Contents, present: set<Oid>, tips: seq<Oid>, seen: set<Oid>, finals: set<Oid>, commits: seq<Oid>,
                   hidden: set<Oid>, walk: seq<Oid>)
    requires Peeled(u, present, tips, seen, finals, commits) && IsRevWalk(u, commits, hidden, Some(walk))
    ensures forall c | c in walk :: CommitOrWrong(u, tips, c)
    ensures SeenInv(u, present, tips, seen, {}) && TreesSeen(u, tips, seen) && TagsFollowed(u, tips, seen, finals)
    ensures NewAreContent(u, tips, seen, seen, AsSet(walk)) && (walk == [] ==> AsSet(walk) <= seen)
  {
    hide Reaches, Opened, LookedAt, Misnamed, WrongKind, CommitOrWrong, Walked;
    forall c | c in walk
      ensures CommitOrWrong(u, tips, c)
    {
      WalkedOpens(u, tips, (set t | t in commits), hidden, c);
    }
  }

  /** With no wrongly named object, accepting is enough. */
  lemma NoneMisnamed(u: Contents, present: set<Oid>, tips: seq<Oid>)
    requires forall x :: !Misnamed(u, tips, x)
    ensures MisnamedPresent(u, present, tips)
  {
  }

  // ---- a push that is accepted without its closure ----

  /** A commit whose tree holds, under a blob's mode, another tree; that one names a blob. */
  function WronglyNamedTree(): Contents {
    map[1 := Commit(2, []), 2 := Tree([Entry("a", BlobMode, 3)]), 3 := Tree([Entry("b", BlobMode, 4)]), 4 := Blob]
  }

  /** The store lacks the blob, and the check accepts: it never opens the inner tree. */
  method AcceptsWronglyNamedTree(revWalk: (seq<Oid>, set<Oid>) -> Option<seq<Oid>>) returns (r: Result)
    requires forall commits, hidden :: IsRevWalk(WronglyNamedTree(), commits, hidden, revWalk(commits, hidden))
    requires forall commits, hidden :: revWalk(commits, hidden).Some?
    ensures r.Connected? && !TipsPresent(WronglyNamedTree(), {1, 2, 3}, [1])
  {
    hide IsRevWalk, MisnamedPresent, LookedAt, WrongKind, AllTags, TipsPresent, RefsPresent;
    var u := WronglyNamedTree();
    InnerTreeUnopened();
    r := CheckConnectivity(u, {1, 2, 3}, [1], true, [], revWalk);
  }

  lemma WronglyNamedLinks()
    ensures var u := WronglyNamedTree(); Succ(Links(u), 1) == {2} && Succ(Links(u), 2) == {3} && Succ(Links(u), 3) == {4}
    ensures var u := WronglyNamedTree(); Succ(OpenLinks(u), 1) == {2} && Succ(OpenLinks(u), 2) == {}
    ensures References(WronglyNamedTree()[1]) == [(2, TreeKind)] && References(WronglyNamedTree()[2]) == [(3, BlobKind)]
  {
    var u := WronglyNamedTree();
    assert References(u[1]) == [(2, TreeKind)];
    assert u[2].entries[1..] == [] && u[3].entries[1..] == [];
    assert References(u[2]) == [(3, BlobKind)] && References(u[3]) == [(4, BlobKind)];
    assert (2, TreeKind) in References(u[1]) && (3, BlobKind) in References(u[2]) && (4, BlobKind) in References(u[3]);
  }

  lemma InnerTreeUnopened()
    ensures forall x | LookedAt(WronglyNamedTree(), [1], x) :: x in {1, 2, 3}
    ensures !WrongKind(WronglyNamedTree(), [1]) && !TipsPresent(WronglyNamedTree(), {1, 2, 3}, [1])
    ensures !AllTags(WronglyNamedTree(), 1, 64)
  {
    hide Links, OpenLinks, Reaches, References;
    var u := WronglyNamedTree();
    WronglyNamedLinks();
    var entered: set<Oid> := {1, 2};
    forall x | Opened(u, [1], x)
      ensures x in entered
    {
      ClosedHoldsReachable(OpenLinks(u), entered, 1, x);
    }
    ReachesEdge(Links(u), 3, 4);
    ReachesStep(Links(u), 2, 3, 4);
    ReachesStep(Links(u), 1, 2, 4);
    assert !ClosurePresent(u, {1, 2, 3}, 1);
  }

  // ---- the repository over time ----

  /** A repository that changes by pushes: objects are ingested, then refs are set or deleted. */
  class Repository {
    const u: Contents
    var present: set<Oid>
    var refs: map<string, Oid>

    ghost predicate Valid()
      reads this
    {
      present <= u.Keys
    }

    /** Every ref's closure is in the store. */
    ghost predicate Complete()
      reads this
    {
      forall name | name in refs :: ClosurePresent(u, present, refs[name])
    }

    constructor (u: Contents)
      ensures Valid() && Complete() && this.u == u && present == {} && refs == map[]
    {
      this.u := u;
      present, refs := {}, map[];
    }

    method Ingest(objects: set<Oid>)
      requires Valid() && objects <= u.Keys
      modifies this`present
      ensures Valid() && present == old(present) + objects && (old(Complete()) ==> Complete())
    {
      present := present + objects;
    }

    method Delete(names: set<string>)
      requires Valid()
      modifies this`refs
      ensures refs == old(refs) - names && (old(Complete()) ==> Complete())
    {
      refs := refs - names;
    }

    /** Ingests the pushed objects, and changes the refs when every new tip is connected. recorded lists
        the current refs as the snapshot shows them. */
    method Push(objects: set<Oid>, updates: map<string, Oid>, deleted: set<string>, tips: seq<Oid>, recorded: seq<RefTip>,
                revWalk: (seq<Oid>, set<Oid>) -> Option<seq<Oid>>)
      returns (r: Result)
      requires Valid() && objects <= u.Keys && updates.Keys !! deleted && updates.Values == set t | t in tips
      requires forall x | x in recorded :: PeeledConsistent(u, x) && x.oid in refs.Values
      requires forall commits, hidden :: IsRevWalk(u, commits, hidden, revWalk(commits, hidden))
      modifies this
      ensures Valid() && present == old(present) + objects
      ensures refs == if r.Connected? then old(refs) + updates - deleted else old(refs)
      ensures old(Complete()) && !r.Connected? ==> Complete()
      ensures old(Complete()) && r.Connected? ==> (Complete() <==> MisnamedPresent(u, present, tips))
    {
      hide IsRevWalk, LookedAt, WrongKind, AllTags, MisnamedPresent, ClosurePresent, PeeledConsistent;
      Ingest(objects);
      if old(Complete()) {
        forall x | x in recorded
          ensures ClosurePresent(u, present, x.oid)
        {
          assert PeeledConsistent(u, x) && x.oid in refs.Values;
        }
      }
      r := CheckConnectivity(u, present, tips, true, recorded, revWalk);
      if r.Connected? {
        ghost var before := refs;
        refs := refs + updates;
        Delete(deleted);
        if old(Complete()) {
          NewRefsComplete(u, present, before, updates, deleted, tips);
        }
      }
    }
  }

  /** The refs are complete after a change to complete ones exactly when the new tips are. */
  lemma NewRefsComplete(u: Contents, present: set<Oid>, refs: map<string, Oid>, updates: map<string, Oid>, deleted: set<string>, tips: seq<Oid>)
    requires forall name | name in refs :: ClosurePresent(u, present, refs[name])
    requires updates.Keys !! deleted && updates.Values == set t | t in tips
    ensures (forall name | name in refs + updates - deleted :: ClosurePresent(u, present, (refs + updates - deleted)[name]))
              <==> TipsPresent(u, present, tips)
  {
    hide ClosurePresent;
    var after := refs + updates - deleted;
    if forall name | name in after :: ClosurePresent(u, present, after[name]) {
      forall t | t in tips
        ensures ClosurePresent(u, present, t)
      {
        assert t in updates.Values;
        var name :| name in updates && updates[name] == t;
        assert after[name] == t;
      }
    }
    if TipsPresent(u, present, tips) {
      forall name | name in after
        ensures ClosurePresent(u, present, after[name])
      {
        if name in updates {
          assert updates[name] in updates.Values;
        }
      }
    }
  }
}
