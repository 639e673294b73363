/** Depth-limited fetches: breadth-first levels and exact shortest distances
    (crates/walgit-git/src/lib.rs:3534-3571). */
module Shallow {
  import opened Basics
  import opened Objects
  import opened Reachability
  import opened Seqs
  import opened SortedOids

  /** A walk of exactly n parent steps leads from some want to c. */
  ghost predicate StepsTo(g: Graph<Oid>, wants: seq<Oid>, c: Oid, n: nat)
    decreases n
  {
    if n == 0 then c in wants else exists p :: StepsTo(g, wants, p, n - 1) && c in Succ(g, p)
  }

  /** c can be met among the first n levels; the wants are the first level. */
  ghost predicate WithinDepth(g: Graph<Oid>, wants: seq<Oid>, c: Oid, n: nat) {
    exists m: nat :: m < n && StepsTo(g, wants, c, m)
  }

  /** The shortest walk from a want to c has n - 1 steps. */
  ghost predicate AtDepth(g: Graph<Oid>, wants: seq<Oid>, c: Oid, n: nat) {
    n >= 1 && StepsTo(g, wants, c, n - 1) && !WithinDepth(g, wants, c, n - 1)
  }

  predicate IsCommit(u: Contents, c: Oid) {
    c in u && u[c].Commit?
  }

  datatype Plan = Plan(shallow: seq<Oid>, exclude: seq<Oid>)

  ghost predicate IsParent(u: Contents, p: Oid, c: Oid) {
    IsCommit(u, c) && p in u[c].parents
  }

  lemma IsParentSucc(u: Contents, p: Oid, c: Oid)
    ensures IsParent(u, p, c) <==> p in Succ(ParentGraph(u), c)
  {
  }

  lemma ParentsOf(u: Contents, c: Oid)
    requires IsCommit(u, c)
    ensures forall p :: IsParent(u, p, c) <==> p in u[c].parents
  {
  }

  ghost predicate Distinct(s: seq<Oid>) {
    forall i, j | 0 <= i < j < |s| :: s[i] != s[j]
  }

  // ---- levels ----

  /** What is known before round d + 1: `seen` holds the first d levels, `level` the next one. */
  ghost predicate LevelInv(g: Graph<Oid>, wants: seq<Oid>, d: nat, seen: set<Oid>, level: seq<Oid>) {
    && (forall c :: c in seen <==> WithinDepth(g, wants, c, d))
    && (forall c | c in level :: StepsTo(g, wants, c, d))
    && (forall c | StepsTo(g, wants, c, d) :: c in level || c in seen)
  }

  /** p is a parent of a commit that this level met for the first time. */
  ghost predicate FreshParent(u: Contents, level: seq<Oid>, seen: set<Oid>, p: Oid) {
    exists c :: c in level && c !in seen && IsParent(u, p, c)
  }

  /** The next level is found from the commits met for the first time: whatever else is one more step
      away was already within the depth. */
  lemma NextLevel(u: Contents, wants: seq<Oid>, d: nat, seen: set<Oid>, level: seq<Oid>, seen': set<Oid>, next: seq<Oid>)
    requires LevelInv(ParentGraph(u), wants, d, seen, level)
    requires forall c :: c in seen' <==> c in seen || c in level
    requires forall p :: p in next <==> FreshParent(u, level, seen, p)
    ensures LevelInv(ParentGraph(u), wants, d + 1, seen', next)
  {
    var g := ParentGraph(u);
    forall c
      ensures c in seen' <==> WithinDepth(g, wants, c, d + 1)
    {
      if StepsTo(g, wants, c, d) {
        assert WithinDepth(g, wants, c, d + 1);
      }
    }
    forall c | StepsTo(g, wants, c, d + 1)
      ensures c in next || c in seen'
    {
      var p :| StepsTo(g, wants, p, d) && c in Succ(g, p);
      IsParentSucc(u, c, p);
      if p in seen {
        var m: nat :| m < d && StepsTo(g, wants, p, m);
        assert StepsTo(g, wants, c, m + 1);
      } else {
        assert FreshParent(u, level, seen, c);
      }
    }
    forall c | c in next
      ensures StepsTo(g, wants, c, d + 1)
    {
      var p :| p in level && p !in seen && IsParent(u, c, p);
      IsParentSucc(u, c, p);
    }
  }

  /** Once a level is empty, no walk however long meets a new commit. */
  lemma {:induction false} HistoryExhausted(g: Graph<Oid>, wants: seq<Oid>, d: nat, seen: set<Oid>, c: Oid, n: nat)
    requires LevelInv(g, wants, d, seen, []) && StepsTo(g, wants, c, n)
    ensures c in seen
    decreases n
  {
    if n > d {
      var p :| StepsTo(g, wants, p, n - 1) && c in Succ(g, p);
      HistoryExhausted(g, wants, d, seen, p, n - 1);
      var m: nat :| m < d && StepsTo(g, wants, p, m);
      assert StepsTo(g, wants, c, m + 1);
      if m + 1 == d {
        assert c in seen;
      } else {
        assert WithinDepth(g, wants, c, d);
      }
    } else if n < d {
      assert WithinDepth(g, wants, c, d);
    }
  }

  // ---- the computation ----

  datatype Round = Round(seen: set<Oid>, shallow: seq<Oid>, exclude: seq<Oid>, next: seq<Oid>)

  ghost predicate RoundInv(u: Contents, done: seq<Oid>, seen0: set<Oid>, last: bool, s: Round) {
    && (forall c :: c in s.seen <==> c in seen0 || c in done)
    && (forall c | c in done && c !in seen0 :: IsCommit(u, c))
    && (forall c :: c in s.shallow <==> last && c in done && c !in seen0 && IsCommit(u, c) && u[c].parents != [])
    && Distinct(s.shallow)
    && (forall p :: p in s.exclude <==> last && FreshParent(u, done, seen0, p))
    && (forall p :: p in s.next <==> !last && FreshParent(u, done, seen0, p))
    && (s.next != [] ==> seen0 < s.seen)
  }

  lemma FreshParentNext(u: Contents, done: seq<Oid>, c: Oid, seen0: set<Oid>, p: Oid)
    ensures FreshParent(u, done + [c], seen0, p)
       <==> FreshParent(u, done, seen0, p) || (c !in seen0 && IsParent(u, p, c))
  {
    hide IsParent;
    if FreshParent(u, done, seen0, p) {
      var x :| x in done && x !in seen0 && IsParent(u, p, x);
      assert x in done + [c];
    }
    if c !in seen0 && IsParent(u, p, c) {
      assert c in done + [c];
    }
  }

  /** One commit of a level. */
  method Visit(u: Contents, ghost done: seq<Oid>, c: Oid, ghost seen0: set<Oid>, last: bool, s0: Round)
    returns (ok: bool, s: Round)
    requires RoundInv(u, done, seen0, last, s0)
    ensures ok ==> RoundInv(u, done + [c], seen0, last, s)
    ensures !ok ==> c !in seen0 && !IsCommit(u, c)
  {
    hide FreshParent, IsParent;
    s := s0;
    forall p ensures FreshParent(u, done + [c], seen0, p)
                <==> FreshParent(u, done, seen0, p) || (c !in seen0 && IsParent(u, p, c)) {
      FreshParentNext(u, done, c, seen0, p);
    }
    if c in s.seen {
      if c !in seen0 {
        forall p ensures IsParent(u, p, c) ==> FreshParent(u, done, seen0, p) {
          SeenParent(u, done, c, seen0, p);
        }
      }
      return true, s;
    }
    s := s.(seen := s.seen + {c});
    if !IsCommit(u, c) {
      return false, s;
    }
    var parents := u[c].parents;
    ParentsOf(u, c);
    if last {
      if parents != [] {
        s := s.(shallow := s.shallow + [c]);
      }
      s := s.(exclude := s.exclude + parents);
    } else {
      s := s.(next := s.next + parents);
    }
    ok := true;
  }

  lemma SeenParent(u: Contents, done: seq<Oid>, c: Oid, seen0: set<Oid>, p: Oid)
    requires c in done && c !in seen0
    ensures IsParent(u, p, c) ==> FreshParent(u, done, seen0, p)
  {
  }

  /** One level: every commit met for the first time is looked up. */
  method VisitLevel(u: Contents, level: seq<Oid>, seen0: set<Oid>, last: bool)
    returns (ok: bool, s: Round)
    ensures ok ==> RoundInv(u, level, seen0, last, s)
    ensures !ok ==> exists c :: c in level && c !in seen0 && !IsCommit(u, c)
  {
    hide RoundInv;
    s := Round(seen0, [], [], []);
    EmptyRound(u, seen0, last);
    for i := 0 to |level|
      invariant RoundInv(u, level[..i], seen0, last, s)
    {
      TakeNext(level, i);
      ok, s := Visit(u, level[..i], level[i], seen0, last, s);
      if !ok {
        assert level[i] in level;
        return;
      }
    }
    TakeAll(level);
    ok := true;
  }

  lemma EmptyRound(u: Contents, seen0: set<Oid>, last: bool)
    ensures RoundInv(u, [], seen0, last, Round(seen0, [], [], []))
  {
  }

  /** What the walk is asked for, in terms of exact shortest distances: `shallow` is the commits whose
      distance is the depth and that have parents, `exclude` those parents that are not within the
      depth themselves; each is named once. */
  ghost predicate IsPlan(u: Contents, wants: seq<Oid>, depth: nat, p: Plan) {
    var g := ParentGraph(u);
    && Distinct(p.shallow) && Ascending(p.exclude)
    && (forall c :: c in p.shallow <==> AtDepth(g, wants, c, depth) && IsCommit(u, c) && u[c].parents != [])
    && (forall e :: e in p.exclude <==> !WithinDepth(g, wants, e, depth) && DeepParent(u, wants, depth, e))
  }

  method Retain(t: seq<Oid>, seen: set<Oid>) returns (r: seq<Oid>)
    requires Ascending(t)
    ensures Ascending(r) && forall x :: x in r <==> x in t && x !in seen
  {
    r := [];
    for i := 0 to |t|
      invariant Ascending(r) && forall x :: x in r <==> x in t[..i] && x !in seen
    {
      assert forall k | 0 <= k < |r| :: r[k] in t[..i];
      TakeNext(t, i);
      if t[i] !in seen {
        r := r + [t[i]];
      }
    }
    TakeAll(t);
  }

  lemma FirstLevel(g: Graph<Oid>, wants: seq<Oid>)
    ensures LevelInv(g, wants, 0, {}, wants)
  {
  }

  /** A level's commits are met within any depth that reaches it. */
  lemma LevelWithin(g: Graph<Oid>, wants: seq<Oid>, d: nat, seen: set<Oid>, level: seq<Oid>, c: Oid, last: nat)
    requires LevelInv(g, wants, d, seen, level) && c in level && d < last
    ensures WithinDepth(g, wants, c, last)
  {
  }

  /** The walk is over: `seen` holds what lies within the depth, `shallow` and `exclude` what the last
      level added. */
  ghost predicate Finished(u: Contents, wants: seq<Oid>, last: nat, seen: set<Oid>, shallow: seq<Oid>, exclude: seq<Oid>) {
    var g := ParentGraph(u);
    && (forall c :: c in seen <==> WithinDepth(g, wants, c, last))
    && (forall c :: c in shallow <==> AtDepth(g, wants, c, last) && IsCommit(u, c) && u[c].parents != [])
    && Distinct(shallow)
    && (forall e :: e in exclude <==> DeepParent(u, wants, last, e))
  }

  /** e is a parent of a commit at exactly this depth. */
  ghost predicate DeepParent(u: Contents, wants: seq<Oid>, depth: nat, e: Oid) {
    exists c :: AtDepth(ParentGraph(u), wants, c, depth) && IsParent(u, e, c)
  }

  lemma NewIsAtDepth(g: Graph<Oid>, wants: seq<Oid>, d: nat, seen: set<Oid>, level: seq<Oid>, c: Oid)
    requires LevelInv(g, wants, d, seen, level)
    ensures c in level && c !in seen <==> AtDepth(g, wants, c, d + 1)
  {
  }

  lemma FreshIsDeep(u: Contents, wants: seq<Oid>, d: nat, seen: set<Oid>, level: seq<Oid>, e: Oid)
    requires LevelInv(ParentGraph(u), wants, d, seen, level)
    ensures FreshParent(u, level, seen, e) <==> DeepParent(u, wants, d + 1, e)
  {
    hide LevelInv, AtDepth, IsParent;
    forall c
      ensures c in level && c !in seen <==> AtDepth(ParentGraph(u), wants, c, d + 1)
    {
      NewIsAtDepth(ParentGraph(u), wants, d, seen, level, c);
    }
  }

  lemma LevelDone(u: Contents, wants: seq<Oid>, d: nat, seen: set<Oid>, level: seq<Oid>, last: bool, s: Round)
    requires LevelInv(ParentGraph(u), wants, d, seen, level) && RoundInv(u, level, seen, last, s)
    requires forall c | c in seen :: IsCommit(u, c)
    ensures !last ==> LevelInv(ParentGraph(u), wants, d + 1, s.seen, s.next) && s.shallow == [] && s.exclude == []
    ensures last ==> Finished(u, wants, d + 1, s.seen, s.shallow, s.exclude)
    ensures seen <= s.seen && (forall c | c in s.seen :: IsCommit(u, c)) && (s.next != [] ==> seen < s.seen)
  {
    hide FreshParent, LevelInv, AtDepth, IsParent, DeepParent, WithinDepth;
    if last {
      LastLevelDone(u, wants, d, seen, level, s);
    } else {
      NextLevel(u, wants, d, seen, level, s.seen, s.next);
      FirstIsMember(s.shallow);
      FirstIsMember(s.exclude);
    }
  }

  lemma LastLevelDone(u: Contents, wants: seq<Oid>, d: nat, seen: set<Oid>, level: seq<Oid>, s: Round)
    requires LevelInv(ParentGraph(u), wants, d, seen, level) && RoundInv(u, level, seen, true, s)
    ensures Finished(u, wants, d + 1, s.seen, s.shallow, s.exclude)
  {
    hide FreshParent, AtDepth, IsParent, DeepParent, WithinDepth, LevelInv;
    var g := ParentGraph(u);
    forall c
      ensures c in level && c !in seen <==> AtDepth(g, wants, c, d + 1)
      ensures c in s.seen <==> WithinDepth(g, wants, c, d + 1)
    {
      NewIsAtDepth(g, wants, d, seen, level, c);
      SeenIsWithin(g, wants, d, seen, level, c);
    }
    forall e
      ensures FreshParent(u, level, seen, e) <==> DeepParent(u, wants, d + 1, e)
    {
      FreshIsDeep(u, wants, d, seen, level, e);
    }
  }

  lemma SeenIsWithin(g: Graph<Oid>, wants: seq<Oid>, d: nat, seen: set<Oid>, level: seq<Oid>, c: Oid)
    requires LevelInv(g, wants, d, seen, level)
    ensures c in seen || c in level <==> WithinDepth(g, wants, c, d + 1)
  {
    if StepsTo(g, wants, c, d) {
      assert WithinDepth(g, wants, c, d + 1);
    }
  }

  /** The levels ran out before the depth did. */
  lemma NothingDeeper(u: Contents, wants: seq<Oid>, d: nat, seen: set<Oid>, last: nat)
    requires LevelInv(ParentGraph(u), wants, d, seen, []) && d < last
    ensures Finished(u, wants, last, seen, [], [])
  {
    hide IsParent;
    var g := ParentGraph(u);
    forall c
      ensures c in seen <==> WithinDepth(g, wants, c, last)
      ensures !AtDepth(g, wants, c, last)
    {
      if StepsTo(g, wants, c, last - 1) {
        HistoryExhausted(g, wants, d, seen, c, last - 1);
      }
      if WithinDepth(g, wants, c, last) {
        var n: nat :| n < last && StepsTo(g, wants, c, n);
        HistoryExhausted(g, wants, d, seen, c, n);
      }
    }
  }

  lemma FinishedIsPlan(u: Contents, wants: seq<Oid>, last: nat, seen: set<Oid>, shallow: seq<Oid>, exclude0: seq<Oid>, exclude: seq<Oid>)
    requires Finished(u, wants, last, seen, shallow, exclude0) && Ascending(exclude)
    requires forall e :: e in exclude <==> e in exclude0 && e !in seen
    ensures IsPlan(u, wants, last, Plan(shallow, exclude))
    ensures forall c :: c in seen <==> WithinDepth(ParentGraph(u), wants, c, last)
  {
    hide AtDepth, WithinDepth, IsParent, DeepParent;
  }

  // ---- the computation ----

  function LastLevel(depth: nat): nat {
    if depth == 0 then 1 else depth
  }

  /** Finds the plan, unless a commit within the depth cannot be read. However large the depth, the
      number of levels looked at is bounded by the commits that exist. */
  method ComputeShallow(u: Contents, wants: seq<Oid>, depth: nat) returns (r: Option<Plan>, ghost rounds: nat)
    ensures r.None? <==> exists c :: WithinDepth(ParentGraph(u), wants, c, if depth == 0 then 1 else depth) && !IsCommit(u, c)
    ensures r.Some? ==> IsPlan(u, wants, if depth == 0 then 1 else depth, r.value)
    ensures r.Some? ==> rounds <= |u.Keys| + 1
  {
    hide RoundInv, LevelInv, WithinDepth, IsPlan, StepsTo, Finished, Ascending;
    var last := LastLevel(depth);
    ghost var g := ParentGraph(u);
    var seen: set<Oid>, level, shallow, exclude := {}, wants, [], [];
    rounds := 0;
    FirstLevel(g, wants);
    var d := 1;
    while d <= last && level != []
      invariant 1 <= d <= last + 1
      invariant seen <= u.Keys && forall c | c in seen :: IsCommit(u, c)
      invariant rounds <= |seen| + (if level == [] then 1 else 0)
      invariant d <= last ==> shallow == [] && exclude == [] && LevelInv(g, wants, d - 1, seen, level)
      invariant d == last + 1 ==> Finished(u, wants, last, seen, shallow, exclude)
    {
      var ok, s := VisitLevel(u, level, seen, d == last);
      if !ok {
        ghost var c :| c in level && c !in seen && !IsCommit(u, c);
        LevelWithin(g, wants, d - 1, seen, level, c, last);
        return None, rounds;
      }
      LevelDone(u, wants, d - 1, seen, level, d == last, s);
      rounds := rounds + 1;
      SubsetGrows(seen, s.seen);
      NothingAppended(s.shallow);
      NothingAppended(s.exclude);
      shallow, exclude := shallow + s.shallow, exclude + s.exclude;
      seen, level := s.seen, s.next;
      d := d + 1;
    }
    if d <= last {
      NothingDeeper(u, wants, d - 1, seen, last);
    }
    SubsetSize(seen, u.Keys);
    var sorted := SortedDistinct(exclude);
    sorted := Retain(sorted, seen);
    FinishedIsPlan(u, wants, last, seen, shallow, exclude, sorted);
    r := Some(Plan(shallow, sorted));
  }
}
