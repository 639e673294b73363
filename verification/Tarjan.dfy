/** Strongly connected components by Tarjan's algorithm, as the import map plugin uses it to rename
    chunks "dependencies first" (web/plugins/importmap.ts). */
module Tarjan {
  import opened Reachability
  import opened Seqs

  /** The algorithm's maps and stacks at one moment; gray is the chain of visits in progress. */
  datatype Snapshot<T> = Snapshot(
    index: nat,
    idx: map<T, nat>,
    stack: seq<T>,
    onStack: set<T>,
    out: seq<seq<T>>,
    gray: set<T>)

  function Edges<T>(adj: map<T, seq<T>>): Graph<T> {
    map v | v in adj :: set w | w in adj[v]
  }

  /** Edges stay within the listed vertices. */
  ghost predicate EdgesInside<T>(adj: map<T, seq<T>>) {
    forall v | v in adj :: forall w | w in adj[v] :: w in adj
  }

  lemma EdgeKeys<T>(adj: map<T, seq<T>>)
    ensures Edges(adj).Keys == adj.Keys
  {
  }

  lemma EdgeInside<T>(adj: map<T, seq<T>>, v: T, w: T)
    requires EdgesInside(adj) && v in adj && w in adj[v]
    ensures w in adj && w in Succ(Edges(adj), v) && Edges(adj).Keys == adj.Keys
  {
  }

  /** c is one whole strongly connected component. */
  ghost predicate IsComponent<T(!new)>(g: Graph<T>, c: seq<T>) {
    && c != []
    && forall x, y | x in c :: y in c <==> Mutual(g, x, y)
  }

  ghost function Emitted<T>(out: seq<seq<T>>): set<T> {
    set i, x | 0 <= i < |out| && x in out[i] :: x
  }

  ghost predicate TotalOrder<T(!new)>(leq: (T, T) -> bool) {
    && (forall x, y :: leq(x, y) || leq(y, x))
    && (forall x, y :: leq(x, y) && leq(y, x) ==> x == y)
    && (forall x, y, z :: leq(x, y) && leq(y, z) ==> leq(x, z))
  }

  predicate StrictlySorted<T(==)>(leq: (T, T) -> bool, s: seq<T>) {
    forall i, j | 0 <= i < j < |s| :: leq(s[i], s[j]) && s[i] != s[j]
  }

  /** What the plugin relies on: whole components, none twice, dependencies first. */
  ghost predicate DependenciesFirst<T(!new)>(g: Graph<T>, leq: (T, T) -> bool, out: seq<seq<T>>) {
    && (forall i | 0 <= i < |out| :: IsComponent(g, out[i]) && StrictlySorted(leq, out[i]))
    && (forall i, j | 0 <= i < j < |out| :: forall x | x in out[i] :: x !in out[j])
    && (forall k | 0 <= k <= |out| :: Closed(g, Emitted(out[..k])))
  }

  ghost predicate Numbered<T>(g: Graph<T>, s: Snapshot<T>) {
    && s.idx.Keys <= g.Keys
    && (forall v | v in s.idx :: s.idx[v] < s.index)
    && (forall u, v | u in s.idx && v in s.idx && s.idx[u] == s.idx[v] :: u == v)
  }

  ghost predicate StackOrdered<T>(s: Snapshot<T>) {
    && s.gray <= s.onStack <= s.idx.Keys
    && (forall v | v in s.onStack :: v in s.stack)
    && (forall v | v in s.stack :: v in s.onStack)
    && (forall i, j | 0 <= i < j < |s.stack| :: s.idx[s.stack[i]] < s.idx[s.stack[j]])
  }

  /** Gray vertices reach everything above them on the stack, and everything on the stack reaches
      a gray vertex below it. */
  ghost predicate StackConnected<T(!new)>(g: Graph<T>, s: Snapshot<T>)
    requires s.gray <= s.onStack <= s.idx.Keys
  {
    && (forall x, y | x in s.gray && y in s.onStack && s.idx[x] <= s.idx[y] :: Reaches(g, x, y))
    && (forall y {:trigger DescendsToGray(g, s, y)} | y in s.onStack :: DescendsToGray(g, s, y))
  }

  ghost predicate DescendsToGray<T(!new)>(g: Graph<T>, s: Snapshot<T>, y: T)
    requires s.gray <= s.onStack <= s.idx.Keys && y in s.idx
  {
    exists x :: x in s.gray && s.idx[x] <= s.idx[y] && Reaches(g, y, x)
  }

  lemma Descends<T(!new)>(g: Graph<T>, s: Snapshot<T>, y: T, x: T)
    requires s.gray <= s.onStack <= s.idx.Keys && y in s.idx
    requires x in s.gray && s.idx[x] <= s.idx[y] && Reaches(g, y, x)
    ensures DescendsToGray(g, s, y)
  {
  }

  lemma GrayBelow<T(!new)>(g: Graph<T>, s: Snapshot<T>, y: T) returns (x: T)
    requires s.gray <= s.onStack <= s.idx.Keys && y in s.idx && DescendsToGray(g, s, y)
    ensures x in s.gray && s.idx[x] <= s.idx[y] && Reaches(g, y, x)
  {
    x :| x in s.gray && s.idx[x] <= s.idx[y] && Reaches(g, y, x);
  }

  ghost predicate Inv<T(!new)>(g: Graph<T>, leq: (T, T) -> bool, s: Snapshot<T>) {
    && Numbered(g, s)
    && StackOrdered(s)
    && StackConnected(g, s)
    && Emitted(s.out) == s.idx.Keys - s.onStack
    && DependenciesFirst(g, leq, s.out)
    && (forall v | v in s.idx && v !in s.gray :: Succ(g, v) <= s.idx.Keys)
  }

  /** later keeps every number and everything on the stack and in the output of earlier. */
  ghost predicate Extends<T>(earlier: Snapshot<T>, later: Snapshot<T>) {
    && earlier.idx.Keys <= later.idx.Keys
    && (forall v | v in earlier.idx :: later.idx[v] == earlier.idx[v])
    && earlier.stack <= later.stack
    && earlier.out <= later.out
    && later.gray == earlier.gray
    && (forall v | v in later.idx && v !in earlier.idx :: later.idx[v] >= earlier.index)
    && earlier.index <= later.index
  }

  /** No edge from the stack at or above height n reaches a vertex of below numbered less than bound. */
  ghost predicate NoLowerEdge<T>(g: Graph<T>, s: Snapshot<T>, n: nat, below: set<T>, bound: nat) {
    && n <= |s.stack|
    && forall i, w | n <= i < |s.stack| && w in Succ(g, s.stack[i]) && w in below && w in s.idx :: bound <= s.idx[w]
  }

  function Push<T>(s: Snapshot<T>, v: T): Snapshot<T> {
    Snapshot(s.index + 1, s.idx[v := s.index], s.stack + [v], s.onStack + {v}, s.out, s.gray + {v})
  }

  lemma PushKeepsInv<T(!new)>(g: Graph<T>, leq: (T, T) -> bool, s: Snapshot<T>, v: T)
    requires Inv(g, leq, s) && v in g && v !in s.idx
    requires forall x | x in s.gray :: Reaches(g, x, v)
    ensures Inv(g, leq, Push(s, v))
  {
    hide Reaches, StackConnected, DependenciesFirst, Emitted, StackOrdered;
    var t := Push(s, v);
    assert Numbered(g, t);
    PushKeepsStack(g, s, v);
    SetsAfterPush(s, v);
  }

  lemma SetsAfterPush<T>(s: Snapshot<T>, v: T)
    requires v !in s.idx
    ensures Push(s, v).idx.Keys - Push(s, v).onStack == s.idx.Keys - s.onStack
  {
  }

  lemma PushKeepsStack<T(!new)>(g: Graph<T>, s: Snapshot<T>, v: T)
    requires Numbered(g, s) && StackOrdered(s) && StackConnected(g, s) && v !in s.idx
    requires forall x | x in s.gray :: Reaches(g, x, v)
    ensures StackOrdered(Push(s, v)) && StackConnected(g, Push(s, v))
  {
    hide Reaches, DescendsToGray;
    var t := Push(s, v);
    assert StackOrdered(t);
    ReachesSelf(g, v);
    assert StackConnected(g, t) by {
      forall y | y in t.onStack
        ensures DescendsToGray(g, t, y)
      {
        if y == v {
          Descends(g, t, v, v);
        } else {
          assert DescendsToGray(g, s, y);
          var x := GrayBelow(g, s, y);
          Descends(g, t, y, x);
        }
      }
    }
  }

  /** A visit that found an edge to an older stack vertex leaves its vertices on the stack. */
  lemma LeaveOpen<T(!new)>(g: Graph<T>, leq: (T, T) -> bool, s0: Snapshot<T>, s: Snapshot<T>, v: T, y: T)
    requires Inv(g, leq, s0) && Inv(g, leq, s) && v in s.idx && v !in s0.idx
    requires s0.idx.Keys <= s.idx.Keys
    requires forall u | u in s0.idx :: s.idx[u] == s0.idx[u]
    requires s.gray == s0.gray + {v} && Succ(g, v) <= s.idx.Keys
    requires y in s0.onStack && y in s.onStack && s.idx[y] < s.idx[v] && Reaches(g, v, y)
    ensures Inv(g, leq, s.(gray := s0.gray))
  {
    hide Reaches, DescendsToGray, DependenciesFirst, Emitted;
    var t := s.(gray := s0.gray);
    assert DescendsToGray(g, s0, y);
    var x := GrayBelow(g, s0, y);
    ReachesTransitive(g, v, y, x);
    forall z | z in s.onStack
      ensures DescendsToGray(g, t, z)
    {
      assert DescendsToGray(g, s, z);
      var u := GrayBelow(g, s, z);
      if u == v {
        ReachesTransitive(g, z, v, x);
        Descends(g, t, z, x);
      } else {
        Descends(g, t, z, u);
      }
    }
  }

  /** Everything from v upwards on the stack is mutually reachable with v. */
  lemma TopIsMutual<T(!new)>(g: Graph<T>, leq: (T, T) -> bool, s0: Snapshot<T>, s: Snapshot<T>, v: T, x: T)
    requires Numbered(g, s) && StackOrdered(s) && StackConnected(g, s)
    requires v in s.gray && v !in s0.onStack && s.gray <= s0.onStack + {v}
    requires s0.stack + [v] <= s.stack && forall u | u in s0.onStack :: u in s0.stack
    requires x in s.stack[|s0.stack|..]
    ensures s.idx[v] <= s.idx[x] && Mutual(g, v, x)
  {
    hide Reaches, DescendsToGray;
    var n := |s0.stack|;
    var i :| n <= i < |s.stack| && s.stack[i] == x;
    assert s.stack[n] == v;
    assert s.idx[v] <= s.idx[x];
    assert DescendsToGray(g, s, x);
    var u := GrayBelow(g, s, x);
    if u != v {
      var j :| 0 <= j < n && s0.stack[j] == u;
      assert s.stack[j] == u && s.stack[n] == v;
      ReachesTransitive(g, x, u, v);
    }
  }

  /** Below v on the stack numbers are smaller than v's, above it they are larger. */
  lemma StackAround<T(!new)>(s0: Snapshot<T>, s: Snapshot<T>, v: T)
    requires StackOrdered(s) && s0.stack + [v] <= s.stack && v in s.idx
    requires forall u | u in s0.onStack :: u in s0.stack
    ensures forall u | u in s0.onStack :: u in s.idx && s.idx[u] < s.idx[v]
    ensures forall x | x in s.stack[|s0.stack|..] :: x in s.idx && s.idx[v] <= s.idx[x]
  {
    var n := |s0.stack|;
    assert s.stack[n] == v;
    forall u | u in s0.onStack
      ensures u in s.idx && s.idx[u] < s.idx[v]
    {
      var k :| 0 <= k < n && s0.stack[k] == u;
      assert s.stack[k] == u;
    }
    forall x | x in s.stack[n..]
      ensures x in s.idx && s.idx[v] <= s.idx[x]
    {
      var i :| n <= i < |s.stack| && s.stack[i] == x;
    }
  }

  /** When no edge leads from the top of the stack below v, the top and the finished vertices
      together are closed. */
  lemma TopIsClosed<T(!new)>(g: Graph<T>, leq: (T, T) -> bool, s0: Snapshot<T>, s: Snapshot<T>, v: T, top: set<T>)
    requires Numbered(g, s) && StackOrdered(s) && Emitted(s.out) == s.idx.Keys - s.onStack
    requires Closed(g, Emitted(s.out))
    requires forall u | u in s.idx && u !in s.gray :: Succ(g, u) <= s.idx.Keys
    requires v in s.gray && s.gray <= s0.onStack + {v}
    requires StackOrdered(s0) && s0.stack + [v] <= s.stack
    requires Succ(g, v) <= s.idx.Keys
    requires NoLowerEdge(g, s, |s0.stack|, s0.onStack, s.idx[v])
    requires top == set x | x in s.stack[|s0.stack|..]
    ensures Closed(g, Emitted(s.out) + top)
  {
    hide Emitted;
    var n := |s0.stack|;
    StackAround(s0, s, v);
    SplitStack(s0, s, v);
    forall x, w | x in top && w in Succ(g, x)
      ensures w in Emitted(s.out) + top
    {
      assert x in s.stack[n..] && s.idx[v] <= s.idx[x];
      assert w in s.idx.Keys;
      assert w !in s0.onStack;
    }
  }

  /** A closed set of finished components and one mutual class is that class's component. */
  lemma ClosedClassIsComponent<T(!new)>(g: Graph<T>, leq: (T, T) -> bool, out: seq<seq<T>>, v: T, c: seq<T>)
    requires DependenciesFirst(g, leq, out) && v in c
    requires forall x | x in c :: Mutual(g, v, x) && x !in Emitted(out)
    requires Closed(g, Emitted(out) + set x | x in c)
    ensures IsComponent(g, c)
  {
    hide Reaches;
    forall x, y | x in c
      ensures y in c <==> Mutual(g, x, y)
    {
      if y in c {
        ReachesTransitive(g, x, v, y);
        ReachesTransitive(g, y, v, x);
      } else if y in Emitted(out) {
        var i :| 0 <= i < |out| && y in out[i];
        assert IsComponent(g, out[i]) && x !in out[i];
        assert x in out[i] <==> Mutual(g, y, x);
      } else if Reaches(g, x, y) {
        ClosedHoldsReachable(g, Emitted(out) + (set z | z in c), x, y);
        assert false;
      }
    }
  }

  /** Popping a finished component keeps the output dependencies-first. */
  lemma EmitIsNextComponent<T(!new)>(g: Graph<T>, leq: (T, T) -> bool, s0: Snapshot<T>, s: Snapshot<T>, v: T, c: seq<T>)
    requires Inv(g, leq, s0) && Inv(g, leq, s) && Extends(Push(s0, v), s)
    requires Succ(g, v) <= s.idx.Keys
    requires NoLowerEdge(g, s, |s0.stack|, s0.onStack, s.idx[v])
    requires v !in s0.idx
    requires StrictlySorted(leq, c) && (set x | x in c) == set x | x in s.stack[|s0.stack|..]
    ensures DependenciesFirst(g, leq, s.out + [c])
  {
    hide Reaches, DescendsToGray, Emitted, DependenciesFirst, Closed, NoLowerEdge, IsComponent, StrictlySorted;
    var n := |s0.stack|;
    var top := set x | x in c;
    assert s.stack[n] == v && v in top by { assert v == s.stack[n..][0]; }
    FinishedClosed(g, leq, s.out);
    TopIsClosed(g, leq, s0, s, v, top);
    SplitStack(s0, s, v);
    forall x | x in c
      ensures Mutual(g, v, x) && x !in Emitted(s.out)
    {
      assert x in top;
      TopIsMutual(g, leq, s0, s, v, x);
    }
    ClosedClassIsComponent(g, leq, s.out, v, c);
    AppendComponent(g, leq, s.out, c);
  }

  lemma EmitKeepsInv<T(!new)>(g: Graph<T>, leq: (T, T) -> bool, s0: Snapshot<T>, s: Snapshot<T>, v: T, c: seq<T>)
    requires Inv(g, leq, s0) && Inv(g, leq, s) && Extends(Push(s0, v), s)
    requires Succ(g, v) <= s.idx.Keys
    requires NoLowerEdge(g, s, |s0.stack|, s0.onStack, s.idx[v])
    requires v !in s0.idx
    requires StrictlySorted(leq, c) && (set x | x in c) == set x | x in s.stack[|s0.stack|..]
    ensures Inv(g, leq, Emit(s0, s, c))
  {
    hide Reaches, StackConnected, Emitted, DependenciesFirst, NoLowerEdge, StrictlySorted, StackOrdered;
    EmitIsNextComponent(g, leq, s0, s, v, c);
    var t := Emit(s0, s, c);
    EmitKeepsStack(g, s0, s, v, c);
    SplitStack(s0, s, v);
    EmittedAppend(s.out, c);
    RemainingKeys(s.idx.Keys, s.onStack, s0.onStack, set x | x in c);
    assert Emitted(t.out) == t.idx.Keys - t.onStack;
    assert Numbered(g, t);
    assert s.gray == s0.gray + {v};
  }

  lemma RemainingKeys<T>(keys: set<T>, stack: set<T>, lower: set<T>, top: set<T>)
    requires stack == lower + top && stack <= keys && lower !! top
    ensures keys - stack + top == keys - lower
  {
  }

  lemma EmitKeepsStack<T(!new)>(g: Graph<T>, s0: Snapshot<T>, s: Snapshot<T>, v: T, c: seq<T>)
    requires StackOrdered(s0) && StackConnected(g, s0) && StackOrdered(s) && Extends(Push(s0, v), s) && v !in s0.idx
    ensures StackOrdered(Emit(s0, s, c)) && StackConnected(g, Emit(s0, s, c))
    ensures s.onStack <= s.idx.Keys
  {
    hide Reaches, DescendsToGray;
    var t := Emit(s0, s, c);
    assert forall u | u in s0.idx :: u in Push(s0, v).idx && s.idx[u] == s0.idx[u];
    assert StackOrdered(t);
    assert StackConnected(g, t) by {
      forall y | y in t.onStack
        ensures DescendsToGray(g, t, y)
      {
        assert DescendsToGray(g, s0, y);
        var u := GrayBelow(g, s0, y);
        Descends(g, t, y, u);
      }
    }
  }

  function Emit<T>(s0: Snapshot<T>, s: Snapshot<T>, c: seq<T>): Snapshot<T> {
    Snapshot(s.index, s.idx, s0.stack, s0.onStack, s.out + [c], s0.gray)
  }

  lemma FinishedClosed<T(!new)>(g: Graph<T>, leq: (T, T) -> bool, out: seq<seq<T>>)
    requires DependenciesFirst(g, leq, out)
    ensures Closed(g, Emitted(out))
  {
    hide Closed, IsComponent, StrictlySorted;
    assert out[..|out|] == out;
    assert Closed(g, Emitted(out[..|out|]));
  }

  lemma SplitStack<T>(s0: Snapshot<T>, s: Snapshot<T>, v: T)
    requires StackOrdered(s0) && StackOrdered(s) && s0.stack + [v] <= s.stack
    ensures s0.onStack !! (set x | x in s.stack[|s0.stack|..])
    ensures s.onStack == s0.onStack + set x | x in s.stack[|s0.stack|..]
  {
    var n := |s0.stack|;
    assert s.stack == s0.stack + s.stack[n..];
    forall x | x in s0.onStack
      ensures x !in s.stack[n..]
    {
      var k :| 0 <= k < n && s0.stack[k] == x;
      assert s.stack[k] == x;
      assert forall i | n <= i < |s.stack| :: s.idx[s.stack[k]] < s.idx[s.stack[i]];
    }
  }

  lemma EmittedAppend<T(!new)>(out: seq<seq<T>>, c: seq<T>)
    ensures Emitted(out + [c]) == Emitted(out) + set x | x in c
  {
    var all := out + [c];
    assert all[|out|] == c;
    forall x | x in Emitted(out)
      ensures x in Emitted(all)
    {
      var i :| 0 <= i < |out| && x in out[i];
      assert all[i] == out[i];
    }
  }

  lemma AppendComponent<T(!new)>(g: Graph<T>, leq: (T, T) -> bool, out: seq<seq<T>>, c: seq<T>)
    requires DependenciesFirst(g, leq, out) && IsComponent(g, c) && StrictlySorted(leq, c)
    requires forall x | x in c :: x !in Emitted(out)
    requires Closed(g, Emitted(out) + set x | x in c)
    ensures DependenciesFirst(g, leq, out + [c])
  {
    hide IsComponent, StrictlySorted, Closed;
    var all := out + [c];
    EmittedAppend(out, c);
    forall k | 0 <= k <= |all|
      ensures Closed(g, Emitted(all[..k]))
    {
      if k <= |out| {
        assert all[..k] == out[..k];
      } else {
        assert all[..k] == all;
      }
    }
  }

  lemma {:induction false} InsertKeepsSorted<T(!new)>(leq: (T, T) -> bool, s: seq<T>, x: T)
    requires TotalOrder(leq) && StrictlySorted(leq, s) && x !in s
    ensures StrictlySorted(leq, Insert(leq, s, x))
    ensures forall y :: y in Insert(leq, s, x) <==> y == x || y in s
  {
    if s != [] && !leq(x, s[0]) {
      assert s == [s[0]] + s[1..];
      InsertKeepsSorted(leq, s[1..], x);
      var r := Insert(leq, s[1..], x);
      assert forall y | y in r :: leq(s[0], y) && y != s[0];
    } else {
      assert forall y | y in s :: leq(x, y);
    }
  }

  function Sorted<T>(leq: (T, T) -> bool, s: seq<T>): seq<T> {
    if s == [] then [] else Insert(leq, Sorted(leq, s[1..]), s[0])
  }

  function Insert<T>(leq: (T, T) -> bool, s: seq<T>, x: T): seq<T> {
    if s == [] || leq(x, s[0]) then [x] + s else [s[0]] + Insert(leq, s[1..], x)
  }

  lemma SortedIsPermutation<T(!new)>(leq: (T, T) -> bool, s: seq<T>)
    requires TotalOrder(leq)
    requires forall i, j | 0 <= i < j < |s| :: s[i] != s[j]
    ensures StrictlySorted(leq, Sorted(leq, s))
    ensures forall y :: y in Sorted(leq, s) <==> y in s
  {
    if s != [] {
      SortedIsPermutation(leq, s[1..]);
      InsertKeepsSorted(leq, Sorted(leq, s[1..]), s[0]);
    }
  }

  /** What a visit of v leaves in low[v], relative to the state s0 before it. */
  ghost predicate Lowlink<T(!new)>(g: Graph<T>, s0: Snapshot<T>, s: Snapshot<T>, v: T, low: nat) {
    && v in s.idx
    && low <= s.idx[v]
    && (low == s.idx[v] ==> s.stack == s0.stack)
    && (low < s.idx[v] ==> LowWitness(g, s, s0.onStack, v, low))
    && NoLowerEdge(g, s, |s0.stack|, s0.onStack, low)
  }

  ghost predicate LowWitness<T(!new)>(g: Graph<T>, s: Snapshot<T>, among: set<T>, v: T, low: nat) {
    exists y :: y in among && y in s.idx && s.idx[y] == low && Reaches(g, v, y)
  }

  /** What the loop over the edges of v keeps; s0 is the state before the visit, done the edges seen. */
  ghost predicate LoopLow<T(!new)>(g: Graph<T>, s0: Snapshot<T>, s: Snapshot<T>, v: T, done: seq<T>, low: nat) {
    && v in s.idx
    && low <= s.idx[v]
    && LowWitness(g, s, s.onStack, v, low)
    && NoLowerEdge(g, s, |s0.stack| + 1, s0.onStack, low)
    && (forall w | w in done :: w in s.idx && (w in s0.onStack ==> low <= s.idx[w]))
  }

  lemma OldStackStays<T>(s0: Snapshot<T>, s: Snapshot<T>)
    requires StackOrdered(s0) && StackOrdered(s) && s0.stack <= s.stack
    ensures s0.onStack <= s.onStack
  {
    forall u | u in s0.onStack
      ensures u in s.onStack
    {
      var k :| 0 <= k < |s0.stack| && s0.stack[k] == u;
      assert s.stack[k] == u;
    }
  }

  lemma StartLoop<T(!new)>(g: Graph<T>, leq: (T, T) -> bool, s0: Snapshot<T>, v: T)
    requires Inv(g, leq, s0) && v in g && v !in s0.idx
    requires forall x | x in s0.gray :: Reaches(g, x, v)
    ensures Inv(g, leq, Push(s0, v))
    ensures Extends(Push(s0, v), Push(s0, v))
    ensures LoopLow(g, s0, Push(s0, v), v, [], s0.index)
  {
    hide Reaches, DependenciesFirst, StackConnected, Emitted;
    PushKeepsInv(g, leq, s0, v);
    ReachesSelf(g, v);
    var s := Push(s0, v);
    assert v in s.onStack && s.idx[v] == s0.index;
  }

  /** Everything that a recursive visit of a fresh successor w of v asks for. */
  lemma BeforeVisit<T(!new)>(g: Graph<T>, s0: Snapshot<T>, s: Snapshot<T>, v: T, w: T)
    requires s.idx.Keys <= g.Keys && w in Succ(g, v) && w in g
    requires v !in s0.idx && Extends(Push(s0, v), s)
    requires forall x | x in s0.gray :: Reaches(g, x, v)
    ensures forall x | x in s.gray :: Reaches(g, x, w)
    ensures |g.Keys - s.idx.Keys| < |g.Keys - s0.idx.Keys|
  {
    hide Reaches;
    ReachesEdge(g, v, w);
    forall x | x in s.gray && x != v
      ensures Reaches(g, x, w)
    {
      ReachesTransitive(g, x, v, w);
    }
    assert v in s.idx && v in g.Keys - s0.idx.Keys;
    SubsetSize(g.Keys - s.idx.Keys, g.Keys - s0.idx.Keys - {v});
  }

  lemma ExtendsTransitive<T>(s0: Snapshot<T>, s1: Snapshot<T>, s2: Snapshot<T>)
    requires Extends(s0, s1) && Extends(s1, s2)
    ensures Extends(s0, s2)
  {
  }

  lemma NoLowerSplice<T>(g: Graph<T>, s1: Snapshot<T>, s2: Snapshot<T>, n: nat,
                         below: set<T>, below': set<T>, b1: nat, b2: nat, low: nat)
    requires Extends(s1, s2) && below <= below' && below <= s1.idx.Keys
    requires NoLowerEdge(g, s1, n, below, b1) && NoLowerEdge(g, s2, |s1.stack|, below', b2)
    requires low <= b1 && low <= b2
    ensures NoLowerEdge(g, s2, n, below, low)
  {
    forall i, w | n <= i < |s2.stack| && w in Succ(g, s2.stack[i]) && w in below && w in s2.idx
      ensures low <= s2.idx[w]
    {
      if i < |s1.stack| {
        assert s2.stack[i] == s1.stack[i];
      }
    }
  }

  /** A recursive visit of the successor w. */
  lemma AfterVisit<T(!new)>(g: Graph<T>, leq: (T, T) -> bool, s0: Snapshot<T>, s1: Snapshot<T>, s2: Snapshot<T>,
                            v: T, w: T, done: seq<T>, lowV: nat, lowW: nat)
    requires Inv(g, leq, s0) && Inv(g, leq, s1) && Inv(g, leq, s2)
    requires v !in s0.idx && w in Succ(g, v) && w !in s1.idx
    requires Extends(Push(s0, v), s1) && Extends(s1, s2)
    requires LoopLow(g, s0, s1, v, done, lowV) && Lowlink(g, s1, s2, w, lowW)
    ensures LoopLow(g, s0, s2, v, done + [w], if lowW < lowV then lowW else lowV)
    ensures Extends(Push(s0, v), s2)
  {
    hide Reaches, Inv, NoLowerEdge, LowWitness, Extends;
    var low := if lowW < lowV then lowW else lowV;
    ExtendsTransitive(Push(s0, v), s1, s2);
    StackGrows(g, leq, s0, Push(s0, v), s1);
    StackGrows(g, leq, s1, s1, s2);
    NewerIsLarger(g, leq, s1, s2, v, w);
    NoLowerSplice(g, s1, s2, |s0.stack| + 1, s0.onStack, s1.onStack, lowV, lowW, low);
    if lowW < lowV {
      WitnessThrough(g, s2, s1.onStack, s2.onStack, v, w, lowW);
    } else {
      WitnessKept(g, s1, s2, v, lowV);
    }
  }

  lemma StackGrows<T(!new)>(g: Graph<T>, leq: (T, T) -> bool, s0: Snapshot<T>, mid: Snapshot<T>, s: Snapshot<T>)
    requires Inv(g, leq, s0) && Inv(g, leq, s) && s0.stack <= mid.stack && Extends(mid, s)
    ensures s0.onStack <= s.onStack <= s.idx.Keys
  {
    hide DependenciesFirst, StackConnected, Emitted, Numbered;
    OldStackStays(s0, s);
  }

  lemma NewerIsLarger<T(!new)>(g: Graph<T>, leq: (T, T) -> bool, s1: Snapshot<T>, s2: Snapshot<T>, v: T, w: T)
    requires Inv(g, leq, s1) && Extends(s1, s2) && v in s1.idx && w in s2.idx && w !in s1.idx
    ensures v in s2.idx && s2.idx[v] == s1.idx[v] && s1.idx[v] < s2.idx[w]
    ensures forall u | u in s1.idx :: u in s2.idx && s2.idx[u] == s1.idx[u]
  {
    hide DependenciesFirst, StackConnected, Emitted, StackOrdered;
  }

  lemma WitnessThrough<T(!new)>(g: Graph<T>, s: Snapshot<T>, a: set<T>, b: set<T>, v: T, w: T, low: nat)
    requires w in Succ(g, v) && a <= b && LowWitness(g, s, a, w, low)
    ensures LowWitness(g, s, b, v, low)
  {
    hide Reaches;
    var y :| y in a && y in s.idx && s.idx[y] == low && Reaches(g, w, y);
    ReachesStep(g, v, w, y);
  }

  lemma WitnessKept<T(!new)>(g: Graph<T>, s1: Snapshot<T>, s2: Snapshot<T>, v: T, low: nat)
    requires s1.onStack <= s2.onStack && Extends(s1, s2) && LowWitness(g, s1, s1.onStack, v, low)
    ensures LowWitness(g, s2, s2.onStack, v, low)
  {
    hide Reaches;
    var y :| y in s1.onStack && y in s1.idx && s1.idx[y] == low && Reaches(g, v, y);
    assert s2.idx[y] == low;
  }

  /** An edge to a vertex w that already has a number. */
  lemma AfterBackEdge<T(!new)>(g: Graph<T>, leq: (T, T) -> bool, s0: Snapshot<T>, s: Snapshot<T>,
                               v: T, w: T, done: seq<T>, lowV: nat)
    requires Inv(g, leq, s0) && Inv(g, leq, s) && w in Succ(g, v) && w in s.idx
    requires Extends(Push(s0, v), s) && LoopLow(g, s0, s, v, done, lowV)
    ensures LoopLow(g, s0, s, v, done + [w], if w in s.onStack && s.idx[w] < lowV then s.idx[w] else lowV)
  {
    hide Reaches, Inv, Extends;
    StackGrows(g, leq, s0, Push(s0, v), s);
    if w in s.onStack && s.idx[w] < lowV {
      ReachesEdge(g, v, w);
    }
  }

  /** When all edges of v are done, nothing from v upwards has an edge below low[v]. */
  lemma LoopDone<T(!new)>(g: Graph<T>, s0: Snapshot<T>, s: Snapshot<T>, v: T, low: nat, done: seq<T>)
    requires Extends(Push(s0, v), s)
    requires LoopLow(g, s0, s, v, done, low) && Succ(g, v) == set w | w in done
    ensures Succ(g, v) <= s.idx.Keys
    ensures NoLowerEdge(g, s, |s0.stack|, s0.onStack, low)
  {
    hide Reaches, LowWitness;
    assert s.stack[|s0.stack|] == v;
  }

  /** The case in which v stays on the stack: its lowlink names a vertex below it. */
  lemma CloseOpen<T(!new)>(g: Graph<T>, leq: (T, T) -> bool, s0: Snapshot<T>, s: Snapshot<T>, v: T, done: seq<T>, low: nat)
    requires Inv(g, leq, s0) && Inv(g, leq, s) && v !in s0.idx && Extends(Push(s0, v), s)
    requires LoopLow(g, s0, s, v, done, low) && Succ(g, v) <= s.idx.Keys && low < s.idx[v]
    requires NoLowerEdge(g, s, |s0.stack|, s0.onStack, low)
    ensures Inv(g, leq, s.(gray := s0.gray))
    ensures Extends(s0, s.(gray := s0.gray))
    ensures Lowlink(g, s0, s.(gray := s0.gray), v, low)
  {
    hide Reaches, DependenciesFirst, Emitted, StackConnected, NoLowerEdge, Numbered;
    var y :| y in s.onStack && y in s.idx && s.idx[y] == low && Reaches(g, v, y);
    SplitStack(s0, s, v);
    StackAround(s0, s, v);
    LeaveOpen(g, leq, s0, s, v, y);
    assert s0.gray == s.gray - {v};
    ExtendsWithout(s0, s, v);
    assert NoLowerEdge(g, s.(gray := s0.gray), |s0.stack|, s0.onStack, low) by { NoLowerGray(g, s, s0.gray, |s0.stack|, s0.onStack, low); }
    assert LowWitness(g, s.(gray := s0.gray), s0.onStack, v, low);
  }

  lemma ExtendsWithout<T>(s0: Snapshot<T>, s: Snapshot<T>, v: T)
    requires v !in s0.idx && Extends(Push(s0, v), s)
    ensures Extends(s0, s.(gray := s0.gray))
  {
    var p := Push(s0, v);
    assert s0.stack <= p.stack <= s.stack;
    forall u | u in s.idx && u !in s0.idx
      ensures s.idx[u] >= s0.index
    {
      if u == v {
        assert p.idx[v] == s.idx[v];
      }
    }
    forall u | u in s0.idx
      ensures u in s.idx && s.idx[u] == s0.idx[u]
    {
      assert p.idx[u] == s0.idx[u];
    }
  }

  lemma NoLowerGray<T>(g: Graph<T>, s: Snapshot<T>, gray: set<T>, n: nat, below: set<T>, low: nat)
    requires NoLowerEdge(g, s, n, below, low)
    ensures NoLowerEdge(g, s.(gray := gray), n, below, low)
  {
  }

  /** The case in which v is popped with everything above it. */
  lemma CloseEmitted<T(!new)>(g: Graph<T>, leq: (T, T) -> bool, s0: Snapshot<T>, s: Snapshot<T>, v: T, c: seq<T>)
    requires Inv(g, leq, s0) && Inv(g, leq, s) && v !in s0.idx && Extends(Push(s0, v), s)
    requires Succ(g, v) <= s.idx.Keys && v in s.idx
    requires NoLowerEdge(g, s, |s0.stack|, s0.onStack, s.idx[v])
    requires StrictlySorted(leq, c) && (set x | x in c) == set x | x in s.stack[|s0.stack|..]
    ensures Inv(g, leq, Emit(s0, s, c))
    ensures Extends(s0, Emit(s0, s, c))
    ensures Lowlink(g, s0, Emit(s0, s, c), v, s.idx[v])
  {
    hide Reaches, Inv, StrictlySorted, Extends, Lowlink, NoLowerEdge;
    EmitKeepsInv(g, leq, s0, s, v, c);
    EmitExtends(s0, s, v, c);
    EmitLow(g, s0, s, v, c);
  }

  lemma EmitExtends<T>(s0: Snapshot<T>, s: Snapshot<T>, v: T, c: seq<T>)
    requires Extends(Push(s0, v), s) && v !in s0.idx
    ensures Extends(s0, Emit(s0, s, c))
  {
  }

  lemma EmitLow<T(!new)>(g: Graph<T>, s0: Snapshot<T>, s: Snapshot<T>, v: T, c: seq<T>)
    requires v in s.idx
    ensures Lowlink(g, s0, Emit(s0, s, c), v, s.idx[v])
  {
  }

  /** The vertices of s from height n upwards, as a popping loop collects them: topmost first. */
  ghost predicate Popped<T>(s: Snapshot<T>, scc: seq<T>, n: nat) {
    && n <= |s.stack|
    && |scc| == |s.stack| - n
    && (forall k | 0 <= k < |scc| :: scc[k] == s.stack[|s.stack| - 1 - k])
  }

  lemma PopOne<T>(s: Snapshot<T>, scc: seq<T>, n: nat)
    requires n < |s.stack| && Popped(s, scc, n + 1)
    ensures Popped(s, scc + [s.stack[n]], n)
    ensures (set x | x in scc + [s.stack[n]]) == (set x | x in scc) + {s.stack[n]}
  {
  }

  lemma PoppedAll<T>(s0: Snapshot<T>, s: Snapshot<T>, scc: seq<T>, v: T)
    requires StackOrdered(s0) && StackOrdered(s) && s0.stack + [v] <= s.stack && Popped(s, scc, |s0.stack|)
    ensures forall i, j | 0 <= i < j < |scc| :: scc[i] != scc[j]
    ensures (set x | x in scc) == set x | x in s.stack[|s0.stack|..]
    ensures s.onStack - (set x | x in scc) == s0.onStack
  {
    var n := |s0.stack|;
    forall x | x in s.stack[n..]
      ensures x in scc
    {
      var i :| 0 <= i < |s.stack| - n && s.stack[n..][i] == x;
      assert scc[|s.stack| - 1 - (n + i)] == x;
    }
    forall x | x in scc
      ensures x in s.stack[n..]
    {
      var k :| 0 <= k < |scc| && scc[k] == x;
      assert x == s.stack[n..][|s.stack| - 1 - k - n];
    }
    SplitStack(s0, s, v);
  }

  /** The state of one run; the fields are the variables the algorithm closes over. */
  class Run<T(==,!new)> {
    const adj: map<T, seq<T>>
    const leq: (T, T) -> bool
    var index: nat
    var idx: map<T, nat>
    var low: map<T, nat>
    var onStack: set<T>
    var stack: seq<T>
    var out: seq<seq<T>>
    ghost var gray: set<T>

    ghost function State(): Snapshot<T>
      reads this
    {
      Snapshot(index, idx, stack, onStack, out, gray)
    }

    ghost predicate Valid()
      reads this
    {
      && TotalOrder(leq)
      && EdgesInside(adj)
      && Inv(Edges(adj), leq, State())
      && (forall u | u in idx :: u in low)
      && (forall u | u in low :: u in idx)
    }

    constructor (adj: map<T, seq<T>>, leq: (T, T) -> bool)
      requires TotalOrder(leq)
      requires EdgesInside(adj)
      ensures Valid() && this.adj == adj && this.leq == leq
      ensures State() == Snapshot(0, map[], [], {}, [], {})
    {
      this.adj, this.leq := adj, leq;
      index, idx, low, onStack, stack, out := 0, map[], map[], {}, [], [];
      gray := {};
    }

    method Visit(v: T)
      requires Valid() && v in adj && v !in idx
      requires forall x | x in gray :: Reaches(Edges(adj), x, v)
      modifies this
      ensures Valid() && Extends(old(State()), State()) && v in idx
      ensures forall u | u in old(low) :: u in low && low[u] == old(low[u])
      ensures Lowlink(Edges(adj), old(State()), State(), v, low[v])
      decreases |adj.Keys - idx.Keys|, 0
    {
      hide Reaches, Inv, Extends, LoopLow, Lowlink, TotalOrder, NoLowerEdge, EdgesInside;
      ghost var g := Edges(adj);
      ghost var s0 := State();
      BeginVisit(v);
      var i := 0;
      while i < |adj[v]|
        invariant 0 <= i <= |adj[v]|
        invariant |adj.Keys - idx.Keys| < |adj.Keys - s0.idx.Keys|
        invariant Valid() && Extends(Push(s0, v), State()) && v in idx
        invariant forall u | u in old(low) :: u in low && low[u] == old(low[u])
        invariant LoopLow(g, s0, State(), v, adj[v][..i], low[v])
      {
        TakeNext(adj[v], i);
        FollowEdge(s0, v, adj[v][i], adj[v][..i]);
        i := i + 1;
      }
      TakeAll(adj[v]);
      EndVisit(s0, v);
    }

    /** Numbers v and pushes it. */
    method BeginVisit(v: T)
      requires Valid() && v in adj && v !in idx
      requires forall x | x in gray :: Reaches(Edges(adj), x, v)
      modifies this
      ensures Valid() && State() == Push(old(State()), v) && v in idx
      ensures Extends(State(), State()) && |adj.Keys - idx.Keys| < old(|adj.Keys - idx.Keys|)
      ensures v in low && LoopLow(Edges(adj), old(State()), State(), v, [], low[v])
      ensures forall u | u in old(low) :: u in low && u != v && low[u] == old(low[u])
    {
      hide Reaches, Inv, Extends, LoopLow, TotalOrder, EdgesInside, Edges;
      ghost var s0 := State();
      assert Edges(adj).Keys == adj.Keys by { EdgeKeys(adj); }
      StartLoop(Edges(adj), leq, s0, v);
      idx := idx[v := index];
      low := low[v := index];
      index := index + 1;
      stack := stack + [v];
      onStack := onStack + {v};
      gray := gray + {v};
      assert State() == Push(s0, v);
      assert adj.Keys - idx.Keys == adj.Keys - s0.idx.Keys - {v};
    }

    /** Emits the component of v when v is its root; otherwise v stays on the stack. */
    method EndVisit(ghost s0: Snapshot<T>, v: T)
      requires Valid() && v in adj && Inv(Edges(adj), leq, s0) && v !in s0.idx && Extends(Push(s0, v), State())
      requires v in idx && LoopLow(Edges(adj), s0, State(), v, adj[v], low[v])
      modifies this
      ensures Valid() && Extends(s0, State())
      ensures idx == old(idx) && low == old(low)
      ensures Lowlink(Edges(adj), s0, State(), v, low[v])
    {
      hide Reaches, Inv, Extends, LoopLow, Lowlink, TotalOrder, NoLowerEdge, EdgesInside;
      ghost var g := Edges(adj);
      LoopDone(g, s0, State(), v, low[v], adj[v]);
      if low[v] == idx[v] {
        PopComponent(s0, v);
      } else {
        assert low[v] < idx[v] by { LowAtMost(g, s0, State(), v, adj[v], low[v]); }
        CloseOpen(g, leq, s0, State(), v, adj[v], low[v]);
        ghost var s := State();
        gray := s0.gray;
        assert State() == s.(gray := s0.gray);
      }
    }

    /** One turn of the loop over the edges of v: visit w when it is new, look at its number when it
        is on the stack, ignore it when its component is finished. */
    method FollowEdge(ghost s0: Snapshot<T>, v: T, w: T, ghost done: seq<T>)
      requires Valid() && v in adj && w in adj[v] && Inv(Edges(adj), leq, s0) && v !in s0.idx
      requires forall x | x in s0.gray :: Reaches(Edges(adj), x, v)
      requires Extends(Push(s0, v), State()) && v in idx
      requires LoopLow(Edges(adj), s0, State(), v, done, low[v])
      modifies this
      ensures Valid() && Extends(Push(s0, v), State()) && v in idx
      ensures forall u | u in old(low) && u != v :: u in low && low[u] == old(low[u])
      ensures v in low && LoopLow(Edges(adj), s0, State(), v, done + [w], low[v])
      ensures |adj.Keys - idx.Keys| <= old(|adj.Keys - idx.Keys|)
      decreases |adj.Keys - idx.Keys|, 1
    {
      hide Reaches, Inv, LoopLow, Lowlink, TotalOrder, NoLowerEdge, Extends, EdgesInside, Edges;
      ghost var g := Edges(adj);
      ghost var s1 := State();
      EdgeInside(adj, v, w);
      if w !in idx {
        KeysNumbered(g, leq, s1);
        BeforeVisit(g, s0, s1, v, w);
        ghost var lowV := low[v];
        Visit(w);
        AfterVisit(g, leq, s0, s1, State(), v, w, done, lowV, low[w]);
        KeysGrow(s1, State());
        SubsetSize(adj.Keys - idx.Keys, adj.Keys - s1.idx.Keys);
        assert v in low;
        low := low[v := if low[w] < low[v] then low[w] else low[v]];
      } else if w in onStack {
        AfterBackEdge(g, leq, s0, s1, v, w, done, low[v]);
        low := low[v := if idx[w] < low[v] then idx[w] else low[v]];
      } else {
        AfterBackEdge(g, leq, s0, s1, v, w, done, low[v]);
      }
    }

    /** The popping loop; v stands at height n. */
    method PopDownTo(v: T, ghost n: nat) returns (scc: seq<T>)
      requires n < |stack| && forall k | 0 <= k < |stack| :: stack[k] == v <==> k == n
      modifies this`stack, this`onStack
      ensures stack == old(stack)[..n] && Popped(old(State()), scc, n)
      ensures onStack == old(onStack) - set x | x in scc
    {
      ghost var s := State();
      scc := [];
      while true
        invariant n < |stack| <= |s.stack| && stack == s.stack[..|stack|]
        invariant Popped(s, scc, |stack|)
        invariant onStack == s.onStack - set x | x in scc
        decreases |stack|
      {
        var w := stack[|stack| - 1];
        stack := stack[..|stack| - 1];
        onStack := onStack - {w};
        PopOne(s, scc, |stack|);
        scc := scc + [w];
        if w == v {
          break;
        }
      }
    }

    /** Pops the stack down to and including v and emits what was popped, in order. */
    method PopComponent(ghost s0: Snapshot<T>, v: T)
      requires Valid() && v in adj && Inv(Edges(adj), leq, s0) && v !in s0.idx && Extends(Push(s0, v), State())
      requires v in idx && Succ(Edges(adj), v) <= idx.Keys
      requires NoLowerEdge(Edges(adj), State(), |s0.stack|, s0.onStack, idx[v])
      modifies this
      ensures Valid() && Extends(s0, State())
      ensures idx == old(idx) && low == old(low)
      ensures Lowlink(Edges(adj), s0, State(), v, idx[v])
    {
      hide Reaches, Inv, Lowlink, TotalOrder, NoLowerEdge, StrictlySorted, Extends, Popped, EdgesInside, Edges;
      ghost var g := Edges(adj);
      ghost var s := State();
      ghost var n := |s0.stack|;
      PopStart(g, leq, s0, s, v);
      var scc := PopDownTo(v, n);
      assert stack == s0.stack;
      PoppedAll(s0, s, scc, v);
      SortedIsPermutation(leq, scc);
      ghost var c := Sorted(leq, scc);
      assert (set x | x in c) == set x | x in scc;
      CloseEmitted(g, leq, s0, s, v, c);
      out := out + [Sorted(leq, scc)];
      gray := s0.gray;
      assert State() == Emit(s0, s, c);
    }
  }

  lemma PopStart<T(!new)>(g: Graph<T>, leq: (T, T) -> bool, s0: Snapshot<T>, s: Snapshot<T>, v: T)
    requires Inv(g, leq, s0) && Inv(g, leq, s) && Extends(Push(s0, v), s)
    ensures StackOrdered(s0) && StackOrdered(s) && s0.stack + [v] <= s.stack
    ensures |s0.stack| < |s.stack| && s.stack[..|s0.stack|] == s0.stack
    ensures forall k | 0 <= k < |s.stack| :: s.stack[k] == v <==> k == |s0.stack|
    ensures Popped(s, [], |s.stack|)
  {
    hide DependenciesFirst, StackConnected, Emitted;
    assert s.stack[|s0.stack|] == v;
  }

  lemma KeysGrow<T>(s0: Snapshot<T>, s: Snapshot<T>)
    requires Extends(s0, s)
    ensures s0.idx.Keys <= s.idx.Keys
  {
  }

  lemma KeysNumbered<T(!new)>(g: Graph<T>, leq: (T, T) -> bool, s: Snapshot<T>)
    requires Inv(g, leq, s)
    ensures s.idx.Keys <= g.Keys
  {
    hide DependenciesFirst, StackConnected, Emitted, StackOrdered;
  }

  lemma LowAtMost<T(!new)>(g: Graph<T>, s0: Snapshot<T>, s: Snapshot<T>, v: T, done: seq<T>, low: nat)
    requires LoopLow(g, s0, s, v, done, low)
    ensures v in s.idx && low <= s.idx[v]
  {
    hide LowWitness, NoLowerEdge;
  }

  /** Once no visit is in progress the stack is empty: every numbered vertex has been emitted. */
  lemma NoGrayMeansEmitted<T(!new)>(g: Graph<T>, leq: (T, T) -> bool, s: Snapshot<T>)
    requires Inv(g, leq, s) && s.gray == {}
    ensures Emitted(s.out) == s.idx.Keys && DependenciesFirst(g, leq, s.out)
  {
    hide Reaches, DependenciesFirst, Emitted, Numbered, DescendsToGray;
    forall y | y in s.onStack
      ensures false
    {
      assert DescendsToGray(g, s, y);
      var x := GrayBelow(g, s, y);
    }
  }

  method StronglyConnectedComponents<T(==,!new)>(nodes: seq<T>, adj: map<T, seq<T>>, leq: (T, T) -> bool)
    returns (out: seq<seq<T>>)
    requires TotalOrder(leq) && EdgesInside(adj)
    requires adj.Keys == set n | n in nodes
    ensures DependenciesFirst(Edges(adj), leq, out)
    ensures Emitted(out) == adj.Keys
  {
    hide Inv, Extends, TotalOrder, EdgesInside, DependenciesFirst, Emitted, Lowlink;
    var run := new Run(adj, leq);
    var i := 0;
    while i < |nodes|
      invariant 0 <= i <= |nodes|
      invariant run.adj == adj && run.leq == leq
      invariant run.Valid() && run.gray == {} && fresh(run)
      invariant forall k | 0 <= k < i :: nodes[k] in run.idx
    {
      if nodes[i] !in run.idx {
        ghost var s := run.State();
        run.Visit(nodes[i]);
        StaysNumbered(s, run.State());
      }
      i := i + 1;
    }
    KeysNumbered(Edges(adj), leq, run.State());
    NoGrayMeansEmitted(Edges(adj), leq, run.State());
    out := run.out;
  }

  lemma StaysNumbered<T>(s0: Snapshot<T>, s: Snapshot<T>)
    requires Extends(s0, s)
    ensures s.gray == s0.gray
    ensures forall v | v in s0.idx :: v in s.idx
  {
  }

  /** Every vertex is in exactly one component, and that component is its mutual class. */
  lemma Partition<T(!new)>(g: Graph<T>, leq: (T, T) -> bool, out: seq<seq<T>>, v: T) returns (i: nat)
    requires DependenciesFirst(g, leq, out) && v in Emitted(out)
    ensures i < |out| && v in out[i]
    ensures forall j | 0 <= j < |out| && v in out[j] :: j == i
    ensures forall y :: y in out[i] <==> Mutual(g, v, y)
  {
    hide Reaches, Closed, StrictlySorted;
    i :| 0 <= i < |out| && v in out[i];
    assert IsComponent(g, out[i]);
    assert forall a, b | 0 <= a < b < |out| && v in out[a] :: v !in out[b];
  }

  /** Whatever a component's member reaches was emitted with it or before it. */
  lemma DependencyComesFirst<T(!new)>(g: Graph<T>, leq: (T, T) -> bool, out: seq<seq<T>>, i: nat, x: T, w: T)
    requires DependenciesFirst(g, leq, out) && i < |out| && x in out[i] && Reaches(g, x, w)
    ensures exists j :: 0 <= j <= i && w in out[j]
  {
    hide Reaches, IsComponent, StrictlySorted, Closed;
    var prefix := out[..i + 1];
    assert prefix[i] == out[i];
    assert Closed(g, Emitted(prefix));
    ClosedHoldsReachable(g, Emitted(prefix), x, w);
    var j :| 0 <= j < |prefix| && w in prefix[j];
    assert w in out[j];
  }
}
