/** The import map build step: static closures with a memo, the hash-dependency graph, and the
    renaming loop that embeds final names (web/plugins/importmap.ts). */
module ImportMap {
  import opened Reachability
  import opened BareSpecifiers
  import opened Lex
  import opened Seqs
  import Tarjan

  datatype Chunk = Chunk(name: string, imports: seq<string>, dynamicImports: seq<string>)

  /** The emitted chunks by file name; files lists them in emission order. */
  datatype Bundle = Bundle(files: seq<string>, chunks: map<string, Chunk>)

  ghost predicate WellFormed(b: Bundle) {
    && b.chunks.Keys == Elems(b.files)
    && forall i, j | 0 <= i < j < |b.files| :: b.files[i] != b.files[j]
  }

  /** A JavaScript Set is modelled as its elements in insertion order. */
  function Elems<T>(s: seq<T>): set<T> {
    set x | x in s
  }

  predicate Distinct<T(==)>(s: seq<T>) {
    forall i, j | 0 <= i < j < |s| :: s[i] != s[j]
  }

  function Add<T(==)>(s: seq<T>, x: T): (r: seq<T>)
    ensures Elems(r) == Elems(s) + {x} && (Distinct(s) ==> Distinct(r))
  {
    if x in s then s else s + [x]
  }

  lemma ElemsAppend<T>(s: seq<T>, x: T)
    ensures Elems(s + [x]) == Elems(s) + {x}
  {
  }

  method AddAll<T(==)>(s: seq<T>, xs: seq<T>) returns (r: seq<T>)
    ensures Elems(r) == Elems(s) + Elems(xs) && (Distinct(s) ==> Distinct(r))
  {
    r := s;
    for i := 0 to |xs|
      invariant Elems(r) == Elems(s) + Elems(xs[..i]) && (Distinct(s) ==> Distinct(r))
    {
      assert xs[..i + 1] == xs[..i] + [xs[i]];
      r := Add(r, xs[i]);
    }
    assert xs[..|xs|] == xs;
  }

  /** The static imports that are themselves emitted chunks. */
  function StaticGraph(b: Bundle): Graph<string> {
    map f | f in b.chunks :: set d | d in b.chunks[f].imports && d in b.chunks
  }

  /** What the browser fetches with f: everything f's static imports lead to. */
  ghost predicate InStaticClosure(b: Bundle, f: string, x: string) {
    ReachesPlus(StaticGraph(b), f, x)
  }

  ghost predicate MemoExact(b: Bundle, memo: map<string, seq<string>>) {
    forall f | f in memo :: forall x :: x in memo[f] <==> InStaticClosure(b, f, x)
  }

  /** The chunks outside before that were added all have their imports in after. */
  ghost predicate Saturated(g: Graph<string>, before: set<string>, after: set<string>) {
    forall x | x in after && x !in before :: Succ(g, x) <= after
  }

  method StaticClosure(b: Bundle, memo: map<string, seq<string>>, f: string, acc0: seq<string>) returns (acc: seq<string>)
    requires MemoExact(b, memo) && f in b.chunks && Elems(acc0) <= b.chunks.Keys
    ensures Elems(acc0) <= Elems(acc) <= b.chunks.Keys
    ensures forall x | x in acc && x !in acc0 :: InStaticClosure(b, f, x)
    ensures Succ(StaticGraph(b), f) <= Elems(acc)
    ensures Saturated(StaticGraph(b), Elems(acc0), Elems(acc))
    decreases b.chunks.Keys - Elems(acc0)
  {
    hide Reaches;
    ghost var g := StaticGraph(b);
    if f in memo {
      acc := AddAll(acc0, memo[f]);
      MemoSaturated(b, memo, f);
      forall x | x in acc && x !in acc0
        ensures InStaticClosure(b, f, x)
      {
        assert x in Elems(acc);
      }
      return;
    }
    acc := acc0;
    var imports := b.chunks[f].imports;
    for i := 0 to |imports|
      invariant Elems(acc0) <= Elems(acc) <= b.chunks.Keys
      invariant forall x | x in acc && x !in acc0 :: InStaticClosure(b, f, x)
      invariant forall k | 0 <= k < i && imports[k] in b.chunks :: imports[k] in acc
      invariant Saturated(g, Elems(acc0), Elems(acc))
    {
      var d := imports[i];
      if d in b.chunks && d !in acc {
        ghost var before := acc;
        assert d in Succ(g, f);
        ElemsAppend(acc, d);
        assert b.chunks.Keys - Elems(acc + [d]) < b.chunks.Keys - Elems(acc) by {
          assert d in b.chunks.Keys - Elems(acc);
        }
        acc := StaticClosure(b, memo, d, acc + [d]);
        assert forall x | x in before :: x in Elems(before + [d]);
        assert d in Elems(before + [d]);
        ReachesSelf(g, d);
        forall x | x in acc && x !in acc0
          ensures InStaticClosure(b, f, x)
        {
          if x != d && x !in before {
            ReachesPlusReaches(g, d, x);
          }
        }
      }
    }
  }

  /** A memo entry holds whole import closures. */
  lemma MemoSaturated(b: Bundle, memo: map<string, seq<string>>, f: string)
    requires MemoExact(b, memo) && f in memo
    ensures Elems(memo[f]) <= b.chunks.Keys
    ensures Succ(StaticGraph(b), f) <= Elems(memo[f])
    ensures Saturated(StaticGraph(b), {}, Elems(memo[f]))
  {
    hide Reaches;
    var g := StaticGraph(b);
    forall x | x in Succ(g, f)
      ensures x in memo[f]
    {
      ReachesSelf(g, x);
    }
    forall x, y | x in memo[f] && y in Succ(g, x)
      ensures y in memo[f]
    {
      ReachesEdge(g, x, y);
      ReachesPlusTransitive(g, f, x, y);
    }
    forall x | x in memo[f]
      ensures x in b.chunks
    {
      ReachesPlusIsChunk(b, f, x);
    }
  }

  lemma ReachesPlusIsChunk(b: Bundle, f: string, x: string)
    requires ReachesPlus(StaticGraph(b), f, x)
    ensures x in b.chunks
  {
    hide Reaches;
    var g := StaticGraph(b);
    var w :| w in Succ(g, f) && Reaches(g, w, x);
    ClosedHoldsReachable(g, b.chunks.Keys, w, x);
  }

  /** The memo loop: on any import graph, cyclic or not, the memo equals true reachability. */
  method ClosureMemo(b: Bundle) returns (memo: map<string, seq<string>>)
    requires WellFormed(b)
    ensures memo.Keys == b.chunks.Keys && MemoExact(b, memo)
  {
    memo := map[];
    for i := 0 to |b.files|
      invariant memo.Keys == Elems(b.files[..i]) && MemoExact(b, memo)
    {
      var f := b.files[i];
      assert f in b.chunks;
      var acc := StaticClosure(b, memo, f, []);
      ClosureComplete(b, f, acc);
      memo := memo[f := acc];
      assert b.files[..i + 1] == b.files[..i] + [f];
    }
    assert b.files[..|b.files|] == b.files;
  }

  lemma ClosureComplete(b: Bundle, f: string, acc: seq<string>)
    requires Succ(StaticGraph(b), f) <= Elems(acc) && Saturated(StaticGraph(b), {}, Elems(acc))
    requires forall x | x in acc :: InStaticClosure(b, f, x)
    ensures forall x :: x in acc <==> InStaticClosure(b, f, x)
  {
    hide Reaches;
    var g := StaticGraph(b);
    forall x | InStaticClosure(b, f, x)
      ensures x in acc
    {
      var w :| w in Succ(g, f) && Reaches(g, w, x);
      ClosedHoldsReachable(g, Elems(acc), w, x);
    }
  }

  /** x's final name appears in f's preload lists: it is a dynamic import of f, or is fetched
      statically with one. */
  ghost predicate IsHashDep(b: Bundle, f: string, x: string) {
    && x != f && f in b.chunks
    && exists d :: d in b.chunks[f].dynamicImports && d in b.chunks && Reaches(StaticGraph(b), d, x)
  }

  method HashDeps(b: Bundle, memo: map<string, seq<string>>, f: string) returns (out: seq<string>)
    requires f in b.chunks && memo.Keys == b.chunks.Keys && MemoExact(b, memo)
    ensures Distinct(out) && forall x :: x in out <==> IsHashDep(b, f, x)
  {
    hide Reaches, ReachesPlus;
    out := [];
    var dyn := b.chunks[f].dynamicImports;
    for i := 0 to |dyn|
      invariant Distinct(out)
      invariant forall x :: x in out <==> exists k :: 0 <= k < i && dyn[k] in b.chunks && Reaches(StaticGraph(b), dyn[k], x)
    {
      var d := dyn[i];
      if d in b.chunks {
        ghost var before := out;
        out := AddAll(Add(out, d), memo[d]);
        forall x
          ensures x in out <==> x in before || Reaches(StaticGraph(b), d, x)
        {
          assert x in out <==> x in Elems(out);
          ReachesEitherWay(StaticGraph(b), d, x);
        }
      }
    }
    forall x
      ensures x in out <==> exists d :: d in dyn && d in b.chunks && Reaches(StaticGraph(b), d, x)
    {
    }
    ghost var all := out;
    out := Remove(out, f);
    assert forall x :: x in out <==> x in Elems(all) - {f};
  }

  lemma ReachesEitherWay<T(!new)>(g: Graph<T>, d: T, x: T)
    ensures Reaches(g, d, x) <==> x == d || ReachesPlus(g, d, x)
  {
    hide Reaches;
    ReachesSelf(g, d);
    if ReachesPlus(g, d, x) {
      ReachesPlusReaches(g, d, x);
    } else if Reaches(g, d, x) && x != d {
      ReachesFirstStep(g, d, x);
      assert false;
    }
  }

  function Remove<T(==)>(s: seq<T>, x: T): (r: seq<T>)
    ensures Elems(r) == Elems(s) - {x} && (Distinct(s) ==> Distinct(r))
  {
    if s == [] then []
    else
      assert Elems(s) == {s[0]} + Elems(s[1..]);
      var rest := Remove(s[1..], x);
      assert Elems([s[0]] + rest) == {s[0]} + Elems(rest);
      assert Distinct(s) ==> s[0] !in Elems(s[1..]);
      assert Distinct(s) ==> forall y | y in rest :: y in Elems(rest);
      if s[0] == x then rest else [s[0]] + rest
  }

  // ---- the hash-dependency graph ----

  ghost function HashGraph(b: Bundle): Graph<string> {
    map f | f in b.chunks :: set x | x in b.chunks && IsHashDep(b, f, x)
  }

  lemma HashDepIsChunk(b: Bundle, f: string, x: string)
    requires IsHashDep(b, f, x)
    ensures x in b.chunks
  {
    hide Reaches;
    var d :| d in b.chunks[f].dynamicImports && d in b.chunks && Reaches(StaticGraph(b), d, x);
    ClosedHoldsReachable(StaticGraph(b), b.chunks.Keys, d, x);
  }

  /** Each chunk's hash dependencies, each once. */
  ghost predicate IsAdjacency(b: Bundle, adj: map<string, seq<string>>) {
    adj.Keys == b.chunks.Keys && forall f | f in adj :: IsDepList(b, f, adj[f])
  }

  ghost predicate IsDepList(b: Bundle, f: string, deps: seq<string>) {
    Distinct(deps) && forall x :: x in deps <==> IsHashDep(b, f, x)
  }

  method HashDependencies(b: Bundle) returns (adj: map<string, seq<string>>)
    requires WellFormed(b)
    ensures IsAdjacency(b, adj)
  {
    hide IsHashDep, MemoExact;
    var memo := ClosureMemo(b);
    adj := map[];
    for i := 0 to |b.files|
      invariant adj.Keys == Elems(b.files[..i]) && forall f | f in adj :: IsDepList(b, f, adj[f])
    {
      var f := b.files[i];
      assert f in b.chunks by { assert f in Elems(b.files); }
      var deps := HashDeps(b, memo, f);
      adj := adj[f := deps];
      ElemsAppend(b.files[..i], f);
      assert b.files[..i + 1] == b.files[..i] + [f];
    }
    assert b.files[..|b.files|] == b.files;
  }

  lemma AdjacencyIsHashGraph(b: Bundle, adj: map<string, seq<string>>)
    requires IsAdjacency(b, adj)
    ensures Tarjan.EdgesInside(adj) && Tarjan.Edges(adj) == HashGraph(b)
  {
    hide IsHashDep;
    forall f, x | f in adj && x in adj[f]
      ensures x in b.chunks
    {
      HashDepIsChunk(b, f, x);
    }
    forall f | f in adj
      ensures (set w | w in adj[f]) == set x | x in b.chunks && IsHashDep(b, f, x)
    {
    }
  }

  lemma LexIsTotalOrder()
    ensures Tarjan.TotalOrder(LexLeq)
  {
    forall a: string, b: string
      ensures LexLeq(a, b) || LexLeq(b, a)
      ensures LexLeq(a, b) && LexLeq(b, a) ==> a == b
    {
      LexTotal(a, b);
    }
    forall a: string, b: string, c: string | LexLeq(a, b) && LexLeq(b, c)
      ensures LexLeq(a, c)
    {
      LexTransitive(a, b, c);
    }
  }

  // ---- renaming ----

  /** What a preload entry is rewritten to: a placeholder for a member of the same component, whose
      name is not known before the component is hashed, or a name. */
  datatype Target = Pending(bare: string) | Final(name: string)

  /** A dependency without a final name keeps its stale one. */
  function TargetOf(dep: string, scc: seq<string>, bare: map<string, string>, renamed: map<string, string>): Target
    requires dep in scc ==> dep in bare
  {
    if dep in scc then Pending(bare[dep])
    else if dep in renamed then Final(renamed[dep])
    else Final(dep)
  }

  /** Placeholders are replaced member by member, so the first member with the specifier wins. */
  function Resolve(t: Target, members: seq<string>, bare: map<string, string>, renamed: map<string, string>): (name: string)
    requires forall m | m in members :: m in bare && m in renamed
    ensures t.Final? ==> name == t.name
    ensures t.Pending? && (exists m :: m in members && bare[m] == t.bare) ==>
              exists m :: m in members && bare[m] == t.bare && renamed[m] == name
  {
    match t
    case Final(name) => name
    case Pending(p) =>
      if members == [] then p
      else if bare[members[0]] == p then renamed[members[0]]
      else Resolve(t, members[1..], bare, renamed)
  }

  /** The i-th member is the first one with this specifier. */
  ghost predicate FirstAt(members: seq<string>, bare: map<string, string>, p: string, i: nat)
    requires forall m | m in members :: m in bare
  {
    i < |members| && bare[members[i]] == p && forall j | 0 <= j < i :: bare[members[j]] != p
  }

  lemma {:induction false} ResolveFirst(p: string, members: seq<string>, bare: map<string, string>, renamed: map<string, string>) returns (i: nat)
    requires (forall m | m in members :: m in bare && m in renamed) && exists m :: m in members && bare[m] == p
    ensures FirstAt(members, bare, p, i) && Resolve(Pending(p), members, bare, renamed) == renamed[members[i]]
  {
    i := 0;
    if bare[members[0]] != p {
      var k := ResolveFirst(p, members[1..], bare, renamed);
      i := k + 1;
      forall j | 0 <= j < i
        ensures bare[members[j]] != p
      {
        assert j > 0 ==> members[1..][j - 1] == members[j];
      }
    }
  }

  /** The names a component's preload lists end up with: a member stands under the final name of the first
      member with its specifier. */
  ghost predicate Embedded(adj: map<string, seq<string>>, scc: seq<string>, bare: map<string, string>,
                           before: map<string, string>, after: map<string, string>, lists: map<string, string>, f: string)
    requires f in adj && forall m | m in scc :: m in bare && m in after
  {
    && lists.Keys == Elems(adj[f])
    && forall dep | dep in adj[f] ::
      && dep in lists
      && (dep !in scc && dep in before ==> lists[dep] == before[dep])
      && (dep in scc ==> exists i :: 0 <= i < |scc| && FirstAt(scc, bare, bare[dep], i) && lists[dep] == after[scc[i]])
  }

  type Code = (string, map<string, Target>)

  function CodeOf(deps: seq<string>, scc: seq<string>, bare: map<string, string>, renamed: map<string, string>): map<string, Target>
    requires forall f | f in scc :: f in bare
  {
    map dep | dep in deps :: TargetOf(dep, scc, bare, renamed)
  }

  /** What a component's hash is taken over: every member's specifier and rewritten code, in order. */
  function ComponentCodes(adj: map<string, seq<string>>, scc: seq<string>, bare: map<string, string>, renamed: map<string, string>): seq<Code>
    requires forall f | f in scc :: f in adj && f in bare
  {
    seq(|scc|, k requires 0 <= k < |scc| => (bare[scc[k]], CodeOf(adj[scc[k]], scc, bare, renamed)))
  }

  /** codes holds, member by member, the specifier and the rewritten list: a member of the component stands
      under its specifier, a chunk that was named before under its final name. */
  ghost predicate Rewritten(adj: map<string, seq<string>>, scc: seq<string>, bare: map<string, string>, renamed: map<string, string>,
                            codes: seq<Code>)
    requires forall f | f in scc :: f in adj && f in bare
  {
    && |codes| == |scc|
    && forall k | 0 <= k < |scc| ::
      && codes[k].0 == bare[scc[k]]
      && (forall dep :: dep in codes[k].1 <==> dep in adj[scc[k]])
      && (forall dep | dep in codes[k].1 && dep in scc :: codes[k].1[dep] == Pending(bare[dep]))
      && (forall dep | dep in codes[k].1 && dep !in scc && dep in renamed :: codes[k].1[dep] == Final(renamed[dep]))
  }

  lemma CodesAreRewritten(adj: map<string, seq<string>>, scc: seq<string>, bare: map<string, string>, renamed: map<string, string>)
    requires forall f | f in scc :: f in adj && f in bare
    ensures Rewritten(adj, scc, bare, renamed, ComponentCodes(adj, scc, bare, renamed))
  {
  }

  /** Rewrites the preload lists of a component's members as far as names are known. */
  method RewriteMembers(adj: map<string, seq<string>>, scc: seq<string>, bare: map<string, string>, renamed: map<string, string>)
    returns (codes: seq<Code>)
    requires forall f | f in scc :: f in adj && f in bare
    ensures codes == ComponentCodes(adj, scc, bare, renamed)
  {
    hide CodeOf;
    codes := [];
    for i := 0 to |scc|
      invariant codes == ComponentCodes(adj, scc, bare, renamed)[..i]
    {
      codes := codes + [(bare[scc[i]], CodeOf(adj[scc[i]], scc, bare, renamed))];
    }
  }

  /** Every member gets the component's one hash. */
  method StampMembers(scc: seq<string>, renamed0: map<string, string>, hash: string, stamp: (string, string) -> string)
    returns (renamed: map<string, string>)
    requires forall f | f in scc :: f !in renamed0
    ensures renamed.Keys == renamed0.Keys + Elems(scc)
    ensures forall f | f in renamed0 :: renamed[f] == renamed0[f]
    ensures forall f | f in scc :: renamed[f] == stamp(f, hash)
  {
    renamed := renamed0;
    for i := 0 to |scc|
      invariant renamed.Keys == renamed0.Keys + Elems(scc[..i])
      invariant forall f | f in renamed0 :: renamed[f] == renamed0[f]
      invariant forall f | f in scc[..i] :: f in renamed && renamed[f] == stamp(f, hash)
    {
      ElemsAppend(scc[..i], scc[i]);
      TakeNext(scc, i);
      renamed := renamed[scc[i] := stamp(scc[i], hash)];
    }
    TakeAll(scc);
  }

  lemma ResolveTarget(adj: map<string, seq<string>>, scc: seq<string>, bare: map<string, string>, before: map<string, string>,
                      after: map<string, string>, list: map<string, string>, f: string)
    requires f in adj && forall m | m in scc :: m in bare && m in after
    requires var code := CodeOf(adj[f], scc, bare, before); list == map dep | dep in code :: Resolve(code[dep], scc, bare, after)
    ensures Embedded(adj, scc, bare, before, after, list, f)
  {
    hide Resolve, FirstAt;
    forall dep | dep in adj[f]
      ensures dep in list && (dep !in scc && dep in before ==> list[dep] == before[dep])
      ensures dep in scc ==> exists i :: 0 <= i < |scc| && FirstAt(scc, bare, bare[dep], i) && list[dep] == after[scc[i]]
    {
      if dep in scc {
        var i := ResolveFirst(bare[dep], scc, bare, after);
        FirstIsMember(scc, bare, bare[dep], i);
      }
    }
  }

  lemma FirstIsMember(members: seq<string>, bare: map<string, string>, p: string, i: nat)
    requires (forall m | m in members :: m in bare) && FirstAt(members, bare, p, i)
    ensures i < |members|
  {
  }

  /** Replaces the placeholders of a component's members by the names just given. */
  method FillPlaceholders(ghost adj: map<string, seq<string>>, scc: seq<string>, bare: map<string, string>,
                          ghost before: map<string, string>, renamed: map<string, string>, codes: seq<Code>)
    returns (lists: map<string, map<string, string>>)
    requires forall f | f in scc :: f in adj && f in bare && f in renamed
    requires codes == ComponentCodes(adj, scc, bare, before)
    ensures lists.Keys == Elems(scc)
    ensures forall f | f in scc :: Embedded(adj, scc, bare, before, renamed, lists[f], f)
  {
    hide CodeOf, Embedded;
    lists := map[];
    for i := 0 to |scc|
      invariant lists.Keys == Elems(scc[..i])
      invariant forall f | f in scc[..i] :: f in lists && f in adj && Embedded(adj, scc, bare, before, renamed, lists[f], f)
    {
      var f := scc[i];
      ElemsAppend(scc[..i], f);
      TakeNext(scc, i);
      var code := codes[i].1;
      var list := map dep | dep in code :: Resolve(code[dep], scc, bare, renamed);
      ResolveTarget(adj, scc, bare, before, renamed, list, f);
      lists := lists[f := list];
    }
    TakeAll(scc);
  }

  /** The import map's record: each member's specifier now stands for its final name; a later member with the
      same specifier takes it over. */
  method ImportMembers(scc: seq<string>, bare: map<string, string>, renamed: map<string, string>, base: string,
                       ghost done: set<string>, imports0: map<string, string>)
    returns (imports: map<string, string>)
    requires done <= renamed.Keys && (forall f | f in scc :: f in renamed) && forall f | f in renamed :: f in bare
    requires Imported(done, bare, renamed, base, imports0)
    ensures Imported(done + Elems(scc), bare, renamed, base, imports)
  {
    hide Imported;
    imports := imports0;
    assert done + Elems(scc[..0]) == done;
    for i := 0 to |scc|
      invariant Imported(done + Elems(scc[..i]), bare, renamed, base, imports)
    {
      var f := scc[i];
      ElemsAppend(scc[..i], f);
      TakeNext(scc, i);
      assert done + Elems(scc[..i + 1]) == done + Elems(scc[..i]) + {f};
      OneMoreImported(done + Elems(scc[..i]), bare, renamed, base, imports, f);
      imports := imports[bare[f] := base + renamed[f]];
    }
    TakeAll(scc);
  }

  lemma OneMoreImported(done: set<string>, bare: map<string, string>, renamed: map<string, string>, base: string,
                        imports: map<string, string>, f: string)
    requires done <= renamed.Keys && f in renamed && (forall x | x in renamed :: x in bare) && Imported(done, bare, renamed, base, imports)
    ensures Imported(done + {f}, bare, renamed, base, imports[bare[f] := base + renamed[f]])
  {
    var after := imports[bare[f] := base + renamed[f]];
    forall p | p in after
      ensures exists g :: g in done + {f} && bare[g] == p && after[p] == base + renamed[g]
    {
      if p == bare[f] {
        assert f in done + {f};
      } else {
        var g :| g in done && bare[g] == p && imports[p] == base + renamed[g];
        assert g in done + {f};
      }
    }
  }

  /** The record has the specifiers of these chunks, each with the final name of a chunk that has it. */
  ghost predicate Imported(done: set<string>, bare: map<string, string>, renamed: map<string, string>, base: string, imports: map<string, string>)
    requires done <= renamed.Keys && forall f | f in renamed :: f in bare
  {
    && (forall f | f in done :: bare[f] in imports)
    && forall p | p in imports :: exists f :: f in done && bare[f] == p && imports[p] == base + renamed[f]
  }

  lemma ImportedStays(done: set<string>, bare: map<string, string>, before: map<string, string>, after: map<string, string>, base: string,
                      imports: map<string, string>)
    requires done <= before.Keys && (forall f | f in before :: f in bare) && Imported(done, bare, before, base, imports)
    requires before.Keys <= after.Keys && (forall x | x in before :: after[x] == before[x]) && forall f | f in after :: f in bare
    ensures Imported(done, bare, after, base, imports)
  {
    forall p | p in imports
      ensures exists f :: f in done && bare[f] == p && imports[p] == base + after[f]
    {
      var f :| f in done && bare[f] == p && imports[p] == base + before[f];
      assert after[f] == before[f];
    }
  }

  method RenameComponent(adj: map<string, seq<string>>, scc: seq<string>, bare: map<string, string>,
                         renamed0: map<string, string>, hashOf: seq<Code> -> string, stamp: (string, string) -> string)
    returns (hash: string, renamed: map<string, string>, lists: map<string, map<string, string>>)
    requires forall f | f in scc :: f in adj && f in bare && f !in renamed0
    ensures renamed.Keys == renamed0.Keys + Elems(scc)
    ensures forall f | f in renamed0 :: renamed[f] == renamed0[f]
    ensures hash == hashOf(ComponentCodes(adj, scc, bare, renamed0)) && forall f | f in scc :: renamed[f] == stamp(f, hash)
    ensures Rewritten(adj, scc, bare, renamed0, ComponentCodes(adj, scc, bare, renamed0))
    ensures lists.Keys == Elems(scc)
    ensures forall f | f in scc :: Embedded(adj, scc, bare, renamed0, renamed, lists[f], f)
  {
    hide CodeOf, Embedded, Rewritten;
    var codes := RewriteMembers(adj, scc, bare, renamed0);
    hash := hashOf(codes);
    renamed := StampMembers(scc, renamed0, hash, stamp);
    assert forall f | f in scc :: f in Elems(scc);
    CodesAreRewritten(adj, scc, bare, renamed0);
    lists := FillPlaceholders(adj, scc, bare, renamed0, renamed, codes);
  }

  // ---- the whole build step ----

  /** m is the first chunk, in name order, of f's component that has dep's specifier. */
  ghost predicate LeastWith(b: Bundle, bare: map<string, string>, f: string, dep: string, m: string) {
    && m in bare && dep in bare && bare[m] == bare[dep] && Mutual(HashGraph(b), f, m)
    && forall x | x in bare && bare[x] == bare[dep] && Mutual(HashGraph(b), f, x) :: LexLeq(m, x)
  }

  /** f's preload lists name exactly its hash dependencies: one of another component by its final name, one
      of f's own by that of the first chunk there with its specifier. */
  ghost predicate FinalNames(b: Bundle, bare: map<string, string>, f: string, renamed: map<string, string>, list: map<string, string>) {
    && (forall dep :: dep in list <==> IsHashDep(b, f, dep))
    && forall dep | dep in list :: dep in renamed && FinalName(b, bare, f, dep, renamed, list[dep])
  }

  ghost predicate FinalName(b: Bundle, bare: map<string, string>, f: string, dep: string, renamed: map<string, string>, name: string)
    requires dep in renamed
  {
    if Mutual(HashGraph(b), f, dep) then exists m :: LeastWith(b, bare, f, dep, m) && m in renamed && name == renamed[m]
    else name == renamed[dep]
  }

  lemma LeastIsOne(b: Bundle, bare: map<string, string>, f: string, dep: string, m: string, n: string)
    requires LeastWith(b, bare, f, dep, m) && LeastWith(b, bare, f, dep, n)
    ensures m == n
  {
    hide Mutual, LexLeq;
    LexTotal(m, n);
  }

  /** When final names differ, a preload list is right if and only if every dependency in the chunk's own
      component comes first there among the chunks with its specifier. */
  lemma ListRightExactly(b: Bundle, bare: map<string, string>, f: string, renamed: map<string, string>, list: map<string, string>)
    requires FinalNames(b, bare, f, renamed, list)
    requires forall x, y | x in renamed && y in renamed && renamed[x] == renamed[y] :: x == y
    ensures (forall dep | dep in list :: dep in renamed && list[dep] == renamed[dep])
       <==> forall dep | dep in list && Mutual(HashGraph(b), f, dep) :: LeastWith(b, bare, f, dep, dep)
  {
    hide Mutual, LeastWith, IsHashDep;
    forall dep | dep in list && Mutual(HashGraph(b), f, dep)
      ensures dep in renamed && (list[dep] == renamed[dep] <==> LeastWith(b, bare, f, dep, dep))
    {
      var m :| LeastWith(b, bare, f, dep, m) && m in renamed && list[dep] == renamed[m];
      if LeastWith(b, bare, f, dep, dep) {
        LeastIsOne(b, bare, f, dep, m, dep);
      }
    }
    assert forall dep | dep in list && !Mutual(HashGraph(b), f, dep) :: dep in renamed && list[dep] == renamed[dep];
  }

  function Names(b: Bundle): seq<string>
    requires forall f | f in b.files :: f in b.chunks
  {
    seq(|b.files|, i requires 0 <= i < |b.files| => b.chunks[b.files[i]].name)
  }

  ghost predicate SpecifiersOf(b: Bundle, prefix: string, bare: map<string, string>)
    requires forall f | f in b.files :: f in b.chunks
  {
    && bare.Keys == b.chunks.Keys
    && forall i | 0 <= i < |b.files| :: b.files[i] in bare && bare[b.files[i]] == Bare(Names(b), prefix, i)
  }

  method BareMap(b: Bundle, prefix: string) returns (bare: map<string, string>)
    requires WellFormed(b) && forall f | f in b.files :: f in b.chunks
    ensures SpecifiersOf(b, prefix, bare)
  {
    var specifiers := Assign(Names(b), prefix);
    bare := Zip(b.files, specifiers);
  }

  method Zip(keys: seq<string>, values: seq<string>) returns (m: map<string, string>)
    requires |keys| == |values| && forall i, j | 0 <= i < j < |keys| :: keys[i] != keys[j]
    ensures m.Keys == Elems(keys)
    ensures forall i | 0 <= i < |keys| :: keys[i] in m && m[keys[i]] == values[i]
  {
    m := map[];
    for i := 0 to |keys|
      invariant m.Keys == Elems(keys[..i])
      invariant forall k | 0 <= k < i :: keys[k] in m && m[keys[k]] == values[k]
    {
      ElemsAppend(keys[..i], keys[i]);
      TakeNext(keys, i);
      m := m[keys[i] := values[i]];
    }
    TakeAll(keys);
  }

  lemma DistinctBare(b: Bundle, prefix: string, bare: map<string, string>, f: string, g: string)
    requires WellFormed(b) && (forall x | x in b.files :: x in b.chunks) && BareDistinct(Names(b), prefix)
    requires SpecifiersOf(b, prefix, bare)
    requires f in bare && g in bare && bare[f] == bare[g]
    ensures f == g
  {
    assert f in Elems(b.files) && g in Elems(b.files);
    var i :| 0 <= i < |b.files| && b.files[i] == f;
    var j :| 0 <= j < |b.files| && b.files[j] == g;
    assert i == j;
  }

  /** A dependency outside the component being renamed already has its final name. */
  lemma DependencyRenamed(b: Bundle, sccs: seq<seq<string>>, i: nat, f: string, dep: string)
    requires Tarjan.DependenciesFirst(HashGraph(b), LexLeq, sccs) && i < |sccs| && f in sccs[i]
    requires IsHashDep(b, f, dep)
    ensures dep in sccs[i] <==> Mutual(HashGraph(b), f, dep)
    ensures dep !in sccs[i] ==> dep in Tarjan.Emitted(sccs[..i])
  {
    hide Reaches, IsHashDep, Closed, Tarjan.StrictlySorted;
    var g := HashGraph(b);
    HashDepIsChunk(b, f, dep);
    assert f in b.chunks by { HashDepOwner(b, f, dep); }
    ReachesEdge(g, f, dep);
    Tarjan.DependencyComesFirst(g, LexLeq, sccs, i, f, dep);
    var j :| 0 <= j <= i && dep in sccs[j];
    if j < i {
      assert sccs[..i][j] == sccs[j];
    }
    assert Tarjan.IsComponent(g, sccs[i]);
  }

  lemma HashDepOwner(b: Bundle, f: string, dep: string)
    requires IsHashDep(b, f, dep)
    ensures f in b.chunks
  {
    hide Reaches;
  }

  /** What one component's renaming gives each member, in terms of the whole bundle. */
  lemma ComponentFinal(b: Bundle, prefix: string, adj: map<string, seq<string>>, bare: map<string, string>,
                       sccs: seq<seq<string>>, i: nat, before: map<string, string>, after: map<string, string>,
                       list: map<string, string>, f: string)
    requires WellFormed(b) && (forall x | x in b.files :: x in b.chunks) && SpecifiersOf(b, prefix, bare)
    requires Tarjan.DependenciesFirst(HashGraph(b), LexLeq, sccs) && i < |sccs| && f in sccs[i]
    requires f in adj && IsDepList(b, f, adj[f])
    requires before.Keys == Tarjan.Emitted(sccs[..i]) && after.Keys == before.Keys + Elems(sccs[i])
    requires forall x | x in before :: after[x] == before[x]
    requires (forall m | m in sccs[i] :: m in bare && m in after) && Embedded(adj, sccs[i], bare, before, after, list, f)
    ensures FinalNames(b, bare, f, after, list)
  {
    hide Reaches, IsHashDep, Tarjan.DependenciesFirst, WellFormed, Tarjan.Emitted, LeastWith, Mutual, FirstAt;
    assert list.Keys == Elems(adj[f]);
    forall dep | dep in list
      ensures dep in after && FinalName(b, bare, f, dep, after, list[dep])
    {
      assert dep in adj[f];
      DependencyRenamed(b, sccs, i, f, dep);
      if dep in sccs[i] {
        assert dep in Elems(sccs[i]);
        var k :| 0 <= k < |sccs[i]| && FirstAt(sccs[i], bare, bare[dep], k) && list[dep] == after[sccs[i][k]];
        FirstIsLeast(b, bare, sccs, i, f, dep, k);
      }
    }
  }

  /** A component is sorted, so its first member with a specifier is the least. */
  lemma FirstIsLeast(b: Bundle, bare: map<string, string>, sccs: seq<seq<string>>, i: nat, f: string, dep: string, k: nat)
    requires Tarjan.DependenciesFirst(HashGraph(b), LexLeq, sccs) && i < |sccs| && f in sccs[i] && dep in sccs[i]
    requires (forall m | m in sccs[i] :: m in bare) && FirstAt(sccs[i], bare, bare[dep], k)
    ensures LeastWith(b, bare, f, dep, sccs[i][k])
  {
    hide Mutual, LexLeq, Closed;
    var scc := sccs[i];
    assert Tarjan.IsComponent(HashGraph(b), scc) && Tarjan.StrictlySorted(LexLeq, scc);
    forall x | x in bare && bare[x] == bare[dep] && Mutual(HashGraph(b), f, x)
      ensures LexLeq(scc[k], x)
    {
      var j :| 0 <= j < |scc| && scc[j] == x;
      LexTotal(x, x);
    }
    assert scc[k] in scc;
  }

  lemma FinalStays(b: Bundle, bare: map<string, string>, f: string, before: map<string, string>, after: map<string, string>, list: map<string, string>)
    requires FinalNames(b, bare, f, before, list)
    requires before.Keys <= after.Keys && forall x | x in before :: after[x] == before[x]
    ensures FinalNames(b, bare, f, after, list)
  {
    hide IsHashDep, Mutual, LeastWith;
  }

  ghost predicate AllFinal(b: Bundle, bare: map<string, string>, renamed: map<string, string>, lists: map<string, map<string, string>>) {
    forall f | f in lists :: FinalNames(b, bare, f, renamed, lists[f])
  }

  /** A component's members are stamped with the hash of their code as the final names have it. */
  ghost predicate Stamped(adj: map<string, seq<string>>, scc: seq<string>, bare: map<string, string>, renamed: map<string, string>,
                          hashOf: seq<Code> -> string, stamp: (string, string) -> string)
    requires forall f | f in scc :: f in adj && f in bare
  {
    forall f | f in scc :: f in renamed && renamed[f] == stamp(f, hashOf(ComponentCodes(adj, scc, bare, renamed)))
  }

  /** A dependency of a member is a member or was named before. */
  ghost predicate DepsNamed(adj: map<string, seq<string>>, scc: seq<string>, renamed: map<string, string>)
    requires forall f | f in scc :: f in adj
  {
    forall f | f in scc :: forall dep | dep in adj[f] :: dep in scc || dep in renamed
  }

  /** Names given later leave what a component was hashed over as it was. */
  lemma SameCodes(adj: map<string, seq<string>>, scc: seq<string>, bare: map<string, string>, before: map<string, string>, after: map<string, string>)
    requires forall f | f in scc :: f in adj && f in bare
    requires DepsNamed(adj, scc, before) && before.Keys <= after.Keys && forall x | x in before :: after[x] == before[x]
    ensures DepsNamed(adj, scc, after) && ComponentCodes(adj, scc, bare, before) == ComponentCodes(adj, scc, bare, after)
  {
    forall k | 0 <= k < |scc|
      ensures CodeOf(adj[scc[k]], scc, bare, before) == CodeOf(adj[scc[k]], scc, bare, after)
    {
      assert scc[k] in scc;
    }
  }

  /** All components up to the i-th are named and stamped. */
  ghost predicate StampedUpTo(adj: map<string, seq<string>>, sccs: seq<seq<string>>, i: nat, bare: map<string, string>,
                              renamed: map<string, string>, hashOf: seq<Code> -> string, stamp: (string, string) -> string)
  {
    i <= |sccs| && forall j | 0 <= j < i ::
      (forall f | f in sccs[j] :: f in adj && f in bare)
      && DepsNamed(adj, sccs[j], renamed) && Stamped(adj, sccs[j], bare, renamed, hashOf, stamp)
  }

  lemma StampedNext(adj: map<string, seq<string>>, sccs: seq<seq<string>>, i: nat, bare: map<string, string>, before: map<string, string>,
                    after: map<string, string>, hashOf: seq<Code> -> string, stamp: (string, string) -> string)
    requires i < |sccs| && StampedUpTo(adj, sccs, i, bare, before, hashOf, stamp)
    requires before.Keys <= after.Keys && forall x | x in before :: after[x] == before[x]
    requires (forall f | f in sccs[i] :: f in adj && f in bare && f in after) && DepsNamed(adj, sccs[i], before)
    requires forall f | f in sccs[i] :: after[f] == stamp(f, hashOf(ComponentCodes(adj, sccs[i], bare, before)))
    ensures StampedUpTo(adj, sccs, i + 1, bare, after, hashOf, stamp)
  {
    hide ComponentCodes, DepsNamed;
    forall j | 0 <= j < i + 1
      ensures forall f | f in sccs[j] :: f in adj && f in bare
      ensures DepsNamed(adj, sccs[j], after) && Stamped(adj, sccs[j], bare, after, hashOf, stamp)
    {
      SameCodes(adj, sccs[j], bare, before, after);
    }
  }

  lemma ComponentDepsNamed(b: Bundle, adj: map<string, seq<string>>, sccs: seq<seq<string>>, i: nat, renamed: map<string, string>)
    requires IsAdjacency(b, adj) && Tarjan.DependenciesFirst(HashGraph(b), LexLeq, sccs) && i < |sccs|
    requires renamed.Keys == Tarjan.Emitted(sccs[..i]) && forall f | f in sccs[i] :: f in adj
    ensures DepsNamed(adj, sccs[i], renamed)
  {
    hide IsHashDep, Tarjan.DependenciesFirst, Tarjan.Emitted;
    forall f, dep | f in sccs[i] && dep in adj[f]
      ensures dep in sccs[i] || dep in renamed
    {
      assert IsDepList(b, f, adj[f]);
      DependencyRenamed(b, sccs, i, f, dep);
    }
  }

  /** One turn of the renaming loop. */
  method RenameNext(b: Bundle, ghost prefix: string, adj: map<string, seq<string>>, bare: map<string, string>,
                    sccs: seq<seq<string>>, i: nat, renamed0: map<string, string>, lists0: map<string, map<string, string>>,
                    base: string, imports0: map<string, string>, hashOf: seq<Code> -> string, stamp: (string, string) -> string)
    returns (renamed: map<string, string>, lists: map<string, map<string, string>>, imports: map<string, string>)
    requires WellFormed(b) && (forall f | f in b.files :: f in b.chunks) && SpecifiersOf(b, prefix, bare)
    requires IsAdjacency(b, adj)
    requires Tarjan.DependenciesFirst(HashGraph(b), LexLeq, sccs) && Tarjan.Emitted(sccs) == b.chunks.Keys && i < |sccs|
    requires renamed0.Keys == Tarjan.Emitted(sccs[..i]) && lists0.Keys == Tarjan.Emitted(sccs[..i])
    requires renamed0.Keys <= bare.Keys && Imported(renamed0.Keys, bare, renamed0, base, imports0)
    requires AllFinal(b, bare, renamed0, lists0) && StampedUpTo(adj, sccs, i, bare, renamed0, hashOf, stamp)
    ensures renamed.Keys == Tarjan.Emitted(sccs[..i + 1]) && lists.Keys == Tarjan.Emitted(sccs[..i + 1])
    ensures renamed.Keys <= bare.Keys && Imported(renamed.Keys, bare, renamed, base, imports)
    ensures AllFinal(b, bare, renamed, lists) && StampedUpTo(adj, sccs, i + 1, bare, renamed, hashOf, stamp)
  {
    hide StampedUpTo, DepsNamed, ComponentCodes, IsDepList, IsHashDep, FinalNames, Embedded, Reaches, Tarjan.DependenciesFirst, Tarjan.Emitted, WellFormed, SpecifiersOf, Imported;
    assert bare.Keys == b.chunks.Keys by { BareKeys(b, prefix, bare); }
    ComponentFresh(HashGraph(b), sccs, i, b.chunks.Keys);
    var hash, renamed', lists' := RenameComponent(adj, sccs[i], bare, renamed0, hashOf, stamp);
    renamed := renamed';
    ComponentDepsNamed(b, adj, sccs, i, renamed0);
    assert forall f | f in sccs[i] :: f in Elems(sccs[i]);
    StampedNext(adj, sccs, i, bare, renamed0, renamed, hashOf, stamp);
    ImportedStays(renamed0.Keys, bare, renamed0, renamed, base, imports0);
    imports := ImportMembers(sccs[i], bare, renamed, base, renamed0.Keys, imports0);
    lists := lists0 + lists';
    UnionKeys(lists0, lists');
    forall f | f in lists
      ensures FinalNames(b, bare, f, renamed, lists[f])
    {
      if f in lists' {
        assert f in sccs[i];
        ComponentFinal(b, prefix, adj, bare, sccs, i, renamed0, renamed, lists'[f], f);
      } else {
        FinalStays(b, bare, f, renamed0, renamed, lists0[f]);
      }
    }
    Tarjan.EmittedAppend(sccs[..i], sccs[i]);
    TakeNext(sccs, i);
  }

  /** Every chunk is named by the hash of its component's code, in which every dependency outside the
      component stands under its own final name: one fixed point over all components. */
  ghost predicate NamedByContent(b: Bundle, bare: map<string, string>, renamed: map<string, string>, hashOf: seq<Code> -> string,
                                 stamp: (string, string) -> string)
  {
    exists adj, sccs ::
      && IsAdjacency(b, adj)
      && Tarjan.DependenciesFirst(HashGraph(b), LexLeq, sccs) && Tarjan.Emitted(sccs) == b.chunks.Keys
      && StampedUpTo(adj, sccs, |sccs|, bare, renamed, hashOf, stamp)
  }

  /** The renaming loop: every chunk gets a final name, every preload list ends up naming exactly the chunk's
      hash dependencies, and the import map resolves exactly the chunks' specifiers. */
  method RenameChunks(b: Bundle, prefix: string, base: string, hashOf: seq<Code> -> string, stamp: (string, string) -> string)
    returns (bare: map<string, string>, renamed: map<string, string>, lists: map<string, map<string, string>>, imports: map<string, string>)
    requires WellFormed(b)
    ensures (forall f | f in b.files :: f in b.chunks) && SpecifiersOf(b, prefix, bare)
    ensures bare.Keys == renamed.Keys == lists.Keys == b.chunks.Keys
    ensures forall f | f in lists :: FinalNames(b, bare, f, renamed, lists[f])
    ensures Imported(renamed.Keys, bare, renamed, base, imports)
    ensures NamedByContent(b, bare, renamed, hashOf, stamp)
  {
    hide IsDepList, StampedUpTo, IsHashDep, FinalNames, SpecifiersOf, Reaches, Tarjan.DependenciesFirst, Imported, Tarjan.TotalOrder,
         Tarjan.Emitted, Tarjan.EdgesInside;
    assert forall f | f in b.files :: f in Elems(b.files);
    bare := BareMap(b, prefix);
    BareKeys(b, prefix, bare);
    var adj := HashDependencies(b);
    AdjacencyIsHashGraph(b, adj);
    LexIsTotalOrder();
    var sccs := Tarjan.StronglyConnectedComponents(b.files, adj, LexLeq);
    renamed, lists, imports := map[], map[], map[];
    NothingEmitted(sccs);
    NothingStamped(adj, sccs, bare, hashOf, stamp);
    NothingImported(bare, base);
    for i := 0 to |sccs|
      invariant renamed.Keys == Tarjan.Emitted(sccs[..i]) && lists.Keys == Tarjan.Emitted(sccs[..i])
      invariant renamed.Keys <= bare.Keys && Imported(renamed.Keys, bare, renamed, base, imports)
      invariant AllFinal(b, bare, renamed, lists) && StampedUpTo(adj, sccs, i, bare, renamed, hashOf, stamp)
    {
      renamed, lists, imports := RenameNext(b, prefix, adj, bare, sccs, i, renamed, lists, base, imports, hashOf, stamp);
    }
    TakeAll(sccs);
  }

  lemma NothingImported(bare: map<string, string>, base: string)
    ensures Imported({}, bare, map[], base, map[])
  {
  }

  /** With distinct specifiers every preload list has every dependency under its own final name. */
  lemma DistinctListsRight(b: Bundle, prefix: string, bare: map<string, string>, f: string, renamed: map<string, string>, list: map<string, string>)
    requires WellFormed(b) && (forall x | x in b.files :: x in b.chunks) && SpecifiersOf(b, prefix, bare) && BareDistinct(Names(b), prefix)
    requires FinalNames(b, bare, f, renamed, list)
    ensures forall dep | dep in list :: dep in renamed && list[dep] == renamed[dep]
  {
    hide Mutual, IsHashDep, BareDistinct, WellFormed, SpecifiersOf;
    forall dep | dep in list && Mutual(HashGraph(b), f, dep)
      ensures dep in renamed && list[dep] == renamed[dep]
    {
      var m :| LeastWith(b, bare, f, dep, m) && m in renamed && list[dep] == renamed[m];
      DistinctBare(b, prefix, bare, m, dep);
    }
    assert forall dep | dep in list && !Mutual(HashGraph(b), f, dep) :: dep in renamed && list[dep] == renamed[dep];
  }

  /** The import map is right for every chunk if and only if chunks with one specifier have one final name;
      when final names differ, if and only if specifiers are distinct. */
  lemma ImportsRightExactly(b: Bundle, prefix: string, bare: map<string, string>, renamed: map<string, string>, base: string, imports: map<string, string>)
    requires WellFormed(b) && (forall x | x in b.files :: x in b.chunks) && SpecifiersOf(b, prefix, bare)
    requires bare.Keys == renamed.Keys == b.chunks.Keys && Imported(renamed.Keys, bare, renamed, base, imports)
    ensures ImportsRight(bare, renamed, base, imports)
       <==> forall f, g | f in renamed && g in renamed && bare[f] == bare[g] :: renamed[f] == renamed[g]
    ensures (forall f, g | f in renamed && g in renamed && renamed[f] == renamed[g] :: f == g) ==>
              (ImportsRight(bare, renamed, base, imports) <==> BareDistinct(Names(b), prefix))
  {
    hide SpecifiersOf, WellFormed, BareDistinct;
    forall f, g | ImportsRight(bare, renamed, base, imports) && f in renamed && g in renamed && bare[f] == bare[g]
      ensures renamed[f] == renamed[g]
    {
      SameTail(base, renamed[f], renamed[g]);
    }
    if BareDistinct(Names(b), prefix) {
      forall f, g | f in bare && g in bare && bare[f] == bare[g]
        ensures f == g
      {
        DistinctBare(b, prefix, bare, f, g);
      }
    } else {
      var f, g := ClashingChunks(b, prefix, bare);
    }
  }

  ghost predicate ImportsRight(bare: map<string, string>, renamed: map<string, string>, base: string, imports: map<string, string>)
    requires bare.Keys == renamed.Keys
  {
    forall f | f in renamed :: bare[f] in imports && imports[bare[f]] == base + renamed[f]
  }

  lemma SameTail(base: string, x: string, y: string)
    requires base + x == base + y
    ensures x == y
  {
    assert x == (base + x)[|base|..] && y == (base + y)[|base|..];
  }

  lemma ClashingChunks(b: Bundle, prefix: string, bare: map<string, string>) returns (f: string, g: string)
    requires WellFormed(b) && (forall x | x in b.files :: x in b.chunks) && SpecifiersOf(b, prefix, bare) && !BareDistinct(Names(b), prefix)
    ensures f != g && f in bare && g in bare && bare[f] == bare[g]
  {
    var i, j :| 0 <= i < |Names(b)| && 0 <= j < |Names(b)| && Bare(Names(b), prefix, i) == Bare(Names(b), prefix, j) && i != j;
    f, g := b.files[i], b.files[j];
  }

  lemma NothingStamped(adj: map<string, seq<string>>, sccs: seq<seq<string>>, bare: map<string, string>,
                       hashOf: seq<Code> -> string, stamp: (string, string) -> string)
    ensures StampedUpTo(adj, sccs, 0, bare, map[], hashOf, stamp)
  {
  }

  lemma UnionKeys<K, V>(m: map<K, V>, n: map<K, V>)
    ensures (m + n).Keys == m.Keys + n.Keys
  {
  }

  lemma BareKeys(b: Bundle, prefix: string, bare: map<string, string>)
    requires (forall f | f in b.files :: f in b.chunks) && SpecifiersOf(b, prefix, bare)
    ensures bare.Keys == b.chunks.Keys
  {
  }

  lemma NothingEmitted(sccs: seq<seq<string>>)
    ensures Tarjan.Emitted(sccs[..0]) == {}
  {
  }

  lemma ComponentFresh(g: Graph<string>, sccs: seq<seq<string>>, i: nat, all: set<string>)
    requires Tarjan.DependenciesFirst(g, LexLeq, sccs) && i < |sccs| && Tarjan.Emitted(sccs) == all
    ensures forall f | f in sccs[i] :: f in all && f !in Tarjan.Emitted(sccs[..i])
  {
    hide Reaches, Closed, Tarjan.StrictlySorted, Tarjan.IsComponent;
    forall f | f in sccs[i]
      ensures f in all && f !in Tarjan.Emitted(sccs[..i])
    {
      assert f in Tarjan.Emitted(sccs);
      assert forall j | 0 <= j < i && f in sccs[j] :: f !in sccs[i];
    }
  }
}
