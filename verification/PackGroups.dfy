/** Pack groups: dependency cycle detection, roots and transitive dependencies, and why subtracting
    direct dependencies alone loses nothing (crates/walgit-config/src/refs.rs:128-194,
    crates/walgit-git/src/pack_groups.rs). */
module PackGroups {
  import opened Reachability
  import opened RefNames
  import opened Seqs

  datatype Kind = Code | Meta

  datatype Group = Group(kind: Kind, selectors: seq<string>, subtract: seq<string>)

  type Groups = map<string, Group>

  /** The whole policy: what is advertised, and the groups in name order. The characters of a string stand
      for its bytes. */
  datatype Config = Config(advertise: seq<string>, names: seq<string>, groups: Groups)

  ghost predicate IsConfig(c: Config) {
    && c.groups.Keys == (set n | n in c.names)
    && forall i, j | 0 <= i < j < |c.names| :: c.names[i] != c.names[j]
  }

  function SubtractGraph(groups: Groups): Graph<string> {
    map name | name in groups :: set d | d in groups[name].subtract
  }

  /** Every name the cycle search can come across. */
  ghost function Universe(groups: Groups): set<string> {
    groups.Keys + set name, d | name in groups && d in groups[name].subtract :: d
  }

  // ---- cycle detection ----

  /** Finished names: their dependencies are finished and none of them lies on a cycle. */
  ghost predicate Finished(g: Graph<string>, done: set<string>) {
    Closed(g, done) && forall v | v in done :: !ReachesPlus(g, v, v)
  }

  method VisitGroup(name: string, groups: Groups, visiting0: set<string>, done0: set<string>)
    returns (ok: bool, visiting: set<string>, done: set<string>)
    requires name in Universe(groups) && visiting0 !! done0
    requires Finished(SubtractGraph(groups), done0)
    requires forall u | u in visiting0 :: ReachesPlus(SubtractGraph(groups), u, name)
    ensures ok ==> visiting == visiting0 && done0 + {name} <= done && visiting !! done
    ensures ok ==> Finished(SubtractGraph(groups), done)
    ensures !ok ==> !Acyclic(SubtractGraph(groups))
    decreases Universe(groups) - visiting0
  {
    hide Reaches, ReachesPlus;
    ghost var g := SubtractGraph(groups);
    visiting, done := visiting0, done0;
    if name in done {
      return true, visiting, done;
    }
    if name in visiting {
      assert ReachesPlus(g, name, name);
      return false, visiting, done;
    }
    visiting := visiting + {name};
    if name in groups {
      var subtract := groups[name].subtract;
      for i := 0 to |subtract|
        invariant visiting == visiting0 + {name} && done0 <= done && visiting !! done
        invariant forall k | 0 <= k < i :: subtract[k] in done
        invariant Finished(g, done)
      {
        var dep := subtract[i];
        assert dep in Succ(g, name) && dep in Universe(groups);
        ReachPlusEdge(g, name, dep);
        forall u | u in visiting
          ensures ReachesPlus(g, u, dep)
        {
          if u != name {
            ReachesEdge(g, name, dep);
            ReachesPlusTransitive(g, u, name, dep);
          }
        }
        assert name in Universe(groups) - visiting0;
        ok, visiting, done := VisitGroup(dep, groups, visiting, done);
        if !ok {
          return false, visiting, done;
        }
      }
    }
    FinishGroup(g, name, done);
    visiting := visiting - {name};
    done := done + {name};
    ok := true;
  }

  lemma ReachPlusEdge<T(!new)>(g: Graph<T>, u: T, v: T)
    requires v in Succ(g, u)
    ensures ReachesPlus(g, u, v)
  {
    hide Reaches;
    ReachesSelf(g, v);
  }

  lemma FinishGroup(g: Graph<string>, name: string, done: set<string>)
    requires Finished(g, done) && Succ(g, name) <= done && name !in done
    ensures Finished(g, done + {name})
  {
    hide Reaches;
    if ReachesPlus(g, name, name) {
      var w :| w in Succ(g, name) && Reaches(g, w, name);
      ClosedHoldsReachable(g, done, w, name);
    }
  }

  /** The search over all groups succeeds exactly on configurations without a dependency cycle. */
  method CheckAcyclic(names: seq<string>, groups: Groups) returns (ok: bool)
    requires groups.Keys == set n | n in names
    ensures ok <==> Acyclic(SubtractGraph(groups))
  {
    hide Reaches, ReachesPlus;
    ghost var g := SubtractGraph(groups);
    var done: set<string> := {};
    for i := 0 to |names|
      invariant Finished(g, done)
      invariant forall k | 0 <= k < i :: names[k] in done
    {
      var visiting;
      ok, visiting, done := VisitGroup(names[i], groups, {}, done);
      if !ok {
        return;
      }
    }
    forall v
      ensures !ReachesPlus(g, v, v)
    {
      if v in groups.Keys {
        var k :| 0 <= k < |names| && names[k] == v;
        assert v in done;
      } else {
        NoSuccessorNoCycle(g, v);
      }
    }
    ok := true;
  }

  lemma NoSuccessorNoCycle<T(!new)>(g: Graph<T>, v: T)
    requires v !in g
    ensures !ReachesPlus(g, v, v)
  {
  }

  const MAX_GROUPS := 32
  const MAX_DEPENDENCIES := 32

  /** The dependency list of one group is acceptable. */
  ghost predicate DependenciesAllowed(groups: Groups, name: string)
    requires name in groups
  {
    var group := groups[name];
    && |group.subtract| <= 32
    && (forall i, j | 0 <= i < j < |group.subtract| :: group.subtract[i] != group.subtract[j])
    && (forall d | d in group.subtract :: d in groups && group.kind == Code && groups[d].kind == Code)
  }

  predicate NameChar(c: char) {
    'a' <= c <= 'z' || 'A' <= c <= 'Z' || '0' <= c <= '9' || c == '-' || c == '_'
  }

  /** Names that start with an underscore are reserved. */
  predicate ValidGroupName(name: string) {
    name != [] && name[0] != '_' && forall c | c in name :: NameChar(c)
  }

  /** Group names, spelled out: ASCII letters, digits, hyphens and underscores, the first no underscore. */
  lemma GroupNameSpelled(name: string)
    ensures ValidGroupName(name) ==> name != "" && name[0] != '_'
    ensures name != "" && name[0] != '_' ==> (ValidGroupName(name) <==> forall i | 0 <= i < |name| :: WordCode(name[i] as int))
  {
    forall c: char
      ensures NameChar(c) <==> WordCode(c as int)
    {
    }
    hide NameChar, WordCode;
    if forall i | 0 <= i < |name| :: WordCode(name[i] as int) {
      forall c | c in name
        ensures NameChar(c)
      {
        var i :| 0 <= i < |name| && name[i] == c;
        assert WordCode(name[i] as int);
      }
    }
    if forall c | c in name :: NameChar(c) {
      forall i | 0 <= i < |name|
        ensures WordCode(name[i] as int)
      {
        assert name[i] in name;
      }
    }
  }

  predicate WordCode(code: int) {
    97 <= code <= 122 || 65 <= code <= 90 || 48 <= code <= 57 || code == 45 || code == 95
  }

  ghost predicate ValidGroups(groups: Groups) {
    && |groups| <= 32
    && (forall name | name in groups :: ValidGroupName(name))
    && (forall name | name in groups :: DependenciesAllowed(groups, name))
    && Acyclic(SubtractGraph(groups))
  }

  method CheckDependencies(groups: Groups, name: string) returns (ok: bool)
    requires name in groups
    ensures ok <==> DependenciesAllowed(groups, name)
  {
    var group := groups[name];
    if |group.subtract| > MAX_DEPENDENCIES {
      return false;
    }
    var unique: set<string> := {};
    for i := 0 to |group.subtract|
      invariant unique == set d | d in group.subtract[..i]
      invariant forall a, b | 0 <= a < b < i :: group.subtract[a] != group.subtract[b]
    {
      var d := group.subtract[i];
      assert group.subtract[..i + 1] == group.subtract[..i] + [d];
      if d in unique {
        return false;
      }
      unique := unique + {d};
    }
    for i := 0 to |group.subtract|
      invariant forall k | 0 <= k < i :: group.subtract[k] in groups && group.kind == Code && groups[group.subtract[k]].kind == Code
    {
      var d := group.subtract[i];
      if d !in groups || group.kind != Code || groups[d].kind != Code {
        return false;
      }
    }
    return true;
  }

  const MAX_POLICY_BYTES := 16 * 1024

  function Lengths(texts: seq<string>): nat {
    if texts == [] then 0 else Lengths(texts[..|texts| - 1]) + |texts[|texts| - 1]|
  }

  function GroupBytes(names: seq<string>, groups: Groups): nat
    requires forall n | n in names :: n in groups
  {
    if names == [] then 0
    else
      var name := names[|names| - 1];
      GroupBytes(names[..|names| - 1], groups) + |name| + Lengths(groups[name].selectors) + Lengths(groups[name].subtract)
  }

  ghost predicate ValidConfig(c: Config)
    requires IsConfig(c)
  {
    && ValidGroups(c.groups) && ValidSelectors(c.advertise)
    && (forall n | n in c.groups :: ValidSelectors(c.groups[n].selectors))
    && Lengths(c.advertise) + GroupBytes(c.names, c.groups) <= 16384
  }

  method TotalLength(texts: seq<string>) returns (n: nat)
    ensures n == Lengths(texts)
  {
    n := 0;
    for i := 0 to |texts|
      invariant n == Lengths(texts[..i])
    {
      TakeNext(texts, i);
      assert texts[..i + 1][..i] == texts[..i];
      n := n + |texts[i]|;
    }
    TakeAll(texts);
  }

  /** The name, the selectors and the dependencies of one group. */
  method CheckGroup(groups: Groups, name: string) returns (ok: bool)
    requires name in groups
    ensures ok <==> ValidGroupName(name) && ValidSelectors(groups[name].selectors) && DependenciesAllowed(groups, name)
  {
    hide DependenciesAllowed, ValidGroupName, ValidSelectors;
    if !ValidGroupName(name) {
      return false;
    }
    var selectors := ValidateSelectors(groups[name].selectors);
    if !selectors {
      return false;
    }
    ok := CheckDependencies(groups, name);
  }

  /** Validation accepts exactly the policies within bounds, with well-formed names and selectors and
      acyclic groups. */
  method Validate(c: Config) returns (ok: bool)
    requires IsConfig(c)
    ensures ok <==> ValidConfig(c)
  {
    hide DependenciesAllowed, Acyclic, ValidGroupName, ValidSelectors, Lengths;
    var names, groups := c.names, c.groups;
    if |groups| > MAX_GROUPS {
      return false;
    }
    ok := ValidateSelectors(c.advertise);
    if !ok {
      return;
    }
    var bytes := TotalLength(c.advertise);
    for i := 0 to |names|
      invariant forall k | 0 <= k < i :: names[k] in groups && ValidGroupName(names[k]) && DependenciesAllowed(groups, names[k])
      invariant forall k | 0 <= k < i :: names[k] in groups && ValidSelectors(groups[names[k]].selectors)
      invariant bytes == Lengths(c.advertise) + GroupBytes(names[..i], groups)
    {
      assert names[i] in groups.Keys;
      ok := CheckGroup(groups, names[i]);
      if !ok {
        return;
      }
      var selectors := TotalLength(groups[names[i]].selectors);
      var dependencies := TotalLength(groups[names[i]].subtract);
      bytes := bytes + |names[i]| + selectors + dependencies;
      TakeNext(names, i);
      assert names[..i + 1][..i] == names[..i];
    }
    TakeAll(names);
    if bytes > MAX_POLICY_BYTES {
      return false;
    }
    ok := CheckAcyclic(names, groups);
  }

  // ---- resolving groups against captured refs ----

  datatype GroupRoots = GroupRoots(kind: Kind, included: set<string>, excluded: set<string>, dependencies: set<string>)

  datatype Resolution = Resolved(groups: map<string, GroupRoots>) | InvalidInput

  ghost predicate MatchesRef(group: Group, name: string, headTarget: string) {
    && (IsMetadataRef(name) <==> group.kind == Meta)
    && Included(group.selectors, name, headTarget)
  }

  /** The oids of the refs a group selects. */
  ghost predicate IsRoot(group: Group, refs: seq<Ref>, headTarget: string, oid: string) {
    exists i | 0 <= i < |refs| :: refs[i].oid == oid && MatchesRef(group, refs[i].name, headTarget)
  }

  predicate ValidRef(r: Ref) {
    ValidRefName(r.name) && r.name != "HEAD" && IsObjectId(r.oid) && !IsZero(r.oid)
  }

  /** A valid name other than HEAD, and a whole object id that is not all zeros. */
  ghost predicate RefSpelled(r: Ref) {
    NameSpelled(r.name) && r.name != "HEAD" && IdSpelled(r.oid) && exists i | 0 <= i < |r.oid| :: r.oid[i] != '0'
  }

  lemma RefSpelledExactly(r: Ref)
    ensures ValidRef(r) <==> RefSpelled(r)
  {
    hide ValidRefName, NameSpelled, IsObjectId, IdSpelled;
    NameSpelledExactly(r.name);
    IdSpelledExactly(r.oid);
    if i :| 0 <= i < |r.oid| && r.oid[i] != '0' {
      assert r.oid[i] in r.oid;
    }
  }

  ghost predicate ValidRefs(refs: seq<Ref>) {
    && (forall i | 0 <= i < |refs| :: RefSpelled(refs[i]))
    && (forall i, j | 0 <= i < j < |refs| :: refs[i].name != refs[j].name)
  }

  method CheckRefs(refs: seq<Ref>) returns (ok: bool)
    ensures ok <==> ValidRefs(refs)
  {
    hide ValidRef, RefSpelled;
    var names: set<string> := {};
    for i := 0 to |refs|
      invariant names == set k | 0 <= k < i :: refs[k].name
      invariant forall k | 0 <= k < i :: RefSpelled(refs[k])
      invariant forall a, b | 0 <= a < b < i :: refs[a].name != refs[b].name
    {
      RefSpelledExactly(refs[i]);
      if !ValidRef(refs[i]) || refs[i].name in names {
        return false;
      }
      names := names + {refs[i].name};
    }
    ok := true;
  }

  method RootsOf(group: Group, refs: seq<Ref>, headTarget: string) returns (roots: set<string>)
    ensures forall oid :: oid in roots <==> IsRoot(group, refs, headTarget, oid)
  {
    hide MatchesRef, Included;
    roots := {};
    for i := 0 to |refs|
      invariant forall oid :: oid in roots <==>
        exists k :: 0 <= k < i && refs[k].oid == oid && MatchesRef(group, refs[k].name, headTarget)
    {
      var matches := MatchesOne(group, refs[i].name, headTarget);
      if matches {
        roots := roots + {refs[i].oid};
      }
    }
  }

  method MatchesOne(group: Group, name: string, headTarget: string) returns (matches: bool)
    ensures matches <==> MatchesRef(group, name, headTarget)
  {
    var selected := SelectorsMatch(group.selectors, name, headTarget);
    matches := (IsMetadataRef(name) <==> group.kind == Meta) && selected;
  }

  /** What the worklist has found and still has to look at; everything reachable is covered. */
  ghost predicate WorklistInv(g: Graph<string>, name: string, dependencies: set<string>, pending: seq<string>) {
    && (forall d | d in dependencies || d in pending :: ReachesPlus(g, name, d))
    && (forall d | d in Succ(g, name) :: d in dependencies || d in pending)
    && (forall d | d in dependencies :: forall e | e in Succ(g, d) :: e in dependencies || e in pending)
  }

  /** The worklist finds exactly the transitive dependencies. */
  method TransitiveDependencies(groups: Groups, name: string) returns (missing: bool, dependencies: set<string>)
    requires name in groups
    ensures !missing ==> forall d :: d in dependencies <==> ReachesPlus(SubtractGraph(groups), name, d)
    ensures missing ==> exists d :: d !in groups && ReachesPlus(SubtractGraph(groups), name, d)
  {
    hide Reaches, ReachesPlus;
    ghost var g := SubtractGraph(groups);
    dependencies := {};
    var pending := groups[name].subtract;
    forall d | d in pending
      ensures ReachesPlus(g, name, d)
    {
      ReachPlusEdge(g, name, d);
    }
    while pending != []
      invariant WorklistInv(g, name, dependencies, pending)
      invariant forall d | d in pending :: d in Universe(groups)
      decreases Universe(groups) - dependencies, |pending|
    {
      var d := pending[|pending| - 1];
      ghost var before := pending;
      pending := pending[..|pending| - 1];
      assert before == pending + [d] && d in Universe(groups);
      if d !in dependencies {
        if d !in groups {
          return true, dependencies;
        }
        assert d in Universe(groups) - dependencies;
        dependencies := dependencies + {d};
        forall e | e in groups[d].subtract
          ensures ReachesPlus(g, name, e)
        {
          ReachesEdge(g, d, e);
          ReachesPlusTransitive(g, name, d, e);
        }
        pending := pending + groups[d].subtract;
      }
    }
    missing := false;
    WorklistDone(g, name, dependencies);
  }

  lemma WorklistDone(g: Graph<string>, name: string, dependencies: set<string>)
    requires WorklistInv(g, name, dependencies, [])
    ensures forall d :: d in dependencies <==> ReachesPlus(g, name, d)
  {
    hide Reaches;
    assert Closed(g, dependencies);
    forall d | ReachesPlus(g, name, d)
      ensures d in dependencies
    {
      var w :| w in Succ(g, name) && Reaches(g, w, d);
      ClosedHoldsReachable(g, dependencies, w, d);
    }
  }

  /** One group resolved: its own roots, the roots of its direct dependencies, and the names of all
      its transitive ones. */
  ghost predicate ResolvedAs(groups: Groups, refs: seq<Ref>, headTarget: string, name: string, r: GroupRoots)
    requires name in groups
  {
    && r.kind == groups[name].kind
    && (forall oid :: oid in r.included <==> IsRoot(groups[name], refs, headTarget, oid))
    && (forall oid :: oid in r.excluded <==>
          exists d :: d in groups[name].subtract && d in groups && IsRoot(groups[d], refs, headTarget, oid))
    && (forall d :: d in r.dependencies <==> ReachesPlus(SubtractGraph(groups), name, d))
  }

  method AllRoots(names: seq<string>, groups: Groups, refs: seq<Ref>, headTarget: string) returns (roots: map<string, set<string>>)
    requires groups.Keys == set n | n in names
    ensures RootsRight(groups, refs, headTarget, roots)
  {
    hide IsRoot;
    roots := map[];
    for i := 0 to |names|
      invariant roots.Keys == set n | n in names[..i]
      invariant forall n | n in roots :: n in groups && forall oid :: oid in roots[n] <==> IsRoot(groups[n], refs, headTarget, oid)
    {
      var name := names[i];
      assert name in groups.Keys;
      assert names[..i + 1] == names[..i] + [name];
      var r := RootsOf(groups[name], refs, headTarget);
      roots := roots[name := r];
    }
    assert names[..|names|] == names;
  }

  method DirectExclusions(groups: Groups, name: string, roots: map<string, set<string>>) returns (exclude: set<string>)
    requires name in groups && roots.Keys == groups.Keys
    ensures forall oid :: oid in exclude <==> exists d :: d in groups[name].subtract && d in groups && oid in roots[d]
  {
    var subtract := groups[name].subtract;
    exclude := {};
    for i := 0 to |subtract|
      invariant forall oid :: oid in exclude <==> exists k :: 0 <= k < i && subtract[k] in groups && oid in roots[subtract[k]]
    {
      if subtract[i] in roots {
        exclude := exclude + roots[subtract[i]];
      }
    }
  }

  ghost predicate AllResolved(groups: Groups, refs: seq<Ref>, headTarget: string, resolved: map<string, GroupRoots>) {
    resolved.Keys == groups.Keys && forall n | n in groups :: ResolvedAs(groups, refs, headTarget, n, resolved[n])
  }

  /** The roots found for every group are those its selectors take. */
  ghost predicate RootsRight(groups: Groups, refs: seq<Ref>, headTarget: string, roots: map<string, set<string>>) {
    roots.Keys == groups.Keys && forall n | n in groups :: forall oid :: oid in roots[n] <==> IsRoot(groups[n], refs, headTarget, oid)
  }

  method ResolveGroup(groups: Groups, refs: seq<Ref>, headTarget: string, name: string, roots: map<string, set<string>>) returns (g: GroupRoots)
    requires ValidGroups(groups) && name in groups && RootsRight(groups, refs, headTarget, roots)
    ensures ResolvedAs(groups, refs, headTarget, name, g)
  {
    hide IsRoot, ReachesPlus, ValidGroups, ResolvedAs;
    var missing, dependencies := TransitiveDependencies(groups, name);
    if missing {
      DependenciesKnown(groups, name);
      assert false;
    }
    var exclude := DirectExclusions(groups, name, roots);
    g := GroupRoots(groups[name].kind, roots[name], exclude, dependencies);
    GroupResolved(groups, refs, headTarget, name, roots, g);
  }

  method ResolveGroups(c: Config, refs: seq<Ref>, headTarget: string) returns (r: Resolution)
    requires IsConfig(c)
    ensures r.Resolved? <==> ValidConfig(c) && ValidRefs(refs)
    ensures r.Resolved? ==> AllResolved(c.groups, refs, headTarget, r.groups)
    ensures r.Resolved? ==> forall n | n in c.groups :: forall oid ::
              oid in r.groups[n].included <==> exists ref :: ref in refs && ref.oid == oid && Takes(c.groups[n], ref.name, headTarget)
  {
    hide IsRoot, ReachesPlus, ValidGroups, ValidRefs, ResolvedAs, Takes, RootsRight;
    var names, groups := c.names, c.groups;
    var valid := Validate(c);
    var refsOk := CheckRefs(refs);
    if !valid || !refsOk {
      return InvalidInput;
    }
    var roots := AllRoots(names, groups, refs, headTarget);
    var result: map<string, GroupRoots> := map[];
    for i := 0 to |names|
      invariant result.Keys == set n | n in names[..i]
      invariant forall n | n in result :: n in groups && ResolvedAs(groups, refs, headTarget, n, result[n])
    {
      var name := names[i];
      assert name in groups.Keys;
      assert names[..i + 1] == names[..i] + [name];
      var g := ResolveGroup(groups, refs, headTarget, name, roots);
      result := result[name := g];
    }
    assert names[..|names|] == names;
    r := Resolved(result);
    AllRootsDecided(groups, refs, headTarget, result);
  }

  lemma AllRootsDecided(groups: Groups, refs: seq<Ref>, headTarget: string, resolved: map<string, GroupRoots>)
    requires AllResolved(groups, refs, headTarget, resolved)
    ensures forall n | n in groups :: forall oid ::
              oid in resolved[n].included <==> exists ref :: ref in refs && ref.oid == oid && Takes(groups[n], ref.name, headTarget)
  {
    hide IsRoot, ResolvedAs, Takes;
    forall n, oid | n in groups
      ensures oid in resolved[n].included <==> exists ref :: ref in refs && ref.oid == oid && Takes(groups[n], ref.name, headTarget)
    {
      RootsAreDecided(groups[n], refs, headTarget, oid);
      IncludedAreRoots(groups, refs, headTarget, n, resolved[n], oid);
    }
  }

  lemma IncludedAreRoots(groups: Groups, refs: seq<Ref>, headTarget: string, n: string, r: GroupRoots, oid: string)
    requires n in groups && ResolvedAs(groups, refs, headTarget, n, r)
    ensures oid in r.included <==> IsRoot(groups[n], refs, headTarget, oid)
  {
  }

  /** A group takes a ref that its selectors decide for: metadata refs a meta group, all others a code group. */
  ghost predicate Takes(group: Group, name: string, headTarget: string) {
    && Decided(group.selectors, name, headTarget)
    && (group.kind == Meta <==> name == "refs/meta" || "refs/meta/" <= name)
  }

  /** A group's roots, by what its selectors and the names say. */
  lemma RootsAreDecided(group: Group, refs: seq<Ref>, headTarget: string, oid: string)
    ensures IsRoot(group, refs, headTarget, oid) <==> exists ref :: ref in refs && ref.oid == oid && Takes(group, ref.name, headTarget)
  {
    hide Included, Decided;
    forall ref | ref in refs
      ensures MatchesRef(group, ref.name, headTarget) <==> Takes(group, ref.name, headTarget)
    {
      IncludedIsDecided(group.selectors, ref.name, headTarget);
    }
  }

  lemma GroupResolved(groups: Groups, refs: seq<Ref>, headTarget: string, name: string, roots: map<string, set<string>>, r: GroupRoots)
    requires name in groups && roots.Keys == groups.Keys
    requires forall n | n in groups :: forall oid :: oid in roots[n] <==> IsRoot(groups[n], refs, headTarget, oid)
    requires r.kind == groups[name].kind && r.included == roots[name]
    requires forall oid :: oid in r.excluded <==> exists d :: d in groups[name].subtract && d in groups && oid in roots[d]
    requires forall d :: d in r.dependencies <==> ReachesPlus(SubtractGraph(groups), name, d)
    ensures ResolvedAs(groups, refs, headTarget, name, r)
  {
    hide IsRoot, ReachesPlus;
    forall oid
      ensures oid in r.excluded <==> exists d :: d in groups[name].subtract && d in groups && IsRoot(groups[d], refs, headTarget, oid)
    {
    }
  }

  lemma DependenciesKnown(groups: Groups, name: string)
    requires ValidGroups(groups) && name in groups
    ensures forall d | ReachesPlus(SubtractGraph(groups), name, d) :: d in groups
  {
    hide Reaches, Acyclic;
    var g := SubtractGraph(groups);
    assert Closed(g, groups.Keys) by {
      forall n, d | n in groups && d in Succ(g, n)
        ensures d in groups
      {
        assert DependenciesAllowed(groups, n);
      }
    }
    forall d | ReachesPlus(g, name, d)
      ensures d in groups
    {
      var w :| w in Succ(g, name) && Reaches(g, w, d);
      ClosedHoldsReachable(g, groups.Keys, w, d);
    }
  }

  // ---- what a group delivers ----

  ghost predicate InClosure(objects: Graph<string>, roots: set<string>, o: string) {
    exists r :: r in roots && Reaches(objects, r, o)
  }

  /** A revision walk from the roots that excludes others lists at least the difference of the two
      closures and at most the first. */
  ghost predicate IsPhysicalSet(objects: Graph<string>, r: GroupRoots, listed: set<string>) {
    && (forall o | o in listed :: InClosure(objects, r.included, o))
    && (forall o | InClosure(objects, r.included, o) && !InClosure(objects, r.excluded, o) :: o in listed)
  }

  /** Everything below a group's roots is in its own physical set or in that of a listed dependency,
      although each physical set subtracts its direct dependencies only. */
  lemma {:induction false} DependenciesCover(groups: Groups, refs: seq<Ref>, headTarget: string, objects: Graph<string>,
                          resolved: map<string, GroupRoots>, physical: map<string, set<string>>, name: string, o: string)
    requires ValidGroups(groups) && name in groups
    requires AllResolved(groups, refs, headTarget, resolved)
    requires physical.Keys == groups.Keys && forall n | n in groups :: IsPhysicalSet(objects, resolved[n], physical[n])
    requires InClosure(objects, resolved[name].included, o)
    ensures o in physical[name] || exists d :: d in resolved[name].dependencies && d in groups && o in physical[d]
    decreases |resolved[name].dependencies|
  {
    hide Reaches, ReachesPlus, IsRoot, Acyclic;
    var g := SubtractGraph(groups);
    if o !in physical[name] {
      var x :| x in resolved[name].excluded && Reaches(objects, x, o);
      var d :| d in groups[name].subtract && d in groups && IsRoot(groups[d], refs, headTarget, x);
      assert ResolvedAs(groups, refs, headTarget, d, resolved[d]) && x in resolved[d].included;
      ReachPlusEdge(g, name, d);
      DirectDependencyHasFewer(g, name, d, resolved[name].dependencies, resolved[d].dependencies);
      DependenciesCover(groups, refs, headTarget, objects, resolved, physical, d, o);
    }
  }

  lemma DirectDependencyHasFewer(g: Graph<string>, name: string, d: string, deps: set<string>, fewer: set<string>)
    requires Acyclic(g) && d in Succ(g, name)
    requires forall x :: x in deps <==> ReachesPlus(g, name, x)
    requires forall x :: x in fewer <==> ReachesPlus(g, d, x)
    ensures d in deps && fewer <= deps && |fewer| < |deps|
  {
    hide Reaches;
    ReachPlusEdge(g, name, d);
    forall x | x in fewer
      ensures x in deps
    {
      ReachesPlusReaches(g, d, x);
    }
    assert d !in fewer;
    SmallerThanWithout(fewer, deps, d);
  }

  lemma SmallerThanWithout<T>(a: set<T>, b: set<T>, x: T)
    requires a <= b && x in b && x !in a
    ensures |a| < |b|
  {
    var c := b - {x};
    assert a <= c && |c| == |b| - 1;
    SubsetSize(a, c);
  }

  /** The cycle search is what coverage rests on: when exactly the groups of a cycle select an object's
      ref, each of them leaves the object to the next, and no group need deliver it. */
  lemma CyclesLoseObjects(groups: Groups, refs: seq<Ref>, headTarget: string, resolved: map<string, GroupRoots>, name: string, o: string)
    returns (physical: map<string, set<string>>)
    requires name in groups && forall n | n in groups :: forall d | d in groups[n].subtract :: d in groups
    requires ReachesPlus(SubtractGraph(groups), name, name) && AllResolved(groups, refs, headTarget, resolved)
    requires forall n | n in groups :: IsRoot(groups[n], refs, headTarget, o) <==> Mutual(SubtractGraph(groups), name, n)
    ensures o in resolved[name].included && physical.Keys == groups.Keys
    ensures forall n | n in groups :: IsPhysicalSet(map[], resolved[n], physical[n]) && o !in physical[n]
  {
    hide Reaches, IsRoot, IsPhysicalSet, ReachesPlus;
    physical := map n | n in groups :: resolved[n].included - resolved[n].excluded;
    ReachesSelf(SubtractGraph(groups), name);
    assert ResolvedAs(groups, refs, headTarget, name, resolved[name]);
    forall n | n in groups
      ensures IsPhysicalSet(map[], resolved[n], physical[n]) && o !in physical[n]
    {
      DifferenceIsPhysical(resolved[n], physical[n]);
      LeftToTheNext(groups, refs, headTarget, resolved[n], name, n, o);
    }
  }

  lemma LeftToTheNext(groups: Groups, refs: seq<Ref>, headTarget: string, r: GroupRoots, name: string, n: string, o: string)
    requires name in groups && n in groups && forall x | x in groups :: forall d | d in groups[x].subtract :: d in groups
    requires ReachesPlus(SubtractGraph(groups), name, name) && ResolvedAs(groups, refs, headTarget, n, r)
    requires forall x | x in groups :: IsRoot(groups[x], refs, headTarget, o) <==> Mutual(SubtractGraph(groups), name, x)
    ensures o in r.included ==> o in r.excluded
  {
    hide Reaches, IsRoot, ReachesPlus, Mutual;
    if o in r.included {
      assert IsRoot(groups[n], refs, headTarget, o);
      var d := NextOnCycle(groups, name, n);
      assert IsRoot(groups[d], refs, headTarget, o);
    }
  }

  lemma NextOnCycle(groups: Groups, name: string, n: string) returns (d: string)
    requires n in groups && forall x | x in groups[n].subtract :: x in groups
    requires ReachesPlus(SubtractGraph(groups), name, name) && Mutual(SubtractGraph(groups), name, n)
    ensures d in groups[n].subtract && d in groups && Mutual(SubtractGraph(groups), name, d)
  {
    hide Reaches;
    var g := SubtractGraph(groups);
    if n != name {
      ReachesFirstStep(g, n, name);
    }
    d :| d in Succ(g, n) && Reaches(g, d, name);
    ReachesEdge(g, n, d);
    ReachesTransitive(g, name, n, d);
  }

  lemma DifferenceIsPhysical(r: GroupRoots, listed: set<string>)
    requires listed == r.included - r.excluded
    ensures IsPhysicalSet(map[], r, listed)
  {
    hide Reaches;
    var nothing: Graph<string> := map[];
    forall x, y: string | Reaches(nothing, x, y)
      ensures x == y
    {
      if x != y {
        ReachesFirstStep(nothing, x, y);
      }
    }
    forall x: string
      ensures Reaches(nothing, x, x)
    {
      ReachesSelf(nothing, x);
    }
  }
}
