/** Git objects as a graph: ids stand for contents, a store holds some of them. */
module Objects {
  import opened Basics
  import opened Reachability

  /** An opaque, ordered object id. */
  type Oid = nat

  datatype Kind = CommitKind | TreeKind | TagKind | BlobKind

  datatype Mode = TreeMode | BlobMode | Gitlink

  datatype Entry = Entry(name: string, mode: Mode, oid: Oid)

  datatype Object =
    | Commit(tree: Oid, parents: seq<Oid>)
    | Tree(entries: seq<Entry>)
    | Tag(target: Oid, targetKind: Kind)
    | Blob

  /** What each id that exists anywhere stands for. */
  type Contents = map<Oid, Object>

  function KindOf(o: Object): Kind {
    match o
    case Commit(_, _) => CommitKind
    case Tree(_) => TreeKind
    case Tag(_, _) => TagKind
    case Blob => BlobKind
  }

  function ModeKind(m: Mode): Kind
    requires !m.Gitlink?
  {
    if m == TreeMode then TreeKind else BlobKind
  }

  /** The direct references of an object, with the kind each is expected to have. Gitlinks name
      commits of another repository and are not references. */
  function References(o: Object): seq<(Oid, Kind)> {
    match o
    case Commit(tree, parents) => [(tree, TreeKind)] + seq(|parents|, i requires 0 <= i < |parents| => (parents[i], CommitKind))
    case Tree(entries) => EntryReferences(entries)
    case Tag(target, kind) => [(target, kind)]
    case Blob => []
  }

  function EntryReferences(entries: seq<Entry>): seq<(Oid, Kind)> {
    if entries == [] then []
    else (if entries[0].mode.Gitlink? then [] else [(entries[0].oid, ModeKind(entries[0].mode))]) + EntryReferences(entries[1..])
  }

  lemma {:induction false} EntryReferenced(entries: seq<Entry>, e: Entry)
    requires e in entries && !e.mode.Gitlink?
    ensures (e.oid, ModeKind(e.mode)) in EntryReferences(entries)
  {
    if entries[0] != e {
      EntryReferenced(entries[1..], e);
    }
  }

  lemma {:induction false} ReferencedEntry(entries: seq<Entry>, r: (Oid, Kind)) returns (e: Entry)
    requires r in EntryReferences(entries)
    ensures e in entries && !e.mode.Gitlink? && r == (e.oid, ModeKind(e.mode))
  {
    e := entries[0];
    if e.mode.Gitlink? || r != (e.oid, ModeKind(e.mode)) {
      e := ReferencedEntry(entries[1..], r);
    }
  }

  function Links(u: Contents): Graph<Oid> {
    map o | o in u :: set r | r in References(u[o]) :: r.0
  }

  /** A reference to an object that exists names one of the expected kind. */
  ghost predicate WellTyped(u: Contents) {
    forall o | o in u :: forall r | r in References(u[o]) && r.0 in u :: KindOf(u[r.0]) == r.1
  }

  /** The whole closure of an object is in the store. */
  ghost predicate ClosurePresent(u: Contents, present: set<Oid>, o: Oid) {
    forall x | Reaches(Links(u), o, x) :: x in present
  }

  lemma ClosedSetPresent(u: Contents, present: set<Oid>, s: set<Oid>, o: Oid)
    requires Closed(Links(u), s) && s <= present && o in s
    ensures ClosurePresent(u, present, o)
  {
    hide Reaches;
    forall x | Reaches(Links(u), o, x)
      ensures x in present
    {
      ClosedHoldsReachable(Links(u), s, o, x);
    }
  }

  lemma ClosureOfSuccessor(u: Contents, present: set<Oid>, o: Oid, x: Oid)
    requires ClosurePresent(u, present, o) && Reaches(Links(u), o, x)
    ensures ClosurePresent(u, present, x)
  {
    hide Reaches;
    forall y | Reaches(Links(u), x, y)
      ensures y in present
    {
      ReachesTransitive(Links(u), o, x, y);
    }
  }

  // ---- the commit graph ----

  function ParentGraph(u: Contents): Graph<Oid> {
    map o | o in u && u[o].Commit? :: set p | p in u[o].parents
  }

  lemma ParentIsLink(u: Contents, c: Oid, p: Oid)
    requires p in Succ(ParentGraph(u), c)
    ensures p in Succ(Links(u), c)
  {
    var parents := u[c].parents;
    var i :| 0 <= i < |parents| && parents[i] == p;
    assert References(u[c])[i + 1] == (p, CommitKind);
    assert (p, CommitKind) in References(u[c]);
  }

  lemma AncestorReachable(u: Contents, c: Oid, a: Oid)
    requires Reaches(ParentGraph(u), c, a)
    ensures Reaches(Links(u), c, a)
  {
    var p :| IsPath(ParentGraph(u), p) && p[0] == c && p[|p| - 1] == a;
    forall i | 0 < i < |p|
      ensures p[i] in Succ(Links(u), p[i - 1])
    {
      ParentIsLink(u, p[i - 1], p[i]);
    }
    assert IsPath(Links(u), p);
  }

  /** The commits of a revision walk from tips that hides others: reachable from a tip and from no
      hidden commit. */
  ghost predicate Walked(u: Contents, tips: set<Oid>, hidden: set<Oid>, c: Oid) {
    && (exists t :: t in tips && Reaches(ParentGraph(u), t, c))
    && !(exists h :: h in hidden && Reaches(ParentGraph(u), h, c))
  }

  /** What the revision walker returns: exactly the commits reachable from the tips and not from the
      hidden ones, in some order; or nothing when it could not read one of them. */
  ghost predicate IsRevWalk(u: Contents, tips: seq<Oid>, hidden: set<Oid>, walk: Option<seq<Oid>>) {
    walk.Some? ==> forall c :: c in walk.value <==> Walked(u, (set t | t in tips), hidden, c)
  }
}
