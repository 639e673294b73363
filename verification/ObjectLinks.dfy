/** Maintenance's link check: only direct edges of indexed objects, with a bounded kind cache, and why
    that is a global closure (crates/walgit-git/src/object_links.rs:10-113). */
module ObjectLinks {
  import opened Objects
  import opened Reachability
  import opened Seqs

  const MAX_KINDS: nat := 4096

  /** The object store of an isolated maintenance run, with decoded sizes. */
  datatype Store = Store(objects: Contents, sizes: map<Oid, nat>)

  ghost predicate ReferenceGood(s: Store, r: (Oid, Kind)) {
    r.0 in s.objects && KindOf(s.objects[r.0]) == r.1
  }

  /** A blob, or metadata within the budget all of whose references lead to objects of the right kind. */
  ghost predicate ObjectGood(s: Store, budget: nat, id: Oid) {
    && id in s.objects
    && (s.objects[id].Blob? ||
        (&& id in s.sizes && s.sizes[id] <= budget
         && forall r | r in References(s.objects[id]) :: ReferenceGood(s, r)))
  }

  ghost predicate LinksGood(s: Store, budget: nat, indexes: seq<seq<Oid>>, refs: seq<Oid>) {
    && (forall index | index in indexes :: forall id | id in index :: ObjectGood(s, budget, id))
    && (forall r | r in refs :: r in s.objects)
  }

  /** Cached kinds are true, and the cache stays within its bound. */
  ghost predicate KindsTrue(s: Store, kinds: map<Oid, Kind>) {
    |kinds| <= 4096 && forall t | t in kinds :: t in s.objects && KindOf(s.objects[t]) == kinds[t]
  }

  lemma NoKinds(s: Store)
    ensures KindsTrue(s, map[])
  {
  }

  method CheckReference(s: Store, r: (Oid, Kind), kinds0: map<Oid, Kind>) returns (ok: bool, kinds: map<Oid, Kind>)
    requires KindsTrue(s, kinds0)
    ensures KindsTrue(s, kinds)
    ensures ok <==> ReferenceGood(s, r)
  {
    kinds := kinds0;
    var actual: Kind;
    if r.0 in kinds {
      actual := kinds[r.0];
    } else {
      if r.0 !in s.objects {
        return false, kinds;
      }
      actual := KindOf(s.objects[r.0]);
      if |kinds| >= MAX_KINDS {
        kinds := map[];
      }
      kinds := kinds[r.0 := actual];
    }
    ok := actual == r.1;
  }

  method VisitReferences(s: Store, budget: nat, id: Oid, kinds0: map<Oid, Kind>) returns (ok: bool, kinds: map<Oid, Kind>)
    requires KindsTrue(s, kinds0) && s.sizes.Keys == s.objects.Keys
    ensures KindsTrue(s, kinds)
    ensures ok <==> ObjectGood(s, budget, id)
  {
    hide ReferenceGood, KindsTrue, References;
    kinds := kinds0;
    if id !in s.objects {
      return false, kinds;
    }
    if s.objects[id].Blob? {
      return true, kinds;
    }
    if s.sizes[id] > budget {
      return false, kinds;
    }
    var references := References(s.objects[id]);
    for i := 0 to |references|
      invariant KindsTrue(s, kinds) && forall k | 0 <= k < i :: ReferenceGood(s, references[k])
    {
      ok, kinds := CheckReference(s, references[i], kinds);
      if !ok {
        assert references[i] in references;
        return;
      }
    }
    ok := true;
  }

  /** Succeeds exactly when every indexed object's direct references, and every ref, check out. */
  method VerifyIndexedLinks(s: Store, budget: nat, indexes: seq<seq<Oid>>, refs: seq<Oid>) returns (ok: bool)
    requires s.sizes.Keys == s.objects.Keys
    ensures ok <==> LinksGood(s, budget, indexes, refs)
  {
    hide ObjectGood, KindsTrue;
    var kinds: map<Oid, Kind> := map[];
    NoKinds(s);
    for i := 0 to |indexes|
      invariant KindsTrue(s, kinds)
      invariant forall j | 0 <= j < i :: forall id | id in indexes[j] :: ObjectGood(s, budget, id)
    {
      for k := 0 to |indexes[i]|
        invariant KindsTrue(s, kinds)
        invariant forall j | 0 <= j < k :: ObjectGood(s, budget, indexes[i][j])
      {
        ok, kinds := VisitReferences(s, budget, indexes[i][k], kinds);
        if !ok {
          assert indexes[i][k] in indexes[i] && indexes[i] in indexes;
          return;
        }
      }
    }
    for i := 0 to |refs|
      invariant forall j | 0 <= j < i :: refs[j] in s.objects
    {
      if refs[i] !in s.objects {
        return false;
      }
    }
    ok := true;
  }

  /** In a store that holds exactly the indexed objects, checking direct edges closes the whole graph:
      no walk from any object, reachable or not, leaves the store or meets an unexpected kind. */
  lemma VerifiedIsClosed(s: Store, budget: nat, indexes: seq<seq<Oid>>, refs: seq<Oid>, roots: set<Oid>)
    requires LinksGood(s, budget, indexes, refs)
    requires forall o :: o in s.objects <==> exists index :: index in indexes && o in index
    requires forall r | r in roots :: r in refs || r in s.objects
    ensures WellTyped(s.objects) && Closed(Links(s.objects), s.objects.Keys)
    ensures forall r | r in roots :: ClosurePresent(s.objects, s.objects.Keys, r)
  {
    hide Reaches;
    forall o | o in s.objects
      ensures ObjectGood(s, budget, o)
    {
      var index :| index in indexes && o in index;
    }
    forall r | r in roots
      ensures ClosurePresent(s.objects, s.objects.Keys, r)
    {
      ClosedSetPresent(s.objects, s.objects.Keys, s.objects.Keys, r);
    }
  }
}
