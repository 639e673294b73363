/** Three representations of a repository's refs that must agree: the name-sorted vector patched in
    place, the lookup overlay, and the ordered-map merge (crates/walgit-git/src/lib.rs:515-567,
    1138-1179, 1377-1435, 1504-1548). */
module RefStore {
  import opened Basics
  import opened Lex
  import opened RefNames
  import opened Seqs

  datatype RefSnapshot = RefSnapshot(refs: seq<Ref>, headTarget: string)

  datatype RefUpdate = RefUpdate(name: string, oldOid: string, newOid: string, newSymbolicTarget: string, newPeeled: string)

  type RefTxn = seq<RefUpdate>

  /** What a snapshot means: the refs by name, and what HEAD points at. */
  datatype RefState = RefState(refs: map<string, Ref>, headTarget: string)

  // ---- the meaning of transactions ----

  /** The record an update writes; a tag without a recorded peel is peeled in the object store. */
  function EntryOf(u: RefUpdate, peel: string -> string): Ref {
    Ref(u.name, u.newOid,
        if u.newPeeled != [] then u.newPeeled
        else if StartsWith(u.name, "refs/tags/") then peel(u.newOid)
        else [])
  }

  function ApplyUpdate(st: RefState, u: RefUpdate, peel: string -> string): RefState {
    if u.newSymbolicTarget != [] then
      if u.name == "HEAD" then st.(headTarget := u.newSymbolicTarget) else st
    else if IsZero(u.newOid) then st.(refs := st.refs - {u.name})
    else st.(refs := st.refs[u.name := EntryOf(u, peel)])
  }

  function ApplyTxn(st: RefState, txn: RefTxn, peel: string -> string): RefState
    decreases |txn|
  {
    if txn == [] then st else ApplyTxn(ApplyUpdate(st, txn[0], peel), txn[1..], peel)
  }

  function ApplyAll(st: RefState, txns: seq<RefTxn>, peel: string -> string): RefState
    decreases |txns|
  {
    if txns == [] then st else ApplyAll(ApplyTxn(st, txns[0], peel), txns[1..], peel)
  }

  lemma {:induction false} ApplyTxnSnoc(st: RefState, txn: RefTxn, u: RefUpdate, peel: string -> string)
    ensures ApplyTxn(st, txn + [u], peel) == ApplyUpdate(ApplyTxn(st, txn, peel), u, peel)
    decreases txn
  {
    if txn != [] {
      ApplyTxnSnoc(ApplyUpdate(st, txn[0], peel), txn[1..], u, peel);
      assert (txn + [u])[1..] == txn[1..] + [u];
    }
  }

  lemma {:induction false} ApplyAllSnoc(st: RefState, txns: seq<RefTxn>, txn: RefTxn, peel: string -> string)
    ensures ApplyAll(st, txns + [txn], peel) == ApplyTxn(ApplyAll(st, txns, peel), txn, peel)
    decreases txns
  {
    if txns != [] {
      ApplyAllSnoc(ApplyTxn(st, txns[0], peel), txns[1..], txn, peel);
      assert (txns + [txn])[1..] == txns[1..] + [txn];
    }
  }

  // ---- what transactions come to, name by name ----

  /** All updates in order. */
  function Flat(txns: seq<RefTxn>): seq<RefUpdate> {
    if txns == [] then [] else Flat(txns[..|txns| - 1]) + txns[|txns| - 1]
  }

  /** The i-th update is the last one that sets or deletes this name. */
  ghost predicate Decides(updates: seq<RefUpdate>, i: nat, name: string) {
    && i < |updates| && updates[i].name == name && updates[i].newSymbolicTarget == []
    && forall j | i < j < |updates| :: updates[j].name != name || updates[j].newSymbolicTarget != []
  }

  ghost predicate Untouched(updates: seq<RefUpdate>, name: string) {
    forall u | u in updates :: u.name != name || u.newSymbolicTarget != []
  }

  /** The i-th update is the last one that points HEAD somewhere. */
  ghost predicate PointsHead(updates: seq<RefUpdate>, i: nat) {
    && i < |updates| && updates[i].name == "HEAD" && updates[i].newSymbolicTarget != []
    && forall j | i < j < |updates| :: updates[j].name != "HEAD" || updates[j].newSymbolicTarget == []
  }

  /** A name's last update decides: an id of zeros only, of any length, deletes it, any other id is recorded,
      with the peel that came along or, for a tag, the one the object store gives. */
  ghost predicate Patched(before: RefState, after: RefState, updates: seq<RefUpdate>, peel: string -> string) {
    && (forall n | Untouched(updates, n) ::
          (n in after.refs <==> n in before.refs) && (n in after.refs ==> after.refs[n] == before.refs[n]))
    && (forall i: nat, n | Decides(updates, i, n) ::
          if forall c | c in updates[i].newOid :: c == '0' then n !in after.refs
          else n in after.refs && after.refs[n].name == n && after.refs[n].oid == updates[i].newOid
               && after.refs[n].peeled == if updates[i].newPeeled != [] then updates[i].newPeeled
                                          else if "refs/tags/" <= n then peel(updates[i].newOid) else [])
    && (forall i: nat | PointsHead(updates, i) :: after.headTarget == updates[i].newSymbolicTarget)
    && ((forall u | u in updates :: u.name != "HEAD" || u.newSymbolicTarget == []) ==> after.headTarget == before.headTarget)
  }

  lemma {:induction false} ApplyTxnConcat(st: RefState, a: RefTxn, b: RefTxn, peel: string -> string)
    ensures ApplyTxn(st, a + b, peel) == ApplyTxn(ApplyTxn(st, a, peel), b, peel)
    decreases |a|
  {
    if a == [] {
      NothingBefore(b);
    } else {
      DropAppend(a, b, 1);
      ApplyTxnConcat(ApplyUpdate(st, a[0], peel), a[1..], b, peel);
    }
  }

  lemma NothingBefore<T>(s: seq<T>)
    ensures [] + s == s
  {
  }

  lemma {:induction false} ApplyFlat(st: RefState, txns: seq<RefTxn>, peel: string -> string)
    ensures ApplyAll(st, txns, peel) == ApplyTxn(st, Flat(txns), peel)
    decreases |txns|
  {
    if txns != [] {
      var n := |txns| - 1;
      TakeNext(txns, n);
      TakeAll(txns);
      ApplyFlat(st, txns[..n], peel);
      ApplyAllSnoc(st, txns[..n], txns[n], peel);
      ApplyTxnConcat(st, Flat(txns[..n]), txns[n], peel);
    }
  }

  lemma OneMorePatched(before: RefState, now: RefState, updates: seq<RefUpdate>, u: RefUpdate, peel: string -> string)
    requires Patched(before, now, updates, peel)
    ensures Patched(before, ApplyUpdate(now, u, peel), updates + [u], peel)
  {
    var after, all := ApplyUpdate(now, u, peel), updates + [u];
    assert u in all && forall v | v in updates :: v in all;
    forall n | Untouched(all, n)
      ensures (n in after.refs <==> n in before.refs) && (n in after.refs ==> after.refs[n] == before.refs[n])
    {
      assert Untouched(updates, n);
    }
    forall i: nat, n | Decides(all, i, n) && i < |updates|
      ensures Decides(updates, i, n) && all[i] == updates[i] && (u.name != n || u.newSymbolicTarget != [])
    {
      assert all[|updates|] == u;
      forall j | i < j < |updates|
        ensures updates[j].name != n || updates[j].newSymbolicTarget != []
      {
        assert all[j] == updates[j];
      }
    }
    forall i: nat | PointsHead(all, i) && i < |updates|
      ensures PointsHead(updates, i) && all[i] == updates[i] && (u.name != "HEAD" || u.newSymbolicTarget == [])
    {
      assert all[|updates|] == u;
      forall j | i < j < |updates|
        ensures updates[j].name != "HEAD" || updates[j].newSymbolicTarget == []
      {
        assert all[j] == updates[j];
      }
    }
  }

  lemma {:induction false} TxnPatches(st: RefState, updates: seq<RefUpdate>, peel: string -> string)
    ensures Patched(st, ApplyTxn(st, updates, peel), updates, peel)
    decreases |updates|
  {
    hide Patched, ApplyUpdate;
    if updates == [] {
      NothingPatched(st, peel);
    } else {
      var n := |updates| - 1;
      TakeNext(updates, n);
      TakeAll(updates);
      TxnPatches(st, updates[..n], peel);
      ApplyTxnSnoc(st, updates[..n], updates[n], peel);
      OneMorePatched(st, ApplyTxn(st, updates[..n], peel), updates[..n], updates[n], peel);
    }
  }

  lemma NothingPatched(st: RefState, peel: string -> string)
    ensures Patched(st, st, [], peel)
  {
  }

  lemma AllPatch(st: RefState, txns: seq<RefTxn>, peel: string -> string)
    ensures Patched(st, ApplyAll(st, txns, peel), Flat(txns), peel)
  {
    hide Patched;
    ApplyFlat(st, txns, peel);
    TxnPatches(st, Flat(txns), peel);
  }

  /** Names stay attached to their records. */
  ghost predicate WellNamed(st: RefState) {
    forall n | n in st.refs :: st.refs[n].name == n
  }

  // ---- the sorted vector ----

  ghost predicate Sorted(refs: seq<Ref>) {
    forall i, j | 0 <= i < j < |refs| :: LexLess(refs[i].name, refs[j].name)
  }

  /** The vector is sorted, without duplicates, and holds exactly the map's records. */
  ghost predicate Represents(refs: seq<Ref>, m: map<string, Ref>) {
    && Sorted(refs)
    && (forall r | r in refs :: r.name in m && m[r.name] == r)
    && (forall n | n in m :: m[n] in refs && m[n].name == n)
  }

  ghost predicate Between(refs: seq<Ref>, name: string, at: nat) {
    && at <= |refs|
    && (forall k | 0 <= k < at :: LexLess(refs[k].name, name))
    && (forall k | at <= k < |refs| :: LexLess(name, refs[k].name))
  }

  method BinarySearch(refs: seq<Ref>, name: string) returns (found: bool, at: nat)
    requires Sorted(refs)
    ensures found ==> at < |refs| && refs[at].name == name
    ensures !found ==> Between(refs, name, at)
  {
    hide LexLess;
    var lo: nat, hi: nat := 0, |refs|;
    while lo < hi
      invariant lo <= hi <= |refs|
      invariant forall k | 0 <= k < lo :: LexLess(refs[k].name, name)
      invariant forall k | hi <= k < |refs| :: LexLess(name, refs[k].name)
    {
      var mid := (lo + hi) / 2;
      LessTrichotomy(refs[mid].name, name);
      if refs[mid].name == name {
        return true, mid;
      } else if LexLess(refs[mid].name, name) {
        forall k | 0 <= k < mid
          ensures LexLess(refs[k].name, name)
        {
          LessTransitive(refs[k].name, refs[mid].name, name);
        }
        lo := mid + 1;
      } else {
        forall k | mid < k < |refs|
          ensures LexLess(name, refs[k].name)
        {
          LessTransitive(name, refs[mid].name, refs[k].name);
        }
        hi := mid;
      }
    }
    found, at := false, lo;
  }

  lemma NotFoundAbsent(refs: seq<Ref>, m: map<string, Ref>, name: string, at: nat)
    requires Represents(refs, m) && Between(refs, name, at)
    ensures name !in m
  {
    forall r | r in refs
      ensures r.name != name
    {
      var k :| 0 <= k < |refs| && refs[k] == r;
      LessTrichotomy(r.name, name);
    }
  }

  lemma OthersDiffer(refs: seq<Ref>, at: nat)
    requires Sorted(refs) && at < |refs|
    ensures forall k | 0 <= k < |refs| && k != at :: refs[k].name != refs[at].name
  {
    hide LexLess;
    forall k | 0 <= k < |refs| && k != at
      ensures refs[k].name != refs[at].name
    {
      LessTrichotomy(refs[k].name, refs[at].name);
    }
  }

  function Without<T>(s: seq<T>, at: nat): (r: seq<T>)
    requires at < |s|
    ensures |r| == |s| - 1
    ensures forall i | 0 <= i < |r| :: r[i] == s[if i < at then i else i + 1]
  {
    s[..at] + s[at + 1..]
  }

  function With<T>(s: seq<T>, at: nat, x: T): (r: seq<T>)
    requires at <= |s|
    ensures |r| == |s| + 1 && r[at] == x
    ensures forall i | 0 <= i < |s| :: s[i] == r[if i < at then i else i + 1]
    ensures forall i | 0 <= i < |r| && i != at :: r[i] == s[if i < at then i else i - 1]
  {
    s[..at] + [x] + s[at..]
  }

  lemma RemoveRepresents(refs: seq<Ref>, m: map<string, Ref>, at: nat)
    requires Represents(refs, m) && at < |refs|
    ensures Represents(Without(refs, at), m - {refs[at].name})
  {
    hide LexLess, Without;
    var out := Without(refs, at);
    OthersDiffer(refs, at);
    assert Sorted(out);
    forall r | r in out
      ensures r in refs && r.name != refs[at].name
    {
      var i :| 0 <= i < |out| && out[i] == r;
      assert refs[if i < at then i else i + 1] == r;
    }
    var left := m - {refs[at].name};
    forall n | n in left
      ensures left[n] in out
    {
      var k :| 0 <= k < |refs| && refs[k] == m[n];
      assert out[if k < at then k else k - 1] == refs[k];
    }
  }

  lemma ReplaceRepresents(refs: seq<Ref>, m: map<string, Ref>, at: nat, r: Ref)
    requires Represents(refs, m) && at < |refs| && refs[at].name == r.name
    ensures Represents(refs[at := r], m[r.name := r])
  {
    hide LexLess;
    var out := refs[at := r];
    OthersDiffer(refs, at);
    var now := m[r.name := r];
    forall n | n in now
      ensures now[n] in out
    {
      if n == r.name {
        assert out[at] == r;
      } else {
        var k :| 0 <= k < |refs| && refs[k] == m[n];
        assert out[k] == refs[k];
      }
    }
  }

  lemma InsertSorted(refs: seq<Ref>, at: nat, r: Ref)
    requires Sorted(refs) && Between(refs, r.name, at)
    ensures Sorted(With(refs, at, r))
  {
    hide LexLess, With;
  }

  lemma InsertRepresents(refs: seq<Ref>, m: map<string, Ref>, at: nat, r: Ref)
    requires Represents(refs, m) && Between(refs, r.name, at)
    ensures Represents(With(refs, at, r), m[r.name := r])
  {
    hide LexLess, With, Sorted;
    NotFoundAbsent(refs, m, r.name, at);
    var out := With(refs, at, r);
    InsertSorted(refs, at, r);
    var now := m[r.name := r];
    forall x | x in out
      ensures x == r || x in refs
    {
      var i :| 0 <= i < |out| && out[i] == x;
      if i != at {
        assert refs[if i < at then i else i - 1] == x;
      }
    }
    forall n | n in now
      ensures now[n] in out
    {
      if n == r.name {
        assert out[at] == r;
      } else {
        var k :| 0 <= k < |refs| && refs[k] == m[n];
        assert out[if k < at then k else k + 1] == refs[k];
      }
    }
  }

  lemma SameFirst(a: seq<Ref>, b: seq<Ref>, m: map<string, Ref>)
    requires Represents(a, m) && Represents(b, m) && a != []
    ensures b != [] && a[0] == b[0]
  {
    hide LexLess;
    assert a[0] in a && m[a[0].name] in b;
    var j :| 0 <= j < |b| && b[j] == a[0];
    assert b[0] in b && m[b[0].name] in a;
    var i :| 0 <= i < |a| && a[i] == b[0];
    LessTrichotomy(a[0].name, b[0].name);
    assert forall k | 0 < k < |a| :: LexLess(a[0].name, a[k].name);
    assert forall k | 0 < k < |b| :: LexLess(b[0].name, b[k].name);
  }

  /** A state has only one vector. */
  lemma {:induction false} VectorUnique(a: seq<Ref>, b: seq<Ref>, m: map<string, Ref>)
    requires Represents(a, m) && Represents(b, m)
    ensures a == b
    decreases |a|
  {
    hide Represents;
    if a == [] {
      if b != [] {
        SameFirst(b, a, m);
      }
    } else {
      SameFirst(a, b, m);
      RemoveRepresents(a, m, 0);
      RemoveRepresents(b, m, 0);
      assert Without(a, 0) == a[1..] && Without(b, 0) == b[1..];
      VectorUnique(a[1..], b[1..], m - {a[0].name});
      assert a == [a[0]] + a[1..] && b == [b[0]] + b[1..];
    }
  }

  /** The vector edited in place, update by update. */
  method PatchUpdate(refs0: seq<Ref>, head0: string, u: RefUpdate, peel: string -> string, ghost st: RefState)
    returns (refs: seq<Ref>, head: string)
    requires Represents(refs0, st.refs) && head0 == st.headTarget
    ensures Represents(refs, ApplyUpdate(st, u, peel).refs) && head == ApplyUpdate(st, u, peel).headTarget
  {
    hide Represents, LexLess, Sorted, Between;
    refs, head := refs0, head0;
    if u.newSymbolicTarget != [] {
      if u.name == "HEAD" {
        head := u.newSymbolicTarget;
      }
      return;
    }
    SortedOf(refs, st.refs);
    var found, at := BinarySearch(refs, u.name);
    if IsZero(u.newOid) {
      if found {
        RemoveRepresents(refs, st.refs, at);
        refs := Without(refs, at);
      } else {
        NotFoundAbsent(refs, st.refs, u.name, at);
        assert st.refs - {u.name} == st.refs;
      }
    } else {
      var entry := EntryOf(u, peel);
      if found {
        ReplaceRepresents(refs, st.refs, at, entry);
        refs := refs[at := entry];
      } else {
        BetweenBounds(refs, u.name, at);
        InsertRepresents(refs, st.refs, at, entry);
        refs := With(refs, at, entry);
      }
    }
  }

  lemma SortedOf(refs: seq<Ref>, m: map<string, Ref>)
    requires Represents(refs, m)
    ensures Sorted(refs)
  {
  }

  lemma BetweenBounds(refs: seq<Ref>, name: string, at: nat)
    requires Between(refs, name, at)
    ensures at <= |refs|
  {
  }

  method PatchSnapshot(base: RefSnapshot, txns: seq<RefTxn>, peel: string -> string, ghost st: RefState)
    returns (r: RefSnapshot)
    requires Represents(base.refs, st.refs) && base.headTarget == st.headTarget
    ensures Represents(r.refs, ApplyAll(st, txns, peel).refs)
    ensures r.headTarget == ApplyAll(st, txns, peel).headTarget
    ensures exists m :: Represents(r.refs, m) && Patched(st, RefState(m, r.headTarget), Flat(txns), peel)
  {
    hide Represents, ApplyUpdate, Patched;
    AllPatch(st, txns, peel);
    var refs, head := base.refs, base.headTarget;
    ghost var now := st;
    for i := 0 to |txns|
      invariant Represents(refs, now.refs) && head == now.headTarget
      invariant ApplyAll(now, txns[i..], peel) == ApplyAll(st, txns, peel)
    {
      ghost var before := now;
      for k := 0 to |txns[i]|
        invariant Represents(refs, now.refs) && head == now.headTarget
        invariant ApplyTxn(now, txns[i][k..], peel) == ApplyTxn(before, txns[i], peel)
      {
        DropDrop(txns[i], k, 1);
        refs, head := PatchUpdate(refs, head, txns[i][k], peel, now);
        now := ApplyUpdate(now, txns[i][k], peel);
      }
      DropDrop(txns, i, 1);
    }
    r := RefSnapshot(refs, head);
    assert Represents(r.refs, now.refs) && RefState(now.refs, head) == now;
  }

  // ---- the lookup overlay ----

  function OidOf(st: RefState, name: string): Option<string> {
    if name in st.refs then Some(st.refs[name].oid) else None
  }

  class RefView {
    const base: RefSnapshot
    var overlay: map<string, Option<string>>
    var headTarget: Option<string>

    constructor (base: RefSnapshot)
      ensures this.base == base && overlay == map[] && headTarget == None
    {
      this.base := base;
      overlay := map[];
      headTarget := None;
    }

    function HeadTarget(): string
      reads this
    {
      match headTarget
      case Some(t) => t
      case None => base.headTarget
    }

    /** The view stands for the state st; b is what its base stands for. */
    ghost predicate Shows(b: RefState, st: RefState)
      reads this
    {
      && Represents(base.refs, b.refs) && base.headTarget == b.headTarget
      && HeadTarget() == st.headTarget
      && (forall n :: OidOf(st, n) == if n in overlay then overlay[n] else OidOf(b, n))
    }

    method SetHeadTarget(target: string)
      modifies this
      ensures headTarget == Some(target) && overlay == old(overlay)
    {
      headTarget := Some(target);
    }

    method Set(name: string, value: string)
      modifies this
      ensures overlay == old(overlay)[name := Some(value)] && headTarget == old(headTarget)
    {
      overlay := overlay[name := Some(value)];
    }

    method Remove(name: string)
      modifies this
      ensures overlay == old(overlay)[name := None] && headTarget == old(headTarget)
    {
      overlay := overlay[name := None];
    }

    /** Lookup of any name but HEAD. */
    method GetRef(name: string, ghost b: RefState, ghost st: RefState) returns (oid: Option<string>)
      requires Shows(b, st)
      ensures oid == OidOf(st, name)
    {
      if name in overlay {
        return overlay[name];
      }
      SortedOf(base.refs, b.refs);
      var found, at := BinarySearch(base.refs, name);
      if found {
        assert base.refs[at] in base.refs;
        return Some(base.refs[at].oid);
      }
      NotFoundAbsent(base.refs, b.refs, name, at);
      return None;
    }

    /** Lookup of any name; HEAD resolves through its target unless an update named HEAD itself, which then
        answers. A HEAD that points at HEAD has no answer. */
    method Get(name: string, ghost b: RefState, ghost st: RefState) returns (oid: Option<string>)
      requires Shows(b, st) && (name == "HEAD" && "HEAD" !in overlay ==> HeadTarget() != "HEAD")
      ensures name != "HEAD" || "HEAD" in overlay ==> oid == OidOf(st, name)
      ensures name == "HEAD" && "HEAD" !in overlay ==>
                oid == if st.headTarget == [] then None else OidOf(st, st.headTarget)
    {
      if name in overlay {
        return overlay[name];
      }
      if name == "HEAD" {
        if HeadTarget() == [] {
          return None;
        }
        oid := GetRef(HeadTarget(), b, st);
      } else {
        oid := GetRef(name, b, st);
      }
    }

    method Overlay(u: RefUpdate, ghost b: RefState, ghost st: RefState, ghost peel: string -> string)
      requires Shows(b, st)
      modifies this
      ensures Shows(b, ApplyUpdate(st, u, peel))
    {
      hide Represents;
      if u.newSymbolicTarget != [] {
        if u.name == "HEAD" {
          SetHeadTarget(u.newSymbolicTarget);
        }
        return;
      }
      if IsZero(u.newOid) {
        Remove(u.name);
      } else {
        Set(u.name, u.newOid);
      }
    }
  }

  /** The view over a cached snapshot and the transactions applied since shows what folding them into
      the snapshot would give, without folding. */
  method BuildView(data: RefSnapshot, pending: seq<RefTxn>, ghost b: RefState, ghost peel: string -> string)
    returns (view: RefView)
    requires Represents(data.refs, b.refs) && data.headTarget == b.headTarget
    ensures fresh(view) && view.base == data && view.Shows(b, ApplyAll(b, pending, peel))
    ensures exists st :: view.Shows(b, st) && Patched(b, st, Flat(pending), peel)
  {
    hide Represents, ApplyUpdate, Patched;
    AllPatch(b, pending, peel);
    view := new RefView(data);
    ghost var now := b;
    for i := 0 to |pending|
      invariant fresh(view) && view.base == data && view.Shows(b, now)
      invariant ApplyAll(now, pending[i..], peel) == ApplyAll(b, pending, peel)
    {
      ghost var before := now;
      for k := 0 to |pending[i]|
        invariant fresh(view) && view.base == data && view.Shows(b, now)
        invariant ApplyTxn(now, pending[i][k..], peel) == ApplyTxn(before, pending[i], peel)
      {
        DropDrop(pending[i], k, 1);
        view.Overlay(pending[i][k], b, now, peel);
        now := ApplyUpdate(now, pending[i][k], peel);
      }
      DropDrop(pending, i, 1);
    }
  }
}
