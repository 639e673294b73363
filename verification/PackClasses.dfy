/** Which groups each pack lies wholly inside, from summed intersection counts alone
    (crates/walgit-git/src/pack_segments.rs:742-867). */
module PackClasses {
  import opened Basics
  import opened Inventories
  import opened Objects
  import opened PackSegments
  import opened Seqs
  import opened SortedOids
  import PackGroups

  datatype Membership = Membership(checksum: string, groups: set<string>, kind: PackKind,
                                   audience: Option<PackGroups.Kind>, mixed: bool)

  /** The object belongs to the group: one of its families lists it. */
  ghost predicate InGroup(families: seq<Family>, group: string, x: Oid) {
    exists f :: f in families && f.group == group && x in Oids(f.objects)
  }

  /** The pack is not empty and every object in it belongs to the group. */
  ghost predicate Inside(families: seq<Family>, p: Pack, group: string) {
    p.index != [] && forall x | x in p.index :: InGroup(families, group, x)
  }

  /** A group's families list exactly the inventory objects that its walk listed. */
  lemma GroupMembers(input: Input, plan: Plan, group: string, x: Oid)
    requires PlanInv(input, plan)
    ensures InGroup(plan.families, group, x) <==> InShare(input.walks, plan.inventory, group, x)
  {
    hide KindFits, InShare, Progress;
    InShareInInventory(input.walks, plan.inventory, group, x);
    if InShare(input.walks, plan.inventory, group, x) {
      var kind := if input.store.objects[x].Blob? then Blobs else History;
      KindOfObject(input.store.objects, x);
      assert Planned(input, plan.inventory, group, kind, x);
      var f :| f in plan.families && IsFamily(f, group, kind);
      assert FamilyRight(input, plan.inventory, f);
    }
    if f :| f in plan.families && f.group == group && x in Oids(f.objects) {
      assert FamilyRight(input, plan.inventory, f);
      assert Planned(input, plan.inventory, f.group, f.kind, x);
    }
  }

  lemma InShareInInventory(walks: seq<GroupWalk>, inventory: seq<Oid>, group: string, x: Oid)
    ensures InShare(walks, inventory, group, x) ==> x in inventory
  {
  }

  ghost predicate IsGroup(families: seq<Family>, group: string) {
    exists f :: f in families && f.group == group
  }

  ghost function Held(index: seq<Oid>, families: seq<Family>, group: string): set<Oid> {
    set x | x in index && InGroup(families, group, x)
  }

  // ---- counting ----

  datatype Count = Count(objects: nat, audience: Option<PackGroups.Kind>)

  /** Each group's count is the number of the pack's objects its families list. */
  ghost predicate CountsRight(index: seq<Oid>, families: seq<Family>, counts: map<string, Count>) {
    && (forall g :: g in counts <==> IsGroup(families, g))
    && (forall g | g in counts :: counts[g].objects == |Held(index, families, g)|)
    && (forall f | f in families :: f.group in counts && counts[f.group].audience == f.scope.audience)
  }

  lemma InGroupNext(families: seq<Family>, f: Family, group: string, x: Oid)
    ensures InGroup(families + [f], group, x) <==> InGroup(families, group, x) || (f.group == group && x in Oids(f.objects))
    ensures IsGroup(families + [f], group) <==> IsGroup(families, group) || f.group == group
  {
    if InGroup(families, group, x) {
      var g :| g in families && g.group == group && x in Oids(g.objects);
      assert g in families + [f];
    }
    if IsGroup(families, group) {
      var g :| g in families && g.group == group;
      assert g in families + [f];
    }
    assert f in families + [f];
  }

  /** No other family of the same group lists an object of this one, so counts add up. */
  lemma HeldNext(index: seq<Oid>, families: seq<Family>, f: Family, group: string)
    requires forall x | x in Oids(f.objects) :: !InGroup(families, f.group, x)
    ensures |Held(index, families + [f], group)|
         == |Held(index, families, group)| + if f.group == group then |Common(index, f.objects)| else 0
  {
    hide InGroup;
    forall x
      ensures InGroup(families + [f], group, x) <==> InGroup(families, group, x) || (f.group == group && x in Oids(f.objects))
    {
      InGroupNext(families, f, group, x);
    }
    if f.group == group {
      assert Held(index, families + [f], group) == Held(index, families, group) + Common(index, f.objects);
      assert Held(index, families, group) !! Common(index, f.objects);
    } else {
      assert Held(index, families + [f], group) == Held(index, families, group);
    }
  }

  /** The families of one group divide it by object type. */
  lemma KindsAreDisjoint(input: Input, inventory: seq<Oid>, families: seq<Family>, i: nat, x: Oid)
    requires FamiliesRight(input, inventory, families) && i < |families| && x in Oids(families[i].objects)
    ensures !InGroup(families[..i], families[i].group, x)
  {
    hide InShare;
    var f := families[i];
    assert f in families && FamilyRight(input, inventory, f) && Planned(input, inventory, f.group, f.kind, x);
    forall g | g in families[..i] && g.group == f.group
      ensures x !in Oids(g.objects)
    {
      var j :| 0 <= j < i && families[j] == g;
      assert !IsFamily(f, g.group, g.kind);
      assert g in families && FamilyRight(input, inventory, g);
      assert !Planned(input, inventory, g.group, g.kind, x);
    }
  }

  method CountFamily(index: seq<Oid>, ghost families: seq<Family>, f: Family, counts0: map<string, Count>)
    returns (count: nat, counts: map<string, Count>)
    requires Ascending(index) && Sorted(f.objects) && CountsRight(index, families, counts0)
    requires forall x | x in Oids(f.objects) :: !InGroup(families, f.group, x)
    requires forall g | g in families && g.group == f.group :: g.scope == f.scope
    ensures CountsRight(index, families + [f], counts) && count == |Common(index, f.objects)|
  {
    hide InGroup, IsGroup, Held, Common;
    count := IntersectionCount(index, f.objects);
    var entry := if f.group in counts0 then counts0[f.group] else Count(0, f.scope.audience);
    counts := counts0[f.group := entry.(objects := entry.objects + count)];
    forall g
      ensures IsGroup(families + [f], g) <==> IsGroup(families, g) || f.group == g
      ensures |Held(index, families + [f], g)| == |Held(index, families, g)| + if f.group == g then count else 0
    {
      InGroupNext(families, f, g, 0);
      HeldNext(index, families, f, g);
    }
    NewGroupEmpty(index, families, f.group);
    KnownGroup(families, f.group);
  }

  lemma NewGroupEmpty(index: seq<Oid>, families: seq<Family>, group: string)
    ensures !IsGroup(families, group) ==> |Held(index, families, group)| == 0
  {
    if !IsGroup(families, group) {
      assert Held(index, families, group) == {};
    }
  }

  lemma KnownGroup(families: seq<Family>, group: string)
    ensures IsGroup(families, group) ==> exists f :: f in families && f.group == group
  {
  }

  /** The count reaches the pack's size exactly when the pack is inside. */
  lemma CountMeansInside(p: Pack, families: seq<Family>, group: string)
    requires Ascending(p.index) && p.objectCount == |p.index|
    ensures (|Held(p.index, families, group)| == p.objectCount && |Held(p.index, families, group)| > 0) <==> Inside(families, p, group)
  {
    hide InGroup;
    var held := Held(p.index, families, group);
    var all := set x | x in p.index;
    DistinctSize(p.index);
    SubsetGrows(held, all);
    if Inside(families, p, group) {
      assert held == all;
      assert p.index[0] in all;
    }
    if |held| == |p.index| && |held| > 0 {
      assert held == all;
      assert forall x | x in p.index :: x in held;
    }
  }

  // ---- one pack ----

  ghost predicate AnyOfKind(index: seq<Oid>, families: seq<Family>, kind: PackKind) {
    exists f, x :: f in families && f.kind == kind && x in index && x in Oids(f.objects)
  }

  lemma AnyOfKindNext(index: seq<Oid>, families: seq<Family>, f: Family, kind: PackKind)
    ensures AnyOfKind(index, families + [f], kind)
       <==> AnyOfKind(index, families, kind) || (f.kind == kind && |Common(index, f.objects)| > 0)
  {
    if AnyOfKind(index, families, kind) {
      var g, x :| g in families && g.kind == kind && x in index && x in Oids(g.objects);
      assert g in families + [f];
    }
    if f.kind == kind && |Common(index, f.objects)| > 0 {
      var x :| x in Common(index, f.objects);
      assert f in families + [f];
    }
    if AnyOfKind(index, families + [f], kind) && !AnyOfKind(index, families, kind) {
      var g, x :| g in families + [f] && g.kind == kind && x in index && x in Oids(g.objects);
      assert g == f && x in Common(index, f.objects);
    }
  }

  /** Counts every family's share of a pack. */
  method CountPack(ghost input: Input, plan: Plan, p: Pack) returns (counts: map<string, Count>, history: bool, blobs: bool)
    requires PlanInv(input, plan) && Ascending(p.index)
    ensures CountsRight(p.index, plan.families, counts)
    ensures history <==> AnyOfKind(p.index, plan.families, History)
    ensures blobs <==> AnyOfKind(p.index, plan.families, Blobs)
  {
    hide CountsRight, AnyOfKind, InGroup, PlanInv;
    counts, history, blobs := map[], false, false;
    NothingCounted(p.index);
    var families := plan.families;
    for i := 0 to |families|
      invariant CountsRight(p.index, families[..i], counts)
      invariant history <==> AnyOfKind(p.index, families[..i], History)
      invariant blobs <==> AnyOfKind(p.index, families[..i], Blobs)
    {
      TakeNext(families, i);
      FamilyToCount(input, plan, i);
      var count;
      count, counts := CountFamily(p.index, families[..i], families[i], counts);
      AnyOfKindNext(p.index, families[..i], families[i], History);
      AnyOfKindNext(p.index, families[..i], families[i], Blobs);
      if count > 0 {
        history := history || families[i].kind == History;
        blobs := blobs || families[i].kind == Blobs;
      }
    }
    TakeAll(families);
  }

  lemma NothingCounted(index: seq<Oid>)
    ensures CountsRight(index, [], map[])
    ensures !AnyOfKind(index, [], History) && !AnyOfKind(index, [], Blobs)
  {
  }

  lemma FamilyToCount(input: Input, plan: Plan, i: nat)
    requires PlanInv(input, plan) && i < |plan.families|
    ensures Sorted(plan.families[i].objects)
    ensures forall x | x in Oids(plan.families[i].objects) :: !InGroup(plan.families[..i], plan.families[i].group, x)
    ensures forall g | g in plan.families[..i] && g.group == plan.families[i].group :: g.scope == plan.families[i].scope
  {
    hide Planned, Progress, InGroup;
    forall x | x in Oids(plan.families[i].objects)
      ensures !InGroup(plan.families[..i], plan.families[i].group, x)
    {
      KindsAreDisjoint(input, plan.inventory, plan.families, i, x);
    }
    assert plan.families[i] in plan.families;
    assert forall g | g in plan.families[..i] :: g in plan.families;
  }

  /** Every object of a selected pack has its type's family, so the families met tell the pack's kind. */
  lemma KindsMet(input: Input, plan: Plan, p: Pack)
    requires PlanInv(input, plan) && p in plan.selected
    ensures AnyOfKind(p.index, plan.families, History) <==> exists x :: x in p.index && x in input.store.objects && !input.store.objects[x].Blob?
    ensures AnyOfKind(p.index, plan.families, Blobs) <==> exists x :: x in p.index && x in input.store.objects && input.store.objects[x].Blob?
    ensures forall x | x in p.index :: x in input.store.objects
  {
    hide Progress, Planned, InShare;
    FamiliesAreInventory(input, plan.inventory, plan.families);
    forall x | x in p.index
      ensures x in plan.inventory
    {
      assert InPacks(plan.selected, x);
    }
    forall f, x | f in plan.families && x in Oids(f.objects)
      ensures x in input.store.objects && f.kind == if input.store.objects[x].Blob? then Blobs else History
    {
      assert FamilyRight(input, plan.inventory, f);
      PlannedKind(input, plan.inventory, f, x);
    }
  }

  lemma PlannedKind(input: Input, inventory: seq<Oid>, f: Family, x: Oid)
    requires Planned(input, inventory, f.group, f.kind, x)
    ensures KindFits(input.store.objects, f.kind, x)
  {
  }

  ghost predicate InsideAudience(input: Input, families: seq<Family>, p: Pack, kind: PackGroups.Kind) {
    exists g :: Inside(families, p, g) && ScopeOf(input.walks, g).audience == Some(kind)
  }

  /** What is said of a pack: the groups it lies wholly inside, the type of its objects, and the
      audience of those groups, code before metadata. */
  ghost predicate MembershipRight(input: Input, families: seq<Family>, p: Pack, m: Membership) {
    && m.checksum == p.checksum
    && (forall g :: g in m.groups <==> Inside(families, p, g))
    && (m.kind == History <==> p.index != [] && forall x | x in p.index :: x in input.store.objects && !input.store.objects[x].Blob?)
    && (m.kind == Blobs <==> p.index != [] && forall x | x in p.index :: x in input.store.objects && input.store.objects[x].Blob?)
    && (m.audience == Some(PackGroups.Code) <==> InsideAudience(input, families, p, PackGroups.Code))
    && (m.audience == Some(PackGroups.Meta) <==> InsideAudience(input, families, p, PackGroups.Meta)
                                                 && !InsideAudience(input, families, p, PackGroups.Code))
    && (m.mixed <==> forall g :: !Inside(families, p, g))
  }

  method ClassifyPack(ghost input: Input, plan: Plan, p: Pack) returns (m: Membership)
    requires PlanInv(input, plan) && p in plan.selected && Ascending(p.index) && p.objectCount == |p.index|
    ensures MembershipRight(input, plan.families, p, m)
  {
    hide PlanInv, CountsRight, AnyOfKind, Inside;
    var counts, history, blobs := CountPack(input, plan, p);
    KindsMet(input, plan, p);
    CommonGroups(input, plan, p, counts);
    var common := set g | g in counts && counts[g].objects == p.objectCount && counts[g].objects > 0;
    var audience := None;
    if g :| g in common && counts[g].audience == Some(PackGroups.Code) {
      audience := Some(PackGroups.Code);
    } else if g :| g in common && counts[g].audience == Some(PackGroups.Meta) {
      audience := Some(PackGroups.Meta);
    }
    var kind := if history && !blobs then History else if blobs && !history then Blobs else Mixed;
    FirstIsMember(p.index);
    m := Membership(p.checksum, common, kind, audience, common == {});
    assert m.mixed <==> forall g :: !Inside(plan.families, p, g);
  }

  lemma CommonGroups(input: Input, plan: Plan, p: Pack, counts: map<string, Count>)
    requires PlanInv(input, plan) && Ascending(p.index) && p.objectCount == |p.index| && CountsRight(p.index, plan.families, counts)
    ensures forall g :: g in counts && counts[g].objects == p.objectCount && counts[g].objects > 0 <==> Inside(plan.families, p, g)
    ensures forall g | g in counts :: counts[g].audience == ScopeOf(input.walks, g).audience
  {
    hide Held, InGroup, Planned, Progress, InventoryRight, Ascending;
    forall g
      ensures g in counts && counts[g].objects == p.objectCount && counts[g].objects > 0 <==> Inside(plan.families, p, g)
    {
      CountMeansInside(p, plan.families, g);
      InsideIsGroup(plan.families, p, g);
    }
    forall g | g in counts
      ensures counts[g].audience == ScopeOf(input.walks, g).audience
    {
      var f :| f in plan.families && f.group == g;
      assert FamilyRight(input, plan.inventory, f);
    }
  }

  lemma InsideIsGroup(families: seq<Family>, p: Pack, g: string)
    ensures Inside(families, p, g) ==> IsGroup(families, g)
  {
    if Inside(families, p, g) {
      assert InGroup(families, g, p.index[0]);
    }
  }

  // ---- whole classification ----

  datatype Classification = Classification(packs: seq<Membership>, groupComplete: map<string, bool>)

  /** Every object of the group lies in some selected pack that is wholly inside the group. */
  ghost predicate Covered(families: seq<Family>, selected: seq<Pack>, group: string) {
    forall x | InGroup(families, group, x) :: exists p :: p in selected && Inside(families, p, group) && x in p.index
  }

  method ExpectedObjects(families: seq<Family>, group: string) returns (raw: seq<Oid>)
    ensures forall x :: x in raw <==> InGroup(families, group, x)
  {
    hide InGroup;
    raw := [];
    NoGroupMembers(group);
    for i := 0 to |families|
      invariant forall x :: x in raw <==> InGroup(families[..i], group, x)
    {
      TakeNext(families, i);
      forall x
        ensures InGroup(families[..i + 1], group, x) <==> InGroup(families[..i], group, x) || (families[i].group == group && x in Oids(families[i].objects))
      {
        InGroupNext(families[..i], families[i], group, x);
      }
      if families[i].group == group {
        raw := raw + Oids(families[i].objects);
      }
    }
    TakeAll(families);
  }

  lemma NoGroupMembers(group: string)
    ensures forall x :: !InGroup([], group, x)
  {
  }

  ghost predicate InMember(families: seq<Family>, selected: seq<Pack>, group: string, x: Oid) {
    exists p :: p in selected && Inside(families, p, group) && x in p.index
  }

  lemma InMemberNext(families: seq<Family>, selected: seq<Pack>, p: Pack, group: string, x: Oid)
    ensures InMember(families, selected + [p], group, x) <==> InMember(families, selected, group, x) || (Inside(families, p, group) && x in p.index)
  {
    hide Inside;
    if InMember(families, selected, group, x) {
      var q :| q in selected && Inside(families, q, group) && x in q.index;
      assert q in selected + [p];
    }
    assert p in selected + [p];
  }

  ghost predicate MembershipsRight(input: Input, plan: Plan, members: seq<Membership>) {
    |members| == |plan.selected| && forall i | 0 <= i < |members| :: MembershipRight(input, plan.families, plan.selected[i], members[i])
  }

  method MemberObjects(ghost input: Input, plan: Plan, members: seq<Membership>, group: string) returns (raw: seq<Oid>)
    requires MembershipsRight(input, plan, members)
    ensures forall x :: x in raw <==> InMember(plan.families, plan.selected, group, x)
  {
    hide InMember, Inside;
    raw := [];
    NoMember(plan.families, group);
    for i := 0 to |members|
      invariant forall x :: x in raw <==> InMember(plan.families, plan.selected[..i], group, x)
    {
      TakeNext(plan.selected, i);
      forall x
        ensures InMember(plan.families, plan.selected[..i + 1], group, x)
           <==> InMember(plan.families, plan.selected[..i], group, x) || (Inside(plan.families, plan.selected[i], group) && x in plan.selected[i].index)
      {
        InMemberNext(plan.families, plan.selected[..i], plan.selected[i], group, x);
      }
      assert MembershipRight(input, plan.families, plan.selected[i], members[i]);
      if !members[i].mixed && group in members[i].groups {
        raw := raw + plan.selected[i].index;
      }
    }
    TakeAll(plan.selected);
  }

  lemma NoMember(families: seq<Family>, group: string)
    ensures forall x :: !InMember(families, [], group, x)
  {
  }

  method GroupComplete(ghost input: Input, plan: Plan, members: seq<Membership>, group: string) returns (complete: bool)
    requires MembershipsRight(input, plan, members)
    ensures complete <==> Covered(plan.families, plan.selected, group)
  {
    hide MembershipsRight, InGroup;
    var expectedRaw := ExpectedObjects(plan.families, group);
    var expected := SortedDistinct(expectedRaw);
    var actualRaw := MemberObjects(input, plan, members, group);
    var actual := SortedDistinct(actualRaw);
    complete := expected == actual;
    if Covered(plan.families, plan.selected, group) {
      forall x
        ensures x in expected <==> x in actual
      {
        MemberIsInGroup(plan.families, plan.selected, group, x);
      }
      SameMembersSameList(expected, actual);
    }
  }

  lemma MemberIsInGroup(families: seq<Family>, selected: seq<Pack>, group: string, x: Oid)
    ensures InMember(families, selected, group, x) ==> InGroup(families, group, x)
  {
  }

  /** Classifies every selected pack. A group is complete exactly when every committed pack was
      selected, it is a real group, and the packs wholly inside it cover it. */
  method Classify(ghost input: Input, committed: nat, plan: Plan) returns (c: Classification)
    requires PlanInv(input, plan) && committed == |input.packs|
    requires forall p | p in plan.selected :: Ascending(p.index) && p.objectCount == |p.index|
    ensures MembershipsRight(input, plan, c.packs)
    ensures forall g :: g in c.groupComplete <==> IsGroup(plan.families, g)
    ensures forall g | g in c.groupComplete ::
              c.groupComplete[g] <==> |plan.selected| == |input.packs| && g != RETAINED && Covered(plan.families, plan.selected, g)
  {
    hide PlanInv, MembershipRight, Covered, Ascending;
    var members: seq<Membership> := [];
    for i := 0 to |plan.selected|
      invariant |members| == i && forall k | 0 <= k < i :: MembershipRight(input, plan.families, plan.selected[k], members[k])
    {
      assert plan.selected[i] in plan.selected;
      var m := ClassifyPack(input, plan, plan.selected[i]);
      members := members + [m];
    }
    var allSelected := |plan.selected| == committed;
    var complete: map<string, bool> := map[];
    for i := 0 to |plan.families|
      invariant forall g :: g in complete <==> IsGroup(plan.families[..i], g)
      invariant forall g | g in complete ::
                  complete[g] <==> allSelected && g != RETAINED && Covered(plan.families, plan.selected, g)
    {
      TakeNext(plan.families, i);
      var group := plan.families[i].group;
      forall g
        ensures IsGroup(plan.families[..i + 1], g) <==> IsGroup(plan.families[..i], g) || group == g
      {
        InGroupNext(plan.families[..i], plan.families[i], g, 0);
      }
      if group !in complete {
        var covered := false;
        if allSelected && group != RETAINED {
          covered := GroupComplete(input, plan, members, group);
        }
        complete := complete[group := covered];
      }
    }
    TakeAll(plan.families);
    c := Classification(members, complete);
  }

  /** Comparing numbers tells whether every committed pack was selected. */
  lemma AllSelected(input: Input, selected: seq<Pack>)
    requires SelectionValid(input) && SelectedFrom(input, selected)
    requires forall i, j | 0 <= i < j < |input.packs| :: input.packs[i].checksum != input.packs[j].checksum
    ensures |selected| == |input.packs| <==> forall p | p in input.packs :: p in selected
  {
    forall i | 0 <= i < |selected|
      ensures selected[i] in input.packs && selected[i].checksum == input.selected[i]
    {
      FoundIsCommitted(input.packs, input.selected[i]);
    }
    var s := set p | p in selected;
    var all := set p | p in input.packs;
    DistinctSize(selected);
    DistinctSize(input.packs);
    SubsetGrows(s, all);
    assert forall p | p in selected :: p in s;
    assert forall p | p in input.packs :: p in all;
    if |selected| == |input.packs| {
      assert s == all;
    }
    if forall p | p in input.packs :: p in selected {
      assert s == all;
    }
  }
}
