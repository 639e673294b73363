/** Conserving physical cuts: plan, steps in any order, crash, resume from receipts, finish
    (crates/walgit-git/src/pack_segments.rs:82-253, 267-364, 367-410, 422-538). */
module PackSegments {
  import opened Basics
  import opened Inventories
  import opened Objects
  import opened Reachability
  import opened Seqs
  import opened SortedOids
  import opened RefNames
  import ObjectLinks
  import PackGroups

  /** The family of objects that matched no group. Group names never start with an underscore. */
  const RETAINED := "_retained"

  datatype PackKind = History | Blobs | Mixed

  /** A committed pack and the objects its index lists. */
  datatype Pack = Pack(checksum: string, objectCount: nat, index: seq<Oid>)

  /** A resolved group and what its revision walk listed. */
  datatype GroupWalk = GroupWalk(name: string, kind: PackGroups.Kind, dependencies: set<string>, raw: seq<Line>)

  datatype Input = Input(store: ObjectLinks.Store, budget: nat, packs: seq<Pack>, refs: seq<Oid>,
                         selected: seq<string>, walks: seq<GroupWalk>)

  datatype Scope = Scope(audience: Option<PackGroups.Kind>, dependencies: set<string>)

  datatype Family = Family(group: string, scope: Scope, kind: PackKind, objects: seq<Line>, completed: bool)

  datatype Output = Output(group: string, scope: Scope, kind: PackKind, checksum: string, objects: seq<Oid>)

  datatype Plan = Plan(selected: seq<Pack>, families: seq<Family>, outputs: seq<Output>, inventory: seq<Oid>)

  datatype Receipt = Receipt(group: string, kind: PackKind, outputs: seq<Output>)

  function Indexes(packs: seq<Pack>): seq<seq<Oid>> {
    seq(|packs|, i requires 0 <= i < |packs| => packs[i].index)
  }

  /** The first committed pack with this checksum. */
  function FindPack(packs: seq<Pack>, checksum: string): Option<Pack> {
    if packs == [] then None else if packs[0].checksum == checksum then Some(packs[0]) else FindPack(packs[1..], checksum)
  }

  /** The chosen packs are the committed ones of these checksums, in the order asked for. */
  ghost predicate SelectedFrom(input: Input, selected: seq<Pack>) {
    && |selected| == |input.selected|
    && forall i | 0 <= i < |selected| :: FindPack(input.packs, input.selected[i]) == Some(selected[i])
  }

  ghost predicate InPacks(packs: seq<Pack>, x: Oid) {
    exists p :: p in packs && x in p.index
  }

  ghost predicate WellFormed(input: Input) {
    && input.store.sizes.Keys == input.store.objects.Keys
    && (forall i, j | 0 <= i < j < |input.walks| :: input.walks[i].name != input.walks[j].name)
    && (forall w | w in input.walks :: w.name != RETAINED)
  }

  // ---- which objects each family should hold ----

  ghost predicate InSomeWalk(walks: seq<GroupWalk>, x: Oid) {
    exists w :: w in walks && x in Oids(w.raw)
  }

  /** An object of the inventory belongs to every group whose walk listed it, and to the retained
      family when none did. */
  ghost predicate InShare(walks: seq<GroupWalk>, inventory: seq<Oid>, group: string, x: Oid) {
    && x in inventory
    && if group == RETAINED then !InSomeWalk(walks, x) else exists w :: w in walks && w.name == group && x in Oids(w.raw)
  }

  ghost predicate KindFits(objects: Contents, kind: PackKind, x: Oid) {
    x in objects && kind == if objects[x].Blob? then Blobs else History
  }

  ghost predicate Planned(input: Input, inventory: seq<Oid>, group: string, kind: PackKind, x: Oid) {
    InShare(input.walks, inventory, group, x) && KindFits(input.store.objects, kind, x)
  }

  function ScopeOf(walks: seq<GroupWalk>, group: string): Scope {
    if walks == [] then Scope(None, {})
    else if walks[0].name == group then Scope(Some(walks[0].kind), walks[0].dependencies)
    else ScopeOf(walks[1..], group)
  }

  ghost predicate FamilyRight(input: Input, inventory: seq<Oid>, f: Family) {
    && Sorted(f.objects) && f.objects != [] && f.scope == ScopeOf(input.walks, f.group)
    && forall x :: x in Oids(f.objects) <==> Planned(input, inventory, f.group, f.kind, x)
  }

  ghost predicate IsFamily(f: Family, group: string, kind: PackKind) {
    f.group == group && f.kind == kind
  }

  ghost predicate FamiliesRight(input: Input, inventory: seq<Oid>, families: seq<Family>) {
    && (forall f | f in families :: FamilyRight(input, inventory, f))
    && (forall i, j | 0 <= i < j < |families| :: !IsFamily(families[j], families[i].group, families[i].kind))
    && (forall group, kind, x | Planned(input, inventory, group, kind, x) :: exists f :: f in families && IsFamily(f, group, kind))
  }

  /** The retained family shares no object with any group. */
  lemma RetainedIsDisjoint(input: Input, inventory: seq<Oid>, families: seq<Family>, f: Family, g: Family, x: Oid)
    requires FamiliesRight(input, inventory, families) && f in families && g in families
    requires f.group == RETAINED && g.group != RETAINED && x in Oids(f.objects)
    ensures x !in Oids(g.objects)
  {
    assert FamilyRight(input, inventory, f) && FamilyRight(input, inventory, g);
    assert Planned(input, inventory, f.group, f.kind, x);
  }

  /** All families together are the selected inventory. */
  lemma FamiliesAreInventory(input: Input, inventory: seq<Oid>, families: seq<Family>)
    requires FamiliesRight(input, inventory, families)
    requires WellFormed(input) && forall x | x in inventory :: x in input.store.objects
    ensures forall x :: x in inventory <==> exists f :: f in families && x in Oids(f.objects)
  {
    hide KindFits;
    forall x
      ensures x in inventory <==> exists f :: f in families && x in Oids(f.objects)
    {
      if x in inventory {
        var group := GroupHolding(input.walks, inventory, x);
        var kind := if input.store.objects[x].Blob? then Blobs else History;
        assert KindFits(input.store.objects, kind, x) by {
          KindOfObject(input.store.objects, x);
        }
        assert Planned(input, inventory, group, kind, x);
        var f :| f in families && IsFamily(f, group, kind);
        assert FamilyRight(input, inventory, f);
      }
      if f :| f in families && x in Oids(f.objects) {
        assert FamilyRight(input, inventory, f);
        assert Planned(input, inventory, f.group, f.kind, x);
      }
    }
  }

  lemma KindOfObject(objects: Contents, x: Oid)
    requires x in objects
    ensures KindFits(objects, if objects[x].Blob? then Blobs else History, x)
  {
  }

  lemma GroupHolding(walks: seq<GroupWalk>, inventory: seq<Oid>, x: Oid) returns (group: string)
    requires x in inventory && forall w | w in walks :: w.name != RETAINED
    ensures InShare(walks, inventory, group, x)
  {
    group := RETAINED;
    if w :| w in walks && x in Oids(w.raw) {
      group := w.name;
    }
  }

  // ---- progress ----

  /** What was produced for one family. */
  function OutputsOf(outputs: seq<Output>, group: string, kind: PackKind): seq<Output> {
    if outputs == [] then []
    else
      var rest := OutputsOf(outputs[..|outputs| - 1], group, kind);
      var last := outputs[|outputs| - 1];
      if last.group == group && last.kind == kind then rest + [last] else rest
  }

  lemma {:induction false} OutputsOfAppend(a: seq<Output>, b: seq<Output>, group: string, kind: PackKind)
    ensures OutputsOf(a + b, group, kind) == OutputsOf(a, group, kind) + OutputsOf(b, group, kind)
    decreases |b|
  {
    if b == [] {
      NothingAppended(a);
    } else {
      var n := |b| - 1;
      OutputsOfAppend(a, b[..n], group, kind);
      assert (a + b)[..|a + b| - 1] == a + b[..n];
    }
  }

  lemma {:induction false} OutputsOfMembers(outputs: seq<Output>, group: string, kind: PackKind)
    ensures forall o :: o in OutputsOf(outputs, group, kind) <==> o in outputs && o.group == group && o.kind == kind
    decreases |outputs|
  {
    if outputs != [] {
      var n := |outputs| - 1;
      TakeNext(outputs, n);
      TakeAll(outputs);
      OutputsOfMembers(outputs[..n], group, kind);
    }
  }

  lemma {:induction false} OutputsOfOne(outputs: seq<Output>, group: string, kind: PackKind, g: string, k: PackKind)
    requires forall o | o in outputs :: o.group == group && o.kind == kind
    ensures OutputsOf(outputs, g, k) == if g == group && k == kind then outputs else []
    decreases |outputs|
  {
    if outputs != [] {
      var n := |outputs| - 1;
      TakeNext(outputs, n);
      TakeAll(outputs);
      OutputsOfOne(outputs[..n], group, kind, g, k);
    }
  }

  ghost predicate DistinctChecksums(outputs: seq<Output>) {
    forall i, j | 0 <= i < j < |outputs| :: outputs[i].checksum != outputs[j].checksum
  }

  ghost predicate InOutputs(outputs: seq<Output>, x: Oid) {
    exists o :: o in outputs && x in o.objects
  }

  ghost predicate InScope(outputs: seq<Output>, group: string, kind: PackKind, scope: Scope) {
    forall o | o in outputs :: o.group == group && o.kind == kind && o.scope == scope
  }

  /** The outputs hold exactly the objects planned for this family. */
  ghost predicate Fulfils(input: Input, inventory: seq<Oid>, group: string, kind: PackKind, outputs: seq<Output>) {
    && outputs != [] && DistinctChecksums(outputs)
    && InScope(outputs, group, kind, ScopeOf(input.walks, group))
    && (exists x :: Planned(input, inventory, group, kind, x))
    && (forall x :: Planned(input, inventory, group, kind, x) <==> InOutputs(outputs, x))
  }

  /** A completed family's outputs hold exactly its planned objects; nothing else was produced. */
  ghost predicate Progress(input: Input, inventory: seq<Oid>, families: seq<Family>, outputs: seq<Output>) {
    && (forall f | f in families && f.completed :: Fulfils(input, inventory, f.group, f.kind, OutputsOf(outputs, f.group, f.kind)))
    && (forall o | o in outputs :: exists f :: f in families && f.completed && IsFamily(f, o.group, o.kind))
  }

  ghost predicate InventoryRight(input: Input, plan: Plan) {
    && SelectedFrom(input, plan.selected)
    && Ascending(plan.inventory) && (forall x :: x in plan.inventory <==> InPacks(plan.selected, x))
    && (forall x | x in plan.inventory :: x in input.store.objects)
  }

  /** The invariant of every run. */
  ghost predicate PlanInv(input: Input, plan: Plan) {
    && WellFormed(input) && InventoryRight(input, plan)
    && FamiliesRight(input, plan.inventory, plan.families)
    && Progress(input, plan.inventory, plan.families, plan.outputs)
  }

  // ---- completing one family ----

  function Completed(families: seq<Family>, i: nat): seq<Family>
    requires i < |families|
  {
    families[i := families[i].(completed := true)]
  }

  lemma CompletedStaysRight(input: Input, inventory: seq<Oid>, families: seq<Family>, i: nat)
    requires FamiliesRight(input, inventory, families) && i < |families|
    ensures FamiliesRight(input, inventory, Completed(families, i))
  {
    hide Planned;
    var after := Completed(families, i);
    forall f | f in after
      ensures FamilyRight(input, inventory, f)
    {
      var j :| 0 <= j < |after| && after[j] == f;
      assert families[j] in families && FamilyRight(input, inventory, families[j]);
    }
    forall group, kind, x | Planned(input, inventory, group, kind, x)
      ensures exists f :: f in after && IsFamily(f, group, kind)
    {
      var f :| f in families && IsFamily(f, group, kind);
      var j :| 0 <= j < |families| && families[j] == f;
      assert after[j] in after && IsFamily(after[j], group, kind);
    }
  }

  lemma OutputsOfOthers(input: Input, inventory: seq<Oid>, families: seq<Family>, outputs: seq<Output>, i: nat)
    requires FamiliesRight(input, inventory, families) && Progress(input, inventory, families, outputs)
    requires i < |families| && !families[i].completed
    ensures OutputsOf(outputs, families[i].group, families[i].kind) == []
  {
    hide FamilyRight, Planned;
    var f := families[i];
    OutputsOfMembers(outputs, f.group, f.kind);
    forall g | g in families && g.completed
      ensures !IsFamily(g, f.group, f.kind)
    {
      var j :| 0 <= j < |families| && families[j] == g;
      assert i != j && (IsFamily(g, f.group, f.kind) <==> IsFamily(f, g.group, g.kind));
    }
    FirstIsMember(OutputsOf(outputs, f.group, f.kind));
  }

  /** Marking a family complete together with outputs that fulfil it keeps the invariant. */
  lemma CompleteFamily(input: Input, inventory: seq<Oid>, families: seq<Family>, outputs: seq<Output>, i: nat, more: seq<Output>)
    requires FamiliesRight(input, inventory, families) && Progress(input, inventory, families, outputs)
    requires i < |families| && !families[i].completed
    requires Fulfils(input, inventory, families[i].group, families[i].kind, more)
    ensures FamiliesRight(input, inventory, Completed(families, i))
    ensures Progress(input, inventory, Completed(families, i), outputs + more)
  {
    hide FamilyRight, Planned, DistinctChecksums, InOutputs;
    var after := Completed(families, i);
    var f := families[i];
    CompletedStaysRight(input, inventory, families, i);
    OutputsOfOthers(input, inventory, families, outputs, i);
    forall g | g in after && g.completed
      ensures Fulfils(input, inventory, g.group, g.kind, OutputsOf(outputs + more, g.group, g.kind))
    {
      var j :| 0 <= j < |after| && after[j] == g;
      OutputsOfAppend(outputs, more, g.group, g.kind);
      OutputsOfOne(more, f.group, f.kind, g.group, g.kind);
      if j == i {
        NothingAppended(more);
      } else {
        assert families[j] in families;
        assert !IsFamily(g, f.group, f.kind);
        NothingAppended(OutputsOf(outputs, g.group, g.kind));
      }
    }
    forall o | o in outputs + more
      ensures exists g :: g in after && g.completed && IsFamily(g, o.group, o.kind)
    {
      if o in more {
        assert after[i] in after && IsFamily(after[i], o.group, o.kind);
      } else {
        var g :| g in families && g.completed && IsFamily(g, o.group, o.kind);
        var j :| 0 <= j < |families| && families[j] == g;
        assert after[j] in after && IsFamily(after[j], o.group, o.kind);
      }
    }
  }

  // ---- step ----

  /** What the pack writer leaves for one list: one or more packs, with distinct checksums, that
      together index exactly the list. */
  ghost predicate Written(objects: seq<Line>, packs: seq<(string, seq<Oid>)>) {
    && packs != [] && (forall i, j | 0 <= i < j < |packs| :: packs[i].0 != packs[j].0)
    && forall x :: x in Oids(objects) <==> exists p :: p in packs && x in p.1
  }

  function AsOutputs(f: Family, packs: seq<(string, seq<Oid>)>): seq<Output> {
    seq(|packs|, i requires 0 <= i < |packs| => Output(f.group, f.scope, f.kind, packs[i].0, packs[i].1))
  }

  lemma WrittenFulfils(input: Input, inventory: seq<Oid>, f: Family, packs: seq<(string, seq<Oid>)>)
    requires FamilyRight(input, inventory, f) && Written(f.objects, packs)
    ensures Fulfils(input, inventory, f.group, f.kind, AsOutputs(f, packs))
  {
    hide Planned;
    var outputs := AsOutputs(f, packs);
    forall x
      ensures x in Oids(f.objects) <==> InOutputs(outputs, x)
    {
      if p :| p in packs && x in p.1 {
        var i :| 0 <= i < |packs| && packs[i] == p;
        assert outputs[i] in outputs && x in outputs[i].objects;
      }
      if InOutputs(outputs, x) {
        var o :| o in outputs && x in o.objects;
        var i :| 0 <= i < |outputs| && outputs[i] == o;
        assert packs[i] in packs && x in packs[i].1;
      }
    }
    assert Oids(f.objects)[0] in Oids(f.objects);
    assert Planned(input, inventory, f.group, f.kind, Oids(f.objects)[0]);
  }

  /** One family unit, in any order; a completed one is left alone. A failed step loses the plan. */
  method Step(ghost input: Input, plan: Plan, family: nat, tuningValid: bool, written: Option<seq<(string, seq<Oid>)>>)
    returns (r: Option<Plan>)
    requires PlanInv(input, plan)
    requires written.Some? && family < |plan.families| ==> Written(plan.families[family].objects, written.value)
    ensures r.Some? <==> tuningValid && family < |plan.families| && (plan.families[family].completed || written.Some?)
    ensures r.Some? ==> PlanInv(input, r.value) && r.value.families == Completed(plan.families, family)
    ensures r.Some? ==> plan.outputs <= r.value.outputs && (plan.families[family].completed ==> r.value == plan)
    ensures r.Some? ==> r.value.inventory == plan.inventory && r.value.selected == plan.selected
  {
    hide FamiliesRight, Progress, InventoryRight, Written, Fulfils, FamilyRight;
    if !tuningValid {
      return None;
    }
    if family >= |plan.families| {
      return None;
    }
    var item := plan.families[family];
    if item.completed {
      assert Completed(plan.families, family) == plan.families;
      return Some(plan);
    }
    if written.None? {
      return None;
    }
    var outputs: seq<Output> := [];
    for k := 0 to |written.value|
      invariant outputs == AsOutputs(item, written.value)[..k]
    {
      outputs := outputs + [Output(item.group, item.scope, item.kind, written.value[k].0, written.value[k].1)];
    }
    TakeAll(AsOutputs(item, written.value));
    RightFamily(input, plan.inventory, plan.families, family);
    WrittenFulfils(input, plan.inventory, item, written.value);
    CompleteFamily(input, plan.inventory, plan.families, plan.outputs, family, outputs);
    r := Some(plan.(families := Completed(plan.families, family), outputs := plan.outputs + outputs));
    SameInventory(input, plan, r.value);
  }

  lemma RightFamily(input: Input, inventory: seq<Oid>, families: seq<Family>, i: nat)
    requires FamiliesRight(input, inventory, families) && i < |families|
    ensures FamilyRight(input, inventory, families[i])
  {
    assert families[i] in families;
  }

  lemma SameInventory(input: Input, a: Plan, b: Plan)
    requires InventoryRight(input, a) && a.inventory == b.inventory && a.selected == b.selected
    ensures InventoryRight(input, b)
  {
  }

  // ---- finish ----

  ghost predicate AllCompleted(plan: Plan) {
    forall f | f in plan.families :: f.completed
  }

  ghost predicate Conserves(plan: Plan) {
    forall x :: x in plan.inventory <==> InOutputs(plan.outputs, x)
  }

  /** Accepts exactly the complete cuts whose outputs index exactly the selected objects. */
  method Finish(plan: Plan) returns (ok: bool)
    requires Ascending(plan.inventory)
    ensures ok <==> AllCompleted(plan) && Conserves(plan)
  {
    for i := 0 to |plan.families|
      invariant forall k | 0 <= k < i :: plan.families[k].completed
    {
      if !plan.families[i].completed {
        assert plan.families[i] in plan.families;
        return false;
      }
    }
    var raw := AppendOutputs(plan.outputs);
    var produced := SortedDistinct(raw);
    ok := plan.inventory == produced;
    if Conserves(plan) {
      SameMembersSameList(plan.inventory, produced);
    }
  }

  method AppendOutputs(outputs: seq<Output>) returns (raw: seq<Oid>)
    ensures forall x :: x in raw <==> InOutputs(outputs, x)
  {
    raw := [];
    for i := 0 to |outputs|
      invariant forall x :: x in raw <==> InOutputs(outputs[..i], x)
    {
      TakeNext(outputs, i);
      OneMoreOutput(outputs[..i], outputs[i]);
      raw := raw + outputs[i].objects;
    }
    TakeAll(outputs);
  }

  lemma OneMoreOutput(outputs: seq<Output>, o: Output)
    ensures forall x :: InOutputs(outputs + [o], x) <==> InOutputs(outputs, x) || x in o.objects
  {
    forall x | InOutputs(outputs, x) || x in o.objects
      ensures InOutputs(outputs + [o], x)
    {
      if x in o.objects {
        assert o in outputs + [o];
      } else {
        var p :| p in outputs && x in p.objects;
        assert p in outputs + [o];
      }
    }
  }

  /** A plan with every family completed is never refused: its outputs hold exactly the inventory. */
  lemma FullyStepped(input: Input, plan: Plan)
    requires PlanInv(input, plan) && AllCompleted(plan)
    ensures Conserves(plan)
  {
    hide FamilyRight, Planned, Fulfils;
    FamiliesAreInventory(input, plan.inventory, plan.families);
    forall x
      ensures x in plan.inventory <==> InOutputs(plan.outputs, x)
    {
      if x in plan.inventory {
        var f :| f in plan.families && x in Oids(f.objects);
        FamilyFulfilled(input, plan, f, x);
      }
      if InOutputs(plan.outputs, x) {
        var o :| o in plan.outputs && x in o.objects;
        var f :| f in plan.families && f.completed && IsFamily(f, o.group, o.kind);
        OutputPlanned(input, plan, f, o, x);
      }
    }
  }

  lemma FamilyFulfilled(input: Input, plan: Plan, f: Family, x: Oid)
    requires PlanInv(input, plan) && f in plan.families && f.completed && x in Oids(f.objects)
    ensures InOutputs(plan.outputs, x)
  {
    hide Planned;
    assert FamilyRight(input, plan.inventory, f);
    var mine := OutputsOf(plan.outputs, f.group, f.kind);
    OutputsOfMembers(plan.outputs, f.group, f.kind);
    assert Fulfils(input, plan.inventory, f.group, f.kind, mine);
    assert InOutputs(mine, x);
  }

  lemma OutputPlanned(input: Input, plan: Plan, f: Family, o: Output, x: Oid)
    requires PlanInv(input, plan) && f in plan.families && f.completed && IsFamily(f, o.group, o.kind)
    requires o in plan.outputs && x in o.objects
    ensures x in plan.inventory
  {
    var mine := OutputsOf(plan.outputs, f.group, f.kind);
    OutputsOfMembers(plan.outputs, f.group, f.kind);
    assert InOutputs(mine, x);
    assert Planned(input, plan.inventory, f.group, f.kind, x);
  }

  // ---- resume ----

  ghost predicate ReceiptRight(input: Input, inventory: seq<Oid>, r: Receipt) {
    Fulfils(input, inventory, r.group, r.kind, r.outputs)
  }

  /** Each saved output must be in its family's scope, and no two may share a checksum. */
  method CheckScope(outputs: seq<Output>, f: Family) returns (ok: bool)
    ensures ok <==> InScope(outputs, f.group, f.kind, f.scope) && DistinctChecksums(outputs)
  {
    var checksums: set<string> := {};
    for i := 0 to |outputs|
      invariant InScope(outputs[..i], f.group, f.kind, f.scope) && DistinctChecksums(outputs[..i])
      invariant checksums == set o | o in outputs[..i] :: o.checksum
    {
      TakeNext(outputs, i);
      var o := outputs[i];
      if o.group != f.group || o.scope != f.scope || o.kind != f.kind {
        assert o in outputs;
        return false;
      }
      if o.checksum in checksums {
        var p :| p in outputs[..i] && p.checksum == o.checksum;
        var j :| 0 <= j < i && outputs[j] == p;
        return false;
      }
      assert forall j | 0 <= j < i :: outputs[j] in outputs[..i];
      checksums := checksums + {o.checksum};
    }
    TakeAll(outputs);
    ok := true;
  }

  method Position(families: seq<Family>, group: string, kind: PackKind) returns (index: nat)
    ensures index <= |families|
    ensures index < |families| ==> IsFamily(families[index], group, kind)
    ensures index == |families| ==> forall f | f in families :: !IsFamily(f, group, kind)
  {
    index := 0;
    while index < |families| && !(families[index].group == group && families[index].kind == kind)
      invariant index <= |families| && forall k | 0 <= k < index :: !IsFamily(families[k], group, kind)
    {
      index := index + 1;
    }
  }

  ghost predicate NotCompleted(families: seq<Family>, group: string, kind: PackKind) {
    forall f | f in families && f.completed :: !IsFamily(f, group, kind)
  }

  /** Checks one receipt's scope and exact family inventory, then skips its family. */
  method ApplyReceipt(ghost input: Input, plan: Plan, receipt: Receipt) returns (r: Option<Plan>)
    requires PlanInv(input, plan)
    ensures r.Some? <==> ReceiptRight(input, plan.inventory, receipt) && NotCompleted(plan.families, receipt.group, receipt.kind)
    ensures r.Some? ==> PlanInv(input, r.value) && r.value.outputs == plan.outputs + receipt.outputs
    ensures r.Some? ==> r.value.inventory == plan.inventory
    ensures r.Some? ==> exists i :: 0 <= i < |plan.families| && IsFamily(plan.families[i], receipt.group, receipt.kind)
                                    && r.value.families == Completed(plan.families, i)
  {
    hide FamiliesRight, Progress, InventoryRight, FamilyRight, Fulfils, DistinctChecksums, Planned;
    var index := Position(plan.families, receipt.group, receipt.kind);
    if index == |plan.families| {
      NoFamilyNoReceipt(input, plan.inventory, plan.families, receipt);
      return None;
    }
    var f := plan.families[index];
    assert f in plan.families;
    if f.completed {
      return None;
    }
    IncompleteOnce(input, plan.inventory, plan.families, index);
    RightFamily(input, plan.inventory, plan.families, index);
    FulfilsFamily(input, plan.inventory, f, receipt);
    if receipt.outputs == [] {
      return None;
    }
    var ok := CheckScope(receipt.outputs, f);
    if !ok {
      return None;
    }
    var raw := AppendOutputs(receipt.outputs);
    var actual := SortedDistinct(raw);
    OidsOfLines(f.objects);
    if Oids(f.objects) != actual {
      DifferentMembers(Oids(f.objects), actual);
      return None;
    }
    CompleteFamily(input, plan.inventory, plan.families, plan.outputs, index, receipt.outputs);
    r := Some(plan.(families := Completed(plan.families, index), outputs := plan.outputs + receipt.outputs));
    SameInventory(input, plan, r.value);
  }

  lemma DifferentMembers(a: seq<Oid>, b: seq<Oid>)
    requires Ascending(a) && Ascending(b) && a != b
    ensures !(forall x :: x in a <==> x in b)
  {
    if forall x :: x in a <==> x in b {
      SameMembersSameList(a, b);
      assert false;
    }
  }

  lemma NoFamilyNoReceipt(input: Input, inventory: seq<Oid>, families: seq<Family>, r: Receipt)
    requires FamiliesRight(input, inventory, families) && forall f | f in families :: !IsFamily(f, r.group, r.kind)
    ensures !ReceiptRight(input, inventory, r)
  {
    hide Planned;
  }

  lemma IncompleteOnce(input: Input, inventory: seq<Oid>, families: seq<Family>, i: nat)
    requires FamiliesRight(input, inventory, families) && i < |families| && !families[i].completed
    ensures NotCompleted(families, families[i].group, families[i].kind)
  {
    hide FamilyRight, Planned;
    forall g | g in families && g.completed
      ensures !IsFamily(g, families[i].group, families[i].kind)
    {
      var j :| 0 <= j < |families| && families[j] == g;
      assert i != j && (IsFamily(g, families[i].group, families[i].kind) <==> IsFamily(families[i], g.group, g.kind));
    }
  }

  /** What a receipt must satisfy, in terms of the family it names. */
  lemma FulfilsFamily(input: Input, inventory: seq<Oid>, f: Family, r: Receipt)
    requires FamilyRight(input, inventory, f) && IsFamily(f, r.group, r.kind)
    ensures ReceiptRight(input, inventory, r)
       <==> r.outputs != [] && InScope(r.outputs, f.group, f.kind, f.scope) && DistinctChecksums(r.outputs)
            && forall x :: x in Oids(f.objects) <==> InOutputs(r.outputs, x)
  {
    hide Planned, InScope, DistinctChecksums, InOutputs;
    assert Oids(f.objects)[0] in Oids(f.objects);
    assert Planned(input, inventory, f.group, f.kind, Oids(f.objects)[0]);
  }

  // ---- plan ----

  ghost predicate SelectionValid(input: Input) {
    && input.selected != [] && (forall c | c in input.selected :: FindPack(input.packs, c).Some?)
    && forall i, j | 0 <= i < j < |input.selected| :: input.selected[i] != input.selected[j]
  }

  /** No group walk lists an object outside the committed packs. */
  ghost predicate WalksInside(input: Input) {
    forall w | w in input.walks :: forall x | x in Oids(w.raw) :: InPacks(input.packs, x)
  }

  ghost predicate Accepted(input: Input) {
    && input.budget > 0 && ObjectLinks.LinksGood(input.store, input.budget, Indexes(input.packs), input.refs)
    && SelectionValid(input) && WalksInside(input)
  }

  method Select(input: Input) returns (ok: bool, selected: seq<Pack>)
    ensures ok <==> SelectionValid(input)
    ensures ok ==> SelectedFrom(input, selected)
  {
    selected := [];
    for i := 0 to |input.selected|
      invariant |selected| == i
      invariant forall k | 0 <= k < i :: FindPack(input.packs, input.selected[k]) == Some(selected[k])
    {
      var found := FindPack(input.packs, input.selected[i]);
      if found.None? {
        assert input.selected[i] in input.selected;
        return false, selected;
      }
      selected := selected + [found.value];
    }
    if selected == [] {
      return false, selected;
    }
    for i := 0 to |input.selected|
      invariant forall a, b | 0 <= a < b < i :: input.selected[a] != input.selected[b]
    {
      if k :| 0 <= k < i && input.selected[k] == input.selected[i] {
        return false, selected;
      }
    }
    ok := true;
  }

  method AppendIndexes(packs: seq<Pack>) returns (raw: seq<Oid>)
    ensures forall x :: x in raw <==> InPacks(packs, x)
  {
    raw := [];
    for i := 0 to |packs|
      invariant forall x :: x in raw <==> InPacks(packs[..i], x)
    {
      TakeNext(packs, i);
      OneMorePack(packs[..i], packs[i]);
      raw := raw + packs[i].index;
    }
    TakeAll(packs);
  }

  lemma OneMorePack(packs: seq<Pack>, p: Pack)
    ensures forall x :: InPacks(packs + [p], x) <==> InPacks(packs, x) || x in p.index
  {
    forall x | InPacks(packs, x) || x in p.index
      ensures InPacks(packs + [p], x)
    {
      if x in p.index {
        assert p in packs + [p];
      } else {
        var q :| q in packs && x in q.index;
        assert q in packs + [p];
      }
    }
  }

  /** One group's list, cut down to the selected inventory. */
  datatype Listed = Listed(group: string, scope: Scope, list: seq<Line>)

  ghost predicate ListedRight(input: Input, inventory: seq<Oid>, l: Listed) {
    && Sorted(l.list) && l.scope == ScopeOf(input.walks, l.group)
    && forall x :: x in Oids(l.list) <==> InShare(input.walks, inventory, l.group, x)
  }

  lemma {:induction false} ScopeOfWalk(walks: seq<GroupWalk>, i: nat)
    requires forall a, b | 0 <= a < b < |walks| :: walks[a].name != walks[b].name
    requires i < |walks|
    ensures ScopeOf(walks, walks[i].name) == Scope(Some(walks[i].kind), walks[i].dependencies)
  {
    if i > 0 {
      ScopeOfWalk(walks[1..], i - 1);
    }
  }

  lemma {:induction false} NoScope(walks: seq<GroupWalk>, group: string)
    requires forall w | w in walks :: w.name != group
    ensures ScopeOf(walks, group) == Scope(None, {})
  {
    if walks != [] {
      NoScope(walks[1..], group);
    }
  }

  lemma ShareOfWalk(walks: seq<GroupWalk>, inventory: seq<Oid>, i: nat, x: Oid)
    requires forall a, b | 0 <= a < b < |walks| :: walks[a].name != walks[b].name
    requires i < |walks| && walks[i].name != RETAINED
    ensures InShare(walks, inventory, walks[i].name, x) <==> x in inventory && x in Oids(walks[i].raw)
  {
    assert walks[i] in walks;
    if w :| w in walks && w.name == walks[i].name && x in Oids(w.raw) {
      var j :| 0 <= j < |walks| && walks[j] == w;
      assert !(i < j) && !(j < i);
    }
  }

  lemma OneMoreWalk(walks: seq<GroupWalk>, w: GroupWalk)
    ensures forall x :: InSomeWalk(walks + [w], x) <==> InSomeWalk(walks, x) || x in Oids(w.raw)
  {
    forall x | InSomeWalk(walks, x) || x in Oids(w.raw)
      ensures InSomeWalk(walks + [w], x)
    {
      if x in Oids(w.raw) {
        assert w in walks + [w];
      } else {
        var v :| v in walks && x in Oids(v.raw);
        assert v in walks + [w];
      }
    }
  }

  /** One group: its walk sorted, and the part of it in the selected inventory. */
  method ListGroup(ghost input: Input, inventory: seq<Oid>, ghost i: nat, w: GroupWalk) returns (full: seq<Oid>, l: Listed)
    requires WellFormed(input) && Ascending(inventory) && i < |input.walks| && w == input.walks[i]
    ensures forall x :: x in full <==> x in Oids(w.raw)
    ensures l.group == w.name && ListedRight(input, inventory, l)
    ensures forall x :: x in Oids(l.list) <==> x in inventory && x in Oids(w.raw)
  {
    var sorted := SortLines(w.raw);
    var list := Intersect(sorted, inventory);
    OidsOfLines(sorted);
    OidsOfLines(list);
    ScopeOfWalk(input.walks, i);
    assert w in input.walks;
    forall x
      ensures InShare(input.walks, inventory, w.name, x) <==> x in inventory && x in Oids(w.raw)
    {
      ShareOfWalk(input.walks, inventory, i, x);
    }
    full, l := Oids(sorted), Listed(w.name, Scope(Some(w.kind), w.dependencies), list);
  }

  method ListGroups(input: Input, inventory: seq<Oid>) returns (lists: seq<Listed>, fullUnion: seq<Oid>, union: seq<Oid>)
    requires WellFormed(input) && Ascending(inventory)
    ensures |lists| == |input.walks| && forall k | 0 <= k < |lists| :: lists[k].group == input.walks[k].name && ListedRight(input, inventory, lists[k])
    ensures forall x :: x in fullUnion <==> InSomeWalk(input.walks, x)
    ensures forall x :: x in union <==> x in inventory && InSomeWalk(input.walks, x)
  {
    hide InSomeWalk, ListedRight, WellFormed;
    lists, fullUnion, union := [], [], [];
    NoWalks();
    for i := 0 to |input.walks|
      invariant |lists| == i && forall k | 0 <= k < i :: lists[k].group == input.walks[k].name && ListedRight(input, inventory, lists[k])
      invariant forall x :: x in fullUnion <==> InSomeWalk(input.walks[..i], x)
      invariant forall x :: x in union <==> x in inventory && InSomeWalk(input.walks[..i], x)
    {
      TakeNext(input.walks, i);
      OneMoreWalk(input.walks[..i], input.walks[i]);
      var full, l := ListGroup(input, inventory, i, input.walks[i]);
      lists, fullUnion, union := lists + [l], fullUnion + full, union + Oids(l.list);
    }
    TakeAll(input.walks);
  }

  lemma NoWalks()
    ensures forall x :: !InSomeWalk([], x)
  {
  }

  function Unhinted(oids: seq<Oid>): (list: seq<Line>)
    ensures Oids(list) == oids
  {
    seq(|oids|, i requires 0 <= i < |oids| => Line(oids[i], ""))
  }

  method ListRetained(ghost input: Input, inventory: seq<Oid>, union: seq<Oid>) returns (l: Listed)
    requires WellFormed(input) && Ascending(inventory)
    requires forall x :: x in union <==> x in inventory && InSomeWalk(input.walks, x)
    ensures l.group == RETAINED && ListedRight(input, inventory, l)
  {
    hide InSomeWalk;
    var sorted := SortedDistinct(union);
    var rest := Difference(inventory, sorted);
    OidsOfLines(Unhinted(rest));
    NoScope(input.walks, RETAINED);
    l := Listed(RETAINED, Scope(None, {}), Unhinted(rest));
  }

  // ---- families ----

  ghost predicate GroupListed(lists: seq<Listed>, group: string) {
    exists l :: l in lists && l.group == group
  }

  ghost predicate FamiliesFor(input: Input, inventory: seq<Oid>, lists: seq<Listed>, families: seq<Family>) {
    && (forall f | f in families :: FamilyRight(input, inventory, f) && !f.completed && GroupListed(lists, f.group))
    && (forall i, j | 0 <= i < j < |families| :: !IsFamily(families[j], families[i].group, families[i].kind))
    && (forall group, kind, x | Planned(input, inventory, group, kind, x) && GroupListed(lists, group) ::
          exists f :: f in families && IsFamily(f, group, kind))
  }

  method SplitGroup(ghost input: Input, objects: Contents, ghost inventory: seq<Oid>, l: Listed) returns (ok: bool, pair: seq<Family>)
    requires objects == input.store.objects && ListedRight(input, inventory, l)
    ensures ok <==> forall x | x in Oids(l.list) :: x in objects
    ensures ok ==> forall f | f in pair :: FamilyRight(input, inventory, f) && !f.completed && f.group == l.group
    ensures ok ==> forall i, j | 0 <= i < j < |pair| :: !IsFamily(pair[j], pair[i].group, pair[i].kind)
    ensures ok ==> forall kind, x | Planned(input, inventory, l.group, kind, x) :: exists f :: f in pair && IsFamily(f, l.group, kind)
  {
    hide InShare;
    var history, blobs;
    ok, history, blobs := SplitTypes(objects, l.list);
    OidsOfLines(l.list);
    pair := [];
    if !ok {
      return;
    }
    PartPlanned(input, inventory, l, History, history);
    PartPlanned(input, inventory, l, Blobs, blobs);
    if history != [] {
      pair := pair + [Family(l.group, l.scope, History, history, false)];
    }
    if blobs != [] {
      pair := pair + [Family(l.group, l.scope, Blobs, blobs, false)];
    }
    forall kind, x | Planned(input, inventory, l.group, kind, x)
      ensures exists f :: f in pair && IsFamily(f, l.group, kind)
    {
      assert kind == History || kind == Blobs;
      if kind == History {
        assert pair[0] in pair && IsFamily(pair[0], l.group, kind);
      } else {
        assert pair[|pair| - 1] in pair && IsFamily(pair[|pair| - 1], l.group, kind);
      }
    }
  }

  lemma PartPlanned(input: Input, inventory: seq<Oid>, l: Listed, kind: PackKind, part: seq<Line>)
    requires ListedRight(input, inventory, l) && kind != Mixed
    requires forall m :: m in part <==> m in l.list && KindFits(input.store.objects, kind, m.oid)
    ensures forall x :: x in Oids(part) <==> Planned(input, inventory, l.group, kind, x)
  {
    hide InShare, KindFits;
    OidsOfLines(part);
    OidsOfLines(l.list);
  }

  lemma GroupListedNext(lists: seq<Listed>, l: Listed, group: string)
    ensures GroupListed(lists + [l], group) <==> GroupListed(lists, group) || l.group == group
  {
    if GroupListed(lists, group) {
      var m :| m in lists && m.group == group;
      assert m in lists + [l];
    }
    assert l in lists + [l];
  }

  lemma AddPair(input: Input, inventory: seq<Oid>, lists: seq<Listed>, families: seq<Family>, l: Listed, pair: seq<Family>)
    requires FamiliesFor(input, inventory, lists, families) && !GroupListed(lists, l.group)
    requires forall f | f in pair :: FamilyRight(input, inventory, f) && !f.completed && f.group == l.group
    requires forall i, j | 0 <= i < j < |pair| :: !IsFamily(pair[j], pair[i].group, pair[i].kind)
    requires forall kind, x | Planned(input, inventory, l.group, kind, x) :: exists f :: f in pair && IsFamily(f, l.group, kind)
    ensures FamiliesFor(input, inventory, lists + [l], families + pair)
  {
    hide FamilyRight, Planned, GroupListed;
    var all := families + pair;
    forall group
      ensures GroupListed(lists + [l], group) <==> GroupListed(lists, group) || l.group == group
    {
      GroupListedNext(lists, l, group);
    }
    forall i, j | 0 <= i < j < |all|
      ensures !IsFamily(all[j], all[i].group, all[i].kind)
    {
      assert all[i] in all && all[j] in all;
      if i < |families| <= j {
        assert all[i] in families && all[j] in pair;
      } else if |families| <= i {
        assert !IsFamily(pair[j - |families|], pair[i - |families|].group, pair[i - |families|].kind);
      }
    }
    forall group, kind, x | Planned(input, inventory, group, kind, x) && GroupListed(lists + [l], group)
      ensures exists f :: f in all && IsFamily(f, group, kind)
    {
      var f: Family;
      if group == l.group {
        f :| f in pair && IsFamily(f, group, kind);
      } else {
        f :| f in families && IsFamily(f, group, kind);
      }
      assert f in all;
    }
  }

  method MakeFamilies(ghost input: Input, objects: Contents, ghost inventory: seq<Oid>, lists: seq<Listed>) returns (ok: bool, families: seq<Family>)
    requires objects == input.store.objects && forall l | l in lists :: ListedRight(input, inventory, l)
    requires forall i, j | 0 <= i < j < |lists| :: lists[i].group != lists[j].group
    requires forall x | x in inventory :: x in objects
    ensures ok && FamiliesFor(input, inventory, lists, families)
  {
    hide ListedRight, FamiliesFor, FamilyRight, Planned, IsFamily;
    families := [];
    NoFamilies(input, inventory);
    for i := 0 to |lists|
      invariant FamiliesFor(input, inventory, lists[..i], families)
    {
      TakeNext(lists, i);
      assert lists[i] in lists;
      ListInInventory(input, inventory, lists[i]);
      var pair;
      ok, pair := SplitGroup(input, objects, inventory, lists[i]);
      NotYetListed(lists, i);
      AddPair(input, inventory, lists[..i], families, lists[i], pair);
      families := families + pair;
    }
    TakeAll(lists);
    ok := true;
  }

  lemma NoFamilies(input: Input, inventory: seq<Oid>)
    ensures FamiliesFor(input, inventory, [], [])
  {
  }

  lemma NotYetListed(lists: seq<Listed>, i: nat)
    requires i < |lists| && forall a, b | 0 <= a < b < |lists| :: lists[a].group != lists[b].group
    ensures !GroupListed(lists[..i], lists[i].group)
  {
  }

  lemma ListInInventory(input: Input, inventory: seq<Oid>, l: Listed)
    requires ListedRight(input, inventory, l)
    ensures forall x | x in Oids(l.list) :: x in inventory
  {
  }

  lemma ListedGroups(input: Input, inventory: seq<Oid>, lists: seq<Listed>, group: string, kind: PackKind, x: Oid)
    requires |lists| == |input.walks| + 1 && lists[|input.walks|].group == RETAINED
    requires forall k | 0 <= k < |input.walks| :: lists[k].group == input.walks[k].name
    requires Planned(input, inventory, group, kind, x)
    ensures GroupListed(lists, group)
  {
    if group == RETAINED {
      assert lists[|input.walks|] in lists;
    } else {
      var w :| w in input.walks && w.name == group && x in Oids(w.raw);
      var k :| 0 <= k < |input.walks| && input.walks[k] == w;
      assert lists[k] in lists;
    }
  }

  lemma ForAllGroups(input: Input, inventory: seq<Oid>, lists: seq<Listed>, families: seq<Family>)
    requires FamiliesFor(input, inventory, lists, families)
    requires |lists| == |input.walks| + 1 && lists[|input.walks|].group == RETAINED
    requires forall k | 0 <= k < |input.walks| :: lists[k].group == input.walks[k].name
    ensures FamiliesRight(input, inventory, families) && Progress(input, inventory, families, [])
  {
    hide FamilyRight, Planned, GroupListed, Fulfils;
    forall group, kind, x | Planned(input, inventory, group, kind, x)
      ensures exists f :: f in families && IsFamily(f, group, kind)
    {
      ListedGroups(input, inventory, lists, group, kind, x);
    }
  }

  /** Selected objects are checked objects. */
  lemma SelectedExist(input: Input, selected: seq<Pack>, x: Oid)
    requires ObjectLinks.LinksGood(input.store, input.budget, Indexes(input.packs), input.refs)
    requires SelectedFrom(input, selected) && InPacks(selected, x)
    ensures x in input.store.objects
  {
    var p :| p in selected && x in p.index;
    var i :| 0 <= i < |selected| && selected[i] == p;
    FoundIsCommitted(input.packs, input.selected[i]);
    var j :| 0 <= j < |input.packs| && input.packs[j] == p;
    assert Indexes(input.packs)[j] == p.index;
    assert p.index in Indexes(input.packs);
    assert ObjectLinks.ObjectGood(input.store, input.budget, x);
  }

  lemma {:induction false} FoundIsCommitted(packs: seq<Pack>, checksum: string)
    ensures FindPack(packs, checksum).Some? ==> FindPack(packs, checksum).value in packs && FindPack(packs, checksum).value.checksum == checksum
  {
    if packs != [] {
      FoundIsCommitted(packs[1..], checksum);
    }
  }

  /** Plans the families of the selected packs, or refuses: exactly when the links of the committed
      objects do not check out, the selection is not of distinct committed packs, or a group's walk
      leaves the committed inventory. */
  method PlanCut(input: Input) returns (r: Option<Plan>)
    requires WellFormed(input)
    ensures r.Some? <==> Accepted(input)
    ensures r.Some? ==> PlanInv(input, r.value) && r.value.outputs == [] && forall f | f in r.value.families :: !f.completed
  {
    hide WellFormed, ListedRight, FamiliesFor, FamiliesRight, Progress, InPacks, InSomeWalk, SelectionValid;
    if input.budget == 0 {
      return None;
    }
    SizesKnown(input);
    var ok := ObjectLinks.VerifyIndexedLinks(input.store, input.budget, Indexes(input.packs), input.refs);
    if !ok {
      return None;
    }
    var selected;
    ok, selected := Select(input);
    if !ok {
      return None;
    }
    var raw := AppendIndexes(selected);
    var inventory := SortedDistinct(raw);
    var allRaw := AppendIndexes(input.packs);
    var all := SortedDistinct(allRaw);
    var lists, fullUnion, union := ListGroups(input, inventory);
    var retained := ListRetained(input, inventory, union);
    var full := SortedDistinct(fullUnion);
    var extra := Difference(full, all);
    InsideIffNoExtra(input, full, extra);
    if extra != [] {
      return None;
    }
    forall x | x in inventory
      ensures x in input.store.objects
    {
      SelectedExist(input, selected, x);
    }
    GroupsDistinct(input, lists, retained);
    var families;
    ok, families := MakeFamilies(input, input.store.objects, inventory, lists + [retained]);
    if !ok {
      return None;
    }
    ForAllGroups(input, inventory, lists + [retained], families);
    NoneCompleted(input, inventory, lists + [retained], families);
    r := Some(Plan(selected, families, [], inventory));
  }

  // ---- from the recorded refs and the policy ----

  /** What the revision walker lists for a group; one without roots is not walked. */
  function GroupLines(walk: PackGroups.GroupRoots -> seq<Line>, roots: PackGroups.GroupRoots): seq<Line> {
    if roots.included == {} then [] else walk(roots)
  }

  /** The input with one walk for each group, from its resolved roots. */
  function WithWalks(input: Input, names: seq<string>, resolved: map<string, PackGroups.GroupRoots>,
                     walk: PackGroups.GroupRoots -> seq<Line>): (r: Input)
    requires forall n | n in names :: n in resolved
  {
    input.(walks := seq(|names|, i requires 0 <= i < |names| =>
      GroupWalk(names[i], resolved[names[i]].kind, resolved[names[i]].dependencies, GroupLines(walk, resolved[names[i]]))))
  }

  /** A group with these roots lists this object. */
  ghost predicate ListedBy(walk: PackGroups.GroupRoots -> seq<Line>, roots: PackGroups.GroupRoots, x: Oid) {
    roots.included != {} && exists line :: line in walk(roots) && line.oid == x
  }

  /** An index of a selected pack has this object; a checksum stands for the first committed pack that has it. */
  ghost predicate Chosen(input: Input, x: Oid) {
    exists checksum, i :: checksum in input.selected && 0 <= i < |input.packs| && input.packs[i].checksum == checksum
                          && (forall j | 0 <= j < i :: input.packs[j].checksum != checksum) && x in input.packs[i].index
  }

  /** A valid policy over valid refs, links that check out, distinct committed packs, and no group that lists
      an object outside the committed packs. */
  ghost predicate ConfigAccepted(input: Input, c: PackGroups.Config, refs: seq<Ref>, headTarget: string,
                                 walk: PackGroups.GroupRoots -> seq<Line>)
    requires PackGroups.IsConfig(c)
  {
    && PackGroups.ValidConfig(c) && PackGroups.ValidRefs(refs)
    && input.budget > 0 && ObjectLinks.LinksGood(input.store, input.budget, Indexes(input.packs), input.refs) && SelectionValid(input)
    && forall g | g in c.groups :: forall roots | PackGroups.ResolvedAs(c.groups, refs, headTarget, g, roots) ::
         forall x | ListedBy(walk, roots, x) :: InPacks(input.packs, x)
  }

  /** No configured group lists this object. */
  ghost predicate Unlisted(c: PackGroups.Config, refs: seq<Ref>, headTarget: string, walk: PackGroups.GroupRoots -> seq<Line>, x: Oid) {
    forall g | g in c.groups :: forall roots | PackGroups.ResolvedAs(c.groups, refs, headTarget, g, roots) :: !ListedBy(walk, roots, x)
  }

  ghost predicate InFamilies(families: seq<Family>, group: string, x: Oid) {
    exists f :: f in families && f.group == group && x in Oids(f.objects)
  }

  /** Each configured group's families hold exactly the chosen objects it lists, in the scope of its kind and
      its transitive dependencies; the retained ones hold exactly the chosen objects that no group lists.
      Blobs are kept apart from everything else. */
  ghost predicate GroupsPlanned(input: Input, c: PackGroups.Config, refs: seq<Ref>, headTarget: string,
                                walk: PackGroups.GroupRoots -> seq<Line>, families: seq<Family>)
  {
    && (forall g | g in c.groups :: GroupPlanned(input, c, refs, headTarget, walk, families, g))
    && (forall f | f in families :: f.group in c.groups || (f.group == "_retained" && f.scope == Scope(None, {})))
    && (forall x :: InFamilies(families, "_retained", x) <==> Chosen(input, x) && Unlisted(c, refs, headTarget, walk, x))
    && (forall f, x | f in families && x in Oids(f.objects) ::
          x in input.store.objects && f.kind == if input.store.objects[x].Blob? then Blobs else History)
  }

  ghost predicate GroupPlanned(input: Input, c: PackGroups.Config, refs: seq<Ref>, headTarget: string,
                               walk: PackGroups.GroupRoots -> seq<Line>, families: seq<Family>, g: string)
    requires g in c.groups
  {
    && (forall roots | PackGroups.ResolvedAs(c.groups, refs, headTarget, g, roots) ::
          forall x :: InFamilies(families, g, x) <==> Chosen(input, x) && ListedBy(walk, roots, x))
    && (forall f | f in families && f.group == g :: f.scope.audience == Some(c.groups[g].kind)
          && forall d :: d in f.scope.dependencies <==> ReachesPlus(PackGroups.SubtractGraph(c.groups), g, d))
  }

  lemma {:induction false} FoundFirst(packs: seq<Pack>, checksum: string, p: Pack)
    ensures FindPack(packs, checksum) == Some(p)
       <==> exists i :: 0 <= i < |packs| && packs[i] == p && p.checksum == checksum && forall j | 0 <= j < i :: packs[j].checksum != checksum
  {
    if packs != [] {
      FoundFirst(packs[1..], checksum, p);
      if packs[0].checksum != checksum {
        if k :| 0 <= k < |packs[1..]| && packs[1..][k] == p && p.checksum == checksum && forall j | 0 <= j < k :: packs[1..][j].checksum != checksum {
          assert packs[k + 1] == p;
          assert forall j | 0 <= j < k + 1 :: j > 0 ==> packs[j] == packs[1..][j - 1];
        }
        if i :| 0 <= i < |packs| && packs[i] == p && p.checksum == checksum && forall j | 0 <= j < i :: packs[j].checksum != checksum {
          assert packs[1..][i - 1] == p;
        }
      } else {
        assert packs[0] == p ==> 0 < |packs| && packs[0] == p;
      }
    }
  }

  /** The planned inventory is what was chosen. */
  lemma InventoryIsChosen(input: Input, plan: Plan, x: Oid)
    requires InventoryRight(input, plan)
    ensures x in plan.inventory <==> Chosen(input, x)
  {
    if x in plan.inventory {
      var p :| p in plan.selected && x in p.index;
      var i :| 0 <= i < |plan.selected| && plan.selected[i] == p;
      var checksum := input.selected[i];
      FoundFirst(input.packs, checksum, p);
      assert checksum in input.selected;
    }
    if Chosen(input, x) {
      var checksum, i :| checksum in input.selected && 0 <= i < |input.packs| && input.packs[i].checksum == checksum
                         && (forall j | 0 <= j < i :: input.packs[j].checksum != checksum) && x in input.packs[i].index;
      FoundFirst(input.packs, checksum, input.packs[i]);
      var k :| 0 <= k < |input.selected| && input.selected[k] == checksum;
      assert plan.selected[k] in plan.selected;
    }
  }

  lemma LinesList(walk: PackGroups.GroupRoots -> seq<Line>, roots: PackGroups.GroupRoots, x: Oid)
    ensures x in Oids(GroupLines(walk, roots)) <==> ListedBy(walk, roots, x)
  {
    var lines := GroupLines(walk, roots);
    if x in Oids(lines) {
      var i :| 0 <= i < |lines| && Oids(lines)[i] == x;
      assert lines[i] in walk(roots) && lines[i].oid == x;
    }
    if ListedBy(walk, roots, x) {
      var line :| line in walk(roots) && line.oid == x;
      var i :| 0 <= i < |lines| && lines[i] == line;
      assert Oids(lines)[i] == x;
    }
  }

  /** A plan, however far its steps have come, over the walks of the resolved groups. */
  ghost predicate ConfigPlan(input: Input, c: PackGroups.Config, refs: seq<Ref>, headTarget: string,
                             walk: PackGroups.GroupRoots -> seq<Line>, plan: Plan)
  {
    exists resolved :: PackGroups.AllResolved(c.groups, refs, headTarget, resolved)
                       && (forall n | n in c.names :: n in resolved) && PlanInv(WithWalks(input, c.names, resolved, walk), plan)
  }

  lemma ResolvedAlike(groups: PackGroups.Groups, refs: seq<Ref>, headTarget: string, g: string, a: PackGroups.GroupRoots, b: PackGroups.GroupRoots)
    requires g in groups && PackGroups.ResolvedAs(groups, refs, headTarget, g, a) && PackGroups.ResolvedAs(groups, refs, headTarget, g, b)
    ensures a == b
  {
    hide PackGroups.IsRoot, ReachesPlus;
    assert a.included == b.included && a.excluded == b.excluded && a.dependencies == b.dependencies;
  }

  /** A group is resolved in one way only. */
  lemma ResolvedOnce(groups: PackGroups.Groups, refs: seq<Ref>, headTarget: string,
                     a: map<string, PackGroups.GroupRoots>, b: map<string, PackGroups.GroupRoots>)
    requires PackGroups.AllResolved(groups, refs, headTarget, a) && PackGroups.AllResolved(groups, refs, headTarget, b)
    ensures a == b
  {
    hide PackGroups.ResolvedAs;
    forall n | n in groups
      ensures a[n] == b[n]
    {
      ResolvedAlike(groups, refs, headTarget, n, a[n], b[n]);
    }
  }

  /** Valid names keep the retained family apart from every group. */
  lemma WalksWellFormed(input: Input, c: PackGroups.Config, resolved: map<string, PackGroups.GroupRoots>, walk: PackGroups.GroupRoots -> seq<Line>)
    requires PackGroups.IsConfig(c) && PackGroups.ValidConfig(c) && resolved.Keys == c.groups.Keys
    requires input.store.sizes.Keys == input.store.objects.Keys
    ensures (forall n | n in c.names :: n in resolved) && WellFormed(WithWalks(input, c.names, resolved, walk))
  {
    hide PackGroups.DependenciesAllowed, Acyclic;
    assert forall n | n in c.names :: n in c.groups.Keys;
    var walks := WithWalks(input, c.names, resolved, walk).walks;
    forall w | w in walks
      ensures w.name != RETAINED
    {
      var i :| 0 <= i < |walks| && walks[i] == w;
      assert c.names[i] in c.groups && PackGroups.ValidGroupName(c.names[i]);
    }
  }

  /** The whole planning step: groups are resolved against the refs, walked, and the cut is planned. It is
      refused exactly when the policy or a ref is not valid, or the cut is not accepted. */
  method PlanFromConfig(input: Input, c: PackGroups.Config, refs: seq<Ref>, headTarget: string,
                        walk: PackGroups.GroupRoots -> seq<Line>)
    returns (r: Option<Plan>)
    requires PackGroups.IsConfig(c) && input.store.sizes.Keys == input.store.objects.Keys
    ensures r.Some? <==> ConfigAccepted(input, c, refs, headTarget, walk)
    ensures r.Some? ==> ConfigPlan(input, c, refs, headTarget, walk, r.value) && GroupsPlanned(input, c, refs, headTarget, walk, r.value.families)
    ensures r.Some? ==> r.value.outputs == [] && forall f | f in r.value.families :: !f.completed
  {
    hide Accepted, PlanInv, WellFormed, WithWalks, ConfigAccepted, GroupsPlanned, PackGroups.AllResolved, PackGroups.ValidConfig, PackGroups.ValidRefs;
    var resolution := PackGroups.ResolveGroups(c, refs, headTarget);
    AcceptedIsValid(input, c, refs, headTarget, walk);
    if resolution.InvalidInput? {
      return None;
    }
    var groups := resolution.groups;
    ResolvedKeys(c.groups, refs, headTarget, groups);
    WalksWellFormed(input, c, groups, walk);
    AcceptedFromConfig(input, c, refs, headTarget, groups, walk);
    r := PlanCut(WithWalks(input, c.names, groups, walk));
    if r.Some? {
      PlanIsGroups(input, c, refs, headTarget, groups, walk, r.value);
    }
  }

  lemma AcceptedIsValid(input: Input, c: PackGroups.Config, refs: seq<Ref>, headTarget: string, walk: PackGroups.GroupRoots -> seq<Line>)
    requires PackGroups.IsConfig(c)
    ensures ConfigAccepted(input, c, refs, headTarget, walk) ==> PackGroups.ValidConfig(c) && PackGroups.ValidRefs(refs)
  {
  }

  /** The walk of one group. */
  lemma WalkOf(input: Input, c: PackGroups.Config, resolved: map<string, PackGroups.GroupRoots>, walk: PackGroups.GroupRoots -> seq<Line>, g: string)
    returns (w: GroupWalk)
    requires PackGroups.IsConfig(c) && g in c.groups && forall n | n in c.names :: n in resolved
    ensures g in resolved && w == GroupWalk(g, resolved[g].kind, resolved[g].dependencies, GroupLines(walk, resolved[g]))
    ensures w in WithWalks(input, c.names, resolved, walk).walks
    ensures forall v | v in WithWalks(input, c.names, resolved, walk).walks && v.name == g :: v == w
  {
    assert g in c.groups.Keys;
    var i :| 0 <= i < |c.names| && c.names[i] == g;
    w := WithWalks(input, c.names, resolved, walk).walks[i];
  }

  lemma WalkIsGroup(input: Input, c: PackGroups.Config, resolved: map<string, PackGroups.GroupRoots>, walk: PackGroups.GroupRoots -> seq<Line>, w: GroupWalk)
    requires PackGroups.IsConfig(c) && (forall n | n in c.names :: n in resolved) && w in WithWalks(input, c.names, resolved, walk).walks
    ensures w.name in c.groups && w.name in resolved && w.raw == GroupLines(walk, resolved[w.name])
  {
    var walks := WithWalks(input, c.names, resolved, walk).walks;
    var i :| 0 <= i < |walks| && walks[i] == w;
    assert c.names[i] in c.groups.Keys;
  }

  lemma GroupResolvedIn(c: PackGroups.Config, refs: seq<Ref>, headTarget: string, resolved: map<string, PackGroups.GroupRoots>, g: string, roots: PackGroups.GroupRoots)
    requires PackGroups.AllResolved(c.groups, refs, headTarget, resolved) && g in c.groups
    ensures g in resolved && (PackGroups.ResolvedAs(c.groups, refs, headTarget, g, roots) <==> roots == resolved[g])
  {
    hide PackGroups.ResolvedAs;
    assert g in resolved.Keys && PackGroups.ResolvedAs(c.groups, refs, headTarget, g, resolved[g]);
    if PackGroups.ResolvedAs(c.groups, refs, headTarget, g, roots) {
      ResolvedAlike(c.groups, refs, headTarget, g, roots, resolved[g]);
    }
  }

  lemma AcceptedFromConfig(input: Input, c: PackGroups.Config, refs: seq<Ref>, headTarget: string,
                           resolved: map<string, PackGroups.GroupRoots>, walk: PackGroups.GroupRoots -> seq<Line>)
    requires PackGroups.IsConfig(c) && PackGroups.ValidConfig(c) && PackGroups.ValidRefs(refs)
    requires PackGroups.AllResolved(c.groups, refs, headTarget, resolved) && forall n | n in c.names :: n in resolved
    ensures ConfigAccepted(input, c, refs, headTarget, walk) <==> Accepted(WithWalks(input, c.names, resolved, walk))
  {
    hide PackGroups.AllResolved, PackGroups.ResolvedAs, PackGroups.ValidConfig, PackGroups.ValidRefs, InPacks, ObjectLinks.LinksGood, ListedBy, SelectionValid;
    var full := WithWalks(input, c.names, resolved, walk);
    assert full == input.(walks := full.walks);
    SameSelection(input, full);
    forall g, roots | g in c.groups && PackGroups.ResolvedAs(c.groups, refs, headTarget, g, roots)
      ensures WalksInside(full) ==> forall x | ListedBy(walk, roots, x) :: InPacks(input.packs, x)
    {
      GroupResolvedIn(c, refs, headTarget, resolved, g, roots);
      var w := WalkOf(input, c, resolved, walk, g);
      forall x | ListedBy(walk, roots, x)
        ensures x in Oids(w.raw)
      {
        LinesList(walk, roots, x);
      }
    }
    if ConfigAccepted(input, c, refs, headTarget, walk) {
      forall w, x | w in full.walks && x in Oids(w.raw)
        ensures InPacks(full.packs, x)
      {
        WalkIsGroup(input, c, resolved, walk, w);
        GroupResolvedIn(c, refs, headTarget, resolved, w.name, resolved[w.name]);
        LinesList(walk, resolved[w.name], x);
      }
    }
  }

  lemma SameSelection(input: Input, full: Input)
    requires full == input.(walks := full.walks)
    ensures SelectionValid(input) <==> SelectionValid(full)
    ensures forall x :: Chosen(input, x) <==> Chosen(full, x)
  {
  }

  lemma PlanIsGroups(input: Input, c: PackGroups.Config, refs: seq<Ref>, headTarget: string,
                     resolved: map<string, PackGroups.GroupRoots>, walk: PackGroups.GroupRoots -> seq<Line>, plan: Plan)
    requires PackGroups.IsConfig(c) && PackGroups.AllResolved(c.groups, refs, headTarget, resolved) && forall n | n in c.names :: n in resolved
    requires PlanInv(WithWalks(input, c.names, resolved, walk), plan)
    ensures GroupsPlanned(input, c, refs, headTarget, walk, plan.families)
  {
    hide PackGroups.AllResolved, PackGroups.ResolvedAs, Chosen, ListedBy, InFamilies, WellFormed, FamiliesRight, Progress, InventoryRight, WithWalks, GroupPlanned;
    var full := WithWalks(input, c.names, resolved, walk);
    forall g | g in c.groups
      ensures GroupPlanned(input, c, refs, headTarget, walk, plan.families, g)
    {
      GroupIsPlanned(input, c, refs, headTarget, resolved, walk, plan, g);
    }
    forall f | f in plan.families
      ensures f.group in c.groups || (f.group == RETAINED && f.scope == Scope(None, {}))
      ensures forall x | x in Oids(f.objects) :: x in input.store.objects && f.kind == if input.store.objects[x].Blob? then Blobs else History
    {
      FamilyOfGroup(input, c, resolved, walk, plan, f);
    }
    forall x
      ensures InFamilies(plan.families, RETAINED, x) <==> Chosen(input, x) && Unlisted(c, refs, headTarget, walk, x)
    {
      RetainedIsPlanned(input, c, refs, headTarget, resolved, walk, plan, x);
    }
  }

  /** The families of one group hold what is planned for it. */
  lemma InFamiliesExactly(input: Input, plan: Plan, group: string, x: Oid)
    requires PlanInv(input, plan)
    ensures InFamilies(plan.families, group, x) <==> InShare(input.walks, plan.inventory, group, x)
  {
    hide WellFormed, Progress, InShare, SelectedFrom;
    if f :| f in plan.families && f.group == group && x in Oids(f.objects) {
      assert FamilyRight(input, plan.inventory, f);
      assert Planned(input, plan.inventory, group, f.kind, x);
    }
    if InShare(input.walks, plan.inventory, group, x) {
      assert x in plan.inventory by { ShareIsInventory(input.walks, plan.inventory, group, x); }
      var kind := if input.store.objects[x].Blob? then Blobs else History;
      assert Planned(input, plan.inventory, group, kind, x);
      var f :| f in plan.families && IsFamily(f, group, kind);
      assert FamilyRight(input, plan.inventory, f);
    }
  }

  lemma ShareIsInventory(walks: seq<GroupWalk>, inventory: seq<Oid>, group: string, x: Oid)
    requires InShare(walks, inventory, group, x)
    ensures x in inventory
  {
  }

  lemma GroupIsPlanned(input: Input, c: PackGroups.Config, refs: seq<Ref>, headTarget: string,
                       resolved: map<string, PackGroups.GroupRoots>, walk: PackGroups.GroupRoots -> seq<Line>, plan: Plan, g: string)
    requires PackGroups.IsConfig(c) && PackGroups.AllResolved(c.groups, refs, headTarget, resolved) && forall n | n in c.names :: n in resolved
    requires PlanInv(WithWalks(input, c.names, resolved, walk), plan) && g in c.groups
    ensures GroupPlanned(input, c, refs, headTarget, walk, plan.families, g)
  {
    hide PackGroups.AllResolved, ListedBy, Chosen, FamiliesRight, Progress, InventoryRight, InFamilies, ReachesPlus, PackGroups.IsRoot, WithWalks;
    var full := WithWalks(input, c.names, resolved, walk);
    var w := WalkOf(input, c, resolved, walk, g);
    WalksKept(input, c, resolved, walk);
    SameSelection(input, full);
    GroupResolvedIn(c, refs, headTarget, resolved, g, resolved[g]);
    forall roots, x | PackGroups.ResolvedAs(c.groups, refs, headTarget, g, roots)
      ensures InFamilies(plan.families, g, x) <==> Chosen(input, x) && ListedBy(walk, roots, x)
    {
      GroupResolvedIn(c, refs, headTarget, resolved, g, roots);
      InFamiliesExactly(full, plan, g, x);
      InventoryIsChosen(full, plan, x);
      LinesList(walk, roots, x);
    }
    forall f | f in plan.families && f.group == g
      ensures f.scope == Scope(Some(c.groups[g].kind), resolved[g].dependencies)
    {
      ScopeIsWalks(full, plan, f, w);
    }
  }

  lemma WalksKept(input: Input, c: PackGroups.Config, resolved: map<string, PackGroups.GroupRoots>, walk: PackGroups.GroupRoots -> seq<Line>)
    requires forall n | n in c.names :: n in resolved
    ensures var full := WithWalks(input, c.names, resolved, walk); full == input.(walks := full.walks)
  {
  }

  lemma ScopeIsWalks(input: Input, plan: Plan, f: Family, w: GroupWalk)
    requires PlanInv(input, plan) && f in plan.families && w in input.walks && w.name == f.group
    ensures f.scope == Scope(Some(w.kind), w.dependencies)
  {
    hide Progress, Planned, InventoryRight;
    assert FamilyRight(input, plan.inventory, f);
    var i :| 0 <= i < |input.walks| && input.walks[i] == w;
    ScopeOfWalk(input.walks, i);
  }

  lemma FamilyOfGroup(input: Input, c: PackGroups.Config, resolved: map<string, PackGroups.GroupRoots>,
                      walk: PackGroups.GroupRoots -> seq<Line>, plan: Plan, f: Family)
    requires PackGroups.IsConfig(c) && (forall n | n in c.names :: n in resolved) && f in plan.families
    requires PlanInv(WithWalks(input, c.names, resolved, walk), plan)
    ensures f.group in c.groups || (f.group == RETAINED && f.scope == Scope(None, {}))
    ensures forall x | x in Oids(f.objects) :: x in input.store.objects && f.kind == if input.store.objects[x].Blob? then Blobs else History
  {
    hide Progress, WithWalks, InventoryRight, InSomeWalk;
    var full := WithWalks(input, c.names, resolved, walk);
    WalksKept(input, c, resolved, walk);
    assert FamilyRight(full, plan.inventory, f);
    var x := Oids(f.objects)[0];
    assert x in Oids(f.objects) && Planned(full, plan.inventory, f.group, f.kind, x);
    if f.group == RETAINED {
      NoScope(full.walks, RETAINED);
    } else {
      var w :| w in full.walks && w.name == f.group && x in Oids(w.raw);
      WalkIsGroup(input, c, resolved, walk, w);
    }
  }

  lemma RetainedIsPlanned(input: Input, c: PackGroups.Config, refs: seq<Ref>, headTarget: string,
                          resolved: map<string, PackGroups.GroupRoots>, walk: PackGroups.GroupRoots -> seq<Line>, plan: Plan, x: Oid)
    requires PackGroups.IsConfig(c) && PackGroups.AllResolved(c.groups, refs, headTarget, resolved) && forall n | n in c.names :: n in resolved
    requires PlanInv(WithWalks(input, c.names, resolved, walk), plan)
    ensures InFamilies(plan.families, RETAINED, x) <==> Chosen(input, x) && Unlisted(c, refs, headTarget, walk, x)
  {
    hide PackGroups.AllResolved, PackGroups.ResolvedAs, ListedBy, Chosen, FamiliesRight, Progress, InventoryRight, InFamilies, WithWalks, WellFormed;
    var full := WithWalks(input, c.names, resolved, walk);
    WalksKept(input, c, resolved, walk);
    SameSelection(input, full);
    InFamiliesExactly(full, plan, RETAINED, x);
    InventoryIsChosen(full, plan, x);
    forall g, roots | g in c.groups && PackGroups.ResolvedAs(c.groups, refs, headTarget, g, roots)
      ensures ListedBy(walk, roots, x) ==> InSomeWalk(full.walks, x)
    {
      GroupResolvedIn(c, refs, headTarget, resolved, g, roots);
      var w := WalkOf(input, c, resolved, walk, g);
      LinesList(walk, roots, x);
    }
    if w :| w in full.walks && x in Oids(w.raw) {
      WalkIsGroup(input, c, resolved, walk, w);
      GroupResolvedIn(c, refs, headTarget, resolved, w.name, resolved[w.name]);
      LinesList(walk, resolved[w.name], x);
    }
  }

  lemma ResolvedKeys(groups: PackGroups.Groups, refs: seq<Ref>, headTarget: string, resolved: map<string, PackGroups.GroupRoots>)
    requires PackGroups.AllResolved(groups, refs, headTarget, resolved)
    ensures resolved.Keys == groups.Keys
  {
  }

  lemma SizesKnown(input: Input)
    requires WellFormed(input)
    ensures input.store.sizes.Keys == input.store.objects.Keys
  {
  }

  lemma NoneCompleted(input: Input, inventory: seq<Oid>, lists: seq<Listed>, families: seq<Family>)
    requires FamiliesFor(input, inventory, lists, families)
    ensures forall f | f in families :: !f.completed
  {
  }

  lemma GroupsDistinct(input: Input, lists: seq<Listed>, retained: Listed)
    requires WellFormed(input) && |lists| == |input.walks| && retained.group == RETAINED
    requires forall k | 0 <= k < |lists| :: lists[k].group == input.walks[k].name
    ensures forall i, j | 0 <= i < j < |lists + [retained]| :: (lists + [retained])[i].group != (lists + [retained])[j].group
  {
    assert forall k | 0 <= k < |lists| :: input.walks[k] in input.walks;
  }

  lemma InsideIffNoExtra(input: Input, full: seq<Oid>, extra: seq<Oid>)
    requires forall x :: x in full <==> InSomeWalk(input.walks, x)
    requires forall x :: x in extra <==> x in full && !InPacks(input.packs, x)
    ensures extra == [] <==> WalksInside(input)
  {
    hide InPacks;
    FirstIsMember(extra);
  }

  // ---- crash and resume ----

  ghost predicate SameKey(a: Receipt, b: Receipt) {
    a.group == b.group && a.kind == b.kind
  }

  ghost predicate DistinctReceipts(receipts: seq<Receipt>) {
    forall i, j | 0 <= i < j < |receipts| :: !SameKey(receipts[i], receipts[j])
  }

  /** Exactly the families that a receipt names are complete. */
  ghost predicate CompletedBy(families: seq<Family>, receipts: seq<Receipt>) {
    forall f | f in families :: f.completed <==> exists r :: r in receipts && IsFamily(f, r.group, r.kind)
  }

  lemma CompletedByNext(families: seq<Family>, receipts: seq<Receipt>, i: nat, r: Receipt)
    requires CompletedBy(families, receipts) && i < |families| && IsFamily(families[i], r.group, r.kind)
    requires forall a, b | 0 <= a < b < |families| :: !IsFamily(families[b], families[a].group, families[a].kind)
    ensures CompletedBy(Completed(families, i), receipts + [r])
  {
    var after := Completed(families, i);
    forall f | f in after
      ensures f.completed <==> exists q :: q in receipts + [r] && IsFamily(f, q.group, q.kind)
    {
      var j :| 0 <= j < |after| && after[j] == f;
      assert families[j] in families && r in receipts + [r];
      if j == i {
        assert IsFamily(f, r.group, r.kind);
      } else {
        assert !IsFamily(f, r.group, r.kind) by {
          assert i < j ==> !IsFamily(families[j], families[i].group, families[i].kind);
          assert j < i ==> !IsFamily(families[i], families[j].group, families[j].kind);
        }
        if q :| q in receipts && IsFamily(families[j], q.group, q.kind) {
          assert q in receipts + [r];
        }
      }
    }
  }

  lemma FamilyForReceipt(input: Input, plan: Plan, done: seq<Receipt>, r: Receipt)
    requires PlanInv(input, plan) && CompletedBy(plan.families, done) && ReceiptRight(input, plan.inventory, r)
    ensures NotCompleted(plan.families, r.group, r.kind) <==> forall q | q in done :: !SameKey(q, r)
  {
    hide FamilyRight, Progress, Planned;
    var x :| Planned(input, plan.inventory, r.group, r.kind, x);
    var f :| f in plan.families && IsFamily(f, r.group, r.kind);
  }

  ghost predicate ReceiptsRight(input: Input, inventory: seq<Oid>, receipts: seq<Receipt>) {
    DistinctReceipts(receipts) && forall r | r in receipts :: ReceiptRight(input, inventory, r)
  }

  /** Accepts exactly distinct receipts, each of whose outputs hold exactly what is planned for the
      family it names now; those families and no others are then complete. */
  method ApplyReceipts(ghost input: Input, plan: Plan, receipts: seq<Receipt>) returns (r: Option<Plan>)
    requires PlanInv(input, plan) && CompletedBy(plan.families, [])
    ensures r.Some? <==> ReceiptsRight(input, plan.inventory, receipts)
    ensures r.Some? ==> PlanInv(input, r.value) && CompletedBy(r.value.families, receipts)
  {
    hide PlanInv, CompletedBy, ReceiptRight, NotCompleted;
    var current := plan;
    for i := 0 to |receipts|
      invariant PlanInv(input, current) && CompletedBy(current.families, receipts[..i])
      invariant ReceiptsRight(input, plan.inventory, receipts[..i]) && current.inventory == plan.inventory
    {
      TakeNext(receipts, i);
      ghost var before := current.families;
      if ReceiptRight(input, plan.inventory, receipts[i]) {
        FamilyForReceipt(input, current, receipts[..i], receipts[i]);
      }
      var next := ApplyReceipt(input, current, receipts[i]);
      if next.None? {
        ReceiptRefused(input, plan.inventory, receipts, i);
        return None;
      }
      ghost var at: nat :| at < |before| && IsFamily(before[at], receipts[i].group, receipts[i].kind)
                           && next.value.families == Completed(before, at);
      DistinctFamilies(input, current);
      CompletedByNext(before, receipts[..i], at, receipts[i]);
      current := next.value;
    }
    TakeAll(receipts);
    r := Some(current);
  }

  lemma DistinctFamilies(input: Input, plan: Plan)
    requires PlanInv(input, plan)
    ensures forall a, b | 0 <= a < b < |plan.families| :: !IsFamily(plan.families[b], plan.families[a].group, plan.families[a].kind)
  {
    hide FamilyRight, Progress, Planned;
  }

  lemma ReceiptRefused(input: Input, inventory: seq<Oid>, receipts: seq<Receipt>, i: nat)
    requires i < |receipts|
    requires !ReceiptRight(input, inventory, receipts[i]) || exists q :: q in receipts[..i] && SameKey(q, receipts[i])
    ensures !ReceiptsRight(input, inventory, receipts)
  {
    hide ReceiptRight;
    assert receipts[i] in receipts;
    if q :| q in receipts[..i] && SameKey(q, receipts[i]) {
      var j :| 0 <= j < i && receipts[j] == q;
    }
  }

  /** What is saved of a plan: one receipt for each of some completed families. */
  ghost predicate TakenFrom(plan: Plan, receipts: seq<Receipt>) {
    && DistinctReceipts(receipts)
    && forall r | r in receipts :: r.outputs == OutputsOf(plan.outputs, r.group, r.kind)
                                   && exists f :: f in plan.families && f.completed && IsFamily(f, r.group, r.kind)
  }

  /** Plans again and skips the families with receipts. Whatever was lost in a crash, receipts taken
      from an earlier plan over the same input are never refused, and lead to a plan in which exactly
      their families are complete. */
  method Resume(input: Input, receipts: seq<Receipt>, ghost before: Plan) returns (r: Option<Plan>)
    requires WellFormed(input)
    ensures r.Some? ==> Accepted(input) && PlanInv(input, r.value) && CompletedBy(r.value.families, receipts)
    ensures r.Some? ==> ReceiptsRight(input, r.value.inventory, receipts)
    ensures Accepted(input) && PlanInv(input, before) && TakenFrom(before, receipts) ==> r.Some? && r.value.inventory == before.inventory
  {
    hide WellFormed, Accepted, PlanInv, CompletedBy, ReceiptsRight, TakenFrom;
    var plan := PlanCut(input);
    if plan.None? {
      return None;
    }
    NothingCompleted(plan.value.families);
    if PlanInv(input, before) && TakenFrom(before, receipts) {
      SameInput(input, before, plan.value);
      TakenIsRight(input, before, receipts);
    }
    r := ApplyReceipts(input, plan.value, receipts);
    if r.Some? && PlanInv(input, before) {
      SameInput(input, before, r.value);
    }
    if r.Some? {
      SameInput(input, plan.value, r.value);
    }
  }

  /** The same from the policy and the recorded refs, which are resolved again: receipts taken from an earlier
      plan over the same input, policy and refs are never refused. */
  method ResumeFromConfig(input: Input, c: PackGroups.Config, refs: seq<Ref>, headTarget: string,
                          walk: PackGroups.GroupRoots -> seq<Line>, receipts: seq<Receipt>, ghost before: Plan)
    returns (r: Option<Plan>)
    requires PackGroups.IsConfig(c) && input.store.sizes.Keys == input.store.objects.Keys
    ensures r.Some? ==> ConfigAccepted(input, c, refs, headTarget, walk) && ConfigPlan(input, c, refs, headTarget, walk, r.value)
    ensures r.Some? ==> GroupsPlanned(input, c, refs, headTarget, walk, r.value.families)
    ensures r.Some? ==> CompletedBy(r.value.families, receipts)
    ensures ConfigAccepted(input, c, refs, headTarget, walk) && ConfigPlan(input, c, refs, headTarget, walk, before) && TakenFrom(before, receipts) ==>
              r.Some? && r.value.inventory == before.inventory
  {
    hide WellFormed, Accepted, PlanInv, CompletedBy, ReceiptsRight, TakenFrom, WithWalks, ConfigAccepted, GroupsPlanned,
         PackGroups.AllResolved, PackGroups.ValidConfig, PackGroups.ValidRefs;
    var resolution := PackGroups.ResolveGroups(c, refs, headTarget);
    AcceptedIsValid(input, c, refs, headTarget, walk);
    if resolution.InvalidInput? {
      return None;
    }
    var groups := resolution.groups;
    ResolvedKeys(c.groups, refs, headTarget, groups);
    WalksWellFormed(input, c, groups, walk);
    AcceptedFromConfig(input, c, refs, headTarget, groups, walk);
    forall other | PackGroups.AllResolved(c.groups, refs, headTarget, other)
      ensures other == groups
    {
      ResolvedOnce(c.groups, refs, headTarget, other, groups);
    }
    r := Resume(WithWalks(input, c.names, groups, walk), receipts, before);
    if r.Some? {
      PlanIsGroups(input, c, refs, headTarget, groups, walk, r.value);
    }
  }

  lemma NothingCompleted(families: seq<Family>)
    requires forall f | f in families :: !f.completed
    ensures CompletedBy(families, [])
  {
  }

  lemma SameInput(input: Input, a: Plan, b: Plan)
    requires PlanInv(input, a) && PlanInv(input, b)
    ensures a.inventory == b.inventory
  {
    hide FamiliesRight, Progress;
    assert a.selected == b.selected;
    SameMembersSameList(a.inventory, b.inventory);
  }

  lemma TakenIsRight(input: Input, plan: Plan, receipts: seq<Receipt>)
    requires PlanInv(input, plan) && TakenFrom(plan, receipts)
    ensures ReceiptsRight(input, plan.inventory, receipts)
  {
    hide Fulfils, FamiliesRight, InventoryRight;
    forall r | r in receipts
      ensures ReceiptRight(input, plan.inventory, r)
    {
      var f :| f in plan.families && f.completed && IsFamily(f, r.group, r.kind);
    }
  }

  // ---- why a walk stays inside ----

  /** In an isolated repository, where exactly the committed packs' objects exist, checked links keep
      every walk from recorded refs inside: the plan is never refused for a walk that left. */
  lemma CheckedWalksStayInside(input: Input)
    requires ObjectLinks.LinksGood(input.store, input.budget, Indexes(input.packs), input.refs)
    requires forall o :: o in input.store.objects <==> InPacks(input.packs, o)
    requires forall w | w in input.walks :: forall x | x in Oids(w.raw) ::
               exists root :: root in input.refs && Reaches(Links(input.store.objects), root, x)
    ensures WalksInside(input)
  {
    hide Reaches, ObjectLinks.LinksGood, InPacks;
    var objects := input.store.objects;
    forall o
      ensures o in objects <==> exists index :: index in Indexes(input.packs) && o in index
    {
      IndexedIsInPacks(input.packs, o);
    }
    var roots := set root | root in input.refs;
    ObjectLinks.VerifiedIsClosed(input.store, input.budget, Indexes(input.packs), input.refs, roots);
    forall w, x | w in input.walks && x in Oids(w.raw)
      ensures InPacks(input.packs, x)
    {
      var root :| root in input.refs && Reaches(Links(objects), root, x);
      assert ClosurePresent(objects, objects.Keys, root);
    }
  }

  lemma IndexedIsInPacks(packs: seq<Pack>, o: Oid)
    ensures InPacks(packs, o) <==> exists index :: index in Indexes(packs) && o in index
  {
    if InPacks(packs, o) {
      var p :| p in packs && o in p.index;
      var i :| 0 <= i < |packs| && packs[i] == p;
      assert Indexes(packs)[i] == p.index;
    }
    if index :| index in Indexes(packs) && o in index {
      var i :| 0 <= i < |packs| && Indexes(packs)[i] == index;
      assert packs[i] in packs;
    }
  }

  // ---- a whole cut ----

  /** Plan, every step, finish: refused exactly when the plan is, given a pack writer that writes what
      it is given. What is returned conserves the selected inventory. */
  method Segment(input: Input, writer: seq<Line> -> seq<(string, seq<Oid>)>) returns (r: Option<Plan>)
    requires WellFormed(input)
    requires forall objects | objects != [] :: Written(objects, writer(objects))
    ensures r.Some? <==> Accepted(input)
    ensures r.Some? ==> PlanInv(input, r.value) && AllCompleted(r.value) && Conserves(r.value)
  {
    hide PlanInv, WellFormed, Accepted, Written;
    var first := PlanCut(input);
    if first.None? {
      return None;
    }
    var plan := first.value;
    for i := 0 to |plan.families|
      invariant PlanInv(input, plan) && |plan.families| == |first.value.families|
      invariant forall k | 0 <= k < i :: plan.families[k].completed
    {
      FamilyNotEmpty(input, plan, i);
      var next := Step(input, plan, i, true, Some(writer(plan.families[i].objects)));
      plan := next.value;
    }
    FullyStepped(input, plan);
    FamilyNotEmpty(input, plan, 0);
    var ok := Finish(plan);
    if !ok {
      return None;
    }
    r := Some(plan);
  }

  lemma FamilyNotEmpty(input: Input, plan: Plan, i: nat)
    requires PlanInv(input, plan)
    ensures i < |plan.families| ==> plan.families[i].objects != []
    ensures Ascending(plan.inventory)
  {
    hide Planned, Progress;
    if i < |plan.families| {
      assert plan.families[i] in plan.families;
    }
  }
}
