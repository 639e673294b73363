/** Publishing a repository straight into the bucket: a marker on disk, an upload set and one manifest
    CAS, with crashes between any two steps and other writers of the manifest
    (crates/walgit-cli/src/import_direct.rs:221-245, 360-437, 575-701, 712-832, 837-870). */
module DirectImport {
  import opened Basics
  import opened Manifests
  import opened Seqs

  /** A pack on local disk with the sizes of its files. */
  datatype LocalPack = LocalPack(checksum: string, packSize: nat, idxSize: nat, rev: Option<nat>, bitmap: Option<nat>,
                                 graph: Option<nat>, historyOf: Option<string>)

  /** What is being published; local files do not change while it is. */
  datatype Intent = Intent(repo: string, tips: string, scanned: seq<LocalPack>, historyWanted: bool, built: LocalPack, replace: bool)

  predicate HasHistory(packs: seq<LocalPack>) {
    exists p :: p in packs && p.historyOf.Some?
  }

  /** The scanned packs, and the history pack built or reused when one is wanted and none was scanned. */
  function AllPacks(it: Intent): seq<LocalPack> {
    if it.historyWanted && !HasHistory(it.scanned) then it.scanned + [it.built] else it.scanned
  }

  function ObjectChecksums(it: Intent): set<string> {
    set p | p in it.scanned && p.historyOf.None? :: p.checksum
  }

  ghost predicate IntentOk(it: Intent) {
    && it.scanned != []
    && (forall i, j | 0 <= i < j < |AllPacks(it)| :: AllPacks(it)[i].checksum != AllPacks(it)[j].checksum)
    && (it.historyWanted && !HasHistory(it.scanned) ==> it.built.historyOf == Some(it.scanned[0].checksum))
  }

  function Optional(k: Key, size: Option<nat>): seq<(Key, nat)> {
    if size.Some? then [(k, size.value)] else []
  }

  /** The objects a pack is uploaded as, in upload order. */
  function Files(p: LocalPack): seq<(Key, nat)> {
    [(PackKey(p.checksum), p.packSize), (IdxKey(p.checksum), p.idxSize)]
    + Optional(RevKey(p.checksum), p.rev) + Optional(BitmapKey(p.checksum), p.bitmap) + Optional(GraphKey(p.checksum), p.graph)
  }

  function ChecksumOf(k: Key): string {
    match k
    case PackKey(c) => c
    case IdxKey(c) => c
    case RevKey(c) => c
    case BitmapKey(c) => c
    case GraphKey(c) => c
    case _ => ""
  }

  predicate IsFileKey(k: Key) {
    !k.RefsKey? && !k.CheckpointKey?
  }

  lemma FilesAreDistinct(p: LocalPack)
    ensures forall i, j | 0 <= i < j < |Files(p)| :: Files(p)[i].0 != Files(p)[j].0
    ensures forall i | 0 <= i < |Files(p)| :: IsFileKey(Files(p)[i].0) && ChecksumOf(Files(p)[i].0) == p.checksum
  {
  }

  // ---- marker ----

  datatype Phase = Started | Verified | SideFiles | HistoryPack | Uploaded | CheckpointPrepared

  function Rank(p: Phase): nat {
    match p
    case Started => 0
    case Verified => 1
    case SideFiles => 2
    case HistoryPack => 3
    case Uploaded => 4
    case CheckpointPrepared => 5
  }

  datatype Marker = Marker(repo: string, tips: string, base: Option<nat>, seq_: nat, phase: Phase, uploaded: set<Key>)

  datatype ResumeDecision = Fresh | Resume | Refuse(startedAt: Option<nat>, now: Option<nat>)

  function DecideResume(marker: Option<Marker>, repo: string, tips: string, current: Option<nat>, force: bool): (d: ResumeDecision)
    ensures d == Resume <==> marker.Some? && marker.value.repo == repo && marker.value.tips == tips && marker.value.base == current
    ensures d.Refuse? ==> !force && marker.Some? && d.startedAt == marker.value.base != current == d.now
    ensures force ==> !d.Refuse?
  {
    if marker.None? then Fresh
    else
      var m := marker.value;
      if m.repo != repo || m.tips != tips then Fresh
      else if m.base != current then if force then Fresh else Refuse(m.base, current)
      else Resume
  }

  /** Moves on to a phase unless the marker is already past it. */
  function Reach(m: Marker, p: Phase): Marker {
    if Rank(m.phase) < Rank(p) then m.(phase := p) else m
  }

  // ---- what is published ----

  function FindRef(packs: seq<PackRef>, checksum: string): Option<PackRef> {
    if packs == [] then None else if packs[0].checksum == checksum then Some(packs[0]) else FindRef(packs[1..], checksum)
  }

  lemma {:induction false} FoundRef(packs: seq<PackRef>, checksum: string)
    ensures FindRef(packs, checksum).Some? <==> Live(packs, checksum)
    ensures FindRef(packs, checksum).Some? ==> FindRef(packs, checksum).value in packs && FindRef(packs, checksum).value.checksum == checksum
  {
    if packs != [] {
      FoundRef(packs[1..], checksum);
      assert packs == [packs[0]] + packs[1..];
    }
  }

  function FreshRef(p: LocalPack, at: nat): PackRef {
    PackRef(p.checksum, p.packSize, p.idxSize, p.rev.Some?, p.bitmap.Some?, p.graph.Some?, at,
            if p.historyOf.Some? then History else Objects, if p.historyOf.Some? then p.historyOf.value else "")
  }

  /** An identical pack already committed keeps its classification; its sizes must agree. */
  function RefFor(p: LocalPack, at: nat, committed: seq<PackRef>): Option<PackRef> {
    var previous := FindRef(committed, p.checksum);
    if previous.None? then Some(FreshRef(p, at))
    else if previous.value.packSize != p.packSize || previous.value.idxSize != p.idxSize then None
    else Some(previous.value.(hasRev := previous.value.hasRev || p.rev.Some?,
                              hasBitmap := previous.value.hasBitmap || p.bitmap.Some?,
                              hasGraph := previous.value.hasGraph || p.graph.Some?))
  }

  function RefsFor(packs: seq<LocalPack>, at: nat, committed: seq<PackRef>): Option<seq<PackRef>> {
    if packs == [] then Some([])
    else
      var before := RefsFor(packs[..|packs| - 1], at, committed);
      var last := RefFor(packs[|packs| - 1], at, committed);
      if before.None? || last.None? then None else Some(before.value + [last.value])
  }

  const EMPTY: Manifest := Manifest(0, 0, [], [], None, [], 0, 0)

  function BaseOr(base: Option<Manifest>): Manifest {
    if base.Some? then base.value else EMPTY
  }

  /** The manifest that replaces the base: this pack set, everything else retired, the log folded. */
  function NextManifest(base: Option<Manifest>, refs: seq<PackRef>, at: nat, tips: string, attempt: nat): Manifest {
    var b := BaseOr(base);
    var removed := set p | p in b.packs && !Live(refs, p.checksum) :: p.checksum;
    b.(retired := Retire(b.retired, b.packs, removed, at),
       headSeq := at, minSeq := at + 1,
       checkpoint := Some(Checkpoint(at, CheckpointKey(at, attempt), RefsKey(tips, at))),
       logSegments := [], packs := refs, revision := b.revision + 1)
  }

  /** Every pack served before is still served. */
  lemma StillServes(base: Option<Manifest>, refs: seq<PackRef>, at: nat, tips: string, attempt: nat, c: string)
    requires Serves(BaseOr(base), c)
    ensures Serves(NextManifest(base, refs, at, tips, attempt), c)
  {
    var b := BaseOr(base);
    var removed := set p | p in b.packs && !Live(refs, p.checksum) :: p.checksum;
    RetireIsExact(b.retired, b.packs, removed, at);
    if Live(b.packs, c) && !Live(refs, c) {
      var p :| p in b.packs && p.checksum == c;
      assert c in removed;
    }
  }

  /** The manifest already holds this pack set, and a history pack of it when one is wanted. */
  predicate AlreadyHeld(it: Intent, m: Manifest) {
    && (forall c | c in ObjectChecksums(it) :: Live(m.packs, c))
    && (!it.historyWanted || exists p :: p in m.packs && p.kind == History && p.derivedFrom in ObjectChecksums(it))
    && m.headSeq > 0
  }

  // ---- state ----

  datatype Content = File(size: nat) | Snapshot(tips: string, seq_: nat) | CheckpointBody(seq_: nat, packs: seq<PackRef>)

  /** A bucket: objects, and the manifest's versions, which are never reused. */
  datatype Store = Store(objects: map<Key, Content>, history: map<nat, Manifest>, current: Option<nat>)

  datatype Stage =
    | AtVerify | AtSideFiles | AtHistory
    | AtHead(i: nat)
    | AtFile(i: nat, j: nat, present: set<Key>)
    | AtRecord(i: nat, j: nat, present: set<Key>)
    | AtUploaded
    | AtCandidates(refs: seq<PackRef>, attempt: nat, refsPut: bool, checkpointPut: bool)
    | AtPublish(refs: seq<PackRef>, attempt: nat)
    | AtCleanup

  /** One process: the manifest it read, its copy of the marker, and where it is. */
  datatype Run = Run(base: Option<nat>, manifest: Option<Manifest>, marker: Marker, stage: Stage)

  datatype Publication = Publication(replaced: Option<nat>, version: nat, refs: seq<PackRef>, attempt: nat)

  /** uploads and published record what happened. */
  datatype State = State(store: Store, disk: Option<Marker>, run: Option<Run>, uploads: seq<Key>, published: seq<Publication>)

  datatype Step =
    | Begin(force: bool) | Verify(closed: bool) | MakeSideFiles | MakeHistory | Head | NextFile | Record | FinishUpload(attempt: nat)
    | PutRefs | PutCheckpoint | Prepare | Publish(version: nat) | Cleanup | Crash
    | OtherPublish(version: nat, m: Manifest) | OtherDelete | OtherPut(key: Key, content: Content)

  function CurrentManifest(store: Store): Option<Manifest> {
    if store.current.Some? && store.current.value in store.history then Some(store.history[store.current.value]) else None
  }

  ghost predicate Enabled(it: Intent, s: State, step: Step) {
    match step
    case Begin(_) => s.run.None?
    case Verify(_) => s.run.Some? && s.run.value.stage.AtVerify?
    case MakeSideFiles => s.run.Some? && s.run.value.stage.AtSideFiles?
    case MakeHistory => s.run.Some? && s.run.value.stage.AtHistory?
    case Head => s.run.Some? && s.run.value.stage.AtHead?
    case NextFile => s.run.Some? && s.run.value.stage.AtFile? && s.run.value.stage.i < |AllPacks(it)|
    case Record => s.run.Some? && s.run.value.stage.AtRecord?
    case FinishUpload(_) => s.run.Some? && s.run.value.stage.AtUploaded?
    case PutRefs => s.run.Some? && s.run.value.stage.AtCandidates? && !s.run.value.stage.refsPut
    case PutCheckpoint => s.run.Some? && s.run.value.stage.AtCandidates? && !s.run.value.stage.checkpointPut
    case Prepare => s.run.Some? && s.run.value.stage.AtCandidates? && s.run.value.stage.refsPut && s.run.value.stage.checkpointPut
    case Publish(version) => s.run.Some? && s.run.value.stage.AtPublish? && version !in s.store.history
    case Cleanup => s.run.Some? && s.run.value.stage.AtCleanup?
    case Crash => s.run.Some?
    case OtherPublish(version, m) => version !in s.store.history && forall k | Names(m, k) :: k in s.store.objects
    case OtherDelete => true
    case OtherPut(key, _) => key !in s.store.objects
  }

  function AfterBegin(it: Intent, s: State, force: bool): State {
    var base := s.store.current;
    var m := CurrentManifest(s.store);
    if m.Some? && AlreadyHeld(it, m.value) then s.(disk := None)
    else if m.Some? && m.value.headSeq > 0 && !it.replace then s
    else
      match DecideResume(s.disk, it.repo, it.tips, base, force)
      case Refuse(_, _) => s
      case Resume => s.(run := Some(Run(base, m, s.disk.value, AtVerify)))
      case Fresh =>
        var marker := Marker(it.repo, it.tips, base, BaseOr(m).headSeq + 1, Started, {});
        s.(disk := Some(marker), run := Some(Run(base, m, marker, AtVerify)))
  }

  /** The marker is written whenever a phase is newly reached. */
  function AfterPhase(s: State, r: Run, p: Phase, next: Stage): State {
    var marker := Reach(r.marker, p);
    s.(disk := if marker == r.marker then s.disk else Some(marker), run := Some(r.(marker := marker, stage := next)))
  }

  /** Which of a pack's objects a HEAD of matching size, or the marker, says are there. */
  function Present(store: Store, marker: Marker, files: seq<(Key, nat)>): set<Key> {
    marker.uploaded + set f | f in files && f.0 in store.objects && store.objects[f.0] == File(f.1) :: f.0
  }

  function AfterHead(it: Intent, s: State, r: Run): State
    requires r.stage.AtHead?
  {
    var i := r.stage.i;
    if i < |AllPacks(it)| then
      s.(run := Some(r.(stage := AtFile(i, 0, Present(s.store, r.marker, Files(AllPacks(it)[i]))))))
    else AfterPhase(s, r, Uploaded, AtUploaded)
  }

  function AfterFile(it: Intent, s: State, r: Run): State
    requires r.stage.AtFile? && r.stage.i < |AllPacks(it)|
  {
    var AtFile(i, j, present) := r.stage;
    var files := Files(AllPacks(it)[i]);
    if j >= |files| then s.(run := Some(r.(stage := AtHead(i + 1))))
    else
      var (key, size) := files[j];
      var marker := r.marker.(uploaded := r.marker.uploaded + {key});
      if key in present then s.(run := Some(r.(marker := marker, stage := AtFile(i, j + 1, present))))
      else s.(store := s.store.(objects := s.store.objects[key := File(size)]), uploads := s.uploads + [key],
              run := Some(r.(marker := marker, stage := AtRecord(i, j, present))))
  }

  /** Create an immutable candidate; one that exists must have the same bytes. */
  function AfterPut(s: State, r: Run, key: Key, content: Content, next: Stage): State {
    if key in s.store.objects then
      if s.store.objects[key] == content then s.(run := Some(r.(stage := next))) else s.(run := None)
    else s.(store := s.store.(objects := s.store.objects[key := content]), run := Some(r.(stage := next)))
  }

  function AfterPublish(s: State, r: Run, version: nat): State
    requires r.stage.AtPublish?
  {
    if BaseOr(r.manifest).forgeNextNumber != 0 || s.store.current != r.base then s.(run := None)
    else
      var m := NextManifest(r.manifest, r.stage.refs, r.marker.seq_, r.marker.tips, r.stage.attempt);
      s.(store := s.store.(history := s.store.history[version := m], current := Some(version)),
         published := s.published + [Publication(r.base, version, r.stage.refs, r.stage.attempt)],
         run := Some(r.(stage := AtCleanup)))
  }

  function Next(it: Intent, s: State, step: Step): State
    requires Enabled(it, s, step)
  {
    match step
    case Begin(force) => AfterBegin(it, s, force)
    case Verify(closed) =>
      var r := s.run.value;
      if Rank(r.marker.phase) < Rank(Verified) && !closed then s.(run := None) else AfterPhase(s, r, Verified, AtSideFiles)
    case MakeSideFiles => AfterPhase(s, s.run.value, SideFiles, AtHistory)
    case MakeHistory => AfterPhase(s, s.run.value, HistoryPack, AtHead(0))
    case Head => AfterHead(it, s, s.run.value)
    case NextFile => AfterFile(it, s, s.run.value)
    case Record =>
      var r := s.run.value;
      s.(disk := Some(r.marker), run := Some(r.(stage := AtFile(r.stage.i, r.stage.j + 1, r.stage.present))))
    case FinishUpload(attempt) =>
      var r := s.run.value;
      var refs := RefsFor(AllPacks(it), r.marker.seq_, BaseOr(r.manifest).packs);
      if refs.None? then s.(run := None) else s.(run := Some(r.(stage := AtCandidates(refs.value, attempt, false, false))))
    case PutRefs =>
      var r := s.run.value;
      AfterPut(s, r, RefsKey(r.marker.tips, r.marker.seq_), Snapshot(r.marker.tips, r.marker.seq_), r.stage.(refsPut := true))
    case PutCheckpoint =>
      var r := s.run.value;
      AfterPut(s, r, CheckpointKey(r.marker.seq_, r.stage.attempt), CheckpointBody(r.marker.seq_, r.stage.refs), r.stage.(checkpointPut := true))
    case Prepare =>
      var r := s.run.value;
      var marker := r.marker.(phase := CheckpointPrepared);
      s.(disk := Some(marker), run := Some(r.(marker := marker, stage := AtPublish(r.stage.refs, r.stage.attempt))))
    case Publish(version) => AfterPublish(s, s.run.value, version)
    case Cleanup => s.(disk := None, run := None)
    case Crash => s.(run := None)
    case OtherPublish(version, m) => s.(store := s.store.(history := s.store.history[version := m], current := Some(version)))
    case OtherDelete => s.(store := s.store.(current := None))
    case OtherPut(key, content) => s.(store := s.store.(objects := s.store.objects[key := content]))
  }

  // ---- invariant ----

  ghost predicate Stored(store: Store, m: Manifest) {
    forall k | Names(m, k) :: k in store.objects
  }

  /** Every version of the manifest names only objects that are in the store. */
  ghost predicate StoreInv(store: Store) {
    && (store.current.Some? ==> store.current.value in store.history)
    && (forall v | v in store.history :: Stored(store, store.history[v]))
  }

  /** The number a version has in the log. */
  ghost predicate SeqFollows(store: Store, base: Option<nat>, at: nat) {
    if base.None? then at == 1 else base.value in store.history && at == store.history[base.value].headSeq + 1
  }

  ghost predicate MarkerInv(store: Store, m: Marker) {
    m.uploaded <= store.objects.Keys && SeqFollows(store, m.base, m.seq_)
  }

  ghost predicate BaseKnown(store: Store, base: Option<nat>, m: Option<Manifest>) {
    if base.None? then m.None? else base.value in store.history && m == Some(store.history[base.value])
  }

  /** The first n files of a pack are in the store. */
  ghost predicate FilesStored(store: Store, p: LocalPack, n: nat) {
    forall j | 0 <= j < n && j < |Files(p)| :: Files(p)[j].0 in store.objects
  }

  ghost predicate PacksStored(store: Store, packs: seq<LocalPack>, n: nat) {
    forall i | 0 <= i < n && i < |packs| :: FilesStored(store, packs[i], |Files(packs[i])|)
  }

  /** Of the files still to come, none was uploaded before without being recognised as present. */
  ghost predicate PresentKnown(s: State, p: LocalPack, j: nat, present: set<Key>) {
    present <= s.store.objects.Keys && forall k | j <= k < |Files(p)| && Files(p)[k].0 in s.uploads :: Files(p)[k].0 in present
  }

  ghost predicate RefsRight(it: Intent, s: State, r: Run, refs: seq<PackRef>) {
    RefsFor(AllPacks(it), r.marker.seq_, BaseOr(r.manifest).packs) == Some(refs) && PacksStored(s.store, AllPacks(it), |AllPacks(it)|)
  }

  ghost predicate Holds(store: Store, key: Key, content: Content) {
    key in store.objects && store.objects[key] == content
  }

  ghost predicate StageInv(it: Intent, s: State, r: Run) {
    var packs := AllPacks(it);
    match r.stage
    case AtHead(i) => i <= |packs| && PacksStored(s.store, packs, i)
    case AtFile(i, j, present) =>
      i < |packs| && j <= |Files(packs[i])| && PacksStored(s.store, packs, i)
      && FilesStored(s.store, packs[i], j) && PresentKnown(s, packs[i], j, present)
    case AtRecord(i, j, present) =>
      i < |packs| && j < |Files(packs[i])| && PacksStored(s.store, packs, i)
      && FilesStored(s.store, packs[i], j + 1) && PresentKnown(s, packs[i], j + 1, present)
    case AtUploaded => PacksStored(s.store, packs, |packs|)
    case AtCandidates(refs, attempt, refsPut, checkpointPut) =>
      RefsRight(it, s, r, refs)
      && (refsPut ==> Holds(s.store, RefsKey(r.marker.tips, r.marker.seq_), Snapshot(r.marker.tips, r.marker.seq_)))
      && (checkpointPut ==> Holds(s.store, CheckpointKey(r.marker.seq_, attempt), CheckpointBody(r.marker.seq_, refs)))
    case AtPublish(refs, attempt) =>
      RefsRight(it, s, r, refs) && Holds(s.store, RefsKey(r.marker.tips, r.marker.seq_), Snapshot(r.marker.tips, r.marker.seq_))
      && Holds(s.store, CheckpointKey(r.marker.seq_, attempt), CheckpointBody(r.marker.seq_, refs))
    case _ => true
  }

  ghost predicate RunInv(it: Intent, s: State) {
    s.run.Some? ==>
      && MarkerInv(s.store, s.run.value.marker) && s.run.value.marker.base == s.run.value.base
      && s.run.value.marker.tips == it.tips
      && BaseKnown(s.store, s.run.value.base, s.run.value.manifest) && StageInv(it, s, s.run.value)
  }

  ghost predicate DistinctKeys(keys: seq<Key>) {
    forall i, j | 0 <= i < j < |keys| :: keys[i] != keys[j]
  }

  /** No key was uploaded twice, and what was uploaded is there with its local size. */
  ghost predicate UploadsInv(it: Intent, s: State) {
    && DistinctKeys(s.uploads)
    && (forall i, j | 0 <= i < |AllPacks(it)| && 0 <= j < |Files(AllPacks(it)[i])| && Files(AllPacks(it)[i])[j].0 in s.uploads ::
          Files(AllPacks(it)[i])[j].0 in s.store.objects
          && s.store.objects[Files(AllPacks(it)[i])[j].0] == File(Files(AllPacks(it)[i])[j].1))
  }

  ghost function ManifestAt(store: Store, base: Option<nat>): Option<Manifest> {
    if base.Some? && base.value in store.history then Some(store.history[base.value]) else None
  }

  /** A manifest's entry for a pack: its own sizes, side files and origin, or those of the first entry
      committed under its checksum, with the side files of both. */
  ghost predicate Entered(p: LocalPack, at: nat, committed: seq<PackRef>, r: PackRef) {
    && r.checksum == p.checksum && r.packSize == p.packSize && r.idxSize == p.idxSize
    && ((forall q | q in committed :: q.checksum != p.checksum) ==>
          && (r.hasRev <==> p.rev.Some?) && (r.hasBitmap <==> p.bitmap.Some?) && (r.hasGraph <==> p.graph.Some?)
          && r.seq_ == at && r.kind == (if p.historyOf.Some? then History else Objects)
          && r.derivedFrom == if p.historyOf.Some? then p.historyOf.value else "")
    && (forall i | 0 <= i < |committed| && committed[i].checksum == p.checksum && (forall j | 0 <= j < i :: committed[j].checksum != p.checksum) ::
          && (r.hasRev <==> committed[i].hasRev || p.rev.Some?) && (r.hasBitmap <==> committed[i].hasBitmap || p.bitmap.Some?)
          && (r.hasGraph <==> committed[i].hasGraph || p.graph.Some?)
          && r.seq_ == committed[i].seq_ && r.kind == committed[i].kind && r.derivedFrom == committed[i].derivedFrom)
  }

  /** The packs an import publishes, in order. */
  ghost predicate Imports(it: Intent, packs: seq<LocalPack>) {
    packs == if it.historyWanted && forall p | p in it.scanned :: p.historyOf.None? then it.scanned + [it.built] else it.scanned
  }

  /** What a published manifest says, field by field: the next number, its checkpoint and refs snapshot under
      keys that hold exactly those bodies, an empty log, the imported packs, and what it replaced retired. */
  ghost predicate PublishedAs(it: Intent, store: Store, base: Option<Manifest>, m: Manifest) {
    && m.headSeq == (if base.Some? then base.value.headSeq else 0) + 1 && m.minSeq == m.headSeq + 1 && m.logSegments == []
    && m.revision == (if base.Some? then base.value.revision else 0) + 1
    && m.forgeNextNumber == 0 && (base.Some? ==> base.value.forgeNextNumber == 0)
    && m.checkpoint.Some? && m.checkpoint.value.seq_ == m.headSeq
    && m.checkpoint.value.key.CheckpointKey? && Holds(store, m.checkpoint.value.key, CheckpointBody(m.headSeq, m.packs))
    && m.checkpoint.value.refsKey.RefsKey? && Holds(store, m.checkpoint.value.refsKey, Snapshot(it.tips, m.headSeq))
    && (exists packs :: Imports(it, packs) && |m.packs| == |packs|
          && forall i | 0 <= i < |packs| :: Entered(packs[i], m.headSeq, if base.Some? then base.value.packs else [], m.packs[i]))
    && RetiredFrom(if base.Some? then base.value.retired else [], if base.Some? then base.value.packs else [], m)
  }

  /** Earlier retirements stay, in order; those added are of packs that were live and no longer are, each of them
      once unless it was recorded before, at the new number. */
  ghost predicate RetiredFrom(before: seq<Retired>, packs: seq<PackRef>, m: Manifest) {
    && before <= m.retired
    && (forall i | |before| <= i < |m.retired| :: m.retired[i].seq_ == m.headSeq
          && (exists p :: p in packs && p.checksum == m.retired[i].checksum) && (forall p | p in m.packs :: p.checksum != m.retired[i].checksum)
          && forall j | 0 <= j < i :: m.retired[j].checksum != m.retired[i].checksum)
    && (forall p | p in packs && (forall q | q in m.packs :: q.checksum != p.checksum) :: exists r :: r in m.retired && r.checksum == p.checksum)
  }

  /** A publication is derived from the version it replaced, one number after it. */
  ghost predicate PublicationRight(it: Intent, store: Store, p: Publication) {
    && p.version in store.history && (p.replaced.Some? ==> p.replaced.value in store.history)
    && var base := ManifestAt(store, p.replaced);
       store.history[p.version] == NextManifest(base, p.refs, BaseOr(base).headSeq + 1, it.tips, p.attempt)
       && PublishedAs(it, store, base, store.history[p.version])
  }

  ghost predicate Inv(it: Intent, s: State) {
    && StoreInv(s.store) && (s.disk.Some? ==> MarkerInv(s.store, s.disk.value))
    && RunInv(it, s) && UploadsInv(it, s)
    && forall p | p in s.published :: PublicationRight(it, s.store, p)
  }

  // ---- the store only grows ----

  ghost predicate Grows(a: Store, b: Store) {
    && a.objects.Keys <= b.objects.Keys && a.history.Keys <= b.history.Keys
    && (forall v | v in a.history :: b.history[v] == a.history[v])
    && (forall k | k in a.objects && !IsFileKey(k) :: b.objects[k] == a.objects[k])
  }

  lemma StoreGrows(it: Intent, s: State, step: Step)
    requires Enabled(it, s, step)
    ensures Grows(s.store, Next(it, s, step).store)
  {
    hide Files, RefsFor, NextManifest, AlreadyHeld, IsFileKey;
    if step.NextFile? && s.run.value.stage.j < |Files(AllPacks(it)[s.run.value.stage.i])| {
      FileKeys(AllPacks(it)[s.run.value.stage.i], s.run.value.stage.j);
    }
  }

  lemma MarkerGrows(a: Store, b: Store, m: Marker)
    requires Grows(a, b) && MarkerInv(a, m)
    ensures MarkerInv(b, m)
  {
  }

  lemma PacksStoredGrows(a: Store, b: Store, packs: seq<LocalPack>, n: nat)
    requires Grows(a, b) && PacksStored(a, packs, n)
    ensures PacksStored(b, packs, n)
  {
    hide Files;
    forall i | 0 <= i < n && i < |packs|
      ensures FilesStored(b, packs[i], |Files(packs[i])|)
    {
      assert FilesStored(a, packs[i], |Files(packs[i])|);
    }
  }

  /** Whatever else happens, a stage's facts survive the store growing while uploads stay the same. */
  lemma StageGrows(it: Intent, s: State, t: State, r: Run)
    requires Grows(s.store, t.store) && s.uploads == t.uploads && StageInv(it, s, r)
    ensures StageInv(it, t, r)
  {
    hide Files, RefsFor, PacksStored;
    forall n: nat | PacksStored(s.store, AllPacks(it), n)
      ensures PacksStored(t.store, AllPacks(it), n)
    {
      PacksStoredGrows(s.store, t.store, AllPacks(it), n);
    }
  }

  // ---- step by step ----

  lemma StoreInvKept(a: Store, b: Store)
    requires StoreInv(a) && Grows(a, b) && a.history == b.history && (b.current == a.current || b.current.None?)
    ensures StoreInv(b)
  {
    hide Names;
    forall v | v in b.history
      ensures Stored(b, b.history[v])
    {
      assert Stored(a, a.history[v]);
    }
  }

  lemma StoreInvExtended(a: Store, version: nat, m: Manifest)
    requires StoreInv(a) && version !in a.history && Stored(a, m)
    ensures StoreInv(a.(history := a.history[version := m], current := Some(version)))
  {
    hide Names;
    var b := a.(history := a.history[version := m], current := Some(version));
    forall v | v in b.history
      ensures Stored(b, b.history[v])
    {
      assert Stored(a, b.history[v]) by {
        if v != version {
          assert Stored(a, a.history[v]);
        }
      }
    }
  }

  lemma PublicationsKept(it: Intent, a: Store, b: Store, p: Publication)
    requires Grows(a, b) && PublicationRight(it, a, p)
    ensures PublicationRight(it, b, p)
  {
    hide NextManifest, PublishedAs;
    PublishedStays(it, a, b, ManifestAt(a, p.replaced), a.history[p.version]);
  }

  lemma PublishedStays(it: Intent, a: Store, b: Store, base: Option<Manifest>, m: Manifest)
    requires Grows(a, b) && PublishedAs(it, a, base, m)
    ensures PublishedAs(it, b, base, m)
  {
    hide Entered, Imports, RetiredFrom;
  }

  /** Files are told apart by their keys. */
  lemma KeysAreDistinct(it: Intent, i: nat, j: nat, i': nat, j': nat)
    requires IntentOk(it) && i < |AllPacks(it)| && i' < |AllPacks(it)| && j < |Files(AllPacks(it)[i])| && j' < |Files(AllPacks(it)[i'])|
    requires Files(AllPacks(it)[i])[j].0 == Files(AllPacks(it)[i'])[j'].0
    ensures i == i' && j == j'
  {
    hide Files;
    FilesAreDistinct(AllPacks(it)[i]);
    FilesAreDistinct(AllPacks(it)[i']);
    assert !(i < i') && !(i' < i);
  }

  lemma FileKeys(p: LocalPack, j: nat)
    requires j < |Files(p)|
    ensures IsFileKey(Files(p)[j].0)
  {
    FilesAreDistinct(p);
  }

  /** Putting an object under a key that held nothing disturbs no upload. */
  lemma UploadsKept(it: Intent, s: State, t: State)
    requires UploadsInv(it, s) && t.uploads == s.uploads && Grows(s.store, t.store)
    requires forall k | k in s.store.objects :: t.store.objects[k] == s.store.objects[k]
    ensures UploadsInv(it, t)
  {
    hide Files, DistinctKeys;
  }

  lemma UploadsExtended(it: Intent, s: State, t: State, i: nat, j: nat)
    requires IntentOk(it) && UploadsInv(it, s) && i < |AllPacks(it)| && j < |Files(AllPacks(it)[i])|
    requires Files(AllPacks(it)[i])[j].0 !in s.uploads && t.uploads == s.uploads + [Files(AllPacks(it)[i])[j].0]
    requires t.store == s.store.(objects := s.store.objects[Files(AllPacks(it)[i])[j].0 := File(Files(AllPacks(it)[i])[j].1)])
    ensures UploadsInv(it, t)
  {
    hide Files;
    var packs := AllPacks(it);
    forall i', j' | 0 <= i' < |packs| && 0 <= j' < |Files(packs[i'])| && Files(packs[i'])[j'].0 in t.uploads
      ensures Files(packs[i'])[j'].0 in t.store.objects
              && t.store.objects[Files(packs[i'])[j'].0] == File(Files(packs[i'])[j'].1)
    {
      if Files(packs[i'])[j'].0 == Files(packs[i])[j].0 {
        KeysAreDistinct(it, i, j, i', j');
      }
    }
  }

  /** The HEADs of a pack find every file of it that was ever uploaded. */
  lemma HeadFindsUploads(it: Intent, s: State, r: Run, i: nat)
    requires UploadsInv(it, s) && MarkerInv(s.store, r.marker) && i < |AllPacks(it)|
    ensures PresentKnown(s, AllPacks(it)[i], 0, Present(s.store, r.marker, Files(AllPacks(it)[i])))
  {
    hide Files;
    var files := Files(AllPacks(it)[i]);
    var present := Present(s.store, r.marker, files);
    forall k | 0 <= k < |files| && files[k].0 in s.uploads
      ensures files[k].0 in present
    {
      assert files[k] in files;
    }
  }

  lemma UploadStage(it: Intent, s: State, t: State, i: nat, j: nat, present: set<Key>)
    requires IntentOk(it) && s.run.Some? && StageInv(it, s, s.run.value) && s.run.value.stage == AtFile(i, j, present)
    requires j < |Files(AllPacks(it)[i])| && Grows(s.store, t.store)
    requires t.uploads == s.uploads + [Files(AllPacks(it)[i])[j].0] && Files(AllPacks(it)[i])[j].0 in t.store.objects
    ensures PacksStored(t.store, AllPacks(it), i) && FilesStored(t.store, AllPacks(it)[i], j + 1)
    ensures PresentKnown(t, AllPacks(it)[i], j + 1, present)
  {
    hide Files, PacksStored;
    var p := AllPacks(it)[i];
    PacksStoredGrows(s.store, t.store, AllPacks(it), i);
    FilesAreDistinct(p);
    forall k | j + 1 <= k < |Files(p)| && Files(p)[k].0 in t.uploads
      ensures Files(p)[k].0 in present
    {
      assert Files(p)[k].0 != Files(p)[j].0;
    }
  }

  lemma NextFileKeeps(it: Intent, s: State)
    requires IntentOk(it) && Inv(it, s) && Enabled(it, s, NextFile)
    ensures RunInv(it, Next(it, s, NextFile)) && UploadsInv(it, Next(it, s, NextFile))
  {
    hide Files, StoreInv, PublicationRight, PacksStored, UploadsInv, BaseKnown;
    var t := Next(it, s, NextFile);
    StoreGrows(it, s, NextFile);
    var r := s.run.value;
    var AtFile(i, j, present) := r.stage;
    var packs := AllPacks(it);
    BaseKept(s.store, t.store, r.base, r.manifest);
    MarkerGrows(s.store, t.store, r.marker);
    if j >= |Files(packs[i])| {
      OnePackMore(s.store, packs, i);
      UploadsKept(it, s, t);
    } else if Files(packs[i])[j].0 in present {
      UploadsKept(it, s, t);
    } else {
      assert Files(packs[i])[j].0 !in s.uploads;
      UploadsExtended(it, s, t, i, j);
      UploadStage(it, s, t, i, j, present);
    }
  }

  lemma BaseKept(a: Store, b: Store, base: Option<nat>, m: Option<Manifest>)
    requires Grows(a, b) && BaseKnown(a, base, m)
    ensures BaseKnown(b, base, m)
  {
  }

  lemma OnePackMore(store: Store, packs: seq<LocalPack>, i: nat)
    requires i < |packs| && PacksStored(store, packs, i) && FilesStored(store, packs[i], |Files(packs[i])|)
    ensures PacksStored(store, packs, i + 1)
  {
    hide Files;
  }

  lemma BeginKeeps(it: Intent, s: State, force: bool)
    requires IntentOk(it) && Inv(it, s) && Enabled(it, s, Begin(force))
    ensures Inv(it, Next(it, s, Begin(force)))
  {
    hide PublicationRight, UploadsInv, StoreInv, AlreadyHeld, Files, MarkerInv;
    var t := Next(it, s, Begin(force));
    UploadsKept(it, s, t);
    BeginMarker(it, s, force);
  }

  lemma BeginMarker(it: Intent, s: State, force: bool)
    requires Inv(it, s) && Enabled(it, s, Begin(force))
    ensures Next(it, s, Begin(force)).store == s.store && Next(it, s, Begin(force)).published == s.published
    ensures Next(it, s, Begin(force)).disk.Some? ==> MarkerInv(s.store, Next(it, s, Begin(force)).disk.value)
    ensures RunInv(it, Next(it, s, Begin(force)))
  {
    hide PublicationRight, UploadsInv, Stored, AlreadyHeld, Files;
  }

  // ---- what a publication names ----

  lemma {:induction false} RefsNameFiles(packs: seq<LocalPack>, at: nat, committed: seq<PackRef>, refs: seq<PackRef>, ref: PackRef) returns (p: LocalPack)
    requires RefsFor(packs, at, committed) == Some(refs) && ref in refs
    ensures p in packs && RefFor(p, at, committed) == Some(ref)
    decreases |packs|
  {
    var n := |packs| - 1;
    p := packs[n];
    var before := RefsFor(packs[..n], at, committed).value;
    if RefFor(p, at, committed) != Some(ref) {
      assert ref in before;
      p := RefsNameFiles(packs[..n], at, committed, before, ref);
    }
  }

  lemma RefNamesStored(store: Store, p: LocalPack, at: nat, base: Option<Manifest>, ref: PackRef, k: Key)
    requires RefFor(p, at, BaseOr(base).packs) == Some(ref) && NamesFile(ref, k)
    requires FilesStored(store, p, |Files(p)|) && (base.Some? ==> Stored(store, base.value))
    ensures k in store.objects
  {
    var previous := FindRef(BaseOr(base).packs, p.checksum);
    FoundRef(BaseOr(base).packs, p.checksum);
    if previous.Some? && NamesFile(previous.value, k) {
      assert Names(base.value, k);
    } else {
      assert NamesFile(FreshRef(p, at), k);
      FreshNames(p, at, k);
    }
  }

  /** A fresh reference names exactly the files there are. */
  lemma FreshNames(p: LocalPack, at: nat, k: Key)
    requires NamesFile(FreshRef(p, at), k)
    ensures exists j :: 0 <= j < |Files(p)| && Files(p)[j].0 == k
  {
    var head := [(PackKey(p.checksum), p.packSize), (IdxKey(p.checksum), p.idxSize)];
    var rev := Optional(RevKey(p.checksum), p.rev);
    var bitmap := Optional(BitmapKey(p.checksum), p.bitmap);
    var n := if k.PackKey? then 0 else if k.IdxKey? then 1 else if k.RevKey? then 2
             else if k.BitmapKey? then 2 + |rev| else 2 + |rev| + |bitmap|;
    assert 0 <= n < |Files(p)| && Files(p)[n].0 == k;
  }

  lemma PublishedIsStored(it: Intent, s: State, r: Run, refs: seq<PackRef>, attempt: nat)
    requires StoreInv(s.store) && BaseKnown(s.store, r.base, r.manifest) && RefsRight(it, s, r, refs)
    requires RefsKey(r.marker.tips, r.marker.seq_) in s.store.objects && CheckpointKey(r.marker.seq_, attempt) in s.store.objects
    ensures Stored(s.store, NextManifest(r.manifest, refs, r.marker.seq_, r.marker.tips, attempt))
  {
    hide Files, RefFor, NamesFile, RefsFor, Retire;
    var m := NextManifest(r.manifest, refs, r.marker.seq_, r.marker.tips, attempt);
    forall k | Names(m, k)
      ensures k in s.store.objects
    {
      if ref :| ref in m.packs && NamesFile(ref, k) {
        var p := RefsNameFiles(AllPacks(it), r.marker.seq_, BaseOr(r.manifest).packs, refs, ref);
        var i :| 0 <= i < |AllPacks(it)| && AllPacks(it)[i] == p;
        assert FilesStored(s.store, AllPacks(it)[i], |Files(AllPacks(it)[i])|);
        RefNamesStored(s.store, p, r.marker.seq_, r.manifest, ref, k);
      }
    }
  }

  // ---- every step keeps the invariant ----

  lemma StoreKept(it: Intent, s: State, step: Step)
    requires Inv(it, s) && Enabled(it, s, step)
    ensures StoreInv(Next(it, s, step).store)
  {
    hide Files, RefsFor, NextManifest, AlreadyHeld, Stored, UploadsInv, PublicationRight, PacksStored, RefsRight, StoreInv, MarkerInv, BaseKnown, Names;
    StoreGrows(it, s, step);
    var t := Next(it, s, step);
    match step {
    case Publish(version) =>
      var r := s.run.value;
      PublishedIsStored(it, s, r, r.stage.refs, r.stage.attempt);
      StoreInvExtended(s.store, version, NextManifest(r.manifest, r.stage.refs, r.marker.seq_, r.marker.tips, r.stage.attempt));
    case OtherPublish(version, m) =>
      StoredByRule(s.store, m);
      StoreInvExtended(s.store, version, m);
    case _ =>
      StoreInvKept(s.store, t.store);
    }
  }

  lemma StoredByRule(store: Store, m: Manifest)
    requires forall k | Names(m, k) :: k in store.objects
    ensures Stored(store, m)
  {
    hide Names;
  }

  lemma MarkersKept(it: Intent, s: State, step: Step)
    requires Inv(it, s) && Enabled(it, s, step) && !step.Begin?
    ensures Next(it, s, step).disk.Some? ==> MarkerInv(Next(it, s, step).store, Next(it, s, step).disk.value)
  {
    hide Files, RefsFor, NextManifest, AlreadyHeld, StoreInv, UploadsInv, PublicationRight, StageInv, BaseKnown;
    StoreGrows(it, s, step);
    var t := Next(it, s, step);
    if s.run.Some? {
      MarkerGrows(s.store, t.store, s.run.value.marker);
    }
    if s.disk.Some? {
      MarkerGrows(s.store, t.store, s.disk.value);
    }
  }

  lemma RunKept(it: Intent, s: State, step: Step)
    requires IntentOk(it) && Inv(it, s) && Enabled(it, s, step) && !step.Begin? && !step.NextFile?
    ensures RunInv(it, Next(it, s, step))
  {
    hide Files, RefsFor, NextManifest, AlreadyHeld, StoreInv, UploadsInv, PublicationRight, StageInv, MarkerInv, BaseKnown;
    StoreGrows(it, s, step);
    var t := Next(it, s, step);
    if s.run.Some? && t.run.Some? {
      MarkerGrows(s.store, t.store, s.run.value.marker);
      BaseKept(s.store, t.store, s.run.value.base, s.run.value.manifest);
      StageKept(it, s, step);
      ReachKeepsMarker(t.store, s.run.value.marker, t.run.value.marker);
    }
  }

  lemma ReachKeepsMarker(store: Store, a: Marker, b: Marker)
    requires MarkerInv(store, a) && b == a.(phase := b.phase)
    ensures MarkerInv(store, b)
  {
  }

  lemma StageKept(it: Intent, s: State, step: Step)
    requires IntentOk(it) && Inv(it, s) && Enabled(it, s, step) && !step.Begin? && !step.NextFile?
    requires s.run.Some? && Next(it, s, step).run.Some?
    ensures StageInv(it, Next(it, s, step), Next(it, s, step).run.value)
  {
    hide Files, RefsFor, NextManifest, AlreadyHeld, StoreInv, UploadsInv, PublicationRight, MarkerInv, BaseKnown, PacksStored, FilesStored, PresentKnown;
    StoreGrows(it, s, step);
    var t := Next(it, s, step);
    var r := s.run.value;
    StageGrows(it, s, t, r);
    match step {
    case MakeHistory =>
      NoPacksStored(t.store, AllPacks(it));
    case Head =>
      if r.stage.i < |AllPacks(it)| {
        HeadFindsUploads(it, s, r, r.stage.i);
        NoFilesStored(t.store, AllPacks(it)[r.stage.i]);
        PresentSame(s, t, AllPacks(it)[r.stage.i], Present(s.store, r.marker, Files(AllPacks(it)[r.stage.i])));
      }
    case _ =>
    }
  }

  lemma NoPacksStored(store: Store, packs: seq<LocalPack>)
    ensures PacksStored(store, packs, 0)
  {
  }

  lemma NoFilesStored(store: Store, p: LocalPack)
    ensures FilesStored(store, p, 0)
  {
  }

  lemma PresentSame(s: State, t: State, p: LocalPack, present: set<Key>)
    requires PresentKnown(s, p, 0, present) && s.store == t.store && s.uploads == t.uploads
    ensures PresentKnown(t, p, 0, present)
  {
    hide Files;
  }

  lemma UploadsStayRight(it: Intent, s: State, step: Step)
    requires Inv(it, s) && Enabled(it, s, step) && !step.NextFile?
    ensures UploadsInv(it, Next(it, s, step))
  {
    hide Files, RefsFor, NextManifest, AlreadyHeld, StoreInv, UploadsInv, PublicationRight, MarkerInv, BaseKnown, StageInv;
    StoreGrows(it, s, step);
    UploadsKept(it, s, Next(it, s, step));
  }

  lemma PublishedStaysRight(it: Intent, s: State, step: Step)
    requires Inv(it, s) && Enabled(it, s, step)
    ensures forall p | p in Next(it, s, step).published :: PublicationRight(it, Next(it, s, step).store, p)
  {
    hide Files, RefsFor, NextManifest, AlreadyHeld, StoreInv, UploadsInv, PublicationRight, RefsRight, PacksStored;
    StoreGrows(it, s, step);
    var t := Next(it, s, step);
    forall p | p in s.published
      ensures PublicationRight(it, t.store, p)
    {
      PublicationsKept(it, s.store, t.store, p);
    }
    if step.Publish? && t.published != s.published {
      NewPublication(it, s, t, step.version);
    }
  }

  lemma {:induction false} RefsForEach(packs: seq<LocalPack>, at: nat, committed: seq<PackRef>, refs: seq<PackRef>)
    requires RefsFor(packs, at, committed) == Some(refs)
    ensures |refs| == |packs| && forall i | 0 <= i < |packs| :: Entered(packs[i], at, committed, refs[i])
    decreases |packs|
  {
    hide Entered, RefFor;
    if packs != [] {
      var n := |packs| - 1;
      RefsForEach(packs[..n], at, committed, RefsFor(packs[..n], at, committed).value);
      RefIsEntered(packs[n], at, committed);
    }
  }

  lemma RefIsEntered(p: LocalPack, at: nat, committed: seq<PackRef>)
    requires RefFor(p, at, committed).Some?
    ensures Entered(p, at, committed, RefFor(p, at, committed).value)
  {
    hide FindRef;
    FoundRef(committed, p.checksum);
    forall i | 0 <= i < |committed| && committed[i].checksum == p.checksum && (forall j | 0 <= j < i :: committed[j].checksum != p.checksum)
      ensures FindRef(committed, p.checksum) == Some(committed[i])
    {
      FoundAt(committed, p.checksum, i);
    }
  }

  lemma {:induction false} FoundAt(packs: seq<PackRef>, checksum: string, i: nat)
    requires i < |packs| && packs[i].checksum == checksum && forall j | 0 <= j < i :: packs[j].checksum != checksum
    ensures FindRef(packs, checksum) == Some(packs[i])
  {
    if i > 0 {
      forall j | 0 <= j < i - 1
        ensures packs[1..][j].checksum != checksum
      {
        assert packs[1..][j] == packs[j + 1];
      }
      FoundAt(packs[1..], checksum, i - 1);
    }
  }

  lemma NextRetires(base: Option<Manifest>, refs: seq<PackRef>, at: nat, tips: string, attempt: nat)
    ensures RetiredFrom(BaseOr(base).retired, BaseOr(base).packs, NextManifest(base, refs, at, tips, attempt))
  {
    hide Retire;
    var b := BaseOr(base);
    var removed := set p | p in b.packs && !Live(refs, p.checksum) :: p.checksum;
    var m := NextManifest(base, refs, at, tips, attempt);
    RetireIsExact(b.retired, b.packs, removed, at);
    RetiredAt(b.retired, b.packs, removed, at);
    forall p | p in b.packs && (forall q | q in m.packs :: q.checksum != p.checksum)
      ensures Recorded(m.retired, p.checksum)
    {
      assert !Live(refs, p.checksum) && Live(b.packs, p.checksum) && p.checksum in removed;
    }
  }

  /** What retiring adds was asked for and is live, under the given number. */
  lemma {:induction false} RetiredAt(retired: seq<Retired>, packs: seq<PackRef>, requested: set<string>, at: nat)
    ensures retired <= Retire(retired, packs, requested, at)
    ensures forall i | |retired| <= i < |Retire(retired, packs, requested, at)| ::
              Retire(retired, packs, requested, at)[i].seq_ == at && Retire(retired, packs, requested, at)[i].checksum in requested
              && Live(packs, Retire(retired, packs, requested, at)[i].checksum)
    decreases |packs|
  {
    if packs != [] {
      var n := |packs| - 1;
      TakeNext(packs, n);
      TakeAll(packs);
      RetiredAt(retired, packs[..n], requested, at);
      LiveNext(packs[..n], packs[n]);
    }
  }

  lemma NextIsPublished(it: Intent, store: Store, base: Option<Manifest>, refs: seq<PackRef>, attempt: nat)
    requires RefsFor(AllPacks(it), BaseOr(base).headSeq + 1, BaseOr(base).packs) == Some(refs) && BaseOr(base).forgeNextNumber == 0
    requires var at := BaseOr(base).headSeq + 1;
             Holds(store, RefsKey(it.tips, at), Snapshot(it.tips, at)) && Holds(store, CheckpointKey(at, attempt), CheckpointBody(at, refs))
    ensures PublishedAs(it, store, base, NextManifest(base, refs, BaseOr(base).headSeq + 1, it.tips, attempt))
  {
    hide Entered, RetiredFrom, Retire;
    var at := BaseOr(base).headSeq + 1;
    RefsForEach(AllPacks(it), at, BaseOr(base).packs, refs);
    NextRetires(base, refs, at, it.tips, attempt);
    assert Imports(it, AllPacks(it));
  }

  lemma NewPublication(it: Intent, s: State, t: State, version: nat)
    requires s.run.Some? && s.run.value.stage.AtPublish? && version !in s.store.history && StageInv(it, s, s.run.value)
    requires MarkerInv(s.store, s.run.value.marker) && s.run.value.marker.base == s.run.value.base && s.run.value.marker.tips == it.tips
    requires BaseKnown(s.store, s.run.value.base, s.run.value.manifest)
    requires t == AfterPublish(s, s.run.value, version) && t.published != s.published
    ensures PublicationRight(it, t.store, t.published[|t.published| - 1])
    ensures t.published == s.published + [t.published[|t.published| - 1]]
  {
    hide NextManifest, PublishedAs, RefsFor, PacksStored;
    var r := s.run.value;
    NextIsPublished(it, s.store, r.manifest, r.stage.refs, r.stage.attempt);
    var m := NextManifest(r.manifest, r.stage.refs, r.marker.seq_, it.tips, r.stage.attempt);
    assert Grows(s.store, t.store);
    PublishedStays(it, s.store, t.store, r.manifest, m);
  }

  /** Whatever step is taken, by this import, by a crash or by others, the invariant is kept. */
  lemma StepKeepsInv(it: Intent, s: State, step: Step)
    requires IntentOk(it) && Inv(it, s) && Enabled(it, s, step)
    ensures Inv(it, Next(it, s, step))
  {
    hide Next, StoreInv, MarkerInv, RunInv, UploadsInv, PublicationRight, Enabled;
    if step.Begin? {
      BeginKeeps(it, s, step.force);
    } else {
      StoreKept(it, s, step);
      MarkersKept(it, s, step);
      PublishedStaysRight(it, s, step);
      if step.NextFile? {
        NextFileKeeps(it, s);
      } else {
        RunKept(it, s, step);
        UploadsStayRight(it, s, step);
      }
    }
  }

  // ---- runs ----

  /** A bucket whose manifest is sound, no import under way, and perhaps a marker left on disk. */
  ghost predicate Init(it: Intent, s: State) {
    && IntentOk(it) && StoreInv(s.store) && (s.disk.Some? ==> MarkerInv(s.store, s.disk.value))
    && s.run.None? && s.uploads == [] && s.published == []
  }

  ghost predicate IsRun(it: Intent, states: seq<State>, steps: seq<Step>) {
    && |states| == |steps| + 1 && Init(it, states[0])
    && forall i | 0 <= i < |steps| :: Enabled(it, states[i], steps[i]) && states[i + 1] == Next(it, states[i], steps[i])
  }

  lemma {:induction false} RunKeepsInv(it: Intent, states: seq<State>, steps: seq<Step>, k: nat)
    requires IsRun(it, states, steps) && k < |states|
    ensures IntentOk(it) && Inv(it, states[k])
  {
    hide Enabled, Next, StoreInv, MarkerInv, PublicationRight, Files, IntentOk;
    if k > 0 {
      RunKeepsInv(it, states, steps, k - 1);
      StepKeepsInv(it, states[k - 1], steps[k - 1]);
      assert states[k - 1 + 1] == Next(it, states[k - 1], steps[k - 1]);
    }
  }

  /** In every state of every run, whatever crashed and whoever else wrote: every version of the
      manifest names only stored objects, and no key was uploaded twice. */
  lemma NothingMissingNothingTwice(it: Intent, states: seq<State>, steps: seq<Step>, k: nat)
    requires IsRun(it, states, steps) && k < |states|
    ensures forall v | v in states[k].store.history :: forall key | Names(states[k].store.history[v], key) :: key in states[k].store.objects
    ensures forall v | v in states[k].store.history :: AllThere(states[k].store, states[k].store.history[v])
    ensures DistinctKeys(states[k].uploads)
  {
    hide IsRun, Names, IntentOk;
    RunKeepsInv(it, states, steps, k);
    forall v | v in states[k].store.history
      ensures Stored(states[k].store, states[k].store.history[v]) && AllThere(states[k].store, states[k].store.history[v])
    {
      StoredIsThere(states[k].store, states[k].store.history[v]);
    }
  }

  /** Every pack a manifest lists is there with its index and the side files it is said to have, and so are
      the checkpoint's bodies. */
  ghost predicate AllThere(store: Store, m: Manifest) {
    && (forall p | p in m.packs ::
          && PackKey(p.checksum) in store.objects && IdxKey(p.checksum) in store.objects
          && (p.hasRev ==> RevKey(p.checksum) in store.objects) && (p.hasBitmap ==> BitmapKey(p.checksum) in store.objects)
          && (p.hasGraph ==> GraphKey(p.checksum) in store.objects))
    && (m.checkpoint.Some? ==> m.checkpoint.value.key in store.objects && m.checkpoint.value.refsKey in store.objects)
  }

  lemma StoredIsThere(store: Store, m: Manifest)
    requires Stored(store, m)
    ensures AllThere(store, m)
  {
    forall p | p in m.packs
      ensures PackKey(p.checksum) in store.objects && IdxKey(p.checksum) in store.objects
      ensures (p.hasRev ==> RevKey(p.checksum) in store.objects) && (p.hasBitmap ==> BitmapKey(p.checksum) in store.objects)
      ensures p.hasGraph ==> GraphKey(p.checksum) in store.objects
    {
      assert NamesFile(p, PackKey(p.checksum)) && NamesFile(p, IdxKey(p.checksum));
      assert p.hasRev ==> NamesFile(p, RevKey(p.checksum));
      assert p.hasBitmap ==> NamesFile(p, BitmapKey(p.checksum));
      assert p.hasGraph ==> NamesFile(p, GraphKey(p.checksum));
    }
  }

  /** A publication replaces exactly the version it was derived from, is one number after it, and still
      serves every pack that version served. */
  lemma PublicationsAreDerived(it: Intent, states: seq<State>, steps: seq<Step>, k: nat)
    requires IsRun(it, states, steps) && k < |steps| && states[k + 1].published != states[k].published
    ensures states[k + 1].published == states[k].published + [states[k + 1].published[|states[k].published|]]
    ensures var p := states[k + 1].published[|states[k].published|];
            var before := BaseOr(ManifestAt(states[k].store, states[k].store.current));
            && p.replaced == states[k].store.current && states[k + 1].store.current == Some(p.version)
            && p.version !in states[k].store.history && p.version in states[k + 1].store.history
            && states[k + 1].store.history[p.version].headSeq == before.headSeq + 1
            && (forall c | Serves(before, c) :: Serves(states[k + 1].store.history[p.version], c))
            && PublishedAs(it, states[k + 1].store, ManifestAt(states[k].store, states[k].store.current), states[k + 1].store.history[p.version])
  {
    hide PublishedAs, Serves, Inv, Files, RefsFor, AlreadyHeld, Retire;
    RunKeepsInv(it, states, steps, k);
    RunKeepsInv(it, states, steps, k + 1);
    var s, t := states[k], states[k + 1];
    var p := t.published[|s.published|];
    LastPublication(it, t, p);
    var base := ManifestAt(s.store, s.store.current);
    forall c | Serves(BaseOr(base), c)
      ensures Serves(t.store.history[p.version], c)
    {
      StillServes(base, p.refs, BaseOr(base).headSeq + 1, it.tips, p.attempt, c);
    }
  }

  lemma LastPublication(it: Intent, s: State, p: Publication)
    requires Inv(it, s) && p in s.published
    ensures PublicationRight(it, s.store, p)
  {
    hide PublicationRight;
  }

  // ---- doing it again ----

  /** Some pack that is published is, or is already committed as, the history pack of an imported one. */
  predicate HistoryRecognised(it: Intent, committed: seq<PackRef>) {
    !it.historyWanted || exists p :: p in AllPacks(it) && IsHistory(it, p, committed)
  }

  predicate IsHistory(it: Intent, p: LocalPack, committed: seq<PackRef>) {
    var previous := FindRef(committed, p.checksum);
    if previous.Some? then previous.value.kind == History && previous.value.derivedFrom in ObjectChecksums(it)
    else p.historyOf.Some? && p.historyOf.value in ObjectChecksums(it)
  }

  lemma {:induction false} EveryPackHasRef(packs: seq<LocalPack>, at: nat, committed: seq<PackRef>, refs: seq<PackRef>, p: LocalPack)
    requires RefsFor(packs, at, committed) == Some(refs) && p in packs
    ensures RefFor(p, at, committed).Some? && RefFor(p, at, committed).value in refs
    decreases |packs|
  {
    var n := |packs| - 1;
    if p != packs[n] {
      TakeNext(packs, n);
      TakeAll(packs);
      EveryPackHasRef(packs[..n], at, committed, RefsFor(packs[..n], at, committed).value, p);
    }
  }

  lemma RefChecksum(p: LocalPack, at: nat, committed: seq<PackRef>)
    ensures RefFor(p, at, committed).Some? ==> RefFor(p, at, committed).value.checksum == p.checksum
  {
    FoundRef(committed, p.checksum);
  }

  /** What an import publishes is recognised as this import exactly when its history pack is: a pack
      that was already committed keeps the kind it had. */
  lemma PublishedIsHeld(it: Intent, refs: seq<PackRef>, base: Option<Manifest>, at: nat, attempt: nat)
    requires RefsFor(AllPacks(it), at, BaseOr(base).packs) == Some(refs) && at > 0
    ensures AlreadyHeld(it, NextManifest(base, refs, at, it.tips, attempt)) <==> HistoryRecognised(it, BaseOr(base).packs)
  {
    hide Files, FindRef, Retire;
    var committed := BaseOr(base).packs;
    var m := NextManifest(base, refs, at, it.tips, attempt);
    forall c | c in ObjectChecksums(it)
      ensures Live(m.packs, c)
    {
      var p :| p in it.scanned && p.historyOf.None? && p.checksum == c;
      EveryPackHasRef(AllPacks(it), at, committed, refs, p);
      RefChecksum(p, at, committed);
    }
    if p :| p in AllPacks(it) && IsHistory(it, p, committed) {
      EveryPackHasRef(AllPacks(it), at, committed, refs, p);
      var ref := RefFor(p, at, committed).value;
      assert ref in m.packs && ref.kind == History && ref.derivedFrom in ObjectChecksums(it);
    }
    if ref :| ref in m.packs && ref.kind == History && ref.derivedFrom in ObjectChecksums(it) {
      var p := RefsNameFiles(AllPacks(it), at, committed, refs, ref);
      assert IsHistory(it, p, committed);
    }
  }

  // ---- the marker: what a resumed run may skip ----

  /** No closure check has passed since: not in what the marker on disk says, nor in the process that runs. */
  ghost predicate Unverified(s: State) {
    && (s.disk.Some? ==> s.disk.value.phase == Started)
    && (s.run.Some? ==> s.run.value.marker.phase == Started && s.run.value.stage.AtVerify?)
  }

  lemma StaysUnverified(it: Intent, s: State, step: Step)
    requires Unverified(s) && Enabled(it, s, step) && step != Verify(true)
    ensures Unverified(Next(it, s, step)) && Next(it, s, step).published == s.published
  {
    hide AllPacks, AlreadyHeld, NextManifest;
  }

  /** Whatever crashes and resumes in between, a manifest is published only after the closure check passed,
      counted from the start or from any clean-up before. */
  lemma {:induction false} NothingUnverifiedIsPublished(it: Intent, states: seq<State>, steps: seq<Step>, i: nat, k: nat)
    requires IsRun(it, states, steps) && i <= k < |states| && Unverified(states[i])
    requires states[k].published != states[i].published
    ensures exists j | i <= j < k :: steps[j] == Verify(true) && Unverified(states[j]) && states[j].run.Some?
    decreases k - i
  {
    hide Enabled, Next, Unverified;
    if i < k {
      assert Enabled(it, states[i], steps[i]) && states[i + 1] == Next(it, states[i], steps[i]);
      if steps[i] == Verify(true) {
        assert states[i].run.Some? by { VerifyRuns(it, states[i]); }
      } else {
        StaysUnverified(it, states[i], steps[i]);
        NothingUnverifiedIsPublished(it, states, steps, i + 1, k);
      }
    }
  }

  lemma VerifyRuns(it: Intent, s: State)
    requires Enabled(it, s, Verify(true))
    ensures s.run.Some?
  {
  }

  /** Each phase is entered once, and written to disk before the next one starts; a resumed run passes the
      phases its marker names without touching it. */
  lemma PhasesAdvance(it: Intent, s: State, step: Step)
    requires Enabled(it, s, step) && (step == Verify(true) || step.MakeSideFiles? || step.MakeHistory?)
    ensures var before, t := s.run.value.marker.phase, Next(it, s, step);
            && t.run.Some? && t.store == s.store
            && (step.Verify? ==> t.run.value.marker.phase == if before == Started then Verified else before)
            && (step.MakeSideFiles? ==> t.run.value.marker.phase == if before in {Started, Verified} then SideFiles else before)
            && (step.MakeHistory? ==> t.run.value.marker.phase == if before in {Started, Verified, SideFiles} then HistoryPack else before)
            && t.run.value.marker == s.run.value.marker.(phase := t.run.value.marker.phase)
            && t.disk == if t.run.value.marker.phase == before then s.disk else Some(t.run.value.marker)
  {
  }

  /** A file that was not found in the store is put there, and its key is on disk before the next file:
      a run resumed from that marker counts it as present. */
  lemma UploadIsRecorded(it: Intent, s: State)
    requires Enabled(it, s, NextFile) && s.run.value.stage.j < |Files(AllPacks(it)[s.run.value.stage.i])|
    requires Files(AllPacks(it)[s.run.value.stage.i])[s.run.value.stage.j].0 !in s.run.value.stage.present
    ensures var (key, size) := Files(AllPacks(it)[s.run.value.stage.i])[s.run.value.stage.j];
            var t := Next(it, s, NextFile);
            && t.store.objects == s.store.objects[key := File(size)] && t.uploads == s.uploads + [key] && t.disk == s.disk
            && Enabled(it, t, Record)
            && var u := Next(it, t, Record);
               && u.store == t.store && u.disk.Some? && u.disk.value.uploaded == s.run.value.marker.uploaded + {key}
               && forall files :: key in Present(u.store, u.disk.value, files)
  {
    hide Files, AllPacks;
  }

  /** An import whose objects are all committed does not start: it only removes the marker. */
  lemma HeldStartsNothing(it: Intent, s: State, force: bool)
    requires s.run.None? && CurrentManifest(s.store).Some? && AlreadyHeld(it, CurrentManifest(s.store).value)
    ensures Next(it, s, Begin(force)) == s.(disk := None)
  {
    hide AlreadyHeld;
  }

  /** Repeating a completed import: it is recognised, and then changes nothing at all, exactly when its
      history pack is. */
  lemma RepeatChangesNothing(it: Intent, s: State, version: nat, force: bool)
    requires IntentOk(it) && Inv(it, s) && Enabled(it, s, Publish(version))
    requires Next(it, s, Publish(version)).run.Some?
    ensures var done := Next(it, Next(it, s, Publish(version)), Cleanup);
            var committed := BaseOr(ManifestAt(s.store, s.store.current)).packs;
            && (AlreadyHeld(it, CurrentManifest(done.store).value) <==> HistoryRecognised(it, committed))
            && (HistoryRecognised(it, committed) ==> Next(it, done, Begin(force)) == done)
  {
    hide Files, RefsFor, AlreadyHeld, StoreInv, UploadsInv, PublicationRight, HistoryRecognised, NextManifest, PacksStored;
    var r := s.run.value;
    PublishedIsHeld(it, r.stage.refs, r.manifest, r.marker.seq_, r.stage.attempt);
  }

  /** With none of its packs committed before, an import is recognised exactly when it builds its own
      history pack or finds one that belongs to a pack it imports. */
  lemma FirstImportIsRecognised(it: Intent, committed: seq<PackRef>)
    requires IntentOk(it) && forall p | p in AllPacks(it) :: FindRef(committed, p.checksum).None?
    ensures HistoryRecognised(it, committed) <==>
              || !it.historyWanted || !HasHistory(it.scanned)
              || exists p :: p in it.scanned && p.historyOf.Some? && p.historyOf.value in ObjectChecksums(it)
  {
    hide FindRef;
    if it.historyWanted {
      if !HasHistory(it.scanned) {
        assert it.scanned[0] in it.scanned && it.built in AllPacks(it);
        assert it.scanned[0].checksum in ObjectChecksums(it);
        assert IsHistory(it, it.built, committed);
      } else {
        assert AllPacks(it) == it.scanned;
        assert forall p | p in it.scanned :: IsHistory(it, p, committed) <==> p.historyOf.Some? && p.historyOf.value in ObjectChecksums(it);
      }
    }
  }

  /** A pack once imported as an ordinary one stays that, so a later import that wants it as the history
      pack is not recognised when it is repeated. */
  lemma CommittedKindWins() returns (it: Intent, committed: seq<PackRef>)
    ensures IntentOk(it) && it.historyWanted && !HistoryRecognised(it, committed)
    ensures RefsFor(AllPacks(it), 2, committed).Some?
  {
    var base := LocalPack("a", 1, 1, None, None, None, None);
    var built := LocalPack("b", 1, 1, None, None, None, Some("a"));
    it := Intent("repo", "tips", [base], true, built, true);
    committed := [PackRef("b", 1, 1, false, false, false, 1, Objects, "")];
    assert AllPacks(it) == [base, built];
    assert FindRef(committed, "b") == Some(committed[0]);
    assert FindRef(committed[1..], "a") == None;
    assert AllPacks(it)[..1] == [base] && [base][..0] == [];
    assert RefsFor([base], 2, committed).Some?;
  }

  // ---- an undisturbed import ----

  /** What the import set out from has not changed: only pack files were added or replaced. */
  ghost predicate Undisturbed(it: Intent, s0: State, s: State) {
    && s.store.history == s0.store.history && s.store.current == s0.store.current && s.published == s0.published
    && (forall k | !IsFileKey(k) :: k in s.store.objects <==> k in s0.store.objects)
    && (forall k | !IsFileKey(k) && k in s0.store.objects :: s.store.objects[k] == s0.store.objects[k])
    && s.run.Some? && s.run.value.base == s0.store.current && s.run.value.manifest == CurrentManifest(s0.store)
    && s.run.value.marker.tips == it.tips && s.run.value.marker.seq_ == BaseOr(CurrentManifest(s0.store)).headSeq + 1
  }

  /** Nothing makes the import refuse: it is not held already, may replace what is there, its marker does
      not name another base, there are no issues to lose, sizes agree with what is committed, and the
      candidate keys are free or hold these very bytes. */
  ghost predicate Ready(it: Intent, s: State, force: bool, attempt: nat) {
    var m := CurrentManifest(s.store);
    var at := BaseOr(m).headSeq + 1;
    && s.run.None? && !(m.Some? && AlreadyHeld(it, m.value)) && (m.Some? && m.value.headSeq > 0 ==> it.replace)
    && !DecideResume(s.disk, it.repo, it.tips, s.store.current, force).Refuse?
    && BaseOr(m).forgeNextNumber == 0 && RefsFor(AllPacks(it), at, BaseOr(m).packs).Some?
    && CheckpointKey(at, attempt) !in s.store.objects
    && (RefsKey(it.tips, at) in s.store.objects ==> s.store.objects[RefsKey(it.tips, at)] == Snapshot(it.tips, at))
  }

  lemma BeginUndisturbed(it: Intent, s: State, force: bool, attempt: nat)
    requires IntentOk(it) && Inv(it, s) && Ready(it, s, force, attempt)
    ensures var t := Next(it, s, Begin(force)); Undisturbed(it, s, t) && t.run.value.stage == AtVerify
  {
    hide AlreadyHeld, RefsFor, Files, UploadsInv, PublicationRight, Stored;
  }

  lemma PhaseUndisturbed(it: Intent, s0: State, s: State, step: Step)
    requires Undisturbed(it, s0, s) && Enabled(it, s, step)
    requires step == Verify(true) || step == MakeSideFiles || step == MakeHistory || step == Head || step == Record
    ensures Undisturbed(it, s0, Next(it, s, step))
  {
    hide AlreadyHeld, RefsFor, Files, CurrentManifest;
  }

  lemma FileUndisturbed(it: Intent, s0: State, s: State)
    requires Undisturbed(it, s0, s) && Enabled(it, s, NextFile)
    ensures Undisturbed(it, s0, Next(it, s, NextFile))
  {
    hide AlreadyHeld, RefsFor, Files, CurrentManifest;
    var AtFile(i, j, _) := s.run.value.stage;
    if j < |Files(AllPacks(it)[i])| {
      FileKeys(AllPacks(it)[i], j);
    }
  }

  // ---- what has landed ----

  /** The keys that an earlier process recorded as uploaded. */
  ghost function Known(s0: State): set<Key> {
    if s0.disk.Some? then s0.disk.value.uploaded else {}
  }

  /** This object is there, with the local file's size unless an earlier process recorded it. */
  ghost predicate Landed(store: Store, known: set<Key>, key: Key, size: nat) {
    key in store.objects && (store.objects[key] == File(size) || key in known)
  }

  ghost predicate PackLanded(store: Store, known: set<Key>, p: LocalPack) {
    && Landed(store, known, PackKey(p.checksum), p.packSize) && Landed(store, known, IdxKey(p.checksum), p.idxSize)
    && (p.rev.Some? ==> Landed(store, known, RevKey(p.checksum), p.rev.value))
    && (p.bitmap.Some? ==> Landed(store, known, BitmapKey(p.checksum), p.bitmap.value))
    && (p.graph.Some? ==> Landed(store, known, GraphKey(p.checksum), p.graph.value))
  }

  ghost predicate PacksLanded(store: Store, known: set<Key>, packs: seq<LocalPack>) {
    forall p | p in packs :: PackLanded(store, known, p)
  }

  /** Every file of these that the set holds has landed. */
  ghost predicate FilesLanded(store: Store, known: set<Key>, files: seq<(Key, nat)>, keys: set<Key>) {
    forall f | f in files && f.0 in keys :: Landed(store, known, f.0, f.1)
  }

  ghost predicate Marked(it: Intent, s0: State, s: State) {
    s.run.Some? && forall p | p in AllPacks(it) :: FilesLanded(s.store, Known(s0), Files(p), s.run.value.marker.uploaded)
  }

  ghost predicate AllIn(files: seq<(Key, nat)>, n: nat, keys: set<Key>) {
    forall j | 0 <= j < n && j < |files| :: files[j].0 in keys
  }

  /** The first n packs are marked with all their files. */
  ghost predicate MarkedUpTo(it: Intent, s: State, n: nat) {
    s.run.Some? && forall i | 0 <= i < n && i < |AllPacks(it)| :: AllIn(Files(AllPacks(it)[i]), |Files(AllPacks(it)[i])|, s.run.value.marker.uploaded)
  }

  lemma BeginMarked(it: Intent, s: State, force: bool, attempt: nat)
    requires Ready(it, s, force, attempt) && Inv(it, s)
    ensures Enabled(it, s, Begin(force)) && Marked(it, s, Next(it, s, Begin(force)))
  {
    hide AlreadyHeld, RefsFor, Files, UploadsInv, PublicationRight, Stored, StoreInv, RunInv;
    var t := Next(it, s, Begin(force));
    assert t.run.value.marker.uploaded <= Known(s) && t.store == s.store;
    assert t.run.value.marker.uploaded <= s.store.objects.Keys;
  }

  lemma PhaseMarked(it: Intent, s0: State, s: State, step: Step, n: nat)
    requires Marked(it, s0, s) && MarkedUpTo(it, s, n) && Enabled(it, s, step) && Next(it, s, step).run.Some?
    requires step == Verify(true) || step == MakeSideFiles || step == MakeHistory || step == Head || step == Record
    ensures Marked(it, s0, Next(it, s, step)) && MarkedUpTo(it, Next(it, s, step), n)
  {
    hide Files, AllPacks, FilesLanded, AllIn;
  }

  /** The HEADs and the marker let pass only what has landed. */
  lemma HeadPasses(it: Intent, s0: State, s: State, i: nat)
    requires Marked(it, s0, s) && i < |AllPacks(it)| && Enabled(it, s, Head) && s.run.value.stage == AtHead(i)
    ensures FilesLanded(s.store, Known(s0), Files(AllPacks(it)[i]), Next(it, s, Head).run.value.stage.present)
    ensures Next(it, s, Head).store == s.store
  {
    hide Files;
    var p := AllPacks(it)[i];
    var files := Files(p);
    FilesAreDistinct(p);
    assert p in AllPacks(it);
    forall f | f in files && f.0 in Present(s.store, s.run.value.marker, files)
      ensures Landed(s.store, Known(s0), f.0, f.1)
    {
      if f.0 !in s.run.value.marker.uploaded {
        var g :| g in files && g.0 in s.store.objects && s.store.objects[g.0] == File(g.1) && g.0 == f.0;
        SameKeySameFile(p, f, g);
      }
    }
  }

  lemma SameKeySameFile(p: LocalPack, f: (Key, nat), g: (Key, nat))
    requires f in Files(p) && g in Files(p) && f.0 == g.0
    ensures f == g
  {
    hide Files;
    FilesAreDistinct(p);
    var i :| 0 <= i < |Files(p)| && Files(p)[i] == f;
    var j :| 0 <= j < |Files(p)| && Files(p)[j] == g;
    assert i == j;
  }

  /** Putting one file leaves the other files as they were. */
  lemma FilePut(it: Intent, store: Store, known: set<Key>, i: nat, j: nat, p: LocalPack, keys: set<Key>)
    requires IntentOk(it) && i < |AllPacks(it)| && j < |Files(AllPacks(it)[i])| && p in AllPacks(it)
    requires FilesLanded(store, known, Files(p), keys)
    ensures var (key, size) := Files(AllPacks(it)[i])[j];
            FilesLanded(store.(objects := store.objects[key := File(size)]), known, Files(p), keys + {key})
  {
    hide Files;
    var (key, size) := Files(AllPacks(it)[i])[j];
    forall f | f in Files(p) && f.0 == key
      ensures f.1 == size
    {
      var i' :| 0 <= i' < |AllPacks(it)| && AllPacks(it)[i'] == p;
      var j' :| 0 <= j' < |Files(p)| && Files(p)[j'] == f;
      KeysAreDistinct(it, i, j, i', j');
    }
  }

  lemma FileMarked(it: Intent, s0: State, s: State, i: nat, j: nat, present: set<Key>)
    requires IntentOk(it) && Marked(it, s0, s) && MarkedUpTo(it, s, i) && i < |AllPacks(it)|
    requires Enabled(it, s, NextFile) && s.run.value.stage == AtFile(i, j, present)
    requires j < |Files(AllPacks(it)[i])| && FilesLanded(s.store, Known(s0), Files(AllPacks(it)[i]), present)
    requires AllIn(Files(AllPacks(it)[i]), j, s.run.value.marker.uploaded)
    ensures var t := Next(it, s, NextFile);
            && Marked(it, s0, t) && MarkedUpTo(it, t, i) && FilesLanded(t.store, Known(s0), Files(AllPacks(it)[i]), present)
            && AllIn(Files(AllPacks(it)[i]), j + 1, t.run.value.marker.uploaded)
  {
    hide Files, FilesLanded, IntentOk;
    var t := Next(it, s, NextFile);
    var packs := AllPacks(it);
    var (key, size) := Files(packs[i])[j];
    forall p | p in packs
      ensures FilesLanded(t.store, Known(s0), Files(p), t.run.value.marker.uploaded)
    {
      if key in present {
        PassedIsLanded(it, s.store, Known(s0), i, j, p, s.run.value.marker.uploaded, present);
      } else {
        FilePut(it, s.store, Known(s0), i, j, p, s.run.value.marker.uploaded);
      }
    }
    if key !in present {
      FilePut(it, s.store, Known(s0), i, j, packs[i], present);
      FewerLanded(t.store, Known(s0), Files(packs[i]), present + {key}, present);
    }
  }

  lemma FewerLanded(store: Store, known: set<Key>, files: seq<(Key, nat)>, keys: set<Key>, fewer: set<Key>)
    requires FilesLanded(store, known, files, keys) && fewer <= keys
    ensures FilesLanded(store, known, files, fewer)
  {
  }

  lemma PassedIsLanded(it: Intent, store: Store, known: set<Key>, i: nat, j: nat, p: LocalPack, keys: set<Key>, present: set<Key>)
    requires IntentOk(it) && i < |AllPacks(it)| && j < |Files(AllPacks(it)[i])| && p in AllPacks(it)
    requires FilesLanded(store, known, Files(p), keys) && FilesLanded(store, known, Files(AllPacks(it)[i]), present)
    requires Files(AllPacks(it)[i])[j].0 in present
    ensures FilesLanded(store, known, Files(p), keys + {Files(AllPacks(it)[i])[j].0})
  {
    hide Files, Landed;
    var key := Files(AllPacks(it)[i])[j].0;
    forall f | f in Files(p) && f.0 == key
      ensures Landed(store, known, f.0, f.1)
    {
      var i' :| 0 <= i' < |AllPacks(it)| && AllPacks(it)[i'] == p;
      var j' :| 0 <= j' < |Files(p)| && Files(p)[j'] == f;
      KeysAreDistinct(it, i, j, i', j');
      assert f in Files(AllPacks(it)[i]);
    }
  }

  lemma AllMarkedLanded(it: Intent, s0: State, s: State)
    requires Marked(it, s0, s) && MarkedUpTo(it, s, |AllPacks(it)|)
    ensures PacksLanded(s.store, Known(s0), AllPacks(it))
  {
    hide Files, FilesLanded;
    forall p | p in AllPacks(it)
      ensures PackLanded(s.store, Known(s0), p)
    {
      var i :| 0 <= i < |AllPacks(it)| && AllPacks(it)[i] == p;
      FilesArePack(s.store, Known(s0), p, s.run.value.marker.uploaded);
    }
  }

  lemma FilesArePack(store: Store, known: set<Key>, p: LocalPack, keys: set<Key>)
    requires FilesLanded(store, known, Files(p), keys) && AllIn(Files(p), |Files(p)|, keys)
    ensures PackLanded(store, known, p)
  {
    var rev := Optional(RevKey(p.checksum), p.rev);
    var bitmap := Optional(BitmapKey(p.checksum), p.bitmap);
    var files := Files(p);
    assert files[0] == (PackKey(p.checksum), p.packSize) && files[1] == (IdxKey(p.checksum), p.idxSize);
    assert p.rev.Some? ==> files[2] == (RevKey(p.checksum), p.rev.value);
    assert p.bitmap.Some? ==> files[2 + |rev|] == (BitmapKey(p.checksum), p.bitmap.value);
    assert p.graph.Some? ==> files[2 + |rev| + |bitmap|] == (GraphKey(p.checksum), p.graph.value);
    assert forall j | 0 <= j < |files| :: files[j] in files && files[j].0 in keys;
  }

  lemma NothingMarkedYet(it: Intent, s: State)
    requires s.run.Some?
    ensures MarkedUpTo(it, s, 0)
  {
  }

  lemma OnePackMarked(it: Intent, s: State, i: nat)
    requires MarkedUpTo(it, s, i) && i < |AllPacks(it)| && AllIn(Files(AllPacks(it)[i]), |Files(AllPacks(it)[i])|, s.run.value.marker.uploaded)
    ensures MarkedUpTo(it, s, i + 1)
  {
    hide AllIn, Files;
  }

  /** Past a pack's last file nothing is uploaded. */
  lemma PastLastFile(it: Intent, s0: State, s: State, n: nat)
    requires Marked(it, s0, s) && MarkedUpTo(it, s, n) && Enabled(it, s, NextFile) && s.run.value.stage.j >= |Files(AllPacks(it)[s.run.value.stage.i])|
    ensures Marked(it, s0, Next(it, s, NextFile)) && MarkedUpTo(it, Next(it, s, NextFile), n)
  {
    hide Files, FilesLanded, AllIn;
  }

  /** Recording a file changes neither the store nor what was found present. */
  lemma RecordKeeps(it: Intent, s: State)
    requires Enabled(it, s, Record)
    ensures Next(it, s, Record).store == s.store && Next(it, s, Record).run.Some?
    ensures Next(it, s, Record).run.value.marker == s.run.value.marker
    ensures Next(it, s, Record).run.value.stage == AtFile(s.run.value.stage.i, s.run.value.stage.j + 1, s.run.value.stage.present)
  {
  }

  /** The upload loop over all packs and their files. */
  method UploadAll(it: Intent, ghost s0: State, s: State) returns (t: State)
    requires IntentOk(it) && Inv(it, s) && Undisturbed(it, s0, s) && s.run.value.stage == AtHead(0) && Marked(it, s0, s)
    ensures Inv(it, t) && Undisturbed(it, s0, t) && t.run.value.stage == AtUploaded
    ensures PacksLanded(t.store, Known(s0), AllPacks(it))
  {
    hide Inv, IntentOk, Undisturbed, Files, Marked, MarkedUpTo, FilesLanded, AllIn, PacksLanded;
    t := s;
    Running(it, s0, t);
    NothingMarkedYet(it, t);
    for i := 0 to |AllPacks(it)|
      invariant Inv(it, t) && Undisturbed(it, s0, t) && t.run.Some? && t.run.value.stage == AtHead(i)
      invariant Marked(it, s0, t) && MarkedUpTo(it, t, i)
    {
      PhaseUndisturbed(it, s0, t, Head);
      StepKeepsInv(it, t, Head);
      HeadPasses(it, s0, t, i);
      PhaseMarked(it, s0, t, Head, i);
      t := Next(it, t, Head);
      ghost var present := t.run.value.stage.present;
      NoFilesIn(Files(AllPacks(it)[i]), t.run.value.marker.uploaded);
      for j := 0 to |Files(AllPacks(it)[i])|
        invariant Inv(it, t) && Undisturbed(it, s0, t) && t.run.Some? && t.run.value.stage.AtFile?
        invariant t.run.value.stage == AtFile(i, j, present)
        invariant Marked(it, s0, t) && MarkedUpTo(it, t, i) && FilesLanded(t.store, Known(s0), Files(AllPacks(it)[i]), present)
        invariant AllIn(Files(AllPacks(it)[i]), j, t.run.value.marker.uploaded)
      {
        FileUndisturbed(it, s0, t);
        StepKeepsInv(it, t, NextFile);
        FileMarked(it, s0, t, i, j, present);
        t := Next(it, t, NextFile);
        if t.run.value.stage.AtRecord? {
          PhaseUndisturbed(it, s0, t, Record);
          StepKeepsInv(it, t, Record);
          RecordKeeps(it, t);
          PhaseMarked(it, s0, t, Record, i);
          t := Next(it, t, Record);
        }
      }
      FileUndisturbed(it, s0, t);
      StepKeepsInv(it, t, NextFile);
      OnePackMarked(it, t, i);
      PastLastFile(it, s0, t, i + 1);
      t := Next(it, t, NextFile);
    }
    AllMarkedLanded(it, s0, t);
    PhaseUndisturbed(it, s0, t, Head);
    StepKeepsInv(it, t, Head);
    t := Next(it, t, Head);
  }

  lemma NoFilesIn(files: seq<(Key, nat)>, keys: set<Key>)
    ensures AllIn(files, 0, keys)
  {
  }

  lemma Running(it: Intent, s0: State, s: State)
    requires Undisturbed(it, s0, s)
    ensures s.run.Some?
  {
  }

  /** What a publication is made from is still what the import set out from. */
  ghost predicate Unmoved(it: Intent, s0: State, s: State, stage: Stage) {
    && s.store.history == s0.store.history && s.store.current == s0.store.current && s.published == s0.published
    && s.run.Some? && s.run.value.base == s0.store.current && s.run.value.manifest == CurrentManifest(s0.store)
    && s.run.value.marker.tips == it.tips && s.run.value.marker.seq_ == BaseOr(CurrentManifest(s0.store)).headSeq + 1
    && s.run.value.stage == stage
  }

  ghost function RefsToPublish(it: Intent, s: State): Option<seq<PackRef>> {
    RefsFor(AllPacks(it), BaseOr(CurrentManifest(s.store)).headSeq + 1, BaseOr(CurrentManifest(s.store)).packs)
  }

  lemma FinishUploadStep(it: Intent, s0: State, s: State, force: bool, attempt: nat)
    requires Ready(it, s0, force, attempt) && Undisturbed(it, s0, s) && s.run.value.stage == AtUploaded
    ensures Enabled(it, s, FinishUpload(attempt)) && RefsToPublish(it, s0).Some?
    ensures Undisturbed(it, s0, Next(it, s, FinishUpload(attempt)))
    ensures Unmoved(it, s0, Next(it, s, FinishUpload(attempt)), AtCandidates(RefsToPublish(it, s0).value, attempt, false, false))
  {
    hide AlreadyHeld, RefsFor, Files, CurrentManifest, DecideResume;
  }

  lemma PutRefsStep(it: Intent, s0: State, s: State, force: bool, refs: seq<PackRef>, attempt: nat)
    requires Ready(it, s0, force, attempt) && Undisturbed(it, s0, s) && s.run.value.stage == AtCandidates(refs, attempt, false, false)
    ensures Enabled(it, s, PutRefs) && Unmoved(it, s0, Next(it, s, PutRefs), AtCandidates(refs, attempt, true, false))
    ensures CheckpointKey(Next(it, s, PutRefs).run.value.marker.seq_, attempt) !in Next(it, s, PutRefs).store.objects
  {
    hide AlreadyHeld, RefsFor, Files, CurrentManifest, DecideResume;
  }

  lemma PutCheckpointStep(it: Intent, s0: State, s: State, refs: seq<PackRef>, attempt: nat)
    requires Unmoved(it, s0, s, AtCandidates(refs, attempt, true, false)) && CheckpointKey(s.run.value.marker.seq_, attempt) !in s.store.objects
    ensures Enabled(it, s, PutCheckpoint) && Unmoved(it, s0, Next(it, s, PutCheckpoint), AtCandidates(refs, attempt, true, true))
  {
    hide CurrentManifest;
  }

  lemma PrepareStep(it: Intent, s0: State, s: State, refs: seq<PackRef>, attempt: nat)
    requires Unmoved(it, s0, s, AtCandidates(refs, attempt, true, true))
    ensures Enabled(it, s, Prepare) && Unmoved(it, s0, Next(it, s, Prepare), AtPublish(refs, attempt))
  {
    hide CurrentManifest;
  }

  lemma PublishStep(it: Intent, s0: State, s: State, force: bool, attempt: nat, version: nat)
    requires Ready(it, s0, force, attempt) && version !in s0.store.history && RefsToPublish(it, s0).Some?
    requires Unmoved(it, s0, s, AtPublish(RefsToPublish(it, s0).value, attempt))
    ensures Enabled(it, s, Publish(version)) && Enabled(it, Next(it, s, Publish(version)), Cleanup)
    ensures Done(it, s0, Next(it, Next(it, s, Publish(version)), Cleanup), attempt, version)
  {
    hide AlreadyHeld, RefsFor, Files, CurrentManifest, DecideResume, NextManifest;
  }

  /** Published at the next number from what was there, and nothing left behind. */
  ghost predicate Done(it: Intent, s0: State, t: State, attempt: nat, version: nat) {
    var m := CurrentManifest(s0.store);
    var at := BaseOr(m).headSeq + 1;
    var refs := RefsFor(AllPacks(it), at, BaseOr(m).packs);
    && refs.Some? && t.run.None? && t.disk.None? && t.store.current == Some(version)
    && t.store.history == s0.store.history[version := NextManifest(m, refs.value, at, it.tips, attempt)]
    && t.published == s0.published + [Publication(s0.store.current, version, refs.value, attempt)]
  }

  /** The import from start to end, fresh or resumed wherever an earlier one stopped: when nothing makes
      it refuse and nobody interferes, it publishes. */
  method Import(it: Intent, s: State, force: bool, attempt: nat, version: nat) returns (t: State)
    requires IntentOk(it) && Inv(it, s) && Ready(it, s, force, attempt) && version !in s.store.history
    ensures Inv(it, t) && Done(it, s, t, attempt, version)
    ensures version in t.store.history && PublishedAs(it, t.store, CurrentManifest(s.store), t.store.history[version])
    ensures exists packs :: Imports(it, packs) && PacksLanded(t.store, if s.disk.Some? then s.disk.value.uploaded else {}, packs)
  {
    hide Marked, MarkedUpTo, PacksLanded, PublishedAs, Inv, IntentOk, Undisturbed, Ready, Files, AlreadyHeld, RefsFor, NextManifest, DecideResume, Done;
    BeginUndisturbed(it, s, force, attempt);
    ReadyToBegin(it, s, force, attempt);
    StepKeepsInv(it, s, Begin(force));
    BeginMarked(it, s, force, attempt);
    t := Next(it, s, Begin(force));
    Running(it, s, t);
    NothingMarkedYet(it, t);
    PhaseUndisturbed(it, s, t, Verify(true));
    StepKeepsInv(it, t, Verify(true));
    PhaseMarked(it, s, t, Verify(true), 0);
    t := Next(it, t, Verify(true));
    PhaseUndisturbed(it, s, t, MakeSideFiles);
    StepKeepsInv(it, t, MakeSideFiles);
    PhaseMarked(it, s, t, MakeSideFiles, 0);
    t := Next(it, t, MakeSideFiles);
    PhaseUndisturbed(it, s, t, MakeHistory);
    StepKeepsInv(it, t, MakeHistory);
    PhaseMarked(it, s, t, MakeHistory, 0);
    t := Next(it, t, MakeHistory);
    t := UploadAll(it, s, t);
    t := Finish(it, s, t, force, attempt, version);
    DoneIsPublished(it, s, t, attempt, version);
    assert Imports(it, AllPacks(it));
  }

  lemma DoneIsPublished(it: Intent, s: State, t: State, attempt: nat, version: nat)
    requires Inv(it, s) && Inv(it, t) && Done(it, s, t, attempt, version) && version !in s.store.history
    ensures version in t.store.history && PublishedAs(it, t.store, CurrentManifest(s.store), t.store.history[version])
  {
    hide PublishedAs, NextManifest, RefsFor, Stored, UploadsInv, RunInv, MarkerInv;
    var p := t.published[|s.published|];
    LastPublication(it, t, p);
    assert ManifestAt(t.store, s.store.current) == CurrentManifest(s.store);
  }

  lemma ReadyToBegin(it: Intent, s: State, force: bool, attempt: nat)
    requires Ready(it, s, force, attempt)
    ensures Enabled(it, s, Begin(force))
  {
  }

  /** From the upload's end to the removed marker. */
  method Finish(it: Intent, ghost s0: State, s: State, ghost force: bool, attempt: nat, version: nat) returns (t: State)
    requires IntentOk(it) && Inv(it, s) && version !in s0.store.history
    requires Ready(it, s0, force, attempt) && Undisturbed(it, s0, s) && s.run.value.stage == AtUploaded
    requires PacksLanded(s.store, Known(s0), AllPacks(it))
    ensures Inv(it, t) && Done(it, s0, t, attempt, version) && PacksLanded(t.store, Known(s0), AllPacks(it))
  {
    hide Inv, IntentOk, Next, Ready, Undisturbed, Unmoved, Done, RefsToPublish, Enabled, PacksLanded;
    FinishUploadStep(it, s0, s, force, attempt);
    LandedStays(it, s0, s, FinishUpload(attempt));
    StepKeepsInv(it, s, FinishUpload(attempt));
    t := Next(it, s, FinishUpload(attempt));
    ghost var refs := RefsToPublish(it, s0).value;
    StageOf(it, s0, t, AtCandidates(refs, attempt, false, false));
    PutRefsStep(it, s0, t, force, refs, attempt);
    StepKeepsInv(it, t, PutRefs);
    LandedStays(it, s0, t, PutRefs);
    t := Next(it, t, PutRefs);
    PutCheckpointStep(it, s0, t, refs, attempt);
    StepKeepsInv(it, t, PutCheckpoint);
    LandedStays(it, s0, t, PutCheckpoint);
    t := Next(it, t, PutCheckpoint);
    PrepareStep(it, s0, t, refs, attempt);
    StepKeepsInv(it, t, Prepare);
    LandedStays(it, s0, t, Prepare);
    t := Next(it, t, Prepare);
    PublishStep(it, s0, t, force, attempt, version);
    StepKeepsInv(it, t, Publish(version));
    LandedStays(it, s0, t, Publish(version));
    t := Next(it, t, Publish(version));
    StepKeepsInv(it, t, Cleanup);
    LandedStays(it, s0, t, Cleanup);
    t := Next(it, t, Cleanup);
  }

  /** Nothing after the uploads replaces an object. */
  lemma LandedStays(it: Intent, s0: State, s: State, step: Step)
    requires Enabled(it, s, step) && !step.NextFile? && PacksLanded(s.store, Known(s0), AllPacks(it))
    ensures PacksLanded(Next(it, s, step).store, Known(s0), AllPacks(it))
  {
    ObjectsStay(it, s, step);
    hide Next;
    var t := Next(it, s, step);
    forall p | p in AllPacks(it)
      ensures PackLanded(t.store, Known(s0), p)
    {
      assert PackLanded(s.store, Known(s0), p);
    }
  }

  lemma ObjectsStay(it: Intent, s: State, step: Step)
    requires Enabled(it, s, step) && !step.NextFile?
    ensures forall k | k in s.store.objects :: k in Next(it, s, step).store.objects && Next(it, s, step).store.objects[k] == s.store.objects[k]
  {
    hide Files, RefsFor, NextManifest, AlreadyHeld;
  }

  lemma StageOf(it: Intent, s0: State, s: State, stage: Stage)
    requires Unmoved(it, s0, s, stage)
    ensures s.run.Some? && s.run.value.stage == stage
  {
  }
}
