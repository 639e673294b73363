/** The refs cache under concurrency: one writer at a time, any number of readers that stat, parse and
    store without holding the lock, and refreshes from elsewhere
    (crates/walgit-git/src/lib.rs:1084-1124, 1138-1209, 1211-1371, 1439-1482, 723-733). */
module RefsCache {
  import opened Basics
  import opened RefNames
  import opened RefStore
  import opened Seqs

  /** Names, object ids and HEAD's target: what a cached snapshot has in common with the disk. */
  datatype Oids = Oids(refs: map<string, string>, headTarget: string)

  function OidsOf(st: RefState): Oids {
    Oids(map n | n in st.refs :: st.refs[n].oid, st.headTarget)
  }

  function ApplyOid(st: Oids, u: RefUpdate): Oids {
    if u.newSymbolicTarget != [] then
      if u.name == "HEAD" then st.(headTarget := u.newSymbolicTarget) else st
    else st.(refs := ApplyToRefs(st.refs, u))
  }

  function ApplyToRefs(refs: map<string, string>, u: RefUpdate): map<string, string> {
    if IsZero(u.newOid) then refs - {u.name} else refs[u.name := u.newOid]
  }

  function ApplyOids(st: Oids, txn: RefTxn): Oids
    decreases |txn|
  {
    if txn == [] then st else ApplyOids(ApplyOid(st, txn[0]), txn[1..])
  }

  function ApplyOidsAll(st: Oids, txns: seq<RefTxn>): Oids
    decreases |txns|
  {
    if txns == [] then st else ApplyOidsAll(ApplyOids(st, txns[0]), txns[1..])
  }

  /** Patching a snapshot and reading its ids is applying the ids. */
  lemma {:induction false} OidsOfTxn(st: RefState, txn: RefTxn, peel: string -> string)
    ensures OidsOf(ApplyTxn(st, txn, peel)) == ApplyOids(OidsOf(st), txn)
    decreases |txn|
  {
    if txn != [] {
      OidsOfTxn(ApplyUpdate(st, txn[0], peel), txn[1..], peel);
      assert OidsOf(ApplyUpdate(st, txn[0], peel)) == ApplyOid(OidsOf(st), txn[0]);
    }
  }

  lemma {:induction false} OidsOfAll(st: RefState, txns: seq<RefTxn>, peel: string -> string)
    ensures OidsOf(ApplyAll(st, txns, peel)) == ApplyOidsAll(OidsOf(st), txns)
    decreases |txns|
  {
    if txns != [] {
      OidsOfTxn(st, txns[0], peel);
      OidsOfAll(ApplyTxn(st, txns[0], peel), txns[1..], peel);
    }
  }

  lemma {:induction false} ApplyOidsAllSnoc(st: Oids, txns: seq<RefTxn>, txn: RefTxn)
    ensures ApplyOidsAll(st, txns + [txn]) == ApplyOids(ApplyOidsAll(st, txns), txn)
    decreases |txns|
  {
    if txns != [] {
      DropAppend(txns, [txn], 1);
      ApplyOidsAllSnoc(ApplyOids(st, txns[0]), txns[1..], txn);
    }
  }

  // ---- a transaction on disk: first the ids, then the HEAD file ----

  function DiskRefs(refs: map<string, string>, txn: RefTxn): map<string, string>
    decreases |txn|
  {
    if txn == [] then refs
    else DiskRefs(if txn[0].newSymbolicTarget != [] then refs else ApplyToRefs(refs, txn[0]), txn[1..])
  }

  function HeadWrites(txn: RefTxn): seq<string> {
    if txn == [] then []
    else (if txn[0].newSymbolicTarget != [] then [txn[0].newSymbolicTarget] else []) + HeadWrites(txn[1..])
  }

  function HeadAfter(head: string, txn: RefTxn, written: nat): string
    requires written <= |HeadWrites(txn)|
  {
    if written == 0 then head else HeadWrites(txn)[written - 1]
  }

  /** Validation lets symbolic updates through for HEAD only. */
  ghost predicate SymbolicOnlyHead(txn: RefTxn) {
    forall u | u in txn :: u.newSymbolicTarget != [] ==> u.name == "HEAD"
  }

  /** Writing all ids first and HEAD afterwards ends where applying the updates in order ends. */
  lemma {:induction false} DiskEndsAsApplied(st: Oids, txn: RefTxn)
    requires SymbolicOnlyHead(txn)
    ensures Oids(DiskRefs(st.refs, txn), HeadAfter(st.headTarget, txn, |HeadWrites(txn)|)) == ApplyOids(st, txn)
    decreases |txn|
  {
    if txn != [] {
      assert txn[0] in txn;
      DiskEndsAsApplied(ApplyOid(st, txn[0]), txn[1..]);
    }
  }

  // ---- the machine ----

  /** The key is (gen, stamp): the process-local generation and the files' lengths and times. Whatever two
      reads of those find is a stamp; nothing below depends on which. */
  datatype Cached = Cached(gen: nat, stamp: int, data: Oids, pending: seq<RefTxn>)

  function Fold(c: Cached): Oids {
    ApplyOidsAll(c.data, c.pending)
  }

  datatype Reader =
    | Idle
    | Loaded(gen: nat)
    | Keyed(gen: nat, stamp: int)
    | Parsing(gen: nat, stamp: int, head: string)
    | Parsed(gen: nat, stamp: int, data: Oids)
    | Returned(gen: nat, data: Oids)

  /** before is the cache entry a writer took along; pre is the disk when it started. A writer reads its key
      and looks for the entry step by step, like a reader; an offline writer reads all refs first, and gen is
      the generation when it set out. */
  datatype Writer =
    | Rest
    | Locked(txn: RefTxn, gen: nat)
    | WithKey(txn: RefTxn, gen: nat, stamp: int)
    | Started(txn: RefTxn, before: Option<Cached>)
    | Committed(txn: RefTxn, before: Option<Cached>, pre: Oids, written: nat)
    | Bumped(txn: RefTxn, before: Option<Cached>, pre: Oids, again: bool)
    | Reading(gen: nat)
    | Offline(target: Oids, pre: Oids, txns: seq<RefTxn>)

  datatype Moment = Moment(gen: nat, disk: Oids)

  datatype State = State(
    disk: Oids,
    gen: nat,
    cache: Option<Cached>,
    readers: map<nat, Reader>,
    writer: Writer,
    history: seq<Moment>)

  /** No writer has changed the disk without having bumped the generation since. */
  predicate Clean(s: State) {
    !s.writer.Committed? && !s.writer.Offline?
  }

  predicate Current(s: State, gen: nat, stamp: int) {
    s.cache.Some? && s.cache.value.gen == gen && s.cache.value.stamp == stamp
  }

  function At(s: State, i: nat): Reader {
    if i in s.readers then s.readers[i] else Idle
  }

  function Put(s: State, i: nat, r: Reader): State {
    s.(readers := s.readers[i := r])
  }

  function Note(s: State): State {
    s.(history := s.history + [Moment(s.gen, s.disk)])
  }

  datatype Step =
    | Load(i: nat)
    | Stat(i: nat, stamp: int)
    | HitAndFold(i: nat)
    | HitAndView(i: nat)
    | MissReload(i: nat)
    | ReadHead(i: nat)
    | ReadRefs(i: nat)
    | Store(i: nat)
    | Lock(txn: RefTxn)
    | WriterStat(stamp: int)
    | TakeEntry
    | Refuse
    | Commit
    | WriteHead
    | Bump
    | ReopenFails
    | BumpAgain
    | Install(gen: nat, stamp: int)
    | LockOffline
    | StartOffline(i: nat, txns: seq<RefTxn>)
    | WriteOffline(disk: Oids)
    | FinishOffline
    | Refresh

  /** A reader that missed parses, even if another one has stored that key in the meantime. */
  predicate Enabled(s: State, step: Step) {
    match step
    case Load(i) => At(s, i).Idle? || At(s, i).Returned?
    case Stat(i, _) => At(s, i).Loaded?
    case HitAndFold(i) => At(s, i).Keyed? && Current(s, At(s, i).gen, At(s, i).stamp)
    case HitAndView(i) => At(s, i).Keyed? && Current(s, At(s, i).gen, At(s, i).stamp)
    case MissReload(i) => At(s, i).Keyed?
    case ReadHead(i) => At(s, i).Keyed?
    case ReadRefs(i) => At(s, i).Parsing?
    case Store(i) => At(s, i).Parsed?
    case Lock(txn) => s.writer.Rest? && (forall u | u in txn :: u.newSymbolicTarget != [] ==> u.name == "HEAD")
    case WriterStat(_) => s.writer.Locked?
    case TakeEntry => s.writer.WithKey?
    case Refuse => s.writer.Started? || s.writer.Reading?
    case Commit => s.writer.Started?
    case WriteHead => s.writer.Committed? && s.writer.written < |HeadWrites(s.writer.txn)|
    case Bump => s.writer.Committed? && s.writer.written == |HeadWrites(s.writer.txn)|
    case ReopenFails => s.writer.Bumped? && !s.writer.again
    case BumpAgain => s.writer.Bumped? && !s.writer.again
    case Install(gen, _) => s.writer.Bumped? && s.writer.again && gen <= s.gen
    case LockOffline => s.writer.Rest?
    case StartOffline(i, _) => s.writer.Reading? && At(s, i).Returned? && At(s, i).gen >= s.writer.gen
    case WriteOffline(_) => s.writer.Offline?
    case FinishOffline => s.writer.Offline? && s.disk == s.writer.target
    case Refresh => true
  }

  function Next(s: State, step: Step): State
    requires Enabled(s, step)
  {
    match step
    case Load(i) => Put(s, i, Loaded(s.gen))
    case Stat(i, stamp) => Put(s, i, Keyed(At(s, i).gen, stamp))
    case HitAndFold(i) =>
      var c := s.cache.value;
      Put(s, i, Returned(At(s, i).gen, Fold(c))).(cache := Some(c.(data := Fold(c), pending := [])))
    case HitAndView(i) => Put(s, i, Returned(At(s, i).gen, Fold(s.cache.value)))
    case MissReload(i) => Put(s, i, Loaded(s.gen))
    case ReadHead(i) => Put(s, i, Parsing(At(s, i).gen, At(s, i).stamp, s.disk.headTarget))
    case ReadRefs(i) =>
      var r := At(s, i);
      Put(s, i, Parsed(r.gen, r.stamp, Oids(s.disk.refs, r.head)))
    case Store(i) =>
      var r := At(s, i);
      Put(s, i, Returned(r.gen, r.data)).(cache := Some(Cached(r.gen, r.stamp, r.data, [])))
    case Lock(txn) => s.(writer := Locked(txn, s.gen))
    case WriterStat(stamp) => s.(writer := WithKey(s.writer.txn, s.writer.gen, stamp))
    case TakeEntry =>
      var w := s.writer;
      s.(writer := Started(w.txn, if Current(s, w.gen, w.stamp) then s.cache else None))
    case Refuse => s.(writer := Rest)
    case Commit =>
      var w := s.writer;
      Note(s.(disk := s.disk.(refs := DiskRefs(s.disk.refs, w.txn)),
              writer := Committed(w.txn, w.before, s.disk, 0)))
    case WriteHead =>
      var w := s.writer;
      Note(s.(disk := s.disk.(headTarget := HeadWrites(w.txn)[w.written]),
              writer := w.(written := w.written + 1)))
    case Bump =>
      var w := s.writer;
      Note(s.(gen := s.gen + 1, writer := Bumped(w.txn, w.before, w.pre, false)))
    case ReopenFails => s.(writer := Rest)
    case BumpAgain => Note(s.(gen := s.gen + 1, writer := s.writer.(again := true)))
    case Install(gen, stamp) =>
      var w := s.writer;
      if w.before.None? then s.(writer := Rest)
      else
        var c := w.before.value;
        s.(writer := Rest, cache := Some(Cached(gen, stamp, c.data, c.pending + [w.txn])))
    case LockOffline => s.(writer := Reading(s.gen))
    case StartOffline(i, txns) =>
      Note(s.(gen := s.gen + 1, writer := Offline(ApplyOidsAll(At(s, i).data, txns), s.disk, txns)))
    case WriteOffline(disk) => Note(s.(disk := disk))
    case FinishOffline => Note(s.(gen := s.gen + 1, writer := Rest))
    case Refresh => Note(s.(gen := s.gen + 1))
  }

  // ---- coherence ----

  /** A generation from which on the disk has not changed, as long as no writer is changing it. */
  function Since(s: State): nat {
    if s.writer.Locked? || s.writer.WithKey? || s.writer.Reading? then s.writer.gen else s.gen
  }

  /** An entry that is current agrees with the disk unless a writer is between its disk commit and its
      generation bump. */
  ghost predicate Coherent(s: State) {
    s.cache.Some? ==>
      && s.cache.value.gen <= s.gen
      && (s.cache.value.gen >= Since(s) && Clean(s) ==> Fold(s.cache.value) == s.disk)
  }

  /** So does what a reader holds, as long as its generation is still the current one. */
  ghost predicate ReaderCoherent(s: State, r: Reader) {
    match r
    case Idle => true
    case Loaded(g) => g <= s.gen
    case Keyed(g, _) => g <= s.gen
    case Parsing(g, _, head) => g <= s.gen && (g >= Since(s) && Clean(s) ==> head == s.disk.headTarget)
    case Parsed(g, _, data) => g <= s.gen && (g >= Since(s) && Clean(s) ==> data == s.disk)
    case Returned(g, data) => g <= s.gen && (g >= Since(s) && Clean(s) ==> data == s.disk)
  }

  ghost predicate WriterCoherent(s: State) {
    match s.writer
    case Rest => true
    case Locked(txn, g) => SymbolicOnlyHead(txn) && g <= s.gen
    case WithKey(txn, g, _) => SymbolicOnlyHead(txn) && g <= s.gen
    case Started(txn, before) => SymbolicOnlyHead(txn) && (before.Some? ==> Fold(before.value) == s.disk)
    case Committed(txn, before, pre, written) =>
      && SymbolicOnlyHead(txn) && written <= |HeadWrites(txn)|
      && (before.Some? ==> Fold(before.value) == pre)
      && s.disk == Oids(DiskRefs(pre.refs, txn), HeadAfter(pre.headTarget, txn, written))
    case Bumped(txn, before, pre, _) =>
      (before.Some? ==> Fold(before.value) == pre) && s.disk == ApplyOids(pre, txn)
    case Reading(g) => g <= s.gen
    case Offline(target, pre, txns) => target == ApplyOidsAll(pre, txns)
  }

  ghost predicate Inv(s: State) {
    && Coherent(s)
    && WriterCoherent(s)
    && forall i | i in s.readers :: ReaderCoherent(s, s.readers[i])
  }

  ghost predicate Init(s: State) {
    s.cache == None && s.readers == map[] && s.writer == Rest && s.history == [Moment(s.gen, s.disk)]
  }

  /** Any run from an initial state. */
  ghost predicate Run(states: seq<State>, steps: seq<Step>) {
    && |states| == |steps| + 1 && Init(states[0])
    && forall k | 0 <= k < |steps| :: Enabled(states[k], steps[k]) && states[k + 1] == Next(states[k], steps[k])
  }

  lemma StepKeepsInv(s: State, step: Step)
    requires Inv(s) && Enabled(s, step)
    ensures Inv(Next(s, step))
  {
    hide Enabled, Next, Coherent, WriterCoherent, ReaderCoherent;
    StepKeepsEntry(s, step);
    StepKeepsWriter(s, step);
    assert Since(s) <= s.gen by { SinceBefore(s); }
    forall i | i in Next(s, step).readers
      ensures ReaderCoherent(Next(s, step), Next(s, step).readers[i])
    {
      StepKeepsReader(s, step, i);
    }
  }

  lemma SinceBefore(s: State)
    requires WriterCoherent(s)
    ensures Since(s) <= s.gen
  {
  }

  lemma StepKeepsEntry(s: State, step: Step)
    requires Inv(s) && Enabled(s, step)
    ensures Coherent(Next(s, step))
  {
    hide ApplyOidsAll, ApplyOids, DiskRefs, HeadWrites;
    var t := Next(s, step);
    match step
    case Install(gen, stamp) =>
      if s.writer.before.Some? {
        ApplyOidsAllSnoc(s.writer.before.value.data, s.writer.before.value.pending, s.writer.txn);
      }
    case HitAndFold(i) => FoldNothing(t.cache.value.gen, t.cache.value.stamp, Fold(s.cache.value));
    case Store(i) => FoldNothing(s.readers[i].gen, s.readers[i].stamp, s.readers[i].data);
    case _ =>
  }

  lemma StepKeepsWriter(s: State, step: Step)
    requires Inv(s) && Enabled(s, step)
    ensures WriterCoherent(Next(s, step))
  {
    hide ApplyOidsAll, ApplyOids, DiskRefs, HeadWrites;
    match step
    case Bump => DiskEndsAsApplied(s.writer.pre, s.writer.txn);
    case _ =>
  }

  lemma StepKeepsReader(s: State, step: Step, i: nat)
    requires Coherent(s) && Since(s) <= s.gen && Enabled(s, step) && i in Next(s, step).readers
    requires i in s.readers ==> ReaderCoherent(s, s.readers[i])
    ensures ReaderCoherent(Next(s, step), Next(s, step).readers[i])
  {
    hide ApplyOidsAll, ApplyOids, DiskRefs, HeadWrites, HeadAfter, Fold;
  }

  lemma FoldNothing(gen: nat, stamp: int, data: Oids)
    ensures Fold(Cached(gen, stamp, data, [])) == data
  {
  }

  /** Whenever the cached key is the current one and no writer is between its disk commit and its bump,
      the snapshot with its pending transactions folded in is what is on disk. */
  lemma CacheCoherent(states: seq<State>, steps: seq<Step>, k: nat)
    requires Run(states, steps) && k < |states|
    ensures Inv(states[k])
    ensures states[k].cache.Some? && states[k].cache.value.gen == states[k].gen && Clean(states[k])
            ==> Fold(states[k].cache.value) == states[k].disk
  {
    hide Enabled, Next, ApplyOidsAll;
    if k > 0 {
      CacheCoherent(states, steps, k - 1);
      StepKeepsInv(states[k - 1], steps[k - 1]);
      assert states[k - 1 + 1] == Next(states[k - 1], steps[k - 1]);
    }
  }

  /** An offline writer merges into what it read through the cache, step by step among other readers and
      refreshes; what it sets out to write is the disk with all transactions applied. */
  lemma OfflineAppliesAll(states: seq<State>, steps: seq<Step>, k: nat)
    requires Run(states, steps) && k < |steps| && steps[k].StartOffline?
    ensures states[k + 1].writer == Offline(ApplyOidsAll(states[k].disk, steps[k].txns), states[k].disk, steps[k].txns)
  {
    hide ApplyOidsAll;
    CacheCoherent(states, steps, k);
    assert ReaderCoherent(states[k], states[k].readers[steps[k].i]);
  }

  /** Generations only grow, so an entry stored under an old key stays out of use for ever. */
  lemma StaleStaysStale(states: seq<State>, steps: seq<Step>, j: nat, k: nat)
    requires Run(states, steps) && j <= k < |states|
    ensures states[j].gen <= states[k].gen
    ensures forall g: nat, stamp | g < states[j].gen && Current(states[k], g, stamp) :: g != states[k].gen
  {
    if j < k {
      StaleStaysStale(states, steps, j, k - 1);
      assert states[k - 1 + 1] == Next(states[k - 1], steps[k - 1]);
    }
  }

  // ---- freshness ----

  /** The disk held these refs at a moment when the generation was gen or later. */
  ghost predicate FreshRefs(s: State, gen: nat, refs: map<string, string>) {
    exists k | 0 <= k < |s.history| :: s.history[k].gen >= gen && s.history[k].disk.refs == refs
  }

  ghost predicate FreshHead(s: State, gen: nat, head: string) {
    exists k | 0 <= k < |s.history| :: s.history[k].gen >= gen && s.history[k].disk.headTarget == head
  }

  ghost predicate Fresh(s: State, gen: nat, data: Oids) {
    FreshRefs(s, gen, data.refs) && FreshHead(s, gen, data.headTarget)
  }

  ghost predicate ReaderFresh(s: State, r: Reader) {
    match r
    case Idle => true
    case Loaded(_) => true
    case Keyed(_, _) => true
    case Parsing(g, _, head) => FreshHead(s, g, head)
    case Parsed(g, _, data) => Fresh(s, g, data)
    case Returned(g, data) => Fresh(s, g, data)
  }

  ghost predicate FreshInv(s: State) {
    && s.history != [] && s.history[|s.history| - 1] == Moment(s.gen, s.disk)
    && (s.cache.Some? ==> Fresh(s, s.cache.value.gen, Fold(s.cache.value)))
    && (forall i | i in s.readers :: ReaderFresh(s, s.readers[i]))
  }

  lemma HistoryGrows(s: State, t: State, gen: nat, data: Oids)
    requires s.history <= t.history
    ensures FreshRefs(s, gen, data.refs) ==> FreshRefs(t, gen, data.refs)
    ensures FreshHead(s, gen, data.headTarget) ==> FreshHead(t, gen, data.headTarget)
  {
    if FreshRefs(s, gen, data.refs) {
      var k :| 0 <= k < |s.history| && s.history[k].gen >= gen && s.history[k].disk.refs == data.refs;
      assert t.history[k] == s.history[k];
    }
    if FreshHead(s, gen, data.headTarget) {
      var k :| 0 <= k < |s.history| && s.history[k].gen >= gen && s.history[k].disk.headTarget == data.headTarget;
      assert t.history[k] == s.history[k];
    }
  }

  lemma ReaderStaysFresh(s: State, t: State, r: Reader)
    requires s.history <= t.history && ReaderFresh(s, r)
    ensures ReaderFresh(t, r)
  {
    match r
    case Parsing(g, _, head) => HistoryGrows(s, t, g, Oids(map[], head));
    case Parsed(g, _, data) => HistoryGrows(s, t, g, data);
    case Returned(g, data) => HistoryGrows(s, t, g, data);
    case _ =>
  }

  lemma DiskIsFresh(s: State, gen: nat)
    requires s.history != [] && s.history[|s.history| - 1] == Moment(s.gen, s.disk) && gen <= s.gen
    ensures Fresh(s, gen, s.disk)
  {
    var k := |s.history| - 1;
    assert s.history[k].gen >= gen;
  }

  ghost predicate EntryFresh(s: State) {
    s.cache.Some? ==> Fresh(s, s.cache.value.gen, Fold(s.cache.value))
  }

  lemma StepKeepsCacheFresh(s: State, step: Step)
    requires Inv(s) && FreshInv(s) && Enabled(s, step)
    ensures EntryFresh(Next(s, step))
  {
    hide Next, Fold, Fresh, Inv, Enabled;
    if step.Install? {
      InstallIsFresh(s, step.gen, step.stamp);
    } else if step.HitAndFold? {
      FoldingIsFresh(s, step.i);
    } else if step.Store? {
      StoreIsFresh(s, step.i);
    } else {
      EntryUntouched(s, step);
      if s.cache.Some? {
        StaysFresh(s, Next(s, step), s.cache.value.gen, Fold(s.cache.value));
      }
    }
  }

  lemma StaysFresh(s: State, t: State, gen: nat, data: Oids)
    requires s.history <= t.history && Fresh(s, gen, data)
    ensures Fresh(t, gen, data)
  {
    hide FreshRefs, FreshHead;
    HistoryGrows(s, t, gen, data);
  }

  lemma EntryUntouched(s: State, step: Step)
    requires Enabled(s, step) && !step.Install? && !step.HitAndFold? && !step.Store?
    ensures Next(s, step).cache == s.cache && s.history <= Next(s, step).history
  {
    hide ApplyOidsAll, ApplyOids, DiskRefs, HeadWrites;
  }

  lemma InstallIsFresh(s: State, gen: nat, stamp: int)
    requires Inv(s) && FreshInv(s) && Enabled(s, Install(gen, stamp))
    ensures EntryFresh(Next(s, Install(gen, stamp)))
  {
    hide ApplyOidsAll, ApplyOids, Fresh, Coherent, ReaderCoherent, ReaderFresh;
    var t := Next(s, Install(gen, stamp));
    if s.writer.before.Some? {
      ApplyOidsAllSnoc(s.writer.before.value.data, s.writer.before.value.pending, s.writer.txn);
      DiskIsFresh(s, gen);
      StaysFresh(s, t, gen, s.disk);
    } else if s.cache.Some? {
      StaysFresh(s, t, s.cache.value.gen, Fold(s.cache.value));
    }
  }

  lemma FoldingIsFresh(s: State, i: nat)
    requires FreshInv(s) && Enabled(s, HitAndFold(i))
    ensures EntryFresh(Next(s, HitAndFold(i)))
  {
    hide Fresh, ReaderFresh, Fold;
    var c := s.cache.value;
    FoldNothing(c.gen, c.stamp, Fold(c));
    StaysFresh(s, Next(s, HitAndFold(i)), c.gen, Fold(c));
  }

  lemma StoreIsFresh(s: State, i: nat)
    requires FreshInv(s) && Enabled(s, Store(i))
    ensures EntryFresh(Next(s, Store(i)))
  {
    hide Fresh, Fold;
    var r := s.readers[i];
    assert ReaderFresh(s, r);
    FoldNothing(r.gen, r.stamp, r.data);
    StaysFresh(s, Next(s, Store(i)), r.gen, r.data);
  }

  lemma StepKeepsReadersFresh(s: State, step: Step, i: nat)
    requires Inv(s) && FreshInv(s) && Enabled(s, step) && i in Next(s, step).readers
    ensures ReaderFresh(Next(s, step), Next(s, step).readers[i])
  {
    hide ApplyOidsAll, ApplyOids, DiskRefs, HeadWrites, FreshRefs, FreshHead, Coherent, WriterCoherent;
    var t := Next(s, step);
    assert s.history <= t.history;
    if i in s.readers {
      assert ReaderCoherent(s, s.readers[i]);
      ReaderStaysFresh(s, t, s.readers[i]);
    }
    if i in s.readers && !s.readers[i].Idle? && t.readers[i] != s.readers[i] {
      DiskIsFresh(s, s.readers[i].gen);
      HistoryGrows(s, t, s.readers[i].gen, s.disk);
      if s.cache.Some? {
        HistoryGrows(s, t, s.cache.value.gen, Fold(s.cache.value));
      }
    }
  }

  lemma StepKeepsFresh(s: State, step: Step)
    requires Inv(s) && FreshInv(s) && Enabled(s, step)
    ensures FreshInv(Next(s, step))
  {
    hide ApplyOidsAll, ApplyOids, DiskRefs, HeadWrites, Fresh, ReaderFresh, Inv;
    StepKeepsCacheFresh(s, step);
    forall i | i in Next(s, step).readers
      ensures ReaderFresh(Next(s, step), Next(s, step).readers[i])
    {
      StepKeepsReadersFresh(s, step, i);
    }
  }

  /** What a read returns was on disk at or after the generation the read started in: it reflects every
      write whose generation bump came before. */
  lemma ReadsAreFresh(states: seq<State>, steps: seq<Step>, k: nat, i: nat)
    requires Run(states, steps) && k < |states|
    ensures Inv(states[k]) && FreshInv(states[k])
    ensures i in states[k].readers && states[k].readers[i].Returned? ==>
              Fresh(states[k], states[k].readers[i].gen, states[k].readers[i].data)
  {
    hide Enabled, Next, Inv, Fresh;
    CacheCoherent(states, steps, k);
    if k > 0 {
      ReadsAreFresh(states, steps, k - 1, i);
      StepKeepsFresh(states[k - 1], steps[k - 1]);
      assert states[k - 1 + 1] == Next(states[k - 1], steps[k - 1]);
    }
  }

  // ---- one caller undisturbed: no parsing where the cache knows ----

  /** These steps, each of them possible in its turn, lead from s to t. */
  ghost predicate Leads(s: State, steps: seq<Step>, t: State)
    decreases |steps|
  {
    if steps == [] then s == t
    else
      var last := steps[|steps| - 1];
      exists u :: Leads(s, steps[..|steps| - 1], u) && Enabled(u, last) && t == Next(u, last)
  }

  lemma OneStep(s: State, steps: seq<Step>, u: State, step: Step)
    requires Leads(s, steps, u) && Enabled(u, step)
    ensures Leads(s, steps + [step], Next(u, step))
  {
    hide Enabled, Next;
    var more := steps + [step];
    assert more[..|more| - 1] == steps && more[|more| - 1] == step;
    assert Leads(s, more[..|more| - 1], u);
  }

  lemma {:induction false} LeadsKeepInv(s: State, steps: seq<Step>, t: State)
    requires Leads(s, steps, t) && Inv(s)
    ensures Inv(t)
    decreases |steps|
  {
    hide Enabled, Next, Inv;
    if steps != [] {
      var last := steps[|steps| - 1];
      var u :| Leads(s, steps[..|steps| - 1], u) && Enabled(u, last) && t == Next(u, last);
      LeadsKeepInv(s, steps[..|steps| - 1], u);
      StepKeepsInv(u, last);
    }
  }

  ghost predicate Parses(steps: seq<Step>) {
    exists step :: step in steps && (step.MissReload? || step.ReadHead? || step.ReadRefs?)
  }

  /** The cache holds exactly what is on disk, under the current generation and this stamp. */
  ghost predicate Warm(s: State, stamp: int) {
    Current(s, s.gen, stamp) && Fold(s.cache.value) == s.disk
  }

  lemma CurrentIsWarm(s: State, stamp: int)
    requires Inv(s) && Clean(s) && Current(s, s.gen, stamp)
    ensures Warm(s, stamp)
  {
    SinceBefore(s);
  }

  /** A read by itself: it returns what is on disk, parses if and only if the cache is not current, and
      leaves the cache current with nothing pending; a view leaves a current cache as it is. */
  method Read(s: State, i: nat, stamp: int, view: bool) returns (t: State, data: Oids, ghost steps: seq<Step>)
    requires Inv(s) && Clean(s) && (At(s, i).Idle? || At(s, i).Returned?)
    ensures Leads(s, steps, t) && (Parses(steps) <==> !Current(s, s.gen, stamp))
    ensures data == s.disk == t.disk && At(t, i) == Returned(s.gen, data) && t.gen == s.gen && t.writer == s.writer
    ensures t.cache == if view && Current(s, s.gen, stamp) then s.cache else Some(Cached(s.gen, stamp, s.disk, []))
  {
    hide ApplyOidsAll, ApplyOids, Inv, Leads;
    t, steps := Next(s, Load(i)), [Load(i)];
    FirstStep(s, Load(i));
    OneStep(s, steps, t, Stat(i, stamp));
    t, steps := Next(t, Stat(i, stamp)), steps + [Stat(i, stamp)];
    if Current(s, s.gen, stamp) {
      CurrentIsWarm(s, stamp);
      var hit := if view then HitAndView(i) else HitAndFold(i);
      OneStep(s, steps, t, hit);
      t, steps := Next(t, hit), steps + [hit];
    } else {
      OneStep(s, steps, t, ReadHead(i));
      t, steps := Next(t, ReadHead(i)), steps + [ReadHead(i)];
      assert ReadHead(i) in steps;
      OneStep(s, steps, t, ReadRefs(i));
      t, steps := Next(t, ReadRefs(i)), steps + [ReadRefs(i)];
      OneStep(s, steps, t, Store(i));
      t, steps := Next(t, Store(i)), steps + [Store(i)];
    }
    data := At(t, i).data;
  }

  lemma FirstStep(s: State, step: Step)
    requires Enabled(s, step)
    ensures Leads(s, [step], Next(s, step))
  {
    OneStep(s, [], s, step);
    assert [] + [step] == [step];
  }

  /** From taking the lock to git's own commit; the cache entry is taken along when it is current. */
  method BeginTxn(s: State, txn: RefTxn, stamp: int) returns (t: State, ghost steps: seq<Step>)
    requires s.writer.Rest? && SymbolicOnlyHead(txn)
    ensures Leads(s, steps, t) && !Parses(steps)
    ensures t.writer == Committed(txn, if Current(s, s.gen, stamp) then s.cache else None, s.disk, 0)
    ensures t.disk == s.disk.(refs := DiskRefs(s.disk.refs, txn)) && t.gen == s.gen && t.readers == s.readers && t.cache == s.cache
  {
    hide DiskRefs, HeadWrites, Leads;
    t, steps := Next(s, Lock(txn)), [Lock(txn)];
    FirstStep(s, Lock(txn));
    OneStep(s, steps, t, WriterStat(stamp));
    t, steps := Next(t, WriterStat(stamp)), steps + [WriterStat(stamp)];
    OneStep(s, steps, t, TakeEntry);
    t, steps := Next(t, TakeEntry), steps + [TakeEntry];
    OneStep(s, steps, t, Commit);
    t, steps := Next(t, Commit), steps + [Commit];
  }

  /** From the first generation bump to putting the entry back. */
  method EndTxn(s: State, stamp: int) returns (t: State, ghost steps: seq<Step>)
    requires s.writer.Committed? && s.writer.written == |HeadWrites(s.writer.txn)|
    ensures Leads(s, steps, t) && !Parses(steps)
    ensures t.writer.Rest? && t.disk == s.disk && t.gen == s.gen + 2 && t.readers == s.readers
    ensures t.cache == match s.writer.before
                       case None => s.cache
                       case Some(c) => Some(c.(gen := t.gen, stamp := stamp, pending := c.pending + [s.writer.txn]))
  {
    hide DiskRefs, HeadWrites, Leads;
    t, steps := Next(s, Bump), [Bump];
    FirstStep(s, Bump);
    OneStep(s, steps, t, BumpAgain);
    t, steps := Next(t, BumpAgain), steps + [BumpAgain];
    OneStep(s, steps, t, Install(t.gen, stamp));
    t, steps := Next(t, Install(t.gen, stamp)), steps + [Install(t.gen, stamp)];
  }

  lemma {:induction false} Joined(s: State, first: seq<Step>, t: State, more: seq<Step>, u: State)
    requires Leads(s, first, t) && Leads(t, more, u)
    ensures Leads(s, first + more, u)
    decreases |more|
  {
    hide Enabled, Next;
    if more == [] {
      NothingAppended(first);
    } else {
      var last := more[|more| - 1];
      var w :| Leads(t, more[..|more| - 1], w) && Enabled(w, last) && u == Next(w, last);
      Joined(s, first, t, more[..|more| - 1], w);
      OneStep(s, first + more[..|more| - 1], w, last);
      assert first + more == first + more[..|more| - 1] + [last];
    }
  }

  /** A push by itself: the disk has the transaction applied, nothing is parsed, and a cache that was current
      is current again with the transaction appended to what is pending. */
  method WriteTxn(s: State, txn: RefTxn, stamp: int, after: int) returns (t: State, ghost steps: seq<Step>)
    requires Inv(s) && s.writer.Rest? && SymbolicOnlyHead(txn)
    ensures Leads(s, steps, t) && !Parses(steps)
    ensures t.disk == ApplyOids(s.disk, txn) && t.gen == s.gen + 2 && t.writer.Rest? && t.readers == s.readers
    ensures t.cache == if Current(s, s.gen, stamp) then Some(s.cache.value.(gen := t.gen, stamp := after, pending := s.cache.value.pending + [txn]))
                       else s.cache
    ensures Current(s, s.gen, stamp) ==> Warm(t, after)
  {
    hide ApplyOidsAll, ApplyOids, DiskRefs, HeadWrites, Inv, Leads, Warm, Enabled, Next;
    t, steps := BeginTxn(s, txn, stamp);
    for k := 0 to |HeadWrites(txn)|
      invariant Leads(s, steps, t) && !Parses(steps)
      invariant t.writer == Committed(txn, if Current(s, s.gen, stamp) then s.cache else None, s.disk, k)
      invariant t.gen == s.gen && t.readers == s.readers && t.cache == s.cache
      invariant t.disk == Oids(DiskRefs(s.disk.refs, txn), HeadAfter(s.disk.headTarget, txn, k))
    {
      HeadWritten(t);
      OneStep(s, steps, t, WriteHead);
      t, steps := Next(t, WriteHead), steps + [WriteHead];
    }
    DiskEndsAsApplied(s.disk, txn);
    ghost var begun, more := t, steps;
    t, more := EndTxn(t, after);
    Joined(s, steps, begun, more, t);
    steps := steps + more;
    LeadsKeepInv(s, steps, t);
    if Current(s, s.gen, stamp) {
      CurrentIsWarm(t, after);
    }
  }

  lemma HeadWritten(s: State)
    requires s.writer.Committed? && s.writer.written < |HeadWrites(s.writer.txn)|
    ensures Enabled(s, WriteHead)
    ensures var t := Next(s, WriteHead);
            && t.disk == s.disk.(headTarget := HeadWrites(s.writer.txn)[s.writer.written])
            && t.writer == s.writer.(written := s.writer.written + 1)
            && t.gen == s.gen && t.readers == s.readers && t.cache == s.cache
  {
    hide HeadWrites;
  }
}
