/** The events bridge: a durable cursor over a log that grows and folds, with failing sinks, crashes,
    lost compare-and-swaps and other bridges (crates/walgit-server/src/bridge.rs:98-176, 239-259;
    crates/walgit-wal/src/log_reader.rs:11-76; crates/walgit-wal/src/checkpoint.rs:254-270). */
module Bridge {
  import opened Basics
  import opened Seqs

  /** The stored cursor and its version; versions are never reused. */
  datatype Cursor = Cursor(published: nat, version: nat)

  /** A log object with the entries from first to last. */
  datatype Segment = Segment(first: nat, last: nat)

  datatype Proc =
    | Idle
    | HasManifest(head: nat, readableFrom: nat)
    | HasCursor(head: nat, from: nat, cursor: Option<Cursor>)
    | Working(head: nat, from: nat, cursor: Option<Cursor>, batch: seq<nat>, sinksDone: nat)

  /** The manifest: the log ends at head, segments are those it lists, and entries below minSeq are
      folded away; heads are all the heads it ever had. For each sink, what it was given, in order.
      gaps, cold and short record what the bridges reported, what was folded at a cold start, and what a
      log read left out. */
  datatype State = State(head: nat, minSeq: nat, segments: set<Segment>, heads: set<nat>,
                         cursor: Option<Cursor>, nextVersion: nat,
                         delivered: seq<seq<nat>>, gaps: set<nat>, cold: nat, short: set<nat>, procs: map<nat, Proc>)

  datatype Step =
    | Grow(entries: nat)
    | Fold(seq_: nat)
    | Replace
    | ReadManifest(b: nat)
    | ReadCursor(b: nat)
    | ReadLog(b: nat)
    | Deliver(b: nat)
    | SinkFails(b: nat, sent: nat)
    | Save(b: nat)
    | Crash(b: nat)

  function ProcOf(s: State, b: nat): Proc {
    if b in s.procs then s.procs[b] else Idle
  }

  function WithProc(s: State, b: nat, p: Proc): State {
    s.(procs := s.procs[b := p])
  }

  function Saturating(a: nat): nat {
    if a == 0 then 0 else a - 1
  }

  /** The entries after one number up to another. */
  function Entries(from: nat, head: nat): seq<nat> {
    if head <= from then [] else seq(head - from, i requires 0 <= i < head - from => from + 1 + i)
  }

  predicate Listed(segments: set<Segment>, q: nat) {
    exists g :: g in segments && g.first <= q <= g.last
  }

  /** What a log read returns: of the entries asked for, those in segments that are listed now. */
  function Listing(segments: set<Segment>, from: nat, head: nat): seq<nat> {
    if head <= from then []
    else Listing(segments, from, head - 1) + if Listed(segments, head) then [head] else []
  }

  predicate Enabled(s: State, step: Step) {
    match step
    case Grow(entries) => entries >= 1
    case Fold(seq_) => seq_ in s.heads && s.minSeq <= seq_ + 1
    case Replace => true
    case ReadManifest(b) => ProcOf(s, b).Idle?
    case ReadCursor(b) => ProcOf(s, b).HasManifest?
    case ReadLog(b) => ProcOf(s, b).HasCursor?
    case Deliver(b) => ProcOf(s, b).Working? && ProcOf(s, b).sinksDone < |s.delivered|
    case SinkFails(b, sent) =>
      ProcOf(s, b).Working? && ProcOf(s, b).sinksDone < |s.delivered| && sent <= |ProcOf(s, b).batch|
    case Save(b) => ProcOf(s, b).Working? && ProcOf(s, b).sinksDone >= |s.delivered|
    case Crash(b) => true
  }

  function Give(s: State, sink: nat, batch: seq<nat>): State
    requires sink < |s.delivered|
  {
    s.(delivered := s.delivered[sink := s.delivered[sink] + batch])
  }

  function AfterReadCursor(s: State, b: nat, head: nat, readableFrom: nat): State {
    var cold := if s.cursor.None? && readableFrom > s.cold then readableFrom else s.cold;
    var from := if s.cursor.Some? then s.cursor.value.published else readableFrom;
    var gap := set q | q in Entries(from, readableFrom);
    var start := if from < readableFrom then readableFrom else from;
    WithProc(s.(cold := cold, gaps := s.gaps + gap), b,
             if head > start then HasCursor(head, start, s.cursor) else Working(head, start, s.cursor, [], |s.delivered|))
  }

  /** The read goes by the manifest of this moment, which may be newer than the one read first. An empty
      batch is not published. */
  function AfterReadLog(s: State, b: nat, head: nat, from: nat, cursor: Option<Cursor>): State {
    var batch := Listing(s.segments, from, head);
    var omitted := set q | q in Entries(from, head) && q !in batch;
    WithProc(s.(short := s.short + omitted), b, Working(head, from, cursor, batch, if batch == [] then |s.delivered| else 0))
  }

  function VersionOf(c: Option<Cursor>): Option<nat> {
    if c.Some? then Some(c.value.version) else None
  }

  /** Compare-and-swap on the version that was read; a lost race is only logged. */
  function AfterSave(s: State, b: nat, head: nat, cursor: Option<Cursor>): State {
    if cursor.Some? && cursor.value.published == head then WithProc(s, b, Idle)
    else if VersionOf(s.cursor) == VersionOf(cursor) then
      WithProc(s.(cursor := Some(Cursor(head, s.nextVersion)), nextVersion := s.nextVersion + 1), b, Idle)
    else WithProc(s, b, Idle)
  }

  function Next(s: State, step: Step): State
    requires Enabled(s, step)
  {
    match step
    case Grow(entries) =>
      s.(head := s.head + entries, segments := s.segments + {Segment(s.head + 1, s.head + entries)}, heads := s.heads + {s.head + entries})
    case Fold(seq_) => s.(minSeq := seq_ + 1, segments := set g | g in s.segments && g.last > seq_)
    case Replace => s.(head := s.head + 1, minSeq := s.head + 2, segments := {}, heads := s.heads + {s.head + 1})
    case ReadManifest(b) => WithProc(s, b, HasManifest(s.head, Saturating(s.minSeq)))
    case ReadCursor(b) => AfterReadCursor(s, b, ProcOf(s, b).head, ProcOf(s, b).readableFrom)
    case ReadLog(b) => AfterReadLog(s, b, ProcOf(s, b).head, ProcOf(s, b).from, ProcOf(s, b).cursor)
    case Deliver(b) =>
      var p := ProcOf(s, b);
      WithProc(Give(s, p.sinksDone, p.batch), b, p.(sinksDone := p.sinksDone + 1))
    case SinkFails(b, sent) =>
      var p := ProcOf(s, b);
      WithProc(Give(s, p.sinksDone, p.batch[..sent]), b, Idle)
    case Save(b) => AfterSave(s, b, ProcOf(s, b).head, ProcOf(s, b).cursor)
    case Crash(b) => WithProc(s, b, Idle)
  }

  // ---- the log ----

  /** Segments cover whole stretches between heads, and exactly the entries from minSeq on are listed. */
  ghost predicate LogInv(s: State) {
    && s.minSeq <= s.head + 1 && s.head in s.heads && (forall h | h in s.heads :: h <= s.head)
    && (forall g | g in s.segments :: 1 <= g.first <= g.last <= s.head)
    && (forall g, h | g in s.segments && h in s.heads :: g.last <= h || h < g.first)
    && forall q | q >= 1 :: Listed(s.segments, q) <==> s.minSeq <= q <= s.head
  }

  lemma LogStep(s: State, step: Step)
    requires LogInv(s) && Enabled(s, step)
    ensures LogInv(Next(s, step))
  {
    hide Entries, Listing, Listed;
    match step {
    case Grow(entries) => GrowStep(s, entries);
    case Fold(seq_) => FoldStep(s, seq_);
    case Replace => NothingListed();
    case _ =>
    }
  }

  lemma GrowStep(s: State, entries: nat)
    requires LogInv(s) && entries >= 1
    ensures LogInv(Next(s, Grow(entries)))
  {
    hide Listed;
    var t := Next(s, Grow(entries));
    var g := Segment(s.head + 1, s.head + entries);
    forall q | q >= 1
      ensures Listed(t.segments, q) <==> t.minSeq <= q <= t.head
    {
      ListedMore(s.segments, g, q);
    }
  }

  lemma ListedMore(segments: set<Segment>, g: Segment, q: nat)
    ensures Listed(segments + {g}, q) <==> Listed(segments, q) || g.first <= q <= g.last
  {
    if Listed(segments, q) {
      var h :| h in segments && h.first <= q <= h.last;
      assert h in segments + {g};
    }
    assert g in segments + {g};
  }

  lemma OneSegmentIsWhole(s: State)
    requires s.head == 2 && s.minSeq == 1 && s.segments == {Segment(1, 2)} && s.heads == {0, 2}
    ensures LogInv(s)
  {
    assert Segment(1, 2) in s.segments;
  }

  lemma NothingListed()
    ensures forall q :: !Listed({}, q)
  {
  }

  lemma FoldStep(s: State, seq_: nat)
    requires LogInv(s) && Enabled(s, Fold(seq_))
    ensures LogInv(Next(s, Fold(seq_)))
  {
    var t := Next(s, Fold(seq_));
    forall q | q >= 1
      ensures Listed(t.segments, q) <==> t.minSeq <= q <= t.head
    {
      if Listed(t.segments, q) {
        var g :| g in t.segments && g.first <= q <= g.last;
        assert g in s.segments && Listed(s.segments, q);
      }
      if t.minSeq <= q <= t.head {
        assert Listed(s.segments, q);
        var g :| g in s.segments && g.first <= q <= g.last;
        assert g in t.segments;
      }
    }
  }

  lemma {:induction false} ListingMember(segments: set<Segment>, from: nat, head: nat, q: nat)
    ensures q in Listing(segments, from, head) <==> from < q <= head && Listed(segments, q)
    decreases head
  {
    hide Listed;
    if head > from {
      ListingMember(segments, from, head - 1, q);
    }
  }

  /** A log read leaves out exactly the entries that have been folded away by then. */
  lemma ReadOmits(s: State, b: nat, q: nat)
    requires LogInv(s) && Enabled(s, ReadLog(b)) && ProcOf(s, b).head <= s.head
    ensures q in Next(s, ReadLog(b)).short <==> q in s.short || (ProcOf(s, b).from < q <= ProcOf(s, b).head && q < s.minSeq)
  {
    hide Entries, Listing, Listed;
    var p := ProcOf(s, b);
    ListingMember(s.segments, p.from, p.head, q);
    EntriesMember(p.from, p.head, q);
  }

  // ---- at least once ----

  ghost predicate GivenTo(s: State, q: nat, sinks: nat) {
    forall i | 0 <= i < sinks && i < |s.delivered| :: q in s.delivered[i]
  }

  /** Delivered to every sink, in a reported gap, or folded at a cold start. */
  ghost predicate Accounted(s: State, q: nat) {
    GivenTo(s, q, |s.delivered|) || q in s.gaps || q <= s.cold
  }

  /** Accounted for, or left out by a log read. */
  ghost predicate Met(s: State, q: nat) {
    Accounted(s, q) || q in s.short
  }

  ghost predicate MetTo(s: State, n: nat) {
    forall q: nat | 1 <= q <= n :: Met(s, q)
  }

  ghost predicate ProcInv(s: State, p: Proc) {
    match p
    case Idle => true
    case HasManifest(head, _) => head <= s.head
    case HasCursor(head, from, cursor) => from < head <= s.head && MetTo(s, from)
    case Working(head, from, cursor, batch, done) =>
      head <= s.head && MetTo(s, from)
      && forall q: nat | from < q <= head :: q in s.short || (q in batch && GivenTo(s, q, done))
  }

  ghost predicate Inv(s: State) {
    && (s.cursor.Some? ==> MetTo(s, s.cursor.value.published))
    && forall b | b in s.procs :: ProcInv(s, s.procs[b])
  }

  /** What was accounted for stays so: nothing given, reported or folded is taken back. */
  ghost predicate Extends(s: State, t: State) {
    && |s.delivered| == |t.delivered| && s.gaps <= t.gaps && s.cold <= t.cold && s.short <= t.short && s.head <= t.head
    && forall i | 0 <= i < |s.delivered| :: s.delivered[i] <= t.delivered[i]
  }

  lemma StepExtends(s: State, step: Step)
    requires Enabled(s, step)
    ensures Extends(s, Next(s, step))
  {
    hide Entries, Listing;
  }

  lemma GivenStays(s: State, t: State, q: nat, sinks: nat)
    requires Extends(s, t) && GivenTo(s, q, sinks)
    ensures GivenTo(t, q, sinks)
  {
    forall i | 0 <= i < sinks && i < |t.delivered|
      ensures q in t.delivered[i]
    {
      assert s.delivered[i] <= t.delivered[i] && q in s.delivered[i];
      var k :| 0 <= k < |s.delivered[i]| && s.delivered[i][k] == q;
      assert t.delivered[i][k] == q;
    }
  }

  lemma MetStays(s: State, t: State, n: nat)
    requires Extends(s, t) && MetTo(s, n)
    ensures MetTo(t, n)
  {
    hide GivenTo;
    forall q: nat | 1 <= q <= n
      ensures Met(t, q)
    {
      assert Met(s, q);
      if GivenTo(s, q, |s.delivered|) {
        GivenStays(s, t, q, |s.delivered|);
      }
    }
  }

  lemma ProcStays(s: State, t: State, p: Proc)
    requires Extends(s, t) && ProcInv(s, p)
    ensures ProcInv(t, p)
  {
    hide GivenTo, MetTo;
    if p.HasCursor? {
      MetStays(s, t, p.from);
    }
    if p.Working? {
      MetStays(s, t, p.from);
      forall q: nat | p.from < q <= p.head && q !in t.short
        ensures GivenTo(t, q, p.sinksDone)
      {
        GivenStays(s, t, q, p.sinksDone);
      }
    }
  }

  lemma EntriesMember(from: nat, head: nat, q: nat)
    ensures q in Entries(from, head) <==> from < q <= head
  {
    if from < q <= head {
      assert Entries(from, head)[q - from - 1] == q;
    }
  }

  lemma DeliverKeeps(s: State, b: nat)
    requires Inv(s) && Enabled(s, Deliver(b))
    ensures ProcInv(Next(s, Deliver(b)), ProcOf(Next(s, Deliver(b)), b))
  {
    hide MetTo;
    var t := Next(s, Deliver(b));
    StepExtends(s, Deliver(b));
    var p := ProcOf(s, b);
    assert ProcInv(s, p);
    MetStays(s, t, p.from);
    var done := p.sinksDone + 1;
    forall q: nat | p.from < q <= p.head && q !in t.short
      ensures GivenTo(t, q, done)
    {
      GivenStays(s, t, q, p.sinksDone);
    }
  }

  lemma ReadCursorKeeps(s: State, b: nat)
    requires Inv(s) && Enabled(s, ReadCursor(b))
    ensures ProcInv(Next(s, ReadCursor(b)), ProcOf(Next(s, ReadCursor(b)), b))
  {
    hide GivenTo;
    var t := Next(s, ReadCursor(b));
    StepExtends(s, ReadCursor(b));
    var p := ProcOf(t, b);
    assert ProcInv(s, ProcOf(s, b));
    if s.cursor.Some? {
      MetStays(s, t, s.cursor.value.published);
    }
    forall q: nat | 1 <= q <= p.from
      ensures Met(t, q)
    {
      EntriesMember(if s.cursor.Some? then s.cursor.value.published else ProcOf(s, b).readableFrom, ProcOf(s, b).readableFrom, q);
    }
  }

  lemma ReadLogKeeps(s: State, b: nat)
    requires Inv(s) && Enabled(s, ReadLog(b))
    ensures ProcInv(Next(s, ReadLog(b)), ProcOf(Next(s, ReadLog(b)), b))
  {
    hide MetTo, Entries, Listing;
    var t := Next(s, ReadLog(b));
    StepExtends(s, ReadLog(b));
    var p := ProcOf(s, b);
    assert ProcInv(s, p);
    MetStays(s, t, p.from);
    forall q: nat | p.from < q <= p.head && q !in t.short
      ensures q in ProcOf(t, b).batch && GivenTo(t, q, ProcOf(t, b).sinksDone)
    {
      EntriesMember(p.from, p.head, q);
    }
  }

  /** When every sink has the batch, everything up to the head has been met. */
  lemma ReadyToSave(s: State, p: Proc)
    requires ProcInv(s, p) && p.Working? && p.sinksDone >= |s.delivered|
    ensures MetTo(s, p.head)
  {
    forall q: nat | 1 <= q <= p.head
      ensures Met(s, q)
    {
      if q > p.from && q !in s.short {
        assert GivenTo(s, q, p.sinksDone);
      }
    }
  }

  /** Every step keeps the invariant, with any number of bridges. */
  lemma StepKeepsInv(s: State, step: Step)
    requires Inv(s) && Enabled(s, step)
    ensures Inv(Next(s, step))
  {
    hide ProcInv, MetTo, Entries, Listing;
    var t := Next(s, step);
    StepExtends(s, step);
    if s.cursor.Some? {
      MetStays(s, t, s.cursor.value.published);
    }
    match step {
    case Deliver(b) => DeliverKeeps(s, b);
    case ReadManifest(b) => ManifestProc(s, b);
    case ReadCursor(b) => ReadCursorKeeps(s, b);
    case ReadLog(b) => ReadLogKeeps(s, b);
    case Save(b) =>
      ReadyToSave(s, ProcOf(s, b));
      MetStays(s, t, ProcOf(s, b).head);
    case _ =>
    }
    forall b | b in t.procs
      ensures ProcInv(t, t.procs[b])
    {
      if b in s.procs && t.procs[b] == s.procs[b] {
        ProcStays(s, t, s.procs[b]);
      } else if t.procs[b].Idle? {
        IdleProc(t);
      }
    }
  }

  lemma ManifestProc(s: State, b: nat)
    requires Enabled(s, ReadManifest(b))
    ensures ProcInv(Next(s, ReadManifest(b)), ProcOf(Next(s, ReadManifest(b)), b))
  {
  }

  lemma IdleProc(s: State)
    ensures ProcInv(s, Idle)
  {
  }

  // ---- runs ----

  /** Before any bridge has run. A bridge has at least one sink. */
  ghost predicate Init(s: State) {
    && s.cursor.None? && LogInv(s) && s.gaps == {} && s.cold == 0 && s.short == {} && s.procs == map[] && s.delivered != []
    && forall i | 0 <= i < |s.delivered| :: s.delivered[i] == []
  }

  ghost predicate IsRun(states: seq<State>, steps: seq<Step>) {
    && |states| == |steps| + 1 && Init(states[0])
    && forall i | 0 <= i < |steps| :: Enabled(states[i], steps[i]) && states[i + 1] == Next(states[i], steps[i])
  }

  /** In every run, with log growth, folding, replacement, failing sinks, crashes, lost races and any
      number of bridges, each entry at or below the durable cursor is accounted for or was left out by a
      log read. */
  lemma {:induction false} EveryEntryIsMet(states: seq<State>, steps: seq<Step>, k: nat)
    requires IsRun(states, steps) && k < |states|
    ensures Inv(states[k]) && LogInv(states[k])
    ensures states[k].cursor.Some? ==> forall q: nat | 1 <= q <= states[k].cursor.value.published :: Met(states[k], q)
  {
    hide Enabled, Next, ProcInv, Met, LogInv;
    if k > 0 {
      EveryEntryIsMet(states, steps, k - 1);
      StepKeepsInv(states[k - 1], steps[k - 1]);
      LogStep(states[k - 1], steps[k - 1]);
      assert states[k - 1 + 1] == Next(states[k - 1], steps[k - 1]);
    }
  }

  /** This step is a log read that leaves q out: q is above the start and was folded in the meantime. */
  ghost predicate Omits(s: State, step: Step, q: nat) {
    step.ReadLog? && ProcOf(s, step.b).HasCursor? && ProcOf(s, step.b).from < q <= ProcOf(s, step.b).head && q < s.minSeq
  }

  /** What log reads left out is exactly what lay above a read's start and below minSeq at that read. */
  lemma {:induction false} LeftOutExactly(states: seq<State>, steps: seq<Step>, k: nat, q: nat)
    requires IsRun(states, steps) && k < |states|
    ensures q in states[k].short <==> exists j: nat :: j < k && Omits(states[j], steps[j], q)
  {
    hide Enabled, Next, Inv, LogInv, Omits;
    if k > 0 {
      LeftOutExactly(states, steps, k - 1, q);
      EveryEntryIsMet(states, steps, k - 1);
      assert states[k - 1 + 1] == Next(states[k - 1], steps[k - 1]);
      ShortStep(states[k - 1], steps[k - 1], q);
    }
  }

  lemma ShortStep(s: State, step: Step, q: nat)
    requires Inv(s) && LogInv(s) && Enabled(s, step)
    ensures q in Next(s, step).short <==> q in s.short || Omits(s, step, q)
  {
    hide Entries, Listing, LogInv;
    if step.ReadLog? {
      assert ProcInv(s, ProcOf(s, step.b));
      ReadOmits(s, step.b, q);
    }
  }

  /** Nothing between the start and the log read was folded: the guard a caller would check. */
  ghost predicate Timely(s: State, step: Step) {
    step.ReadLog? && ProcOf(s, step.b).HasCursor? ==> s.minSeq <= ProcOf(s, step.b).from + 1
  }

  /** Safety of every run in which each log read is timely: every entry at or below the durable cursor
      was delivered to every sink, lies in a reported gap, or was folded at a cold start. */
  lemma NothingIsLost(states: seq<State>, steps: seq<Step>, k: nat)
    requires IsRun(states, steps) && k < |states|
    requires forall j | 0 <= j < k :: Timely(states[j], steps[j])
    ensures states[k].short == {}
    ensures states[k].cursor.Some? ==> forall q: nat | 1 <= q <= states[k].cursor.value.published :: Accounted(states[k], q)
  {
    hide Enabled, Next, Inv, LogInv, Accounted;
    forall q: nat
      ensures q !in states[k].short
    {
      forall j: nat | j < k
        ensures !Omits(states[j], steps[j], q)
      {
        assert Timely(states[j], steps[j]);
      }
      LeftOutExactly(states, steps, k, q);
    }
    EveryEntryIsMet(states, steps, k);
    if states[k].cursor.Some? {
      forall q: nat | 1 <= q <= states[k].cursor.value.published
        ensures Accounted(states[k], q)
      {
        assert Met(states[k], q);
      }
    }
  }

  /** The states of a catch-up that a fold to 2 interrupts after the manifest was read. */
  function Interrupted(k: nat): State {
    var s := State(2, 1, {Segment(1, 2)}, {0, 2}, None, 0, [[]], {}, 0, {}, map[]);
    var folded := s.(minSeq := 3, segments := {});
    if k == 0 then s
    else if k == 1 then s.(procs := map[0 := HasManifest(2, 0)])
    else if k == 2 then folded.(procs := map[0 := HasManifest(2, 0)])
    else if k == 3 then folded.(procs := map[0 := HasCursor(2, 0, None)])
    else if k == 4 then folded.(short := {1, 2}, procs := map[0 := Working(2, 0, None, [], 1)])
    else folded.(short := {1, 2}, cursor := Some(Cursor(2, 0)), nextVersion := 1, procs := map[0 := Idle])
  }

  lemma ReadsBeforeFold()
    ensures Enabled(Interrupted(0), ReadManifest(0)) && Next(Interrupted(0), ReadManifest(0)) == Interrupted(1)
    ensures Enabled(Interrupted(1), Fold(2)) && Next(Interrupted(1), Fold(2)) == Interrupted(2)
  {
  }

  lemma ReadsAfterFold()
    ensures Enabled(Interrupted(2), ReadCursor(0)) && Next(Interrupted(2), ReadCursor(0)) == Interrupted(3)
  {
  }

  lemma ReadsNothing()
    ensures Enabled(Interrupted(3), ReadLog(0)) && Next(Interrupted(3), ReadLog(0)) == Interrupted(4)
  {
    hide Listed;
    NothingListed();
    assert Listing({}, 0, 2) == [] by {
      assert Listing({}, 0, 1) == Listing({}, 0, 0);
    }
    assert Entries(0, 2) == [1, 2];
    assert (set q | q in Entries(0, 2) && q !in []) == {1, 2};
  }

  lemma SavesAnyway()
    ensures Enabled(Interrupted(4), Save(0)) && Next(Interrupted(4), Save(0)) == Interrupted(5)
  {
  }

  /** One bridge, no failure: the head is 2, a checkpoint folds both entries after the manifest was read
      and before the log is. The read succeeds with nothing, and the cursor moves over both. */
  lemma FoldDuringCatchUp() returns (states: seq<State>, steps: seq<Step>)
    ensures IsRun(states, steps) && steps == [ReadManifest(0), Fold(2), ReadCursor(0), ReadLog(0), Save(0)]
    ensures states[5].cursor == Some(Cursor(2, 0)) && ProcOf(states[5], 0).Idle?
    ensures !Accounted(states[5], 1) && !Accounted(states[5], 2)
  {
    hide Enabled, Next, Interrupted, Accounted, Init;
    steps := [ReadManifest(0), Fold(2), ReadCursor(0), ReadLog(0), Save(0)];
    states := [Interrupted(0), Interrupted(1), Interrupted(2), Interrupted(3), Interrupted(4), Interrupted(5)];
    NothingYet();
    ReadsBeforeFold();
    ReadsAfterFold();
    ReadsNothing();
    SavesAnyway();
    TwoAreLost();
  }

  lemma NothingYet()
    ensures Init(Interrupted(0))
  {
    hide LogInv;
    OneSegmentIsWhole(Interrupted(0));
  }

  lemma TwoAreLost()
    ensures Interrupted(5).cursor == Some(Cursor(2, 0)) && ProcOf(Interrupted(5), 0).Idle?
    ensures !Accounted(Interrupted(5), 1) && !Accounted(Interrupted(5), 2)
  {
    assert Interrupted(5).delivered[0] == [];
  }

  // ---- one bridge ----

  predicate OnlyBridge(step: Step, b: nat) {
    match step
    case Grow(_) => true
    case Fold(_) => true
    case Replace => true
    case ReadManifest(c) => c == b
    case ReadCursor(c) => c == b
    case ReadLog(c) => c == b
    case Deliver(c) => c == b
    case SinkFails(c, _) => c == b
    case Save(c) => c == b
    case Crash(c) => c == b
  }

  /** With one bridge, what it read is never ahead of the log nor behind the cursor. */
  ghost predicate SoleInv(s: State, b: nat) {
    && s.minSeq <= s.head + 1 && (forall h | h in s.heads :: h <= s.head) && (s.cursor.Some? ==> s.cursor.value.published <= s.head)
    && match ProcOf(s, b)
       case Idle => true
       case HasManifest(head, readableFrom) => readableFrom <= head <= s.head && (s.cursor.Some? ==> s.cursor.value.published <= head)
       case HasCursor(head, from, cursor) => from < head <= s.head && cursor == s.cursor && (s.cursor.Some? ==> s.cursor.value.published <= from)
       case Working(head, from, cursor, _, _) => from <= head <= s.head && cursor == s.cursor && (s.cursor.Some? ==> s.cursor.value.published <= from)
  }

  lemma SoleStep(s: State, step: Step, b: nat)
    requires SoleInv(s, b) && Enabled(s, step) && OnlyBridge(step, b)
    ensures SoleInv(Next(s, step), b)
    ensures s.cursor.Some? ==> Next(s, step).cursor.Some? && s.cursor.value.published <= Next(s, step).cursor.value.published
  {
    hide Entries;
  }

  ghost predicate IsSoleRun(states: seq<State>, steps: seq<Step>, b: nat) {
    IsRun(states, steps) && forall i | 0 <= i < |steps| :: OnlyBridge(steps[i], b)
  }

  lemma {:induction false} SoleRun(states: seq<State>, steps: seq<Step>, b: nat, k: nat)
    requires IsSoleRun(states, steps, b) && k < |states|
    ensures SoleInv(states[k], b)
  {
    hide Enabled, Next;
    if k > 0 {
      SoleRun(states, steps, b, k - 1);
      assert Enabled(states[k - 1], steps[k - 1]) && OnlyBridge(steps[k - 1], b);
      SoleStep(states[k - 1], steps[k - 1], b);
      assert states[k - 1 + 1] == Next(states[k - 1], steps[k - 1]);
    }
  }

  /** With one bridge the cursor never passes the head and never decreases. */
  lemma {:induction false} CursorAdvances(states: seq<State>, steps: seq<Step>, b: nat, j: nat, k: nat)
    requires IsSoleRun(states, steps, b) && j <= k < |states| && states[j].cursor.Some?
    ensures states[k].cursor.Some? && states[j].cursor.value.published <= states[k].cursor.value.published <= states[k].head
  {
    hide Enabled, Next;
    SoleRun(states, steps, b, k);
    if k > j {
      CursorAdvances(states, steps, b, j, k - 1);
      SoleRun(states, steps, b, k - 1);
      assert Enabled(states[k - 1], steps[k - 1]) && OnlyBridge(steps[k - 1], b);
      SoleStep(states[k - 1], steps[k - 1], b);
      assert states[k - 1 + 1] == Next(states[k - 1], steps[k - 1]);
    }
  }

  // ---- the compare-and-swap ----

  /** Versions run below the next one, and the stored cursor's version belongs to it alone. */
  ghost predicate Versioned(s: State) {
    && (s.cursor.Some? ==> s.cursor.value.version < s.nextVersion)
    && forall b | b in s.procs :: ReadVersion(s, s.procs[b])
  }

  ghost predicate ReadVersion(s: State, p: Proc) {
    match p
    case HasCursor(_, _, c) => KnownVersion(s, c)
    case Working(_, _, c, _, _) => KnownVersion(s, c)
    case _ => true
  }

  ghost predicate KnownVersion(s: State, c: Option<Cursor>) {
    c.Some? ==> c.value.version < s.nextVersion && (s.cursor.Some? && s.cursor.value.version == c.value.version ==> s.cursor == c)
  }

  lemma VersionedStep(s: State, step: Step)
    requires Enabled(s, step) && Versioned(s)
    ensures Versioned(Next(s, step)) && s.nextVersion <= Next(s, step).nextVersion
  {
    hide Entries, Listing, Listed;
    var t := Next(s, step);
    forall b | b in t.procs
      ensures ReadVersion(t, t.procs[b])
    {
      assert b in s.procs ==> ReadVersion(s, s.procs[b]);
    }
  }

  lemma {:induction false} VersionedRun(states: seq<State>, steps: seq<Step>, k: nat)
    requires IsRun(states, steps) && k < |states|
    ensures Versioned(states[k])
    ensures forall j | 0 <= j <= k && states[j].cursor.Some? :: states[j].cursor.value.version < states[k].nextVersion
  {
    hide Enabled, Next, Versioned;
    if k == 0 {
      FirstVersioned(states[0]);
    } else {
      VersionedRun(states, steps, k - 1);
      assert Enabled(states[k - 1], steps[k - 1]) && states[k - 1 + 1] == Next(states[k - 1], steps[k - 1]);
      VersionedStep(states[k - 1], steps[k - 1]);
      VersionBelow(states[k]);
    }
  }

  lemma FirstVersioned(s: State)
    requires Init(s)
    ensures Versioned(s) && s.cursor.None?
  {
  }

  lemma VersionBelow(s: State)
    requires Versioned(s)
    ensures s.cursor.Some? ==> s.cursor.value.version < s.nextVersion
  {
  }

  /** The cursor p replaces: the one it read, when that is still stored and p has read further. */
  ghost predicate Replaces(s: State, p: Proc) {
    p.Working? && p.cursor == s.cursor && (p.cursor.None? || p.cursor.value.published != p.head)
  }

  /** No save is lost unnoticed: whatever other bridges did, saving replaces the cursor if and only if the
      stored one is the very one that was read and there is something new, and then stores the head under
      a version no cursor had before. */
  lemma {:induction false} SaveReplacesWhatItRead(states: seq<State>, steps: seq<Step>, b: nat, k: nat)
    requires IsRun(states, steps) && k < |steps| && steps[k] == Save(b)
    ensures var p := ProcOf(states[k], b);
            if Replaces(states[k], p) then states[k + 1].cursor.Some? && states[k + 1].cursor.value.published == p.head
            else states[k + 1].cursor == states[k].cursor
    ensures Replaces(states[k], ProcOf(states[k], b)) ==>
              forall j | 0 <= j <= k && states[j].cursor.Some? :: states[j].cursor.value.version != states[k + 1].cursor.value.version
  {
    VersionedRun(states, steps, k);
    assert Enabled(states[k], steps[k]) && states[k + 1] == Next(states[k], steps[k]);
    assert ReadVersion(states[k], ProcOf(states[k], b));
  }

  // ---- exactly once ----

  predicate Calm(step: Step) {
    !step.SinkFails? && !step.Crash?
  }

  ghost predicate Ascends(s: seq<nat>) {
    forall i, j | 0 <= i < j < |s| :: s[i] < s[j]
  }

  /** Where gaps, folds and finished deliveries end. */
  function Behind(s: State, b: nat): nat {
    match ProcOf(s, b)
    case HasCursor(_, from, _) => from
    case Working(_, from, _, _, _) => from
    case _ => if s.cursor.Some? then s.cursor.value.published else 0
  }

  /** How far a sink has been served. */
  function Limit(s: State, b: nat, sink: nat): nat {
    match ProcOf(s, b)
    case Working(head, from, _, _, done) => if sink < done then head else from
    case _ => Behind(s, b)
  }

  ghost predicate BatchCalm(s: State, b: nat) {
    match ProcOf(s, b)
    case Working(head, from, _, batch, _) => Ascends(batch) && forall q | q in batch :: from < q <= head
    case _ => true
  }

  /** What log reads left out is behind, or belongs to the catch-up under way and is not in its batch. */
  ghost predicate ShortCalm(s: State, b: nat, q: nat) {
    && 1 <= q && q > s.cold && q !in s.gaps
    && match ProcOf(s, b)
       case Working(head, from, _, batch, _) => q <= from || (q <= head && q !in batch)
       case _ => q <= Behind(s, b)
  }

  ghost predicate SinkCalm(s: State, b: nat, i: nat)
    requires i < |s.delivered|
  {
    Ascends(s.delivered[i])
    && forall q | q in s.delivered[i] :: 1 <= q <= Limit(s, b, i) && q !in s.gaps && q > s.cold && q !in s.short
  }

  ghost predicate CalmInv(s: State, b: nat) {
    && SoleInv(s, b) && s.cold <= Behind(s, b) && (forall q | q in s.gaps :: q <= Behind(s, b))
    && BatchCalm(s, b) && (forall q | q in s.short :: ShortCalm(s, b, q))
    && forall i | 0 <= i < |s.delivered| :: SinkCalm(s, b, i)
  }

  lemma BatchAscends(a: seq<nat>, batch: seq<nat>, from: nat)
    requires Ascends(a) && Ascends(batch) && (forall q | q in a :: q <= from) && forall q | q in batch :: from < q
    ensures Ascends(a + batch)
  {
    var t := a + batch;
    forall i, j | 0 <= i < j < |t|
      ensures t[i] < t[j]
    {
      if i < |a| {
        assert t[i] in a;
        if j >= |a| {
          assert t[j] in batch;
        }
      }
    }
  }

  lemma {:induction false} ListingAscends(segments: set<Segment>, from: nat, head: nat)
    ensures Ascends(Listing(segments, from, head))
    decreases head
  {
    hide Listed;
    if head > from {
      ListingAscends(segments, from, head - 1);
      var rest := Listing(segments, from, head - 1);
      forall q | q in rest
        ensures q < head
      {
        ListingMember(segments, from, head - 1, q);
      }
      assert forall i | 0 <= i < |rest| :: rest[i] in rest;
    }
  }

  lemma SinkDelivered(s: State, b: nat, i: nat)
    requires CalmInv(s, b) && Enabled(s, Deliver(b)) && i < |s.delivered|
    ensures SinkCalm(Next(s, Deliver(b)), b, i)
  {
    hide SoleInv, Ascends;
    var p := ProcOf(s, b);
    assert SinkCalm(s, b, i) && SoleInv(s, b);
    SoleFacts(s, b);
    if i == p.sinksDone {
      BatchAscends(s.delivered[i], p.batch, p.from);
      forall q | q in s.short
        ensures q <= p.from || q !in p.batch
      {
        assert ShortCalm(s, b, q);
      }
    }
  }

  lemma ReadCursorCalm(s: State, b: nat)
    requires CalmInv(s, b) && Enabled(s, ReadCursor(b))
    ensures CalmInv(Next(s, ReadCursor(b)), b)
  {
    hide Entries, Ascends, SoleInv;
    var t := Next(s, ReadCursor(b));
    SoleStep(s, ReadCursor(b), b);
    SoleFacts(s, b);
    EmptyAscends();
    var readable := ProcOf(s, b).readableFrom;
    var from := if s.cursor.Some? then s.cursor.value.published else readable;
    forall q: nat
      ensures q in Entries(from, readable) <==> from < q <= readable
    {
      EntriesMember(from, readable, q);
    }
    forall q | q in t.short
      ensures ShortCalm(t, b, q)
    {
      assert ShortCalm(s, b, q);
    }
    forall i | 0 <= i < |t.delivered|
      ensures SinkCalm(t, b, i)
    {
      assert SinkCalm(s, b, i);
      if s.cursor.None? {
        NothingBeforeCursor(s, b, i);
      }
    }
  }

  lemma EmptyAscends()
    ensures Ascends([])
  {
  }

  lemma ReadLogCalm(s: State, b: nat)
    requires CalmInv(s, b) && Enabled(s, ReadLog(b))
    ensures CalmInv(Next(s, ReadLog(b)), b)
  {
    hide Entries, Listing, Ascends, SoleInv, Listed;
    var t := Next(s, ReadLog(b));
    var p := ProcOf(s, b);
    SoleStep(s, ReadLog(b), b);
    SoleFacts(s, b);
    ListingAscends(s.segments, p.from, p.head);
    forall q: nat
      ensures q in Entries(p.from, p.head) <==> p.from < q <= p.head
      ensures q in Listing(s.segments, p.from, p.head) ==> p.from < q <= p.head
    {
      EntriesMember(p.from, p.head, q);
      ListingMember(s.segments, p.from, p.head, q);
    }
    forall q | q in t.short
      ensures ShortCalm(t, b, q)
    {
      if q in s.short {
        assert ShortCalm(s, b, q);
      }
    }
    forall i | 0 <= i < |t.delivered|
      ensures SinkCalm(t, b, i)
    {
      assert SinkCalm(s, b, i);
    }
  }

  lemma CalmStep(s: State, step: Step, b: nat)
    requires CalmInv(s, b) && Enabled(s, step) && OnlyBridge(step, b) && Calm(step)
    ensures CalmInv(Next(s, step), b)
  {
    hide Entries, Ascends, SoleInv, Listing;
    var t := Next(s, step);
    SoleStep(s, step, b);
    SoleFacts(s, b);
    if step.ReadCursor? {
      ReadCursorCalm(s, b);
    } else if step.ReadLog? {
      ReadLogCalm(s, b);
    } else {
      forall q | q in t.short
        ensures ShortCalm(t, b, q)
      {
        assert ShortCalm(s, b, q);
      }
      forall i | 0 <= i < |t.delivered|
        ensures SinkCalm(t, b, i)
      {
        if step.Deliver? {
          SinkDelivered(s, b, i);
        } else {
          assert SinkCalm(s, b, i);
        }
      }
    }
  }

  lemma SoleFacts(s: State, b: nat)
    requires SoleInv(s, b)
    ensures ProcOf(s, b).Working? ==> ProcOf(s, b).from <= ProcOf(s, b).head && ProcOf(s, b).cursor == s.cursor
    ensures ProcOf(s, b).HasCursor? ==> ProcOf(s, b).from < ProcOf(s, b).head && ProcOf(s, b).cursor == s.cursor
    ensures ProcOf(s, b).HasManifest? ==> ProcOf(s, b).readableFrom <= ProcOf(s, b).head
    ensures ProcOf(s, b).HasManifest? && s.cursor.Some? ==> s.cursor.value.published <= ProcOf(s, b).head
  {
  }

  lemma NothingBeforeCursor(s: State, b: nat, i: nat)
    requires i < |s.delivered| && SinkCalm(s, b, i) && s.cursor.None? && (ProcOf(s, b).Idle? || ProcOf(s, b).HasManifest?)
    ensures s.delivered[i] == []
  {
    FirstIsMember(s.delivered[i]);
  }

  ghost predicate IsCalmRun(states: seq<State>, steps: seq<Step>, b: nat) {
    IsSoleRun(states, steps, b) && forall i | 0 <= i < |steps| :: Calm(steps[i])
  }

  lemma {:induction false} CalmRun(states: seq<State>, steps: seq<Step>, b: nat, k: nat)
    requires IsCalmRun(states, steps, b) && k < |states|
    ensures CalmInv(states[k], b) && states[k].delivered != []
  {
    hide Enabled, Next;
    if k > 0 {
      CalmRun(states, steps, b, k - 1);
      assert Enabled(states[k - 1], steps[k - 1]) && OnlyBridge(steps[k - 1], b) && Calm(steps[k - 1]);
      CalmStep(states[k - 1], steps[k - 1], b);
      StepExtends(states[k - 1], steps[k - 1]);
      assert states[k - 1 + 1] == Next(states[k - 1], steps[k - 1]);
    }
  }

  lemma {:induction false} AtMostOnce(s: seq<nat>, q: nat)
    requires Ascends(s)
    ensures multiset(s)[q] == if q in s then 1 else 0
  {
    if s != [] {
      var n := |s| - 1;
      TakeNext(s, n);
      TakeAll(s);
      AtMostOnce(s[..n], q);
      assert forall x | x in s[..n] :: x < s[n];
    }
  }

  /** When nothing fails, the one bridge has given each sink, in order, every entry up to the cursor
      exactly once, except those in a reported gap, folded at the cold start, or left out by a log read,
      and nothing beyond. */
  lemma DeliveredExactly(states: seq<State>, steps: seq<Step>, b: nat, k: nat, sink: nat, q: nat)
    requires IsCalmRun(states, steps, b) && k < |states| && sink < |states[k].delivered|
    requires ProcOf(states[k], b).Idle? && states[k].cursor.Some? && q >= 1
    ensures Ascends(states[k].delivered[sink])
    ensures multiset(states[k].delivered[sink])[q]
         == if q <= states[k].cursor.value.published && q !in states[k].gaps && q > states[k].cold && q !in states[k].short then 1 else 0
  {
    hide Enabled, Next, IsRun, SoleInv, Inv, Ascends, LogInv;
    var s := states[k];
    CalmRun(states, steps, b, k);
    EveryEntryIsMet(states, steps, k);
    assert SinkCalm(s, b, sink);
    AtMostOnce(s.delivered[sink], q);
    if q <= s.cursor.value.published {
      assert Met(s, q);
    }
  }

  /** With timely log reads as well, every entry up to the cursor was delivered exactly once but for gaps
      and what was folded at the cold start. */
  lemma ExactlyOnce(states: seq<State>, steps: seq<Step>, b: nat, k: nat, sink: nat, q: nat)
    requires IsCalmRun(states, steps, b) && k < |states| && sink < |states[k].delivered|
    requires ProcOf(states[k], b).Idle? && states[k].cursor.Some? && q >= 1
    requires forall j | 0 <= j < k :: Timely(states[j], steps[j])
    ensures Ascends(states[k].delivered[sink])
    ensures multiset(states[k].delivered[sink])[q]
         == if q <= states[k].cursor.value.published && q !in states[k].gaps && q > states[k].cold then 1 else 0
  {
    hide Enabled, Next, IsRun, Ascends;
    DeliveredExactly(states, steps, b, k, sink, q);
    NothingIsLost(states, steps, k);
  }

  /** An entry left out is accounted for by nothing else. */
  lemma LeftOutIsLost(states: seq<State>, steps: seq<Step>, b: nat, k: nat, q: nat)
    requires IsCalmRun(states, steps, b) && k < |states| && ProcOf(states[k], b).Idle? && states[k].cursor.Some?
    ensures q in states[k].short ==> 1 <= q <= states[k].cursor.value.published && !Accounted(states[k], q)
  {
    hide Enabled, Next, IsRun, SoleInv, Ascends;
    var s := states[k];
    CalmRun(states, steps, b, k);
    if q in s.short {
      assert ShortCalm(s, b, q) && SinkCalm(s, b, 0);
    }
  }

  /** Exactly when nothing is lost, when nothing fails: an entry at or below the cursor is lost if and
      only if it lay above a catch-up's start and below minSeq at its log read, so nothing is lost if and
      only if at every log read minSeq is at most the start plus one. */
  lemma LostExactly(states: seq<State>, steps: seq<Step>, b: nat, k: nat)
    requires IsCalmRun(states, steps, b) && k < |states| && ProcOf(states[k], b).Idle? && states[k].cursor.Some?
    ensures forall q: nat | 1 <= q <= states[k].cursor.value.published ::
              !Accounted(states[k], q) <==> exists j: nat :: j < k && Omits(states[j], steps[j], q)
    ensures (forall q: nat | 1 <= q <= states[k].cursor.value.published :: Accounted(states[k], q))
       <==> forall j | 0 <= j < k :: Timely(states[j], steps[j])
  {
    hide Enabled, Next, Inv, LogInv, Accounted, Omits, Timely;
    forall q: nat | 1 <= q <= states[k].cursor.value.published
      ensures !Accounted(states[k], q) <==> exists j: nat :: j < k && Omits(states[j], steps[j], q)
    {
      LeftOutExactly(states, steps, k, q);
      LeftOutIsLost(states, steps, b, k, q);
      EveryEntryIsMet(states, steps, k);
      assert Met(states[k], q);
    }
    if j :| 0 <= j < k && !Timely(states[j], steps[j]) {
      var q := UntimelyOmits(states, steps, b, j);
      LeftOutExactly(states, steps, k, q);
      LeftOutIsLost(states, steps, b, k, q);
    } else {
      NothingIsLost(states, steps, k);
    }
  }

  lemma UntimelyOmits(states: seq<State>, steps: seq<Step>, b: nat, j: nat) returns (q: nat)
    requires IsCalmRun(states, steps, b) && j < |steps| && !Timely(states[j], steps[j])
    ensures Omits(states[j], steps[j], q)
  {
    hide Enabled, Next;
    SoleRun(states, steps, b, j);
    assert OnlyBridge(steps[j], b);
    SoleFacts(states[j], b);
    q := ProcOf(states[j], b).from + 1;
  }

  // ---- one catch-up ----

  ghost function After(s: State, steps: seq<Step>): State {
    if steps == [] then s
    else
      var before := After(s, steps[..|steps| - 1]);
      if Enabled(before, steps[|steps| - 1]) then Next(before, steps[|steps| - 1]) else before
  }

  lemma AfterNext(s: State, steps: seq<Step>, step: Step)
    ensures After(s, steps + [step]) == if Enabled(After(s, steps), step) then Next(After(s, steps), step) else After(s, steps)
  {
    assert (steps + [step])[..|steps|] == steps;
  }

  /** Where publishing starts. */
  function StartOf(s: State): nat {
    var readable := Saturating(s.minSeq);
    if s.cursor.Some? && s.cursor.value.published >= readable then s.cursor.value.published else readable
  }

  lemma {:induction false} AfterAppend(s: State, a: seq<Step>, b: seq<Step>)
    ensures After(s, a + b) == After(After(s, a), b)
    decreases |b|
  {
    hide Enabled, Next;
    if b == [] {
      NothingAppended(a);
    } else {
      var n := |b| - 1;
      AfterAppend(s, a, b[..n]);
      assert (a + b)[..|a + b| - 1] == a + b[..n];
    }
  }

  /** The first sinks have the batch, the others do not yet. */
  function GivenFirst(s: State, b: nat, head: nat, start: nat, batch: seq<nat>, k: nat): State {
    WithProc(s.(delivered := seq(|s.delivered|, i requires 0 <= i < |s.delivered| =>
                                   if i < k then s.delivered[i] + batch else s.delivered[i])),
             b, Working(head, start, s.cursor, batch, k))
  }

  /** The sinks before one have the whole batch, that one has part of it, those after it have nothing of it,
      and the catch-up is over. */
  ghost predicate StoppedAt(s: State, t: State, b: nat, batch: seq<nat>, sink: nat, sent: nat) {
    && sink < |s.delivered| == |t.delivered| && sent <= |batch| && ProcOf(t, b).Idle?
    && t.cursor == s.cursor && t.gaps == s.gaps && t.cold == s.cold && t.short == s.short
    && (forall i | 0 <= i < sink :: t.delivered[i] == s.delivered[i] + batch)
    && t.delivered[sink] == s.delivered[sink] + batch[..sent]
    && (forall i | sink < i < |s.delivered| :: t.delivered[i] == s.delivered[i])
  }

  /** Gives every sink the batch in turn; the first sink that fails, after taking part of it, ends this. */
  method Publish(s: State, b: nat, head: nat, start: nat, batch: seq<nat>, failing: Option<(nat, nat)>)
    returns (t: State, ok: bool, ghost steps: seq<Step>)
    requires b in s.procs && s.procs[b] == Working(head, start, s.cursor, batch, 0)
    ensures t == After(s, steps) && forall step | step in steps :: OnlyBridge(step, b)
    ensures ok <==> failing.None? || failing.value.0 >= |s.delivered|
    ensures ok ==> t == GivenFirst(s, b, head, start, batch, |s.delivered|)
    ensures !ok ==> StoppedAt(s, t, b, batch, failing.value.0, if failing.value.1 <= |batch| then failing.value.1 else |batch|)
  {
    hide Next, GivenFirst, Enabled, StoppedAt;
    t, steps := s, [];
    NoneGiven(s, b, head, start, batch, 0);
    for k := 0 to |s.delivered|
      invariant t == After(s, steps) && t == GivenFirst(s, b, head, start, batch, k) && forall step | step in steps :: OnlyBridge(step, b)
      invariant failing.Some? ==> k <= failing.value.0 || failing.value.0 >= |s.delivered|
    {
      GivenNext(s, b, head, start, batch, k);
      if failing.Some? && failing.value.0 == k {
        var sent := if failing.value.1 <= |batch| then failing.value.1 else |batch|;
        FailedNext(s, b, head, start, batch, k, sent);
        AfterNext(s, steps, SinkFails(b, sent));
        t := Next(t, SinkFails(b, sent));
        steps := steps + [SinkFails(b, sent)];
        return t, false, steps;
      }
      AfterNext(s, steps, Deliver(b));
      t := Next(t, Deliver(b));
      steps := steps + [Deliver(b)];
    }
    ok := true;
  }

  lemma GivenNext(s: State, b: nat, head: nat, start: nat, batch: seq<nat>, k: nat)
    requires k < |s.delivered|
    ensures Enabled(GivenFirst(s, b, head, start, batch, k), Deliver(b))
    ensures Next(GivenFirst(s, b, head, start, batch, k), Deliver(b)) == GivenFirst(s, b, head, start, batch, k + 1)
  {
    var t := GivenFirst(s, b, head, start, batch, k);
    assert t.delivered[k := t.delivered[k] + batch] == GivenFirst(s, b, head, start, batch, k + 1).delivered;
  }

  lemma FailedNext(s: State, b: nat, head: nat, start: nat, batch: seq<nat>, k: nat, sent: nat)
    requires k < |s.delivered| && sent <= |batch|
    ensures Enabled(GivenFirst(s, b, head, start, batch, k), SinkFails(b, sent))
    ensures StoppedAt(s, Next(GivenFirst(s, b, head, start, batch, k), SinkFails(b, sent)), b, batch, k, sent)
  {
  }

  lemma NoneGiven(s: State, b: nat, head: nat, start: nat, batch: seq<nat>, k: nat)
    requires b in s.procs && s.procs[b] == Working(head, start, s.cursor, batch, k) && (k == 0 || batch == [])
    ensures GivenFirst(s, b, head, start, batch, k) == s
  {
    assert forall i | 0 <= i < |s.delivered| :: s.delivered[i] + [] == s.delivered[i];
    assert GivenFirst(s, b, head, start, batch, k).delivered == s.delivered;
    assert s.procs[b := s.procs[b]] == s.procs;
  }

  function GapOf(s: State): set<nat> {
    if s.cursor.Some? then set q | q in Entries(s.cursor.value.published, StartOf(s)) else {}
  }

  /** Where a catch-up of s starts: at the cursor, or where the log is readable from when that is further. */
  ghost predicate StartsAt(s: State, start: nat) {
    && start >= s.minSeq - 1 && (s.cursor.Some? ==> start >= s.cursor.value.published)
    && (start == 0 || start == s.minSeq - 1 || (s.cursor.Some? && start == s.cursor.value.published))
  }

  /** more is the entries after start up to head, in order. */
  ghost predicate Numbers(start: nat, head: nat, more: seq<nat>) {
    && |more| == (if head > start then head - start else 0)
    && forall i | 0 <= i < |more| :: more[i] == start + 1 + i
  }

  /** What a catch-up that succeeds changes, in plain numbers. */
  ghost predicate Delivered(s: State, t: State) {
    && |t.delivered| == |s.delivered|
    && (exists start, more :: StartsAt(s, start) && Numbers(start, s.head, more)
                              && forall i | 0 <= i < |s.delivered| :: t.delivered[i] == s.delivered[i] + more)
    && CursorSaved(s, t)
  }

  ghost predicate CursorSaved(s: State, t: State) {
    t.cursor == if s.cursor.Some? && s.cursor.value.published == s.head then s.cursor else Some(Cursor(s.head, s.nextVersion))
  }

  lemma GapPlainly(s: State)
    ensures forall q: nat :: q in GapOf(s) <==> s.cursor.Some? && s.cursor.value.published < q < s.minSeq
  {
    forall q: nat
      ensures q in GapOf(s) <==> s.cursor.Some? && s.cursor.value.published < q < s.minSeq
    {
      if s.cursor.Some? {
        EntriesMember(s.cursor.value.published, StartOf(s), q);
      }
    }
  }

  /** What the whole sequence leaves for one bridge when every sink accepts. */
  ghost predicate CaughtUp(s: State, t: State) {
    && t.cursor.Some? && t.cursor.value.published == s.head && |t.delivered| == |s.delivered|
    && forall i | 0 <= i < |s.delivered| :: t.delivered[i] == s.delivered[i] + Entries(StartOf(s), s.head)
  }

  /** The whole sequence for one bridge, undisturbed, with at most one sink that fails after taking part
      of the batch. A failure leaves the cursor where it was; success leaves it at the head, and every
      sink has exactly the entries since the start appended. */
  method CatchUp(s: State, b: nat, failing: Option<(nat, nat)>) returns (t: State, ok: bool, ghost steps: seq<Step>)
    requires LogInv(s) && ProcOf(s, b).Idle?
    ensures t == After(s, steps) && forall step | step in steps :: OnlyBridge(step, b)
    ensures t.gaps == s.gaps + GapOf(s) && t.short == s.short
    ensures forall q: nat :: q in t.gaps <==> q in s.gaps || (s.cursor.Some? && s.cursor.value.published < q < s.minSeq)
    ensures ok <==> failing.None? || failing.value.0 >= |s.delivered| || s.head <= StartOf(s)
    ensures ok ==> CaughtUp(s, t) && Delivered(s, t)
    ensures !ok ==> t.cursor == s.cursor
  {
    hide Entries, Listing, Next, After, Enabled, LogInv, StartOf, GapOf, CaughtUp, CursorSaved, Delivered;
    ReadDone(s, b);
    GapPlainly(s);
    t := Next(s, ReadManifest(b));
    t := Next(t, ReadCursor(b));
    steps := [ReadManifest(b), ReadCursor(b)];
    var start := StartOf(s);
    ok := true;
    ghost var given;
    if s.head > start {
      LogDone(s, t, b);
      AfterNext(s, steps, ReadLog(b));
      t := Next(t, ReadLog(b));
      steps := steps + [ReadLog(b)];
      given := t;
      ghost var more;
      t, ok, more := Publish(t, b, s.head, start, ProcOf(t, b).batch, failing);
      AfterAppend(s, steps, more);
      steps := steps + more;
      if !ok {
        return;
      }
    } else {
      given := t;
      NoneGiven(t, b, s.head, start, [], |s.delivered|);
      NoEntries(start, s.head);
    }
    SaveDone(s, given, b);
    AfterNext(s, steps, Save(b));
    t := Next(t, Save(b));
    steps := steps + [Save(b)];
    CaughtUpPlainly(s, t);
  }

  /** What reading the manifest and then the cursor finds. */
  ghost predicate CursorRead(s: State, t: State, b: nat) {
    && t.cursor == s.cursor && t.nextVersion == s.nextVersion && t.delivered == s.delivered && t.gaps == s.gaps + GapOf(s) && t.short == s.short && t.segments == s.segments
    && b in t.procs
    && t.procs[b] == if s.head > StartOf(s) then HasCursor(s.head, StartOf(s), s.cursor)
                     else Working(s.head, StartOf(s), s.cursor, [], |s.delivered|)
  }

  lemma ReadDone(s: State, b: nat)
    requires ProcOf(s, b).Idle?
    ensures Enabled(s, ReadManifest(b)) && Enabled(Next(s, ReadManifest(b)), ReadCursor(b))
    ensures Next(Next(s, ReadManifest(b)), ReadCursor(b)) == After(s, [ReadManifest(b), ReadCursor(b)])
    ensures CursorRead(s, Next(Next(s, ReadManifest(b)), ReadCursor(b)), b)
  {
    hide Entries, After, Next, CursorRead;
    ReadsEnabled(s, b);
    assert After(s, []) == s by { AfterNothing(s); }
    AfterNext(s, [], ReadManifest(b));
    assert [] + [ReadManifest(b)] == [ReadManifest(b)];
    AfterNext(s, [ReadManifest(b)], ReadCursor(b));
    assert [ReadManifest(b)] + [ReadCursor(b)] == [ReadManifest(b), ReadCursor(b)];
    CursorFound(s, b);
  }

  lemma AfterNothing(s: State)
    ensures After(s, []) == s
  {
  }

  lemma ReadsEnabled(s: State, b: nat)
    requires ProcOf(s, b).Idle?
    ensures Enabled(s, ReadManifest(b)) && Enabled(Next(s, ReadManifest(b)), ReadCursor(b))
  {
  }

  lemma CursorFound(s: State, b: nat)
    requires Enabled(s, ReadManifest(b)) && Enabled(Next(s, ReadManifest(b)), ReadCursor(b))
    ensures CursorRead(s, Next(Next(s, ReadManifest(b)), ReadCursor(b)), b)
  {
    hide Entries, After;
    var readable := Saturating(s.minSeq);
    NoEntries(if s.cursor.Some? then s.cursor.value.published else readable, readable);
    NoEntries(StartOf(s), StartOf(s));
  }

  /** When nothing was folded since, the log read finds everything from the start to the head. */
  lemma LogDone(s: State, t: State, b: nat)
    requires LogInv(s) && CursorRead(s, t, b) && s.head > StartOf(s)
    ensures Enabled(t, ReadLog(b))
    ensures var u := Next(t, ReadLog(b));
            && u.cursor == s.cursor && u.nextVersion == s.nextVersion && u.delivered == s.delivered && u.gaps == t.gaps && u.short == s.short
            && b in u.procs && u.procs[b] == Working(s.head, StartOf(s), s.cursor, Entries(StartOf(s), s.head), 0)
  {
    hide Entries, Listing, Listed;
    var start := StartOf(s);
    WholeListing(s.segments, start, s.head);
    EntriesMember(start, s.head, s.head);
  }

  lemma {:induction false} WholeListing(segments: set<Segment>, from: nat, head: nat)
    requires forall q: nat | from < q <= head :: Listed(segments, q)
    ensures Listing(segments, from, head) == Entries(from, head)
    decreases head
  {
    hide Listed;
    if head > from {
      WholeListing(segments, from, head - 1);
      assert Entries(from, head) == Entries(from, head - 1) + [head];
    }
  }

  lemma SaveDone(s: State, given: State, b: nat)
    requires b in given.procs && given.delivered == s.delivered && given.cursor == s.cursor && given.nextVersion == s.nextVersion
    ensures var t := GivenFirst(given, b, s.head, StartOf(s), Entries(StartOf(s), s.head), |s.delivered|);
            Enabled(t, Save(b)) && Next(t, Save(b)).gaps == given.gaps && Next(t, Save(b)).short == given.short
            && CaughtUp(s, Next(t, Save(b))) && CursorSaved(s, Next(t, Save(b)))
  {
    hide Entries;
  }

  lemma CaughtUpPlainly(s: State, t: State)
    requires CaughtUp(s, t) && CursorSaved(s, t)
    ensures Delivered(s, t)
  {
    assert StartsAt(s, StartOf(s)) && Numbers(StartOf(s), s.head, Entries(StartOf(s), s.head));
  }

  lemma NoEntries(from: nat, head: nat)
    ensures head <= from ==> Entries(from, head) == []
  {
  }
}
