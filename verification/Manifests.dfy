/** The manifest: the live pack set, the packs retired from it, and what it serves
    (crates/walgit-proto/src/inventory.rs:7-33). */
module Manifests {
  import opened Basics
  import opened Seqs

  datatype PackKind = Objects | History | Blobs

  datatype PackRef = PackRef(checksum: string, packSize: nat, idxSize: nat, hasRev: bool, hasBitmap: bool, hasGraph: bool,
                             seq_: nat, kind: PackKind, derivedFrom: string)

  datatype Retired = Retired(checksum: string, seq_: nat)

  /** Keys of the object store that a manifest can name. */
  datatype Key =
    | PackKey(checksum: string) | IdxKey(checksum: string) | RevKey(checksum: string)
    | BitmapKey(checksum: string) | GraphKey(checksum: string)
    | RefsKey(tips: string, seq_: nat) | CheckpointKey(seq_: nat, attempt: nat)

  datatype Checkpoint = Checkpoint(seq_: nat, key: Key, refsKey: Key)

  datatype Manifest = Manifest(headSeq: nat, minSeq: nat, packs: seq<PackRef>, retired: seq<Retired>,
                               checkpoint: Option<Checkpoint>, logSegments: seq<nat>, forgeNextNumber: nat, revision: nat)

  predicate Live(packs: seq<PackRef>, checksum: string) {
    exists p :: p in packs && p.checksum == checksum
  }

  predicate Recorded(retired: seq<Retired>, checksum: string) {
    exists r :: r in retired && r.checksum == checksum
  }

  /** Live, or retired and still downloadable. */
  predicate Serves(m: Manifest, checksum: string) {
    Live(m.packs, checksum) || Recorded(m.retired, checksum)
  }

  ghost predicate Names(m: Manifest, k: Key) {
    || (exists p :: p in m.packs && NamesFile(p, k))
    || (m.checkpoint.Some? && (k == m.checkpoint.value.key || k == m.checkpoint.value.refsKey))
  }

  predicate NamesFile(p: PackRef, k: Key) {
    match k
    case PackKey(c) => p.checksum == c
    case IdxKey(c) => p.checksum == c
    case RevKey(c) => p.checksum == c && p.hasRev
    case BitmapKey(c) => p.checksum == c && p.hasBitmap
    case GraphKey(c) => p.checksum == c && p.hasGraph
    case _ => false
  }

  /** The retired list after the packs' requested members are recorded, once each. */
  function Retire(retired: seq<Retired>, packs: seq<PackRef>, requested: set<string>, at: nat): seq<Retired> {
    if packs == [] then retired
    else
      var before := Retire(retired, packs[..|packs| - 1], requested, at);
      var c := packs[|packs| - 1].checksum;
      if c in requested && !Recorded(before, c) then before + [Retired(c, at)] else before
  }

  method RetirePacksAt(m: Manifest, requested: set<string>, at: nat) returns (r: Manifest)
    ensures r == m.(retired := Retire(m.retired, m.packs, requested, at))
  {
    var retired := m.retired;
    var recorded := set r | r in m.retired :: r.checksum;
    for i := 0 to |m.packs|
      invariant retired == Retire(m.retired, m.packs[..i], requested, at)
      invariant forall c :: c in recorded <==> Recorded(retired, c)
    {
      TakeNext(m.packs, i);
      assert m.packs[..i + 1][..i] == m.packs[..i];
      var c := m.packs[i].checksum;
      if c in requested && c !in recorded {
        RecordedNext(retired, Retired(c, at));
        recorded := recorded + {c};
        retired := retired + [Retired(c, at)];
      }
    }
    TakeAll(m.packs);
    r := m.(retired := retired);
  }

  lemma RecordedNext(retired: seq<Retired>, r: Retired)
    ensures forall c :: Recorded(retired + [r], c) <==> Recorded(retired, c) || c == r.checksum
  {
    forall c | Recorded(retired, c)
      ensures Recorded(retired + [r], c)
    {
      var q :| q in retired && q.checksum == c;
      assert q in retired + [r];
    }
    assert r in retired + [r];
  }

  /** Retiring forgets nothing, records exactly the requested live members, and each only once. */
  lemma {:induction false} RetireIsExact(retired: seq<Retired>, packs: seq<PackRef>, requested: set<string>, at: nat)
    ensures retired <= Retire(retired, packs, requested, at)
    ensures forall c :: Recorded(Retire(retired, packs, requested, at), c)
                   <==> Recorded(retired, c) || (c in requested && Live(packs, c))
    ensures forall i, j | |retired| <= j < |Retire(retired, packs, requested, at)| && 0 <= i < j ::
              Retire(retired, packs, requested, at)[i].checksum != Retire(retired, packs, requested, at)[j].checksum
    decreases |packs|
  {
    if packs != [] {
      var n := |packs| - 1;
      TakeNext(packs, n);
      TakeAll(packs);
      RetireIsExact(retired, packs[..n], requested, at);
      LiveNext(packs[..n], packs[n]);
      var before := Retire(retired, packs[..n], requested, at);
      RecordedNext(before, Retired(packs[n].checksum, at));
    }
  }

  lemma LiveNext(packs: seq<PackRef>, p: PackRef)
    ensures forall c :: Live(packs + [p], c) <==> Live(packs, c) || c == p.checksum
  {
    forall c | Live(packs, c)
      ensures Live(packs + [p], c)
    {
      var q :| q in packs && q.checksum == c;
      assert q in packs + [p];
    }
    assert p in packs + [p];
  }
}
