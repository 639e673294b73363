/** Splicing packfile URIs into a native fetch response: synthetic acknowledgements go, the URI and
    index sections come before the packfile section, everything else is passed on
    (crates/walgit-git/src/packfile_uri.rs; gitprotocol-v2, section "fetch"). */
module PackfileUris {
  import opened Basics
  import opened Seqs
  import opened PktLines

  datatype IndexUri = IndexUri(checksum: seq<byte>, url: seq<byte>)

  datatype PackfileUri = PackfileUri(checksum: seq<byte>, url: seq<byte>, index: Option<IndexUri>)

  const SPACE: byte := 32
  const NEWLINE: byte := 10

  predicate Spells(bytes: seq<byte>, s: string) {
    |bytes| == |s| && forall i | 0 <= i < |s| :: bytes[i] == s[i] as int
  }

  const ACK: seq<byte> := [65, 67, 75, 32]
  const PACKFILE: seq<byte> := [112, 97, 99, 107, 102, 105, 108, 101, 10]
  const PACKFILE_URIS: seq<byte> := PACKFILE[..8] + [45, 117, 114, 105, 115, 10]
  const PACKFILE_INDEXES: seq<byte> := PACKFILE[..8] + [45, 105, 110, 100, 101, 120, 101, 115, 10]

  lemma Headings()
    ensures Spells(ACK, "ACK ") && Spells(PACKFILE, "packfile\n")
    ensures Spells(PACKFILE_URIS, "packfile-uris\n") && Spells(PACKFILE_INDEXES, "packfile-indexes\n")
  {
  }

  // ---- the lines that are inserted ----

  function UriLine(p: PackfileUri): seq<byte> {
    p.checksum + [SPACE] + p.url + [NEWLINE]
  }

  function IndexLine(p: PackfileUri): seq<byte>
    requires p.index.Some?
  {
    p.checksum + [SPACE] + p.index.value.checksum + [SPACE] + p.index.value.url + [NEWLINE]
  }

  /** A response line's packet payload: with sideband-all framing it travels on channel 1. */
  function Framed(data: seq<byte>, sideband: bool): seq<byte> {
    if sideband then [1] + data else data
  }

  function UriPackets(packs: seq<PackfileUri>, sideband: bool): seq<Packet> {
    if packs == [] then [] else [Data(Framed(UriLine(packs[0]), sideband))] + UriPackets(packs[1..], sideband)
  }

  function IndexPackets(packs: seq<PackfileUri>, sideband: bool): seq<Packet> {
    if packs == [] then []
    else
      (if packs[0].index.Some? then [Data(Framed(IndexLine(packs[0]), sideband))] else [])
      + IndexPackets(packs[1..], sideband)
  }

  ghost predicate AnyIndex(packs: seq<PackfileUri>) {
    exists p :: p in packs && p.index.Some?
  }

  /** A section: its heading, its lines and a delimiter. */
  function Part(heading: seq<byte>, lines: seq<Packet>, sideband: bool): seq<Packet> {
    [Data(Framed(heading, sideband))] + lines + [Delim]
  }

  /** The URI section and, when some pack has an index, the index section. */
  ghost function Sections(packs: seq<PackfileUri>, sideband: bool): seq<Packet> {
    Part(PACKFILE_URIS, UriPackets(packs, sideband), sideband)
    + if AnyIndex(packs) then Part(PACKFILE_INDEXES, IndexPackets(packs, sideband), sideband) else []
  }

  // ---- what happens to each packet of the native response ----

  datatype Action = Copy | Drop | Section | Refuse

  /** The length of the white-space character, in UTF-8, that ends s, or 0 when none does. */
  function WhiteTail(s: seq<byte>): (n: nat)
    ensures n <= |s|
  {
    var n := |s|;
    if n >= 1 && (9 <= s[n - 1] <= 13 || s[n - 1] == 32) then 1
    else if n >= 2 && s[n - 2] == 0xC2 && (s[n - 1] == 0x85 || s[n - 1] == 0xA0) then 2
    else if n >= 3 && WhiteTriple(s[n - 3], s[n - 2], s[n - 1]) then 3
    else 0
  }

  /** U+1680, U+2000 to U+200A, U+2028, U+2029, U+202F, U+205F and U+3000. */
  predicate WhiteTriple(a: byte, b: byte, c: byte) {
    || (a == 0xE1 && b == 0x9A && c == 0x80)
    || (a == 0xE2 && b == 0x80 && (0x80 <= c <= 0x8A || c == 0xA8 || c == 0xA9 || c == 0xAF))
    || (a == 0xE2 && b == 0x81 && c == 0x9F)
    || (a == 0xE3 && b == 0x80 && c == 0x80)
  }

  /** The number three bytes of UTF-8 encode, or -1 when they do not. */
  ghost function CodePoint(a: int, b: int, c: int): int {
    if 0xE0 <= a < 0xF0 && 0x80 <= b < 0xC0 && 0x80 <= c < 0xC0 then (a - 0xE0) * 4096 + (b - 0x80) * 64 + (c - 0x80) else -1
  }

  /** The white tail read as UTF-8: its last one, two or three bytes encode a code point with the Unicode
      property White_Space. */
  lemma WhiteTailSpelled(s: seq<byte>)
    ensures WhiteTail(s) <= 3
    ensures WhiteTail(s) == 1 <==> |s| >= 1 && s[|s| - 1] in {9, 10, 11, 12, 13, 32}
    ensures WhiteTail(s) == 2 <==> |s| >= 2 && s[|s| - 2] == 0xC2 && s[|s| - 1] in {0x85, 0xA0}
    ensures WhiteTail(s) == 3 <==> |s| >= 3 && CodePoint(s[|s| - 3], s[|s| - 2], s[|s| - 1]) in WIDE_SPACES
  {
  }

  const WIDE_SPACES: set<int> := {0x1680, 0x2000, 0x2001, 0x2002, 0x2003, 0x2004, 0x2005, 0x2006, 0x2007, 0x2008, 0x2009, 0x200A,
                                  0x2028, 0x2029, 0x202F, 0x205F, 0x3000}

  function TrimEnd(s: seq<byte>): seq<byte>
    decreases |s|
  {
    if WhiteTail(s) > 0 then TrimEnd(s[..|s| - WhiteTail(s)]) else s
  }

  predicate SyntheticAck(payload: seq<byte>, synthetic: set<seq<byte>>) {
    ACK <= payload && TrimEnd(payload[4..]) in synthetic
  }

  function PayloadAction(payload: seq<byte>, synthetic: set<seq<byte>>): Action {
    if SyntheticAck(payload, synthetic) then Drop
    else if payload == PACKFILE then Section
    else Copy
  }

  function ActionFor(p: Packet, synthetic: set<seq<byte>>, sideband: bool): Action {
    match p
    case Delim => Copy
    case Flush => Refuse
    case ResponseEnd => Refuse
    case Data(d) =>
      if !sideband then PayloadAction(d, synthetic)
      else if d == [] then Refuse
      else if d[0] == 1 then PayloadAction(d[1..], synthetic)
      else if d[0] == 2 || d[0] == 3 then Copy
      else Refuse
  }

  /** What happens to a packet, spelled out: a flush or the response's end before the heading, an empty sideband
      packet and one of an unknown channel are refused; the heading starts the sections; an acknowledgement of
      a synthetic root is dropped; all else is passed on. */
  lemma ActionSpelled(p: Packet, synthetic: set<seq<byte>>, sideband: bool)
    ensures ActionFor(p, synthetic, sideband) == Refuse <==>
              || p == Flush || p == ResponseEnd || (sideband && p.Data? && (p.data == [] || p.data[0] !in {1, 2, 3}))
    ensures ActionFor(p, synthetic, sideband) == Section <==>
              p.Data? && p.data == (if sideband then [1] else []) + [112, 97, 99, 107, 102, 105, 108, 101, 10]
    ensures ActionFor(p, synthetic, sideband) == Drop <==>
              exists ack :: p == Data((if sideband then [1] else []) + [65, 67, 75, 32] + ack) && TrimEnd(ack) in synthetic
  {
    if p.Data? && (!sideband || (p.data != [] && p.data[0] == 1)) {
      var payload := if sideband then p.data[1..] else p.data;
      var channel: seq<byte> := if sideband then [1] else [];
      assert p.data == channel + payload;
      PayloadSpelled(p.data, channel, payload, synthetic);
    }
    hide TrimEnd;
  }

  lemma PayloadSpelled(data: seq<byte>, channel: seq<byte>, payload: seq<byte>, synthetic: set<seq<byte>>)
    requires data == channel + payload
    ensures payload == PACKFILE <==> data == channel + [112, 97, 99, 107, 102, 105, 108, 101, 10]
    ensures SyntheticAck(payload, synthetic) <==> exists ack :: data == channel + [65, 67, 75, 32] + ack && TrimEnd(ack) in synthetic
    ensures payload == PACKFILE ==> !SyntheticAck(payload, synthetic)
  {
    hide TrimEnd;
    assert PACKFILE[0] != ACK[0];
    assert payload == data[|channel|..];
    if SyntheticAck(payload, synthetic) {
      assert data == channel + [65, 67, 75, 32] + payload[4..];
    }
    if ack :| data == channel + [65, 67, 75, 32] + ack && TrimEnd(ack) in synthetic {
      assert payload == [65, 67, 75, 32] + ack && payload[4..] == ack;
    }
  }

  /** The bytes written for a packet that is passed on. */
  function Emitted(p: Packet): seq<byte> {
    match p
    case Data(d) => Written(d)
    case Flush => LenHex(0)
    case Delim => LenHex(1)
    case ResponseEnd => LenHex(2)
  }

  function EmittedAll(packets: seq<Packet>): seq<byte> {
    if packets == [] then [] else Emitted(packets[0]) + EmittedAll(packets[1..])
  }

  lemma {:induction false} EmittedConcat(a: seq<Packet>, b: seq<Packet>)
    ensures EmittedAll(a + b) == EmittedAll(a) + EmittedAll(b)
    decreases a
  {
    hide Emitted;
    if a == [] {
      NothingAppended(b);
      NothingAppended(EmittedAll(b));
    } else {
      DropAppend(a, b, 1);
      EmittedConcat(a[1..], b);
      Associative(Emitted(a[0]), EmittedAll(a[1..]), EmittedAll(b));
    }
  }

  lemma EmittedOne(p: Packet)
    ensures EmittedAll([p]) == Emitted(p)
  {
    hide Emitted;
    NothingAppended(Emitted(p));
  }

  // ---- the read loop ----

  /** The whole output for an input stream, or None when the response cannot deliver the URIs. */
  ghost function Spliced(s: seq<byte>, packs: seq<PackfileUri>, synthetic: set<seq<byte>>, sideband: bool): Option<seq<byte>>
    decreases |s|
  {
    match NextPacket(s)
    case End => None
    case Broken => None
    case Next(p, rest) =>
      match ActionFor(p, synthetic, sideband)
      case Refuse => None
      case Drop => Spliced(rest, packs, synthetic, sideband)
      case Copy => Before(Emitted(p), Spliced(rest, packs, synthetic, sideband))
      case Section => Some(EmittedAll(Sections(packs, sideband)) + Emitted(p) + rest)
  }

  function Before(out: seq<byte>, r: Option<seq<byte>>): Option<seq<byte>> {
    match r
    case None => None
    case Some(more) => Some(out + more)
  }

  lemma BeforeBefore(a: seq<byte>, b: seq<byte>, r: Option<seq<byte>>)
    ensures Before(a, Before(b, r)) == Before(a + b, r)
  {
    if r.Some? {
      Associative(a, b, r.value);
    }
  }

  method Line(out: seq<byte>, data: seq<byte>, sideband: bool) returns (r: seq<byte>)
    ensures r == out + Emitted(Data(Framed(data, sideband)))
  {
    if sideband {
      r := WritePktLine(out, [1] + data);
    } else {
      r := WritePktLine(out, data);
    }
  }

  method WriteUriLines(out: seq<byte>, packs: seq<PackfileUri>, sideband: bool) returns (r: seq<byte>)
    ensures r == out + EmittedAll(UriPackets(packs, sideband))
  {
    hide Emitted;
    r := out;
    NothingAppended(out);
    for i := 0 to |packs|
      invariant r + EmittedAll(UriPackets(packs[i..], sideband)) == out + EmittedAll(UriPackets(packs, sideband))
    {
      DropDrop(packs, i, 1);
      ghost var first := Data(Framed(UriLine(packs[i]), sideband));
      ghost var more := UriPackets(packs[i + 1..], sideband);
      EmittedConcat([first], more);
      EmittedOne(first);
      Associative(r, Emitted(first), EmittedAll(more));
      r := Line(r, UriLine(packs[i]), sideband);
    }
    NothingAppended(r);
  }

  method WriteIndexLines(out: seq<byte>, packs: seq<PackfileUri>, sideband: bool) returns (r: seq<byte>)
    ensures r == out + EmittedAll(IndexPackets(packs, sideband))
  {
    hide Emitted;
    r := out;
    for i := 0 to |packs|
      invariant r + EmittedAll(IndexPackets(packs[i..], sideband)) == out + EmittedAll(IndexPackets(packs, sideband))
    {
      DropDrop(packs, i, 1);
      ghost var more := IndexPackets(packs[i + 1..], sideband);
      if packs[i].index.Some? {
        ghost var first := Data(Framed(IndexLine(packs[i]), sideband));
        EmittedConcat([first], more);
        EmittedOne(first);
        Associative(r, Emitted(first), EmittedAll(more));
        r := Line(r, IndexLine(packs[i]), sideband);
      } else {
        NothingAppended(more);
      }
    }
    NothingAppended(r);
  }

  method HasIndex(packs: seq<PackfileUri>) returns (any: bool)
    ensures any <==> AnyIndex(packs)
  {
    for i := 0 to |packs|
      invariant forall k | 0 <= k < i :: packs[k].index.None?
    {
      if packs[i].index.Some? {
        return true;
      }
    }
    return false;
  }

  method WriteUriSection(out: seq<byte>, packs: seq<PackfileUri>, sideband: bool) returns (r: seq<byte>)
    ensures r == out + EmittedAll(Part(PACKFILE_URIS, UriPackets(packs, sideband), sideband))
  {
    hide Emitted, UriPackets;
    r := Line(out, PACKFILE_URIS, sideband);
    r := WriteUriLines(r, packs, sideband);
    r := r + LenHex(1);
    PartBytes(out, PACKFILE_URIS, UriPackets(packs, sideband), sideband);
  }

  method WriteIndexSection(out: seq<byte>, packs: seq<PackfileUri>, sideband: bool) returns (r: seq<byte>)
    ensures r == out + EmittedAll(Part(PACKFILE_INDEXES, IndexPackets(packs, sideband), sideband))
  {
    hide Emitted, IndexPackets;
    r := Line(out, PACKFILE_INDEXES, sideband);
    r := WriteIndexLines(r, packs, sideband);
    r := r + LenHex(1);
    PartBytes(out, PACKFILE_INDEXES, IndexPackets(packs, sideband), sideband);
  }

  lemma PartBytes(out: seq<byte>, heading: seq<byte>, lines: seq<Packet>, sideband: bool)
    ensures out + EmittedAll(Part(heading, lines, sideband))
         == out + Emitted(Data(Framed(heading, sideband))) + EmittedAll(lines) + LenHex(1)
  {
    hide LenHex, Written, Framed;
    var head := Data(Framed(heading, sideband));
    EmittedConcat([head] + lines, [Delim]);
    EmittedConcat([head], lines);
    EmittedOne(head);
    EmittedOne(Delim);
    Associative(out, Emitted(head) + EmittedAll(lines), LenHex(1));
    Associative(out, Emitted(head), EmittedAll(lines));
  }

  method WriteSections(out: seq<byte>, packs: seq<PackfileUri>, sideband: bool) returns (r: seq<byte>)
    ensures r == out + EmittedAll(Sections(packs, sideband))
  {
    hide Part, AnyIndex;
    ghost var uris := Part(PACKFILE_URIS, UriPackets(packs, sideband), sideband);
    ghost var indexes := Part(PACKFILE_INDEXES, IndexPackets(packs, sideband), sideband);
    r := WriteUriSection(out, packs, sideband);
    var any := HasIndex(packs);
    if any {
      r := WriteIndexSection(r, packs, sideband);
      EmittedConcat(uris, indexes);
      Associative(out, EmittedAll(uris), EmittedAll(indexes));
    } else {
      NothingAppended(uris);
    }
  }

  method Splice(src: ByteStream, packs: seq<PackfileUri>, synthetic: set<seq<byte>>, sideband: bool)
    returns (ok: bool, out: seq<byte>)
    modifies src
    ensures ok <==> Spliced(old(src.rest), packs, synthetic, sideband).Some?
    ensures ok ==> out == Spliced(old(src.rest), packs, synthetic, sideband).value
  {
    hide Emitted, Sections, NextPacket, PayloadAction;
    out := [];
    ghost var input := src.rest;
    NothingBefore(Spliced(input, packs, synthetic, sideband));
    while true
      invariant Spliced(input, packs, synthetic, sideband) == Before(out, Spliced(src.rest, packs, synthetic, sideband))
      decreases |src.rest|
    {
      ghost var here := src.rest;
      NextIsShorter(here);
      var packet := ReadPktLine(src);
      match packet
      case AtEnd => return false, out;
      case Failed => return false, out;
      case Got(p) =>
        match ActionFor(p, synthetic, sideband)
        case Refuse => return false, out;
        case Drop =>
        case Copy =>
          BeforeBefore(out, Emitted(p), Spliced(src.rest, packs, synthetic, sideband));
          out := EmitPacket(out, p);
        case Section =>
          ghost var sections := EmittedAll(Sections(packs, sideband));
          Associative(out, sections, Emitted(p));
          Associative(out, sections + Emitted(p), src.rest);
          out := WriteSections(out, packs, sideband);
          out := EmitPacket(out, p);
          out := out + src.rest;
          return true, out;
    }
  }

  lemma NothingBefore(r: Option<seq<byte>>)
    ensures Before([], r) == r
  {
    if r.Some? {
      NothingAppended(r.value);
    }
  }

  lemma NextIsShorter(s: seq<byte>)
    ensures NextPacket(s).Next? ==> |NextPacket(s).rest| < |s|
  {
  }

  method EmitPacket(out: seq<byte>, p: Packet) returns (r: seq<byte>)
    ensures r == out + Emitted(p)
  {
    match p
    case Data(d) => r := WritePktLine(out, d);
    case Flush => r := out + LenHex(0);
    case Delim => r := out + LenHex(1);
    case ResponseEnd => r := out + LenHex(2);
  }

  // ---- what a client decodes ----

  predicate Fits(p: Packet) {
    p.Data? ==> |p.data| <= 65516
  }

  /** A packet that fits is emitted as one packet. */
  lemma EmittedReadsBack(p: Packet, rest: seq<byte>)
    requires Fits(p)
    ensures NextPacket(Emitted(p) + rest) == Next(p, rest)
  {
    hide LenHex, ParseLen;
    match p
    case Data(d) =>
      if d != [] {
        assert DataPackets([d]) == DataPacket(d) by {
          assert DataPackets([d][1..]) == [];
          NothingAppended(DataPacket(d));
        }
      }
      ReadDataPacket(d, rest);
    case Flush =>
      ParseLenHex(0);
      assert (LenHex(0) + rest)[..4] == LenHex(0) && (LenHex(0) + rest)[4..] == rest;
    case Delim =>
      ParseLenHex(1);
      assert (LenHex(1) + rest)[..4] == LenHex(1) && (LenHex(1) + rest)[4..] == rest;
    case ResponseEnd =>
      ParseLenHex(2);
      assert (LenHex(2) + rest)[..4] == LenHex(2) && (LenHex(2) + rest)[4..] == rest;
  }

  lemma {:induction false} EmittedAllReadsBack(packets: seq<Packet>, rest: seq<byte>)
    requires forall p | p in packets :: Fits(p)
    ensures Reads(EmittedAll(packets) + rest, packets, rest)
    decreases packets
  {
    hide Emitted, NextPacket, Fits;
    if packets == [] {
      NothingAppended(rest);
    } else {
      EmittedAllReadsBack(packets[1..], rest);
      Associative(Emitted(packets[0]), EmittedAll(packets[1..]), rest);
      EmittedReadsBack(packets[0], EmittedAll(packets[1..]) + rest);
    }
  }

  /** The packets of the native response that are passed on: all but synthetic acknowledgements. */
  function Kept(packets: seq<Packet>, synthetic: set<seq<byte>>, sideband: bool): seq<Packet> {
    if packets == [] then []
    else (if ActionFor(packets[0], synthetic, sideband) == Drop then [] else [packets[0]])
         + Kept(packets[1..], synthetic, sideband)
  }

  /** The part of a response before its packfile section. */
  ghost predicate Preamble(packets: seq<Packet>, synthetic: set<seq<byte>>, sideband: bool) {
    forall p | p in packets :: ActionFor(p, synthetic, sideband).Copy? || ActionFor(p, synthetic, sideband).Drop?
  }

  lemma {:induction false} SplicedPreamble(s: seq<byte>, before: seq<Packet>, section: Packet, tail: seq<byte>,
                        packs: seq<PackfileUri>, synthetic: set<seq<byte>>, sideband: bool)
    requires Reads(s, before + [section], tail)
    requires Preamble(before, synthetic, sideband) && ActionFor(section, synthetic, sideband) == Section
    ensures Spliced(s, packs, synthetic, sideband) ==
            Some(EmittedAll(Kept(before, synthetic, sideband)) + (EmittedAll(Sections(packs, sideband)) + Emitted(section) + tail))
    decreases before
  {
    hide NextPacket, Emitted, ActionFor, Sections;
    var all := before + [section];
    var end := EmittedAll(Sections(packs, sideband)) + Emitted(section) + tail;
    if before == [] {
      assert all == [section] && all[1..] == [];
      NothingAppended(end);
    } else {
      var p, rest := before[0], NextPacket(s).rest;
      assert all[0] == p;
      DropAppend(before, [section], 1);
      NextIsShorter(s);
      SplicedPreamble(rest, before[1..], section, tail, packs, synthetic, sideband);
      var more := Kept(before[1..], synthetic, sideband);
      if ActionFor(p, synthetic, sideband) == Drop {
        NothingAppended(more);
      } else {
        EmittedConcat([p], more);
        EmittedOne(p);
        Associative(Emitted(p), EmittedAll(more), end);
      }
    }
  }

  ghost predicate UrisFit(packs: seq<PackfileUri>, sideband: bool) {
    forall p | p in Sections(packs, sideband) :: Fits(p)
  }

  /** The client decodes: the native packets minus synthetic acknowledgements, the URI section with
      its delimiter, the optional index section with its own, the packfile heading, and then the
      native pack bytes untouched. */
  lemma SpliceDelivers(s: seq<byte>, before: seq<Packet>, section: Packet, tail: seq<byte>,
                       packs: seq<PackfileUri>, synthetic: set<seq<byte>>, sideband: bool)
    requires Reads(s, before + [section], tail)
    requires Preamble(before, synthetic, sideband) && ActionFor(section, synthetic, sideband) == Section
    requires (forall p | p in before :: Fits(p)) && UrisFit(packs, sideband)
    ensures Spliced(s, packs, synthetic, sideband).Some?
    ensures Reads(Spliced(s, packs, synthetic, sideband).value,
                  Kept(before, synthetic, sideband) + Sections(packs, sideband) + [section], tail)
    ensures (forall p | p in packs :: Spelled(p)) ==>
              exists inserted :: SectionsSay(inserted, packs, sideband)
                && Reads(Spliced(s, packs, synthetic, sideband).value, Kept(before, synthetic, sideband) + inserted + [section], tail)
  {
    if forall p | p in packs :: Spelled(p) {
      InsertedSay(packs, sideband);
    }
    hide SectionsSay, Spelled;
    hide NextPacket, Emitted, ActionFor, Sections, Spliced;
    SplicedPreamble(s, before, section, tail, packs, synthetic, sideband);
    var kept := Kept(before, synthetic, sideband);
    KeptSubset(before, synthetic, sideband);
    assert Fits(section) by { SectionIsShort(section, synthetic, sideband); }
    var sections := Sections(packs, sideband);
    EmittedAllReadsBack(kept, EmittedAll(sections) + (EmittedAll([section]) + tail));
    EmittedAllReadsBack(sections, EmittedAll([section]) + tail);
    EmittedAllReadsBack([section], tail);
    EmittedOne(section);
    Associative(EmittedAll(sections), Emitted(section), tail);
    ReadsConcat(EmittedAll(sections) + (EmittedAll([section]) + tail), sections, EmittedAll([section]) + tail, [section], tail);
    ReadsConcat(EmittedAll(kept) + (EmittedAll(sections) + (EmittedAll([section]) + tail)), kept,
                EmittedAll(sections) + (EmittedAll([section]) + tail), sections + [section], tail);
    Associative(kept, sections, [section]);
  }

  // ---- what the inserted lines say ----

  /** Checksums have no spaces: they are hexadecimal. */
  predicate Spelled(p: PackfileUri) {
    SPACE !in p.checksum && (p.index.Some? ==> SPACE !in p.index.value.checksum)
  }

  /** This packet's text, on channel 1 when everything travels on sidebands. */
  ghost predicate Carries(p: Packet, text: seq<byte>, sideband: bool) {
    p == Data(if sideband then [1] + text else text)
  }

  ghost predicate Heads(p: Packet, text: string, sideband: bool) {
    exists bytes :: Spells(bytes, text) && Carries(p, bytes, sideband)
  }

  /** The text before the first space, and the text after it. */
  ghost predicate Fields(line: seq<byte>, before: seq<byte>, after: seq<byte>) {
    exists k: nat :: FirstSpace(line, k) && line[..k] == before && line[k + 1..] == after
  }

  /** Before the first space the pack's checksum, after it its URL and the end of the line. */
  ghost predicate NamesPack(p: Packet, pack: PackfileUri, sideband: bool) {
    exists line :: Carries(p, line, sideband) && Fields(line, pack.checksum, pack.url + [10])
  }

  /** The pack's checksum, the index's checksum, and the index's URL, with a space after each of the first two. */
  ghost predicate NamesIndex(p: Packet, pack: PackfileUri, sideband: bool) {
    && pack.index.Some?
    && exists line, after :: Carries(p, line, sideband) && Fields(line, pack.checksum, after)
                             && Fields(after, pack.index.value.checksum, pack.index.value.url + [10])
  }

  ghost predicate FirstSpace(line: seq<byte>, k: nat) {
    k < |line| && line[k] == 32 && forall j | 0 <= j < k :: line[j] != 32
  }

  function Indexed(packs: seq<PackfileUri>): seq<PackfileUri> {
    if packs == [] then [] else (if packs[0].index.Some? then [packs[0]] else []) + Indexed(packs[1..])
  }

  /** A heading, one line for each pack in order, and a delimiter; when packs have indexes, a second heading, one
      line for each of those in order, and another delimiter. */
  ghost predicate SectionsSay(packets: seq<Packet>, packs: seq<PackfileUri>, sideband: bool) {
    exists uris, rest :: packets == uris + rest && UrisSay(uris, packs, sideband)
                         && if Indexed(packs) == [] then rest == [] else IndexesSay(rest, Indexed(packs), sideband)
  }

  ghost predicate UrisSay(packets: seq<Packet>, packs: seq<PackfileUri>, sideband: bool) {
    && |packets| == |packs| + 2 && Heads(packets[0], "packfile-uris\n", sideband) && packets[|packs| + 1] == Delim
    && forall i | 0 <= i < |packs| :: NamesPack(packets[i + 1], packs[i], sideband)
  }

  ghost predicate IndexesSay(packets: seq<Packet>, packs: seq<PackfileUri>, sideband: bool) {
    && |packets| == |packs| + 2 && Heads(packets[0], "packfile-indexes\n", sideband) && packets[|packs| + 1] == Delim
    && forall i | 0 <= i < |packs| :: NamesIndex(packets[i + 1], packs[i], sideband)
  }

  lemma TwoFields(a: seq<byte>, b: seq<byte>)
    requires SPACE !in a
    ensures Fields(a + [SPACE] + b, a, b)
  {
    var line, k := a + [SPACE] + b, |a|;
    assert line[..k] == a && line[k + 1..] == b;
    assert forall j | 0 <= j < k :: line[j] == a[j];
    assert FirstSpace(line, k);
  }

  lemma UriLineNames(p: PackfileUri, sideband: bool)
    requires Spelled(p)
    ensures NamesPack(Data(Framed(UriLine(p), sideband)), p, sideband)
  {
    hide Fields;
    TwoFields(p.checksum, p.url + [NEWLINE]);
    assert UriLine(p) == p.checksum + [SPACE] + (p.url + [NEWLINE]);
    assert Carries(Data(Framed(UriLine(p), sideband)), UriLine(p), sideband);
  }

  lemma IndexLineNames(p: PackfileUri, sideband: bool)
    requires Spelled(p) && p.index.Some?
    ensures NamesIndex(Data(Framed(IndexLine(p), sideband)), p, sideband)
  {
    hide Fields;
    var index := p.index.value;
    var after := index.checksum + [SPACE] + (index.url + [NEWLINE]);
    TwoFields(index.checksum, index.url + [NEWLINE]);
    TwoFields(p.checksum, after);
    IndexLineIs(p, after);
    assert Carries(Data(Framed(IndexLine(p), sideband)), IndexLine(p), sideband);
  }

  lemma IndexLineIs(p: PackfileUri, after: seq<byte>)
    requires p.index.Some? && after == p.index.value.checksum + [SPACE] + (p.index.value.url + [NEWLINE])
    ensures IndexLine(p) == p.checksum + [SPACE] + after
  {
  }

  lemma {:induction false} UriPacketsName(packs: seq<PackfileUri>, sideband: bool)
    requires forall p | p in packs :: Spelled(p)
    ensures |UriPackets(packs, sideband)| == |packs|
    ensures forall i | 0 <= i < |packs| :: NamesPack(UriPackets(packs, sideband)[i], packs[i], sideband)
    decreases |packs|
  {
    hide NamesPack, Spelled, UriLine, Framed;
    if packs != [] {
      UriLineNames(packs[0], sideband);
      UriPacketsName(packs[1..], sideband);
    }
  }

  lemma {:induction false} IndexPacketsName(packs: seq<PackfileUri>, sideband: bool)
    requires forall p | p in packs :: Spelled(p)
    ensures |IndexPackets(packs, sideband)| == |Indexed(packs)|
    ensures forall i | 0 <= i < |Indexed(packs)| :: NamesIndex(IndexPackets(packs, sideband)[i], Indexed(packs)[i], sideband)
    ensures Indexed(packs) != [] <==> AnyIndex(packs)
    decreases |packs|
  {
    hide NamesIndex, Spelled, IndexLine, Framed;
    if packs != [] {
      IndexPacketsName(packs[1..], sideband);
      assert packs == [packs[0]] + packs[1..];
      if packs[0].index.Some? {
        IndexLineNames(packs[0], sideband);
        assert packs[0] in packs;
      } else if AnyIndex(packs) {
        var p :| p in packs && p.index.Some?;
        assert p in packs[1..];
      }
    }
  }

  lemma InsertedSay(packs: seq<PackfileUri>, sideband: bool)
    requires forall p | p in packs :: Spelled(p)
    ensures SectionsSay(Sections(packs, sideband), packs, sideband)
  {
    hide UrisSay, IndexesSay, Spelled, UriPackets, IndexPackets, AnyIndex, Part;
    IndexPacketsName(packs, sideband);
    UriPartSays(packs, sideband);
    var uris := Part(PACKFILE_URIS, UriPackets(packs, sideband), sideband);
    var rest := if AnyIndex(packs) then Part(PACKFILE_INDEXES, IndexPackets(packs, sideband), sideband) else [];
    if AnyIndex(packs) {
      IndexPartSays(packs, sideband);
    }
    assert Sections(packs, sideband) == uris + rest;
  }

  lemma UriPartSays(packs: seq<PackfileUri>, sideband: bool)
    requires forall p | p in packs :: Spelled(p)
    ensures UrisSay(Part(PACKFILE_URIS, UriPackets(packs, sideband), sideband), packs, sideband)
  {
    hide NamesPack, Spelled, UriPackets, Heads, Framed;
    UriPacketsName(packs, sideband);
    HeadingsHead(sideband);
  }

  lemma IndexPartSays(packs: seq<PackfileUri>, sideband: bool)
    requires forall p | p in packs :: Spelled(p)
    ensures IndexesSay(Part(PACKFILE_INDEXES, IndexPackets(packs, sideband), sideband), Indexed(packs), sideband)
  {
    hide NamesIndex, Spelled, IndexPackets, Indexed, Heads, Framed, AnyIndex;
    IndexPacketsName(packs, sideband);
    HeadingsHead(sideband);
  }

  lemma HeadingsHead(sideband: bool)
    ensures Heads(Data(Framed(PACKFILE_URIS, sideband)), "packfile-uris\n", sideband)
    ensures Heads(Data(Framed(PACKFILE_INDEXES, sideband)), "packfile-indexes\n", sideband)
  {
    Headings();
    assert Carries(Data(Framed(PACKFILE_URIS, sideband)), PACKFILE_URIS, sideband);
    assert Carries(Data(Framed(PACKFILE_INDEXES, sideband)), PACKFILE_INDEXES, sideband);
  }

  lemma SectionIsShort(p: Packet, synthetic: set<seq<byte>>, sideband: bool)
    requires ActionFor(p, synthetic, sideband) == Section
    ensures p.Data? && p.data == Framed(PACKFILE, sideband)
  {
    if sideband {
      assert p.data == [p.data[0]] + p.data[1..];
    }
  }

  lemma {:induction false} KeptSubset(packets: seq<Packet>, synthetic: set<seq<byte>>, sideband: bool)
    ensures forall p | p in Kept(packets, synthetic, sideband) :: p in packets
    decreases packets
  {
    if packets != [] {
      KeptSubset(packets[1..], synthetic, sideband);
    }
  }

  /** A response that reaches a packfile heading: packets passed on or dropped, and then the heading. */
  ghost predicate ReachesHeading(s: seq<byte>, synthetic: set<seq<byte>>, sideband: bool) {
    exists before, section, tail :: HeadingAfter(s, before, section, tail, synthetic, sideband)
  }

  ghost predicate HeadingAfter(s: seq<byte>, before: seq<Packet>, section: Packet, tail: seq<byte>, synthetic: set<seq<byte>>, sideband: bool) {
    && Reads(s, before + [section], tail) && Preamble(before, synthetic, sideband)
    && ActionFor(section, synthetic, sideband) == Section
  }

  /** Splicing succeeds exactly on responses that reach a packfile heading. */
  lemma SucceedsExactly(s: seq<byte>, packs: seq<PackfileUri>, synthetic: set<seq<byte>>, sideband: bool)
    ensures Spliced(s, packs, synthetic, sideband).Some? <==> ReachesHeading(s, synthetic, sideband)
  {
    hide Spliced, Reads, Preamble, ActionFor, Sections, Emitted;
    if Spliced(s, packs, synthetic, sideband).Some? {
      var before, section, tail := HeadingReached(s, packs, synthetic, sideband);
      assert HeadingAfter(s, before, section, tail, synthetic, sideband);
    } else if ReachesHeading(s, synthetic, sideband) {
      var before, section, tail :| HeadingAfter(s, before, section, tail, synthetic, sideband);
      SplicedPreamble(s, before, section, tail, packs, synthetic, sideband);
    }
  }

  lemma {:induction false} HeadingReached(s: seq<byte>, packs: seq<PackfileUri>, synthetic: set<seq<byte>>, sideband: bool)
    returns (before: seq<Packet>, section: Packet, tail: seq<byte>)
    requires Spliced(s, packs, synthetic, sideband).Some?
    ensures HeadingAfter(s, before, section, tail, synthetic, sideband)
    decreases |s|
  {
    hide Emitted, ActionFor, Sections, HeadingAfter, NextPacket;
    var p, rest := NextPacket(s).packet, NextPacket(s).rest;
    NextIsShorter(s);
    if ActionFor(p, synthetic, sideband) == Section {
      before, section, tail := [], p, rest;
      HeadingHere(s, p, rest, synthetic, sideband);
    } else {
      before, section, tail := HeadingReached(rest, packs, synthetic, sideband);
      HeadingLater(s, p, rest, before, section, tail, synthetic, sideband);
      before := [p] + before;
    }
  }

  lemma HeadingHere(s: seq<byte>, p: Packet, rest: seq<byte>, synthetic: set<seq<byte>>, sideband: bool)
    requires NextPacket(s) == Next(p, rest) && ActionFor(p, synthetic, sideband) == Section
    ensures HeadingAfter(s, [], p, rest, synthetic, sideband)
  {
    hide NextPacket, ActionFor;
    var none: seq<Packet> := [];
    assert none + [p] == [p] && [p][1..] == none;
    assert Reads(rest, none, rest);
    assert Preamble(none, synthetic, sideband);
    assert HeadingAfter(s, none, p, rest, synthetic, sideband);
  }

  lemma HeadingLater(s: seq<byte>, p: Packet, rest: seq<byte>, before: seq<Packet>, section: Packet, tail: seq<byte>,
                     synthetic: set<seq<byte>>, sideband: bool)
    requires NextPacket(s) == Next(p, rest) && (ActionFor(p, synthetic, sideband).Copy? || ActionFor(p, synthetic, sideband).Drop?)
    requires HeadingAfter(rest, before, section, tail, synthetic, sideband)
    ensures HeadingAfter(s, [p] + before, section, tail, synthetic, sideband)
  {
    hide NextPacket, ActionFor;
    assert ([p] + before + [section])[1..] == before + [section];
  }

  // ---- what the caller checks and offers ----

  predicate ControlOrSpace(b: byte) {
    b <= 32 || b == 127
  }

  /** The length and character checks on one offered pack, for checksums of hexLen digits. */
  predicate UriAllowed(p: PackfileUri, hexLen: nat) {
    && |p.checksum| == hexLen
    && (forall b | b in p.url :: !ControlOrSpace(b))
    && |p.url| + hexLen + 3 <= MAX_PKT_DATA
    && (p.index.Some? ==>
          && |p.index.value.checksum| == hexLen
          && (forall b | b in p.index.value.url :: !ControlOrSpace(b))
          && |p.index.value.url| + 2 * hexLen + 4 <= MAX_PKT_DATA)
  }

  /** Characters that no offered URL may have. */
  lemma ControlsSpelled(b: byte)
    ensures ControlOrSpace(b) <==> b == 127 || b == 32 || b < 32
  {
  }

  /** The caller's length check is what keeps every inserted line in one packet, in both framings. */
  lemma AllowedUrisFit(packs: seq<PackfileUri>, hexLen: nat, sideband: bool)
    requires forall p | p in packs :: UriAllowed(p, hexLen)
    ensures UrisFit(packs, sideband)
  {
    LinesFit(packs, hexLen, sideband);
  }

  lemma {:induction false} LinesFit(packs: seq<PackfileUri>, hexLen: nat, sideband: bool)
    requires forall p | p in packs :: UriAllowed(p, hexLen)
    ensures forall p | p in UriPackets(packs, sideband) :: Fits(p)
    ensures forall p | p in IndexPackets(packs, sideband) :: Fits(p)
    decreases packs
  {
    if packs != [] {
      assert UriAllowed(packs[0], hexLen);
      LinesFit(packs[1..], hexLen, sideband);
    }
  }

  /** The roots offered as haves on the client's behalf: those it did not claim itself. */
  function Synthetic(roots: set<seq<byte>>, haves: set<seq<byte>>): set<seq<byte>> {
    roots - haves
  }

  predicate HexId(id: seq<byte>) {
    id != [] && forall b | b in id :: 48 <= b <= 57 || 97 <= b <= 102
  }

  /** Exactly the acknowledgements of roots the client does not have itself are removed. */
  lemma OnlySyntheticAcksDropped(roots: set<seq<byte>>, haves: set<seq<byte>>, oid: seq<byte>)
    requires HexId(oid)
    ensures PayloadAction(ACK + oid + [NEWLINE], Synthetic(roots, haves)) == Drop <==> oid in roots && oid !in haves
  {
    var line := ACK + oid + [NEWLINE];
    assert line[4..] == oid + [NEWLINE];
    assert (oid + [NEWLINE])[..|oid|] == oid;
    assert oid[|oid| - 1] in oid;
    assert TrimEnd(oid + [NEWLINE]) == TrimEnd(oid) == oid;
  }
}
