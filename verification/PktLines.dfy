/** Git pkt-lines: reading from a stream that may deliver short chunks, writing with splitting, and
    the sideband multiplexer (crates/walgit-git/src/pkt.rs; gitprotocol-common, "pkt-line Format"). */
module PktLines {
  import opened Basics
  import opened Seqs

  const MAX_PKT_DATA: nat := 65516

  datatype Packet = Data(data: seq<byte>) | Flush | Delim | ResponseEnd

  // ---- four hexadecimal digits ----

  function HexDigit(d: nat): byte
    requires d < 16
  {
    if d < 10 then 48 + d else 87 + d
  }

  /** Digits are lower case. */
  lemma DigitsSpelled(d: nat)
    requires d < 16
    ensures HexDigit(d) == "0123456789abcdef"[d] as int
  {
  }

  function HexValue(b: byte): Option<nat> {
    if 48 <= b <= 57 then Some(b - 48)
    else if 97 <= b <= 102 then Some(b - 97 + 10)
    else if 65 <= b <= 70 then Some(b - 65 + 10)
    else None
  }

  /** Digits of either case are read. */
  lemma DigitsRead(b: byte, d: nat)
    requires d < 16
    ensures HexValue(b) == Some(d) <==> b == "0123456789abcdef"[d] as int || b == "0123456789ABCDEF"[d] as int
  {
  }

  /** The low 16 bits of n as lower-case digits. */
  function LenHex(n: nat): (r: seq<byte>)
    ensures |r| == 4
  {
    [HexDigit(n / 4096 % 16), HexDigit(n / 256 % 16), HexDigit(n / 16 % 16), HexDigit(n % 16)]
  }

  function ParseLen(h: seq<byte>): Option<nat>
    requires |h| == 4
  {
    var a, b, c, d := HexValue(h[0]), HexValue(h[1]), HexValue(h[2]), HexValue(h[3]);
    if a.None? || b.None? || c.None? || d.None? then None
    else Some(((a.value * 16 + b.value) * 16 + c.value) * 16 + d.value)
  }

  lemma ParseLenHex(n: nat)
    ensures ParseLen(LenHex(n)) == Some(n % 65536)
  {
    hide HexDigit, HexValue;
    DigitBack(n / 4096 % 16);
    DigitBack(n / 256 % 16);
    DigitBack(n / 16 % 16);
    DigitBack(n % 16);
    LowDigits(n);
  }

  lemma DigitBack(d: nat)
    requires d < 16
    ensures HexValue(HexDigit(d)) == Some(d)
  {
  }

  lemma LowDigits(n: nat)
    ensures n % 65536 == ((n / 4096 % 16 * 16 + n / 256 % 16) * 16 + n / 16 % 16) * 16 + n % 16
  {
    var q1 := n / 16;
    var q2 := q1 / 16;
    var q3 := q2 / 16;
    assert q2 == n / 256 && q3 == n / 4096 && q3 / 16 == n / 65536;
    assert n == 16 * q1 + n % 16 && q1 == 16 * q2 + q1 % 16 && q2 == 16 * q3 + q2 % 16;
    assert q3 == 16 * (q3 / 16) + q3 % 16 && n == 65536 * (n / 65536) + n % 65536;
  }

  // ---- reading ----

  datatype Read = End | Next(packet: Packet, rest: seq<byte>) | Broken

  /** The packet a stream of bytes starts with. */
  function NextPacket(s: seq<byte>): Read {
    if s == [] then End
    else if |s| < 4 then Broken
    else
      match ParseLen(s[..4])
      case None => Broken
      case Some(len) =>
        if len == 0 then Next(Flush, s[4..])
        else if len == 1 then Next(Delim, s[4..])
        else if len == 2 then Next(ResponseEnd, s[4..])
        else if len < 4 || |s| < len then Broken
        else Next(Data(s[4..len]), s[len..])
  }

  /** A byte stream whose reads return at least one byte until the end, but possibly fewer than asked. */
  class ByteStream {
    var rest: seq<byte>

    constructor (bytes: seq<byte>)
      ensures rest == bytes
    {
      rest := bytes;
    }

    method Read(max: nat) returns (chunk: seq<byte>)
      requires max > 0
      modifies this
      ensures chunk + rest == old(rest) && |chunk| <= max
      ensures chunk == [] ==> old(rest) == []
    {
      if rest == [] {
        return [];
      }
      var n: nat :| 1 <= n <= max && n <= |rest|;
      chunk := rest[..n];
      rest := rest[n..];
    }
  }

  /** Fills n bytes across short reads, stopping early only at the end of the stream. */
  method ReadExactOrEof(src: ByteStream, n: nat) returns (buf: seq<byte>)
    modifies src
    ensures buf + src.rest == old(src.rest)
    ensures |buf| == if |old(src.rest)| < n then |old(src.rest)| else n
  {
    buf := [];
    while |buf| < n
      invariant |buf| <= n && buf + src.rest == old(src.rest)
      decreases n - |buf|
    {
      ghost var before := src.rest;
      var chunk := src.Read(n - |buf|);
      if chunk == [] {
        break;
      }
      Associative(buf, chunk, src.rest);
      buf := buf + chunk;
    }
  }

  datatype ReadResult = AtEnd | Got(packet: Packet) | Failed

  method ReadPktLine(src: ByteStream) returns (r: ReadResult)
    modifies src
    ensures match NextPacket(old(src.rest))
            case End => r == AtEnd
            case Next(p, rest) => r == Got(p) && src.rest == rest
            case Broken => r == Failed
  {
    hide ParseLen;
    ghost var all := src.rest;
    var hdr := ReadExactOrEof(src, 4);
    if |hdr| == 0 {
      return AtEnd;
    }
    if |hdr| < 4 {
      return Failed;
    }
    assert all[..4] == hdr && all[4..] == src.rest;
    match ParseLen(hdr)
    case None => return Failed;
    case Some(len) =>
      if len == 0 {
        return Got(Flush);
      } else if len == 1 {
        return Got(Delim);
      } else if len == 2 {
        return Got(ResponseEnd);
      } else if len < 4 {
        return Failed;
      }
      var body := ReadExactOrEof(src, len - 4);
      if |body| < len - 4 {
        return Failed;
      }
      assert all == hdr + (body + src.rest);
      assert all[4..len] == body && all[len..] == src.rest;
      return Got(Data(body));
  }

  /** s starts with exactly these packets, followed by rest. */
  ghost predicate Reads(s: seq<byte>, packets: seq<Packet>, rest: seq<byte>)
    decreases packets
  {
    if packets == [] then s == rest
    else NextPacket(s).Next? && NextPacket(s).packet == packets[0] && Reads(NextPacket(s).rest, packets[1..], rest)
  }

  lemma {:induction false} ReadsConcat(s: seq<byte>, a: seq<Packet>, mid: seq<byte>, b: seq<Packet>, rest: seq<byte>)
    requires Reads(s, a, mid) && Reads(mid, b, rest)
    ensures Reads(s, a + b, rest)
    decreases a
  {
    hide NextPacket;
    if a == [] {
      NothingAppended(b);
    } else {
      ReadsConcat(NextPacket(s).rest, a[1..], mid, b, rest);
      DropAppend(a, b, 1);
    }
  }

  // ---- writing ----

  function Chunks(data: seq<byte>, max: nat): (chunks: seq<seq<byte>>)
    requires max > 0
    decreases |data|
  {
    if data == [] then []
    else if |data| <= max then [data]
    else [data[..max]] + Chunks(data[max..], max)
  }

  function Join(chunks: seq<seq<byte>>): seq<byte> {
    if chunks == [] then [] else chunks[0] + Join(chunks[1..])
  }

  lemma {:induction false} ChunksJoin(data: seq<byte>, max: nat)
    requires max > 0
    ensures Join(Chunks(data, max)) == data
    ensures forall c | c in Chunks(data, max) :: 1 <= |c| <= max
    decreases |data|
  {
    if |data| > max {
      ChunksJoin(data[max..], max);
      assert data == data[..max] + data[max..];
    }
  }

  /** One data packet: its length with the header, then the bytes. */
  function DataPacket(data: seq<byte>): seq<byte> {
    LenHex(|data| + 4) + data
  }

  function DataPackets(chunks: seq<seq<byte>>): seq<byte> {
    if chunks == [] then [] else DataPacket(chunks[0]) + DataPackets(chunks[1..])
  }

  /** What the writer emits for data: one empty packet, or its chunks. */
  function Written(data: seq<byte>): seq<byte> {
    if data == [] then DataPacket([]) else DataPackets(Chunks(data, 65516))
  }

  method WriteChunks(out: seq<byte>, prefix: seq<byte>, data: seq<byte>, max: nat) returns (r: seq<byte>)
    requires max > 0
    ensures r == out + DataPackets(Prefixed(prefix, Chunks(data, max)))
  {
    hide DataPacket;
    r := out;
    var rest := data;
    while rest != []
      invariant r + DataPackets(Prefixed(prefix, Chunks(rest, max))) == out + DataPackets(Prefixed(prefix, Chunks(data, max)))
      decreases |rest|
    {
      var n := if |rest| <= max then |rest| else max;
      var chunk := rest[..n];
      ghost var after := DataPackets(Prefixed(prefix, Chunks(rest[n..], max)));
      assert Prefixed(prefix, Chunks(rest, max)) == [prefix + chunk] + Prefixed(prefix, Chunks(rest[n..], max)) by {
        FirstChunk(rest, max, n);
        PrefixedCons(prefix, chunk, Chunks(rest[n..], max));
      }
      Associative(r, DataPacket(prefix + chunk), after);
      r := r + DataPacket(prefix + chunk);
      rest := rest[n..];
    }
    NothingAppended(r);
  }

  lemma FirstChunk(rest: seq<byte>, max: nat, n: nat)
    requires max > 0 && rest != [] && n == if |rest| <= max then |rest| else max
    ensures Chunks(rest, max) == [rest[..n]] + Chunks(rest[n..], max)
  {
    if n == |rest| {
      TakeAll(rest);
    }
  }

  function Prefixed(prefix: seq<byte>, chunks: seq<seq<byte>>): seq<seq<byte>> {
    seq(|chunks|, i requires 0 <= i < |chunks| => prefix + chunks[i])
  }

  lemma PrefixedCons(prefix: seq<byte>, c: seq<byte>, chunks: seq<seq<byte>>)
    ensures Prefixed(prefix, [c] + chunks) == [prefix + c] + Prefixed(prefix, chunks)
  {
  }

  lemma PrefixedNothing(chunks: seq<seq<byte>>)
    ensures Prefixed([], chunks) == chunks
  {
    forall i | 0 <= i < |chunks|
      ensures [] + chunks[i] == chunks[i]
    {
      NothingAppended(chunks[i]);
    }
  }

  method WritePktLine(out: seq<byte>, data: seq<byte>) returns (r: seq<byte>)
    ensures r == out + Written(data)
  {
    if data == [] {
      return out + DataPacket([]);
    }
    r := WriteChunks(out, [], data, MAX_PKT_DATA);
    PrefixedNothing(Chunks(data, MAX_PKT_DATA));
  }

  lemma ReadDataPacket(data: seq<byte>, rest: seq<byte>)
    requires |data| + 4 < 65536
    ensures NextPacket(DataPacket(data) + rest) == Next(Data(data), rest)
  {
    hide LenHex, ParseLen;
    var s := DataPacket(data) + rest;
    ParseLenHex(|data| + 4);
    assert s[..4] == LenHex(|data| + 4);
    assert s[4..|data| + 4] == data;
    assert s[|data| + 4..] == rest;
  }

  function AsPackets(chunks: seq<seq<byte>>): seq<Packet> {
    seq(|chunks|, i requires 0 <= i < |chunks| => Data(chunks[i]))
  }

  lemma {:induction false} ReadDataPackets(chunks: seq<seq<byte>>, rest: seq<byte>)
    requires forall c | c in chunks :: |c| <= 65516
    ensures Reads(DataPackets(chunks) + rest, AsPackets(chunks), rest)
    decreases chunks
  {
    hide NextPacket, DataPacket;
    if chunks == [] {
      NothingAppended(rest);
    } else {
      ReadDataPackets(chunks[1..], rest);
      Associative(DataPacket(chunks[0]), DataPackets(chunks[1..]), rest);
      ReadDataPacket(chunks[0], DataPackets(chunks[1..]) + rest);
      assert AsPackets(chunks)[1..] == AsPackets(chunks[1..]);
    }
  }

  /** Any data, however long, is read back as packets that join to it. */
  lemma WrittenReadsBack(data: seq<byte>, rest: seq<byte>) returns (chunks: seq<seq<byte>>)
    ensures Join(chunks) == data && Reads(Written(data) + rest, AsPackets(chunks), rest)
    ensures |chunks| == 1 <==> |data| <= 65516
  {
    if data == [] {
      chunks := [[]];
      assert DataPackets([[]]) == DataPacket([]) + [] == DataPacket([]);
      ReadDataPackets(chunks, rest);
    } else {
      chunks := Chunks(data, MAX_PKT_DATA);
      ChunksJoin(data, MAX_PKT_DATA);
      ReadDataPackets(chunks, rest);
      if |data| > MAX_PKT_DATA {
        assert Chunks(data[MAX_PKT_DATA..], MAX_PKT_DATA) != [];
      }
    }
  }

  // ---- the buffer encoder, which does not split ----

  /** The buffer encoder keeps only 16 bits of the length, so it is exact just below 65532 bytes. */
  lemma BufferEncoderExact(data: seq<byte>, rest: seq<byte>)
    ensures NextPacket(DataPacket(data) + rest) == Next(Data(data), rest) <==> |data| < 65532
  {
    if |data| < 65532 {
      ReadDataPacket(data, rest);
    } else {
      hide LenHex, ParseLen;
      var s := DataPacket(data) + rest;
      ParseLenHex(|data| + 4);
      assert s[..4] == LenHex(|data| + 4);
      assert NextPacket(s).Next? && NextPacket(s).packet.Data? ==> |NextPacket(s).packet.data| < |data|;
    }
  }

  // ---- sideband ----

  /** What the multiplexer emits for one call: frames that carry the channel byte first. */
  function SidebandFrames(channel: byte, buf: seq<byte>): seq<seq<byte>> {
    if buf == [] then [[channel]] else Prefixed([channel], Chunks(buf, 65515))
  }

  class Sideband {
    var w: seq<byte>

    constructor (w: seq<byte>)
      ensures this.w == w
    {
      this.w := w;
    }

    method WriteChannel(channel: byte, buf: seq<byte>)
      modifies this
      ensures w == old(w) + DataPackets(SidebandFrames(channel, buf))
    {
      if buf == [] {
        assert DataPackets([[channel]]) == DataPacket([channel]) + [] == DataPacket([channel]);
        w := w + DataPacket([channel]);
      } else {
        w := WriteChunks(w, [channel], buf, MAX_PKT_DATA - 1);
      }
    }
  }

  /** The bytes a receiver gets on one channel. */
  function Demux(packets: seq<Packet>, channel: byte): seq<byte> {
    if packets == [] then []
    else
      var tail := Demux(packets[1..], channel);
      match packets[0]
      case Data(d) => if d != [] && d[0] == channel then d[1..] + tail else tail
      case _ => tail
  }

  lemma {:induction false} DemuxConcat(a: seq<Packet>, b: seq<Packet>, channel: byte)
    ensures Demux(a + b, channel) == Demux(a, channel) + Demux(b, channel)
    decreases a
  {
    if a == [] {
      NothingAppended(b);
      NothingAppended(Demux(b, channel));
    } else {
      DropAppend(a, b, 1);
      DemuxConcat(a[1..], b, channel);
      match a[0]
      case Data(d) =>
        if d != [] && d[0] == channel {
          Associative(d[1..], Demux(a[1..], channel), Demux(b, channel));
        }
      case _ =>
    }
  }

  lemma {:induction false} DemuxPrefixed(channel: byte, other: byte, chunks: seq<seq<byte>>)
    ensures Demux(AsPackets(Prefixed([channel], chunks)), other) == if other == channel then Join(chunks) else []
    decreases chunks
  {
    if chunks != [] {
      DemuxPrefixed(channel, other, chunks[1..]);
      var all := AsPackets(Prefixed([channel], chunks));
      assert all[1..] == AsPackets(Prefixed([channel], chunks[1..]));
      assert all[0] == Data([channel] + chunks[0]);
      assert ([channel] + chunks[0])[1..] == chunks[0];
    }
  }

  /** Each call's bytes arrive whole on its channel and nowhere else, in frames that fit. */
  lemma ChannelDelivers(channel: byte, other: byte, buf: seq<byte>, rest: seq<byte>)
    ensures Reads(DataPackets(SidebandFrames(channel, buf)) + rest, AsPackets(SidebandFrames(channel, buf)), rest)
    ensures Demux(AsPackets(SidebandFrames(channel, buf)), other) == if other == channel then buf else []
  {
    if buf == [] {
      ReadDataPackets([[channel]], rest);
      var one := AsPackets([[channel]]);
      assert one[0] == Data([channel]) && one[1..] == [];
      assert Demux(one[1..], other) == [];
      assert [channel][1..] == [];
    } else {
      var chunks := Chunks(buf, MAX_PKT_DATA - 1);
      ChunksJoin(buf, MAX_PKT_DATA - 1);
      forall c | c in Prefixed([channel], chunks)
        ensures |c| <= MAX_PKT_DATA
      {
        var i :| 0 <= i < |chunks| && c == Prefixed([channel], chunks)[i];
        assert chunks[i] in chunks;
      }
      ReadDataPackets(Prefixed([channel], chunks), rest);
      DemuxPrefixed(channel, other, chunks);
    }
  }
}
