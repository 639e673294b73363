/** Appendable log objects: length-prefixed frames with base-128 varints
    (crates/walgit-proto/src/lib.rs:109-150; Protocol Buffers encoding guide, "Base 128 Varints"). */
module Frames {
  import opened Basics
  import opened Seqs

  // ---- varints ----

  /** How large a value the bytes from position count on can still hold: 64 bits in all. */
  function Room(count: nat): nat
    requires count < 10
    decreases 9 - count
  {
    if count == 9 then 2 else 128 * Room(count + 1)
  }

  const U64: nat := 0x1_0000_0000_0000_0000

  lemma RoomIs64Bits()
    ensures Room(0) == U64
  {
    assert Room(8) == 256 && Room(7) == 0x8000 && Room(6) == 0x40_0000 && Room(5) == 0x2000_0000;
    assert Room(4) == 0x10_0000_0000 && Room(3) == 0x800_0000_0000 && Room(2) == 0x4_0000_0000_0000;
    assert Room(1) == 0x200_0000_0000_0000;
  }

  function Varint(v: nat): (r: seq<byte>)
    ensures |r| >= 1
  {
    if v < 128 then [v] else [v % 128 + 128] + Varint(v / 128)
  }

  method WriteVarint(out: seq<byte>, v: nat) returns (r: seq<byte>)
    ensures r == out + Varint(v)
  {
    r := out;
    var rest := v;
    while rest >= 128
      invariant r + Varint(rest) == out + Varint(v)
    {
      r := r + [rest % 128 + 128];
      rest := rest / 128;
    }
    r := r + [rest];
  }

  /** The value and the number of bytes it took. A tenth byte above 1 overflows 64 bits. */
  function ReadVarintAt(buf: seq<byte>, count: nat): (r: Option<(nat, nat)>)
    requires count <= 10
    ensures r.Some? ==> 1 <= r.value.1 <= |buf| && r.value.1 <= 10 - count
    decreases 10 - count
  {
    if count == 10 || buf == [] then None
    else if buf[0] < 128 then
      if count == 9 && buf[0] >= 2 then None else Some((buf[0], 1))
    else
      match ReadVarintAt(buf[1..], count + 1)
      case None => None
      case Some((v, n)) => Some((buf[0] - 128 + 128 * v, n + 1))
  }

  function ReadVarint(buf: seq<byte>): Option<(nat, nat)> {
    ReadVarintAt(buf, 0)
  }

  lemma {:induction false} ReadBack(v: nat, rest: seq<byte>, count: nat)
    requires count < 10 && v < Room(count)
    ensures ReadVarintAt(Varint(v) + rest, count) == Some((v, |Varint(v)|))
    decreases 10 - count
  {
    if v >= 128 {
      assert count < 9 && v / 128 < Room(count + 1);
      ReadBack(v / 128, rest, count + 1);
      DropAppend(Varint(v), rest, 1);
      assert Varint(v)[1..] == Varint(v / 128);
    }
  }

  lemma {:induction false} CutVarint(v: nat, k: nat, count: nat)
    requires count < 10 && k < |Varint(v)|
    ensures ReadVarintAt(Varint(v)[..k], count) == None
    decreases 10 - count
  {
    if k > 0 {
      assert Varint(v)[..k][1..] == Varint(v / 128)[..k - 1];
      if count < 9 {
        CutVarint(v / 128, k - 1, count + 1);
      }
    }
  }

  lemma {:induction false} LongerBufferSameVarint(a: seq<byte>, b: seq<byte>, count: nat)
    requires count <= 10 && ReadVarintAt(a, count).Some?
    ensures ReadVarintAt(a + b, count) == ReadVarintAt(a, count)
    decreases 10 - count
  {
    if a[0] >= 128 {
      LongerBufferSameVarint(a[1..], b, count + 1);
      assert (a + b)[1..] == a[1..] + b;
    }
  }

  /** The first n bytes of buf are one varint: all but the last have the top bit. */
  ghost predicate IsVarint(buf: seq<byte>, n: nat) {
    1 <= n <= |buf| && buf[n - 1] < 128 && forall i | 0 <= i < n - 1 :: buf[i] >= 128
  }

  /** What bytes stand for in base 128, the lowest digit first. */
  ghost function Base128(bytes: seq<byte>): nat {
    if bytes == [] then 0 else bytes[0] % 128 + 128 * Base128(bytes[1..])
  }

  lemma DigitsOf(v: nat)
    ensures v == v % 128 + 128 * (v / 128) && (v % 128 + 128) % 128 == v % 128
  {
  }

  lemma {:induction false} VarintSpelled(v: nat)
    ensures IsVarint(Varint(v), |Varint(v)|) && Base128(Varint(v)) == v
  {
    hide Base128, IsVarint;
    DigitsOf(v);
    if v < 128 {
      LastDigit(v);
    } else {
      VarintSpelled(v / 128);
      MoreDigits(v % 128 + 128, Varint(v / 128));
    }
  }

  lemma LastDigit(b: byte)
    requires b < 128
    ensures IsVarint([b], 1) && Base128([b]) == b
  {
    assert [b][1..] == [];
  }

  lemma MoreDigits(b: byte, rest: seq<byte>)
    requires b >= 128 && IsVarint(rest, |rest|)
    ensures IsVarint([b] + rest, |rest| + 1) && Base128([b] + rest) == b % 128 + 128 * Base128(rest)
  {
    assert ([b] + rest)[1..] == rest;
    assert forall i | 1 <= i < |rest| + 1 :: ([b] + rest)[i] == rest[i - 1];
  }

  lemma OneByte(buf: seq<byte>, n: nat)
    requires buf != [] && buf[0] < 128
    ensures (IsVarint(buf, n) <==> n == 1) && Base128(buf[..1]) == buf[0]
  {
    assert buf[..1][1..] == [];
  }

  lemma MoreBytes(buf: seq<byte>, n: nat)
    requires 2 <= n <= |buf| && buf[0] >= 128
    ensures IsVarint(buf, n) <==> IsVarint(buf[1..], n - 1)
    ensures Base128(buf[..n]) == buf[0] - 128 + 128 * Base128(buf[1..][..n - 1])
  {
    assert buf[..n][1..] == buf[1..][..n - 1];
    if IsVarint(buf[1..], n - 1) {
      assert forall i | 1 <= i < n - 1 :: buf[i] == buf[1..][i - 1];
    }
  }

  lemma {:induction false} ReadAtIs(buf: seq<byte>, count: nat)
    requires count < 10 && ReadVarintAt(buf, count).Some?
    ensures var (v, n) := ReadVarintAt(buf, count).value; n <= 10 - count && IsVarint(buf, n) && v == Base128(buf[..n]) && v < Room(count)
    decreases 10 - count
  {
    hide Base128, Room, IsVarint;
    RoomIs(count);
    if buf[0] < 128 {
      OneByte(buf, 1);
    } else {
      assert count < 9;
      ReadAtIs(buf[1..], count + 1);
      MoreBytes(buf, ReadVarintAt(buf, count).value.1);
    }
  }

  lemma {:induction false} ReadAtTakes(buf: seq<byte>, count: nat, n: nat)
    requires count < 10 && n <= 10 - count && IsVarint(buf, n) && Base128(buf[..n]) < Room(count)
    ensures ReadVarintAt(buf, count) == Some((Base128(buf[..n]), n))
    decreases 10 - count
  {
    hide Base128, Room;
    RoomIs(count);
    if buf[0] < 128 {
      OneByte(buf, n);
    } else {
      MoreBytes(buf, n);
      ReadAtTakes(buf[1..], count + 1, n - 1);
    }
  }

  lemma RoomIs(count: nat)
    requires count < 10
    ensures Room(count) == (if count == 9 then 2 else 128 * Room(count + 1)) && Room(count) >= 2
    decreases 10 - count
  {
    if count < 9 {
      RoomIs(count + 1);
    }
  }

  /** A varint is read if and only if it ends within ten bytes and its value fits 64 bits; nothing else is. */
  lemma ReadVarintExactly(buf: seq<byte>, v: nat, n: nat)
    ensures ReadVarint(buf) == Some((v, n)) <==> n <= 10 && IsVarint(buf, n) && v == Base128(buf[..n]) && v < 0x1_0000_0000_0000_0000
  {
    hide Base128, Room, ReadVarintAt;
    RoomIs64Bits();
    if ReadVarint(buf).Some? {
      ReadAtIs(buf, 0);
    }
    if n <= 10 && IsVarint(buf, n) && n <= |buf| && v == Base128(buf[..n]) && v < Room(0) {
      ReadAtTakes(buf, 0, n);
    }
  }

  // ---- frames ----

  /** A message codec: what decoding a frame's bytes gives, and the bytes an entry encodes to. */
  datatype Codec<!E> = Codec(encode: E -> seq<byte>, decode: seq<byte> -> Option<E>)

  ghost predicate Faithful<E(!new)>(c: Codec<E>) {
    forall e :: c.decode(c.encode(e)) == Some(e) && |c.encode(e)| < U64
  }

  function Frame<E>(c: Codec<E>, e: E): seq<byte> {
    Varint(|c.encode(e)|) + c.encode(e)
  }

  function Log<E>(c: Codec<E>, entries: seq<E>): seq<byte> {
    if entries == [] then [] else Frame(c, entries[0]) + Log(c, entries[1..])
  }

  method EncodeEntry<E>(c: Codec<E>, e: E, out: seq<byte>) returns (r: seq<byte>)
    ensures r == out + Frame(c, e)
  {
    r := WriteVarint(out, |c.encode(e)|);
    r := r + c.encode(e);
  }

  method EncodeEntries<E>(c: Codec<E>, entries: seq<E>) returns (out: seq<byte>)
    ensures out == Log(c, entries)
  {
    hide Frame;
    out := [];
    for i := 0 to |entries|
      invariant out + Log(c, entries[i..]) == Log(c, entries)
    {
      DropDrop(entries, i, 1);
      Associative(out, Frame(c, entries[i]), Log(c, entries[i + 1..]));
      out := EncodeEntry(c, entries[i], out);
    }
    NothingAppended(out);
  }

  datatype Decoded<E> = Decoded(entries: seq<E>, consumed: nat) | Malformed

  /** The first complete frame of a buffer: its payload bounds. */
  function FirstFrame(buf: seq<byte>): (r: Option<(nat, nat)>)
    ensures r.Some? ==> 1 <= r.value.0 <= r.value.1 <= |buf|
  {
    match ReadVarint(buf)
    case None => None
    case Some((len, n)) => if n + len <= |buf| then Some((n, n + len)) else None
  }

  /** d read after entries that took pos bytes. */
  function After<E>(entries: seq<E>, pos: nat, d: Decoded<E>): Decoded<E> {
    match d
    case Malformed => Malformed
    case Decoded(more, consumed) => Decoded(entries + more, pos + consumed)
  }

  lemma AfterAfter<E>(a: seq<E>, i: nat, b: seq<E>, j: nat, d: Decoded<E>)
    ensures After(a, i, After(b, j, d)) == After(a + b, i + j, d)
  {
    if d.Decoded? {
      Associative(a, b, d.entries);
    }
  }

  lemma AfterNothing<E>(d: Decoded<E>)
    ensures After([], 0, d) == d
  {
    if d.Decoded? {
      NothingAppended(d.entries);
    }
  }

  /** All complete frames; a trailing partial frame is left unconsumed. */
  function Decode<E>(c: Codec<E>, buf: seq<byte>): (r: Decoded<E>)
    ensures r.Decoded? ==> r.consumed <= |buf|
    decreases |buf|
  {
    match FirstFrame(buf)
    case None => Decoded([], 0)
    case Some((from, to)) =>
      match c.decode(buf[from..to])
      case None => Malformed
      case Some(e) => After([e], to, Decode(c, buf[to..]))
  }

  method DecodeEntries<E>(c: Codec<E>, buf: seq<byte>) returns (r: Decoded<E>)
    ensures r == Decode(c, buf)
  {
    hide After, ReadVarint;
    var out: seq<E> := [];
    var pos := 0;
    assert buf[0..] == buf;
    AfterNothing(Decode(c, buf));
    while true
      invariant 0 <= pos <= |buf|
      invariant Decode(c, buf) == After(out, pos, Decode(c, buf[pos..]))
      decreases |buf| - pos
    {
      var probe := buf[pos..];
      match ReadVarint(probe)
      case None =>
        assert FirstFrame(probe) == None;
        break;
      case Some((len, n)) =>
        if n + len > |probe| {
          assert FirstFrame(probe) == None;
          break;
        }
        assert FirstFrame(probe) == Some((n, n + len));
        match c.decode(probe[n..n + len])
        case None =>
          MalformedAfter<E>(out, pos);
          return Malformed;
        case Some(e) =>
          DropDrop(buf, pos, n + len);
          AfterAfter(out, pos, [e], n + len, Decode(c, buf[pos + n + len..]));
          out := out + [e];
          pos := pos + n + len;
    }
    EndAfter(out, pos);
    r := Decoded(out, pos);
  }

  lemma MalformedAfter<E>(out: seq<E>, pos: nat)
    ensures After(out, pos, Malformed) == Malformed
  {
  }

  lemma EndAfter<E>(out: seq<E>, pos: nat)
    ensures After(out, pos, Decoded([], 0)) == Decoded(out, pos)
  {
    NothingAppended(out);
  }

  lemma FrameIsFirst<E(!new)>(c: Codec<E>, e: E, rest: seq<byte>)
    requires Faithful(c)
    ensures FirstFrame(Frame(c, e) + rest) == Some((|Varint(|c.encode(e)|)|, |Frame(c, e)|))
    ensures (Frame(c, e) + rest)[|Varint(|c.encode(e)|)|..|Frame(c, e)|] == c.encode(e)
    ensures (Frame(c, e) + rest)[|Frame(c, e)|..] == rest
  {
    RoomIs64Bits();
    assert c.decode(c.encode(e)) == Some(e);
    ReadBack(|c.encode(e)|, c.encode(e) + rest, 0);
    assert Frame(c, e) + rest == Varint(|c.encode(e)|) + (c.encode(e) + rest);
  }

  lemma CutFrame<E(!new)>(c: Codec<E>, e: E, k: nat)
    requires Faithful(c) && k < |Frame(c, e)|
    ensures FirstFrame(Frame(c, e)[..k]) == None
  {
    RoomIs64Bits();
    var header := Varint(|c.encode(e)|);
    if k < |header| {
      assert Frame(c, e)[..k] == header[..k];
      CutVarint(|c.encode(e)|, k, 0);
    } else {
      assert c.decode(c.encode(e)) == Some(e);
      assert Frame(c, e)[..k] == header + c.encode(e)[..k - |header|];
      ReadBack(|c.encode(e)|, c.encode(e)[..k - |header|], 0);
    }
  }

  /** Decoding the first k bytes of a log gives exactly the entries whose frames end at or before k
      and consumes exactly up to the end of the last of them. */
  lemma {:induction false} DecodeCutLog<E(!new)>(c: Codec<E>, entries: seq<E>, n: nat, k: nat)
    requires Faithful(c) && n <= |entries| && |Log(c, entries[..n])| <= k <= |Log(c, entries)|
    requires n < |entries| ==> k < |Log(c, entries[..n + 1])|
    ensures Decode(c, Log(c, entries)[..k]) == Decoded(entries[..n], |Log(c, entries[..n])|)
    decreases n
  {
    hide Frame, FirstFrame, Faithful;
    if entries != [] {
      var e := entries[0];
      var f := Frame(c, e);
      var rest := Log(c, entries[1..]);
      LogOfTake(c, entries, n);
      LogOfTake(c, entries, if n < |entries| then n + 1 else n);
      if n == 0 {
        TakeAppend(f, rest, k);
        CutFrame(c, e, k);
      } else {
        TakeBeyond(f, rest, k);
        FrameIsFirst(c, e, rest[..k - |f|]);
        DecodeCutLog(c, entries[1..], n - 1, k - |f|);
        FaithfulTo(c, e);
        TakeOfTail(entries, n);
      }
    }
  }

  lemma FaithfulTo<E(!new)>(c: Codec<E>, e: E)
    requires Faithful(c)
    ensures c.decode(c.encode(e)) == Some(e)
  {
  }

  lemma TakeOfTail<T>(s: seq<T>, n: nat)
    requires 0 < n <= |s|
    ensures s[..n] == [s[0]] + s[1..][..n - 1] && s[..n][1..] == s[1..][..n - 1]
  {
  }

  lemma LogOfTake<E>(c: Codec<E>, entries: seq<E>, n: nat)
    requires n <= |entries|
    ensures n == 0 ==> Log(c, entries[..n]) == []
    ensures n > 0 ==> Log(c, entries[..n]) == Frame(c, entries[0]) + Log(c, entries[1..][..n - 1])
  {
    if n > 0 {
      TakeOfTail(entries, n);
    }
  }

  /** The whole log decodes to what was encoded. */
  lemma RoundTrip<E(!new)>(c: Codec<E>, entries: seq<E>)
    requires Faithful(c)
    ensures Decode(c, Log(c, entries)) == Decoded(entries, |Log(c, entries)|)
  {
    TakeAll(entries);
    TakeAll(Log(c, entries));
    DecodeCutLog(c, entries, |entries|, |Log(c, entries)|);
  }

  /** Appending to any buffer, well formed or not, never changes what was already decoded: decoding
      resumes exactly at the consumed position. */
  lemma {:induction false} AppendResumes<E>(c: Codec<E>, a: seq<byte>, b: seq<byte>)
    requires Decode(c, a).Decoded?
    ensures Decode(c, a + b) ==
            After(Decode(c, a).entries, Decode(c, a).consumed, Decode(c, a[Decode(c, a).consumed..] + b))
    decreases |a|
  {
    hide After, FirstFrame;
    match FirstFrame(a) {
      case None =>
        assert a[0..] == a;
        AfterNothing(Decode(c, a + b));
      case Some((from, to)) =>
        FirstFrameStays(a, b);
        SliceAppend(a, b, from, to);
        DropAppend(a, b, to);
        var e := c.decode(a[from..to]).value;
        var inner := Decode(c, a[to..]);
        AfterParts([e], to, inner);
        AppendResumes(c, a[to..], b);
        DropDrop(a, to, inner.consumed);
        AfterAfter([e], to, inner.entries, inner.consumed, Decode(c, a[to + inner.consumed..] + b));
    }
  }

  lemma AfterParts<E>(a: seq<E>, i: nat, d: Decoded<E>)
    ensures After(a, i, d).Decoded? <==> d.Decoded?
    ensures d.Decoded? ==> After(a, i, d) == Decoded(a + d.entries, i + d.consumed)
  {
  }

  lemma FirstFrameStays(a: seq<byte>, b: seq<byte>)
    requires FirstFrame(a).Some?
    ensures FirstFrame(a + b) == FirstFrame(a)
  {
    hide ReadVarintAt;
    LongerBufferSameVarint(a, b, 0);
  }
}
