/** WebSocket frames (httptools/WebSocketServer.go:243-381; sections 5.2 and 5.3 of RFC 6455). */
module WebSocketFrames {
  import opened Bits
  import opened Bytes

  // ----- big-endian numbers -----

  function BigEndian(x: nat, k: nat): (b: seq<byte>)
    ensures |b| == k
  {
    if k == 0 then [] else BigEndian(x / 256, k - 1) + [x % 256]
  }

  function ParseBigEndian(b: seq<byte>): nat {
    if b == [] then 0 else 256 * ParseBigEndian(b[..|b| - 1]) + b[|b| - 1]
  }

  /** The numbers of `k` bytes. */
  function Limit(k: nat): nat {
    if k == 0 then 1 else 256 * Limit(k - 1)
  }

  lemma {:induction false} BigEndianRoundTrip(x: nat, k: nat)
    requires x < Limit(k)
    ensures ParseBigEndian(BigEndian(x, k)) == x
  {
    if k > 0 {
      BigEndianRoundTrip(x / 256, k - 1);
      var b := BigEndian(x, k);
      assert b[..|b| - 1] == BigEndian(x / 256, k - 1);
    }
  }

  // ----- masking -----

  function Xor(a: nat, b: nat, bits: nat): nat {
    if bits == 0 then 0 else (if a % 2 == b % 2 then 0 else 1) + 2 * Xor(a / 2, b / 2, bits - 1)
  }

  lemma {:induction false} XorFits(a: nat, b: nat, bits: nat)
    ensures Xor(a, b, bits) < Pow2(bits)
  {
    if bits > 0 {
      XorFits(a / 2, b / 2, bits - 1);
    }
  }

  lemma {:induction false} XorTwice(a: nat, b: nat, bits: nat)
    requires a < Pow2(bits)
    ensures Xor(Xor(a, b, bits), b, bits) == a
  {
    if bits > 0 {
      XorTwice(a / 2, b / 2, bits - 1);
    }
  }

  lemma ByteHasEightBits()
    ensures Pow2(8) == 256
  {
    assert Pow2(4) == 16;
  }

  function XorByte(a: byte, b: byte): byte {
    XorFits(a, b, 8);
    ByteHasEightBits();
    Xor(a, b, 8)
  }

  /** Section 5.3: byte `i` of the payload is combined with byte `i` modulo 4 of the key. */
  function Masked(payload: seq<byte>, key: seq<byte>): (r: seq<byte>)
    requires |key| == 4
    ensures |r| == |payload| && forall i :: 0 <= i < |r| ==> r[i] == XorByte(payload[i], key[i % 4])
  {
    seq(|payload|, i requires 0 <= i < |payload| => XorByte(payload[i], key[i % 4]))
  }

  lemma UnmaskMasked(payload: seq<byte>, key: seq<byte>)
    requires |key| == 4
    ensures Masked(Masked(payload, key), key) == payload
  {
    ByteHasEightBits();
    forall i | 0 <= i < |payload|
      ensures Masked(Masked(payload, key), key)[i] == payload[i]
    {
      XorTwice(payload[i], key[i % 4], 8);
    }
  }

  // ----- frames -----

  type Opcode = x: nat | x < 16

  const BINARY: Opcode := 2
  const CLOSE: Opcode := 8
  const PING: Opcode := 9
  const PONG: Opcode := 10

  const INT_LIMIT := 0x8000_0000_0000_0000

  /** A frame, sent with a masking key of four bytes or without one. */
  datatype Frame = Frame(opcode: Opcode, masked: bool, key: seq<byte>, payload: seq<byte>)

  ghost predicate WellFormed(f: Frame) {
    |f.key| == 4 && |f.payload| < INT_LIMIT
  }

  function Length7(size: nat): (n: nat)
    ensures n < 128
  {
    if size <= 125 then size else if size <= 65535 then 126 else 127
  }

  function LengthBytes(size: nat): seq<byte> {
    if size <= 125 then [] else if size <= 65535 then BigEndian(size, 2) else BigEndian(size, 8)
  }

  /** The bytes of a frame. */
  function Encode(f: Frame): seq<byte>
    requires |f.key| == 4
  {
    [128 + f.opcode, Length7(|f.payload|) + if f.masked then 128 else 0] + LengthBytes(|f.payload|)
    + (if f.masked then f.key + Masked(f.payload, f.key) else f.payload)
  }

  /** What PackWebSocketFrame returns: an unmasked frame, or nothing for an opcode that does not fit. */
  function Pack(payload: seq<byte>, opcode: byte): seq<byte> {
    if opcode >= 16 then [] else Encode(Frame(opcode, false, [0, 0, 0, 0], payload))
  }

  lemma ShiftedBytes(n: nat)
    ensures BigEndian(n, 2) == [n / 0x100 % 256, n % 256]
    ensures BigEndian(n, 8) == [n / 0x100_0000_0000_0000 % 256, n / 0x1_0000_0000_0000 % 256, n / 0x100_0000_0000 % 256,
                                n / 0x1_0000_0000 % 256, n / 0x100_0000 % 256, n / 0x1_0000 % 256, n / 0x100 % 256, n % 256]
  {
    var n1 := n / 256;
    var n2 := n1 / 256;
    var n3 := n2 / 256;
    var n4 := n3 / 256;
    var n5 := n4 / 256;
    var n6 := n5 / 256;
    var n7 := n6 / 256;
    assert n2 == n / 0x1_0000 && n3 == n / 0x100_0000 && n4 == n / 0x1_0000_0000;
    assert n5 == n / 0x100_0000_0000 && n6 == n / 0x1_0000_0000_0000 && n7 == n / 0x100_0000_0000_0000;
    assert BigEndian(n6, 2) == [n7 % 256, n6 % 256];
    assert BigEndian(n4, 4) == BigEndian(n6, 2) + [n5 % 256] + [n4 % 256];
    assert BigEndian(n2, 6) == BigEndian(n4, 4) + [n3 % 256] + [n2 % 256];
    assert BigEndian(n, 8) == BigEndian(n2, 6) + [n1 % 256] + [n % 256];
  }

  method PackWebSocketFrame(payload: seq<byte>, opcode: byte) returns (frame: seq<byte>)
    ensures frame == Pack(payload, opcode)
  {
    if opcode >= 16 {
      return [];
    }
    frame := [128 + opcode];
    var payloadSize := |payload|;
    ShiftedBytes(payloadSize);
    if payloadSize <= 125 {
      frame := frame + [payloadSize];
    } else if payloadSize <= 65535 {
      frame := frame + [126];
      frame := frame + [payloadSize / 0x100 % 256, payloadSize % 256];
    } else {
      frame := frame + [127];
      frame := frame + [payloadSize / 0x100_0000_0000_0000 % 256, payloadSize / 0x1_0000_0000_0000 % 256,
                        payloadSize / 0x100_0000_0000 % 256, payloadSize / 0x1_0000_0000 % 256,
                        payloadSize / 0x100_0000 % 256, payloadSize / 0x1_0000 % 256, payloadSize / 0x100 % 256, payloadSize % 256];
    }
    frame := frame + payload;
  }

  // ----- reading -----

  /** What the reader does with frames: it delivers payloads, answers pings, and reports a close. */
  datatype Event = Message(payload: seq<byte>, isBinary: bool) | Answer(bytes: seq<byte>) | Closed

  /** How reading ends: at the limit, at a close, with an error, or by making a slice of negative length. */
  datatype End = Finished(rest: seq<byte>) | Disconnected | Failed | Panicked

  datatype Reading = Reading(events: seq<Event>, end: End)

  datatype Sized = Sized(size: int, rest: seq<byte>) | NoSize

  function AsInt64(x: int): int {
    if x >= INT_LIMIT then x - 2 * INT_LIMIT else x
  }

  function Min(a: nat, b: nat): nat {
    if a < b then a else b
  }

  function Zeros(n: nat): (z: seq<byte>)
    ensures |z| == n && forall i :: 0 <= i < n ==> z[i] == 0
  {
    seq(n, _ => 0)
  }

  /**
   The size of the payload. The eight bytes of a long size are asked for with a single Read,
   which returns `got` bytes if the stream has them; those that did not come count as zero.
   */
  function ReadSize(size7: nat, s: seq<byte>, got: nat): Sized
    requires got <= 8
  {
    if size7 == 126 then
      if |s| < 2 then NoSize else Sized(ParseBigEndian(s[..2]), s[2..])
    else if size7 == 127 then
      if s == [] then NoSize
      else
        var n := Min(got, |s|);
        Sized(AsInt64(ParseBigEndian(s[..n] + Zeros(8 - n))), s[n..])
    else Sized(size7, s)
  }

  datatype Parsed = Parsed(opcode: Opcode, payload: seq<byte>, rest: seq<byte>) | Stop(end: End)

  /** The payload, once its size is known. */
  function ReadPayload(opcode: Opcode, masked: bool, sized: Sized): Parsed {
    if sized.NoSize? then Stop(Failed)
    else if masked && |sized.rest| < 4 then Stop(Failed)
    else
      var s := if masked then sized.rest[4..] else sized.rest;
      if sized.size < 0 then Stop(Panicked)
      else if |s| < sized.size then Stop(Failed)
      else Parsed(opcode, if masked then Masked(s[..sized.size], sized.rest[..4]) else s[..sized.size], s[sized.size..])
  }

  function ReadFrame(s: seq<byte>, got: nat): (p: Parsed)
    requires got <= 8
    ensures p.Parsed? ==> |p.rest| < |s|
  {
    if |s| < 2 then Stop(Failed)
    else if s[0] % 16 == CLOSE then Stop(Disconnected)
    else ReadPayload(s[0] % 16, s[1] / 128 == 1, ReadSize(s[1] % 128, s[2..], got))
  }

  function EventsOf(opcode: Opcode, payload: seq<byte>): seq<Event> {
    if opcode == PING then [Answer(Pack(payload, PONG))]
    else if opcode == PONG then []
    else [Message(payload, opcode == BINARY)]
  }

  function Prepend(events: seq<Event>, r: Reading): Reading {
    Reading(events + r.events, r.end)
  }

  function OneLess(limit: int): int {
    if limit < 0 then limit else limit - 1
  }

  /** The reading loop; a negative limit means none. */
  function Read(s: seq<byte>, limit: int, got: nat): Reading
    requires got <= 8
    decreases |s|
  {
    if limit == 0 then Reading([], Finished(s))
    else
      var p := ReadFrame(s, got);
      if p.Stop? then Reading(if p.end.Disconnected? then [Closed] else [], p.end)
      else Prepend(EventsOf(p.opcode, p.payload), Read(p.rest, OneLess(limit), got))
  }

  // ----- the stream round trip -----

  function EncodeAll(fs: seq<Frame>): seq<byte>
    requires forall i :: 0 <= i < |fs| ==> |fs[i].key| == 4
  {
    if fs == [] then [] else Encode(fs[0]) + EncodeAll(fs[1..])
  }

  function EventsOfAll(fs: seq<Frame>): seq<Event> {
    if fs == [] then [] else EventsOf(fs[0].opcode, fs[0].payload) + EventsOfAll(fs[1..])
  }

  ghost predicate AllWellFormed(fs: seq<Frame>) {
    forall i :: 0 <= i < |fs| ==> WellFormed(fs[i])
  }

  ghost predicate NoClose(fs: seq<Frame>) {
    forall i :: 0 <= i < |fs| ==> fs[i].opcode != CLOSE
  }

  lemma Limits()
    ensures Limit(2) == 0x1_0000 && Limit(8) == 0x1_0000_0000_0000_0000
  {
    assert Limit(4) == 0x1_0000_0000;
  }

  /** A size whose bytes a single Read returns, or that is not asked for with one. */
  predicate IsWhole(size: nat, got: nat) {
    got == 8 || size <= 65535
  }

  /** All three encodings of a size are read back. */
  lemma SizeRoundTrip(size: nat, rest: seq<byte>, got: nat)
    requires size < INT_LIMIT && got <= 8 && IsWhole(size, got)
    ensures ReadSize(Length7(size), LengthBytes(size) + rest, got) == Sized(size, rest)
  {
    Limits();
    var s := LengthBytes(size) + rest;
    if 125 < size <= 65535 {
      BigEndianRoundTrip(size, 2);
      assert s[..2] == BigEndian(size, 2);
    } else if size > 65535 {
      BigEndianRoundTrip(size, 8);
      assert s[..8] + Zeros(0) == BigEndian(size, 8);
    }
  }

  function Body(f: Frame): seq<byte>
    requires |f.key| == 4
  {
    if f.masked then f.key + Masked(f.payload, f.key) else f.payload
  }

  lemma PayloadRoundTrip(f: Frame, rest: seq<byte>)
    requires WellFormed(f)
    ensures ReadPayload(f.opcode, f.masked, Sized(|f.payload|, Body(f) + rest)) == Parsed(f.opcode, f.payload, rest)
  {
    hide Masked, XorByte;
    var b := Body(f) + rest;
    var n := |f.payload|;
    if f.masked {
      var m := Masked(f.payload, f.key);
      assert b[..4] == f.key && b[4..] == m + rest;
      assert (m + rest)[..n] == m && (m + rest)[n..] == rest;
      UnmaskMasked(f.payload, f.key);
    } else {
      assert b[..n] == f.payload && b[n..] == rest;
    }
  }

  lemma EncodedParts(f: Frame, rest: seq<byte>)
    requires WellFormed(f)
    ensures var s := Encode(f) + rest;
            && |s| >= 2 && s[0] == 128 + f.opcode && s[1] == Length7(|f.payload|) + (if f.masked then 128 else 0)
            && s[2..] == LengthBytes(|f.payload|) + (Body(f) + rest)
  {
    hide Masked, LengthBytes;
  }

  lemma FrameRoundTrip(f: Frame, rest: seq<byte>, got: nat)
    requires WellFormed(f) && got <= 8 && (f.opcode != CLOSE ==> IsWhole(|f.payload|, got))
    ensures f.opcode != CLOSE ==> ReadFrame(Encode(f) + rest, got) == Parsed(f.opcode, f.payload, rest)
    ensures f.opcode == CLOSE ==> ReadFrame(Encode(f) + rest, got) == Stop(Disconnected)
  {
    hide Encode, ReadSize, ReadPayload, LengthBytes, Body;
    EncodedParts(f, rest);
    if f.opcode != CLOSE {
      SizeRoundTrip(|f.payload|, Body(f) + rest, got);
      PayloadRoundTrip(f, rest);
    }
  }

  /** The sizes of all these frames are read whole. */
  ghost predicate AllWhole(fs: seq<Frame>, got: nat) {
    forall i :: 0 <= i < |fs| ==> IsWhole(|fs[i].payload|, got)
  }

  /** Frames that arrive together are delivered one by one, and reading goes on behind them. */
  lemma {:induction false} StreamRoundTrip(fs: seq<Frame>, rest: seq<byte>, limit: int, got: nat)
    requires AllWellFormed(fs) && NoClose(fs) && (limit < 0 || |fs| <= limit) && got <= 8 && AllWhole(fs, got)
    ensures Read(EncodeAll(fs) + rest, limit, got)
         == Prepend(EventsOfAll(fs), Read(rest, if limit < 0 then limit else limit - |fs|, got))
    decreases |fs|
  {
    hide Encode, ReadFrame, EventsOf;
    if fs == [] {
      assert EncodeAll(fs) + rest == rest;
    } else {
      var f, more := fs[0], fs[1..];
      var behind := EncodeAll(more) + rest;
      assert EncodeAll(fs) + rest == Encode(f) + behind;
      StreamRoundTrip(more, rest, OneLess(limit), got);
      ReadOne(f, behind, limit, got);
    }
  }

  lemma ReadOne(f: Frame, rest: seq<byte>, limit: int, got: nat)
    requires WellFormed(f) && f.opcode != CLOSE && limit != 0 && got <= 8 && IsWhole(|f.payload|, got)
    ensures Read(Encode(f) + rest, limit, got) == Prepend(EventsOf(f.opcode, f.payload), Read(rest, OneLess(limit), got))
  {
    hide Encode, ReadFrame, EventsOf;
    FrameRoundTrip(f, rest, got);
  }

  /** A close ends the reading; nothing behind it is looked at. */
  lemma CloseStopsReading(fs: seq<Frame>, close: Frame, rest: seq<byte>, limit: int, got: nat)
    requires AllWellFormed(fs) && NoClose(fs) && WellFormed(close) && close.opcode == CLOSE
    requires (limit < 0 || |fs| < limit) && got <= 8 && AllWhole(fs, got)
    ensures Read(EncodeAll(fs) + (Encode(close) + rest), limit, got) == Reading(EventsOfAll(fs) + [Closed], Disconnected)
  {
    hide Encode, ReadFrame, EventsOf;
    StreamRoundTrip(fs, Encode(close) + rest, limit, got);
    FrameRoundTrip(close, rest, got);
  }

  // ----- the one Read that may return less -----

  lemma {:induction false} ZeroedIsNoLarger(b: seq<byte>, n: nat)
    requires n <= |b|
    ensures ParseBigEndian(b[..n] + Zeros(|b| - n)) <= ParseBigEndian(b)
    decreases |b|
  {
    var z := b[..n] + Zeros(|b| - n);
    if n == |b| {
      assert z == b;
    } else {
      var init := b[..|b| - 1];
      ZeroedIsNoLarger(init, n);
      assert z[..|z| - 1] == init[..n] + Zeros(|init| - n);
    }
  }

  /** With fewer than all eight bytes of a long length, the size is never too large and the others are left over. */
  lemma ShortSize(size: nat, rest: seq<byte>, got: nat)
    requires 65535 < size < INT_LIMIT && got < 8
    ensures var s := BigEndian(size, 8) + rest; var sized := ReadSize(127, s, got);
            sized.Sized? && 0 <= sized.size <= size && |sized.rest| == 8 - got + |rest|
  {
    var b := BigEndian(size, 8);
    var s := b + rest;
    Limits();
    BigEndianRoundTrip(size, 8);
    ZeroedIsNoLarger(b, got);
    assert s[..got] == b[..got];
  }

  /** Bytes are left over behind the payload, too. */
  lemma ShortPayload(f: Frame, sized: Sized, got: nat)
    requires WellFormed(f) && got < 8 && sized.Sized? && 0 <= sized.size <= |f.payload|
    requires |sized.rest| == 8 - got + |Body(f)|
    ensures ReadPayload(f.opcode, f.masked, sized).Parsed? && |ReadPayload(f.opcode, f.masked, sized).rest| > 0
  {
    hide Masked;
  }

  /** A frame is read as it was sent exactly when its payload is short or the Read of its length returns all eight bytes. */
  lemma FaithfulExactlyWhenWhole(f: Frame, got: nat)
    requires WellFormed(f) && f.opcode != CLOSE && got <= 8
    ensures Read(Encode(f), 1, got) == Reading(EventsOf(f.opcode, f.payload), Finished([]))
       <==> |f.payload| <= 65535 || got == 8
  {
    hide ReadFrame, Encode, EventsOf, Body;
    assert Encode(f) + [] == Encode(f);
    if IsWhole(|f.payload|, got) {
      ReadOne(f, [], 1, got);
      assert EventsOf(f.opcode, f.payload) + [] == EventsOf(f.opcode, f.payload);
    } else {
      LongFrameLeavesBytes(f, got);
    }
  }

  lemma LongFrameLeavesBytes(f: Frame, got: nat)
    requires WellFormed(f) && f.opcode != CLOSE && got < 8 && |f.payload| > 65535
    ensures var p := ReadFrame(Encode(f), got); p.Parsed? && |p.rest| > 0
  {
    hide ReadSize, ReadPayload, Encode, Body;
    assert Encode(f) + [] == Encode(f) && Body(f) + [] == Body(f);
    EncodedParts(f, []);
    ShortSize(|f.payload|, Body(f), got);
    ShortPayload(f, ReadSize(127, BigEndian(|f.payload|, 8) + Body(f), got), got);
  }

  // ----- the reader, over its connection -----

  /** The bytes still to come, and what has been delivered to the read function and answered. */
  class Connection {
    var input: seq<byte>
    var events: seq<Event>
    /** How many bytes a single Read returns if they are there. */
    const got: nat

    constructor (input: seq<byte>, got: nat)
      ensures this.input == input && events == [] && this.got == got
    {
      this.input := input;
      this.got := got;
      events := [];
    }

    /** io.ReadFull: all `n` bytes or an error. */
    method ReadFull(n: nat) returns (buffer: array<byte>, ok: bool)
      modifies this`input
      ensures fresh(buffer) && buffer.Length == n && ok == (|old(input)| >= n)
      ensures ok ==> buffer[..] == old(input)[..n] && input == old(input)[n..]
    {
      ghost var before := input;
      ok := |input| >= n;
      buffer := new byte[n](_ => 0);
      if ok {
        var bytes := input[..n];
        forall i | 0 <= i < n {
          buffer[i] := bytes[i];
        }
        assert buffer[..] == before[..n];
        input := input[n..];
      } else {
        input := [];
      }
    }

    /** A single Read into a buffer of zeros. */
    method Read(n: nat) returns (buffer: array<byte>, ok: bool)
      modifies this`input
      ensures fresh(buffer) && buffer.Length == n && ok == (old(input) != [])
      ensures ok && got <= n ==> var m := Min(got, |old(input)|);
              buffer[..] == old(input)[..m] + Zeros(n - m) && input == old(input)[m..]
    {
      ghost var before := input;
      ok := input != [];
      buffer := new byte[n](_ => 0);
      var m := Min(got, |input|);
      if ok && m <= n {
        var bytes := input[..m] + Zeros(n - m);
        forall i | 0 <= i < n {
          buffer[i] := bytes[i];
        }
        assert buffer[..] == before[..m] + Zeros(n - m);
        input := input[m..];
      }
    }
  }

  /** The size of the payload of a frame whose second byte is read. */
  method ReadPayloadSize(cl: Connection, size7: nat) returns (payloadSize: int, ok: bool)
    requires cl.got <= 8
    modifies cl`input
    ensures (if ok then Sized(payloadSize, cl.input) else NoSize) == ReadSize(size7, old(cl.input), cl.got)
  {
    payloadSize, ok := size7, true;
    var sizeAdder;
    if payloadSize == 126 {
      sizeAdder, ok := cl.ReadFull(2);
      if ok {
        payloadSize := ParseBigEndian(sizeAdder[..]);
      }
    } else if payloadSize == 127 {
      sizeAdder, ok := cl.Read(8);
      if ok {
        payloadSize := AsInt64(ParseBigEndian(sizeAdder[..]));
      }
    }
  }

  /** Section 5.3, in place. */
  method Unmask(payload: array<byte>, maskingKey: seq<byte>)
    requires |maskingKey| == 4
    modifies payload
    ensures payload[..] == Masked(old(payload[..]), maskingKey)
  {
    for i := 0 to payload.Length
      invariant forall j :: i <= j < payload.Length ==> payload[j] == old(payload[j])
      invariant forall j :: 0 <= j < i ==> payload[j] == XorByte(old(payload[j]), maskingKey[j % 4])
    {
      payload[i] := XorByte(payload[i], maskingKey[i % 4]);
    }
  }

  /** The key and the payload, read and unmasked. */
  method ReadPayloadBytes(cl: Connection, opcode: Opcode, hasMask: bool, payloadSize: int) returns (payload: array<byte>, end: End)
    modifies cl`input
    ensures fresh(payload)
    ensures var p := ReadPayload(opcode, hasMask, Sized(payloadSize, old(cl.input)));
            if end.Finished? then p == Parsed(opcode, payload[..], cl.input) else p == Stop(end) && !end.Disconnected?
  {
    hide Masked;
    var maskingKey := [0, 0, 0, 0];
    ghost var behind := cl.input;
    if hasMask {
      var key, ok := cl.ReadFull(4);
      if !ok {
        return key, Failed;
      }
      maskingKey := key[..];
      behind := cl.input;
    }
    if payloadSize < 0 {
      payload := new byte[0];
      return payload, Panicked;
    }
    var ok;
    payload, ok := cl.ReadFull(payloadSize);
    if !ok {
      return payload, Failed;
    }
    if hasMask {
      Unmask(payload, maskingKey);
    }
    end := Finished([]);
  }

  /** The part of the loop that reads one frame, up to its unmasked payload. */
  method ReadOneFrame(cl: Connection) returns (opcode: Opcode, payload: array<byte>, end: End)
    requires cl.got <= 8
    modifies cl`input
    ensures fresh(payload)
    ensures var p := ReadFrame(old(cl.input), cl.got);
            if end.Finished? then p == Parsed(opcode, payload[..], cl.input) else p == Stop(end)
  {
    hide ReadSize, ReadPayload, Masked, ParseBigEndian;
    ghost var s := cl.input;
    var header, ok := cl.ReadFull(2);
    if !ok {
      return 0, header, Failed;
    }
    assert header[..][0] == s[0] && header[..][1] == s[1];
    opcode := header[0] % 16;
    if opcode == CLOSE {
      return opcode, header, Disconnected;
    }
    var hasMask := header[1] / 128 == 1;
    var payloadSize;
    payloadSize, ok := ReadPayloadSize(cl, header[1] % 128);
    if !ok {
      NoSizeFails(opcode, hasMask);
      return opcode, header, Failed;
    }
    payload, end := ReadPayloadBytes(cl, opcode, hasMask, payloadSize);
  }

  method HandleWebSocketFrameRead(cl: Connection, limit: int) returns (end: End)
    requires cl.got <= 8
    modifies cl
    ensures Reading(cl.events, end) == Prepend(old(cl.events), Read(old(cl.input), limit, cl.got))
  {
    hide ReadFrame, Pack;
    var left := limit;
    ghost var all := Read(cl.input, limit, cl.got);
    while left != 0
      invariant limit < 0 ==> left < 0
      invariant Prepend(cl.events, Read(cl.input, left, cl.got)) == Prepend(old(cl.events), all)
      decreases |cl.input|
    {
      var opcode, payload;
      opcode, payload, end := ReadOneFrame(cl);
      if end.Disconnected? {
        cl.events := cl.events + [Closed];
        return;
      }
      if !end.Finished? {
        assert cl.events + [] == cl.events;
        return;
      }
      ghost var before, tail := cl.events, Read(cl.input, OneLess(left), cl.got);
      left := OneLess(left);
      if opcode == PING {
        cl.events := cl.events + [Answer(Pack(payload[..], PONG))];
      } else if opcode != PONG {
        cl.events := cl.events + [Message(payload[..], opcode == BINARY)];
      }
      assert cl.events == before + EventsOf(opcode, payload[..]);
      assert before + EventsOf(opcode, payload[..]) + tail.events == before + (EventsOf(opcode, payload[..]) + tail.events);
    }
    end := Finished(cl.input);
    assert cl.events + [] == cl.events;
  }

  lemma NoSizeFails(opcode: Opcode, masked: bool)
    ensures ReadPayload(opcode, masked, NoSize) == Stop(Failed)
  {
  }
}
