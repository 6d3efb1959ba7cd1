/**
 The bytes of stabilized frames: how HandleRead takes them apart (udp/UDPConnectionStabilizer.go:239-411)
 and how retransmissions of one frame relate (570-601).
 */
module Wire {
  import opened BitArrays
  import opened Bytes
  import opened Serial
  import opened WindowMeaning
  import opened ReplayWindows
  import opened StabilizerMeaning

  const PING: byte := 1
  const PONG: byte := 2
  const DATA_RECEIVED: byte := 3
  const DATA: byte := 4
  const DATA_WITH_RESEND: byte := 5
  const DATA_WITH_ORDER_INSTANT: byte := 6
  const DATA_WITH_ORDER_TIMEOUT: byte := 7
  const DATA_WITH_ORDER_RESEND: byte := 8
  const DISCONNECT: byte := 255

  /** Frame types that carry one word of the sender's receive window in front. */
  predicate CarriesWindow(frameType: byte) {
    frameType !in {DATA, DATA_WITH_ORDER_INSTANT, DATA_WITH_ORDER_TIMEOUT, DATA_RECEIVED}
  }

  /** All frame types but the three that are never acknowledged; one that is unknown still carries a window. */
  predicate IsAcknowledging(frameType: byte) {
    frameType !in {DATA, DATA_WITH_ORDER_INSTANT, DATA_WITH_ORDER_TIMEOUT}
  }

  /** The bytes that the reader indexes are there. */
  predicate LongEnough(b: seq<byte>, words: nat) {
    && |b| > 0 && IsAcknowledging(b[0])
    && match b[0]
       case 3 => |b| >= 14 && |b| >= 14 + 8 * ReadWords(b[9..], 0, words)
       case 5 => |b| >= 25
       case 8 => |b| >= 29
       case _ => |b| >= 13
  }

  /** A window of `n` words as it stands in a frame: right edge first, then the words from the right. */
  ghost function ParseSnap(b: seq<byte>, header: nat, n: nat): Snap
    requires header >= 4 && |b| >= header + 8 * n
  {
    Snap(ParseUint32(b), 64 * n, SeenBits(ParseWords(b[header..], n)))
  }

  /** What HandleRead makes of the bytes. */
  ghost function ParseFrame(b: seq<byte>, words: nat): Frame
    requires LongEnough(b, words)
  {
    match b[0]
    case 3 => Control(ParseSnap(b[9..], 5, ReadWords(b[9..], 0, words)))
    case 5 => Data(ParseSnap(b[1..], 4, 1), ParseUint32(b[21..]), b[25..])
    case 8 => OrderedData(ParseSnap(b[1..], 4, 1), ParseUint32(b[21..]), ParseUint32(b[25..]), b[29..])
    case _ => Control(ParseSnap(b[1..], 4, 1))
  }

  // ----- writing and reading a window -----

  lemma SeenOfSuffix(ws: seq<nat>, n: nat)
    requires n <= |ws|
    ensures SeenBits(ws[|ws| - n..]) == Clipped(SeenBits(ws), 64 * n)
  {
    var tail := ws[|ws| - n..];
    forall p: nat | p < 64 * n
      ensures BitOf(tail, WORD, p) == BitOf(ws, WORD, p)
    {
      BitAt(tail, p);
      BitAt(ws, p);
    }
  }

  lemma Uint32RoundTrip(x: uint32, rest: seq<byte>)
    ensures ParseUint32(LittleEndian(x, 4) + rest) == x
  {
    Pow2Of32();
    RoundTrip(x, 4, rest);
  }

  /** The newest words of a window, written and read back. */
  lemma WindowRoundTrip(edge: uint32, ws: seq<nat>, limit: byte, writeSize: bool, rest: seq<byte>)
    requires 0 < |ws| < 256 && AreWords(ws, WORD)
    ensures var n := SentWords(|ws|, limit);
            var b := WindowBytes(edge, ws, limit, writeSize) + rest;
            var header := if writeSize then 5 else 4;
            && |b| == header + 8 * n + |rest|
            && (writeSize ==> b[4] == n)
            && ParseSnap(b, header, n) == Snap(edge, 64 * n, Clipped(SeenBits(ws), 64 * n))
            && b[header + 8 * n..] == rest
  {
    hide WordBytes, ParseWords, LittleEndian, ParseLittleEndian;
    var n := SentWords(|ws|, limit);
    var tail := ws[|ws| - n..];
    var size := if writeSize then [n] else [];
    var b := WindowBytes(edge, ws, limit, writeSize) + rest;
    assert b == LittleEndian(edge, 4) + (size + (WordBytes(tail) + rest));
    Uint32RoundTrip(edge, size + (WordBytes(tail) + rest));
    assert b[4 + |size|..] == WordBytes(tail) + rest;
    WordsRoundTrip(tail, rest);
    SeenOfSuffix(ws, n);
  }

  // ----- retransmission -----

  const TIMESTAMP_AT := 13

  /** resendWrite, first try: room for a timestamp is made after the window. */
  function Stamped(data: seq<byte>, time: seq<byte>): seq<byte>
    requires |data| >= TIMESTAMP_AT
  {
    data[..TIMESTAMP_AT] + time + data[TIMESTAMP_AT..]
  }

  /** The buffer after one call of resendWrite: stamped anew, or its timestamp overwritten. */
  function NextBuffer(data: seq<byte>, try: byte, now: seq<byte>): (b: seq<byte>)
    requires |now| == 8 && |data| >= if try == 0 then 13 else 21
    ensures |b| == if try == 0 then |data| + 8 else |data|
  {
    if try == 0 then Stamped(data, now) else data[..13] + now + data[21..]
  }

  /** resendWrite: one call for a packet; the buffer is what its timer passes on to the next call. */
  method ResendWrite(data: seq<byte>, infiniteSend: bool, try: byte, now: seq<byte>, resendRetries: byte)
    returns (buffer: seq<byte>, sent: bool)
    requires |now| == 8 && |data| >= if try == 0 then 13 else 21
    ensures buffer == NextBuffer(data, try, now)
    ensures sent == IsSent(infiniteSend, try, resendRetries)
  {
    buffer := data;
    if try == 0 {
      var dataSend := data[..13] + seq(8, _ => 0) + data[13..];
      buffer := dataSend;
    }
    buffer := buffer[..13] + now + buffer[21..];
    sent := resendRetries == 0 || infiniteSend || try <= (if resendRetries < 254 then resendRetries else 254);
  }

  predicate IsSent(infiniteSend: bool, try: byte, resendRetries: byte) {
    resendRetries == 0 || infiniteSend || try <= MostResends(resendRetries)
  }

  /** The try counter that the timer passes on; it is a byte, and its zero is skipped. */
  function NextTry(try: byte): byte {
    var t := if (try + 1) % 256 == 0 then 0 else try;
    (t + 1) % 256
  }

  function TryAt(k: nat): byte {
    if k == 0 then 0 else NextTry(TryAt(k - 1))
  }

  /** The buffer after call `k` for a packet, given the times of the calls. */
  function BufferAt(data: seq<byte>, times: seq<seq<byte>>, k: nat): (b: seq<byte>)
    requires |data| >= 13 && k < |times| && forall i :: 0 <= i < |times| ==> |times[i]| == 8
    ensures |b| >= |data| + 8
  {
    NextBuffer(if k == 0 then data else BufferAt(data, times, k - 1), TryAt(k), times[k])
  }

  /** The counter is back at 1 after 255, never at 0: the timestamp is inserted once only. */
  lemma {:induction false} TryNeverReturnsToZero(k: nat)
    requires k > 0
    ensures TryAt(k) == (k - 1) % 255 + 1
  {
    hide NextTry;
    if k == 1 {
      FirstTry();
    } else {
      TryNeverReturnsToZero(k - 1);
      TryStep(k - 2);
    }
  }

  lemma FirstTry()
    ensures NextTry(0) == 1
  {
  }

  lemma TryStep(j: nat)
    ensures NextTry(j % 255 + 1) == (j + 1) % 255 + 1
  {
  }

  /** Every transmission equals the first one except in the eight bytes of the timestamp. */
  lemma {:induction false} ResendsDifferInTimestamp(data: seq<byte>, times: seq<seq<byte>>, k: nat)
    requires |data| >= 13 && k < |times| && forall i :: 0 <= i < |times| ==> |times[i]| == 8
    ensures BufferAt(data, times, k) == data[..13] + times[k] + data[13..]
  {
    if k > 0 {
      TryNeverReturnsToZero(k);
      ResendsDifferInTimestamp(data, times, k - 1);
    }
  }

  /** ... and so it decodes to the same frame. */
  lemma ResendsDecodeAlike(data: seq<byte>, times: seq<seq<byte>>, k: nat, words: nat)
    requires |data| >= 13 && k < |times| && forall i :: 0 <= i < |times| ==> |times[i]| == 8
    requires data[0] in {DATA_WITH_RESEND, DATA_WITH_ORDER_RESEND} && LongEnough(BufferAt(data, times, 0), words)
    ensures LongEnough(BufferAt(data, times, k), words)
    ensures ParseFrame(BufferAt(data, times, k), words) == ParseFrame(BufferAt(data, times, 0), words)
  {
    ResendsDifferInTimestamp(data, times, 0);
    ResendsDifferInTimestamp(data, times, k);
    var first, again := BufferAt(data, times, 0), BufferAt(data, times, k);
    assert first[21..] == data[13..] && again[21..] == data[13..];
    assert first[25..] == first[21..][4..] && again[25..] == again[21..][4..];
    SameWindowPrefix(first, again);
    if data[0] == DATA_WITH_ORDER_RESEND {
      assert first[29..] == first[21..][8..] && again[29..] == again[21..][8..];
    }
  }

  lemma SameWindowPrefix(b: seq<byte>, c: seq<byte>)
    requires |b| == |c| >= 13 && b[..13] == c[..13]
    ensures ParseSnap(b[1..], 4, 1) == ParseSnap(c[1..], 4, 1)
  {
    PrefixDecides(b[1..], c[1..], 4);
    PrefixDecides(b[1..][4..], c[1..][4..], 8);
    assert ParseWords(b[1..][4..], 1) == ParseWords(c[1..][4..], 1) by {
      assert ParseWords(b[1..][4..][8..], 0) == ParseWords(c[1..][4..][8..], 0);
    }
  }

  lemma {:induction false} PrefixDecides(b: seq<byte>, c: seq<byte>, k: nat)
    requires |b| >= k && |c| >= k && forall i :: 0 <= i < k ==> b[i] == c[i]
    ensures ParseLittleEndian(b, k) == ParseLittleEndian(c, k)
    decreases k
  {
    if k > 0 {
      PrefixDecides(b[1..], c[1..], k - 1);
    }
  }

  /** A call is made when it is the first, or when the one before it was sent and not acknowledged since. */
  ghost predicate IsCalled(acknowledged: seq<bool>, infiniteSend: bool, resendRetries: byte, k: nat) {
    k == 0 || (k <= |acknowledged| && IsCalled(acknowledged, infiniteSend, resendRetries, k - 1)
               && IsSent(infiniteSend, TryAt(k - 1), resendRetries) && !acknowledged[k - 1])
  }

  function MostResends(resendRetries: byte): nat {
    if resendRetries < 254 then resendRetries else 254
  }

  /** A packet that is not resent for ever is sent at most min(ResendRetries, 254) + 1 times. */
  lemma {:induction false} BoundedResends(acknowledged: seq<bool>, resendRetries: byte, k: nat)
    requires resendRetries > 0
    requires IsCalled(acknowledged, false, resendRetries, k) && IsSent(false, TryAt(k), resendRetries)
    ensures k <= MostResends(resendRetries)
  {
    hide TryAt;
    if k > 0 {
      BoundedResends(acknowledged, resendRetries, k - 1);
      TryNeverReturnsToZero(k);
    }
  }

  /** While no acknowledgement comes, all of them are made; without a bound, resending never stops. */
  lemma {:induction false} ResendsUntilAcknowledged(acknowledged: seq<bool>, infiniteSend: bool, resendRetries: byte, k: nat)
    requires k <= |acknowledged| && forall i :: 0 <= i < k ==> !acknowledged[i]
    requires infiniteSend || resendRetries == 0 || k <= MostResends(resendRetries)
    ensures IsCalled(acknowledged, infiniteSend, resendRetries, k) && IsSent(infiniteSend, TryAt(k), resendRetries)
  {
    if k > 0 {
      ResendsUntilAcknowledged(acknowledged, infiniteSend, resendRetries, k - 1);
      TryNeverReturnsToZero(k);
    }
  }
}
