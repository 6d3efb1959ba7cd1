/** The connection object of udp/UDPConnectionStabilizer.go: frames of bytes in, frames of bytes out. */
module ConnectionStabilizer {
  import opened Wrappers
  import opened BitArrays
  import opened Bytes
  import opened Serial
  import opened Policies
  import opened PacketHeap
  import opened WindowMeaning
  import opened ReplayWindows
  import opened PacketOrderers
  import opened StabilizerMeaning
  import opened Wire
  import M = OrdererMachine

  // ----- frames that are never acknowledged -----

  datatype Unacknowledged = Plain(payload: Payload) | Simple(instant: bool, orderNum: uint32, payload: Payload)

  function ParseUnacknowledged(b: seq<byte>): Option<Unacknowledged> {
    if |b| >= 1 && b[0] == DATA then Some(Plain(b[1..]))
    else if |b| >= 5 && b[0] in {DATA_WITH_ORDER_INSTANT, DATA_WITH_ORDER_TIMEOUT} then
      Some(Simple(b[0] == DATA_WITH_ORDER_INSTANT, ParseUint32(b[1..]), b[5..]))
    else None
  }

  function AllowFor(instant: bool): AllowMissing {
    if instant then AllowInDumpAndPush else AllowNone
  }

  /** What the simple orderer makes of such a frame. */
  function OnUnacknowledged(m: M.Machine<Payload>, f: Unacknowledged): (M.Machine<Payload>, seq<Payload>) {
    match f
    case Plain(payload) => (m, [payload])
    case Simple(instant, orderNum, payload) =>
      var (r, out) := M.Push(m, Entry(orderNum, payload), AllowFor(instant));
      (r, M.ValuesOf(out))
  }

  /** The first transmission of a packet that is resent. */
  function DataFrame(edge: uint32, ws: seq<nat>, now: seq<byte>, seqNum: uint32, data: Payload): seq<byte>
    requires 0 < |ws| < 256
  {
    [DATA_WITH_RESEND] + WindowBytes(edge, ws, 1, false) + now + LittleEndian(seqNum, 4) + data
  }

  function OrderedFrame(edge: uint32, ws: seq<nat>, now: seq<byte>, seqNum: uint32, orderNum: uint32, data: Payload): seq<byte>
    requires 0 < |ws| < 256
  {
    [DATA_WITH_ORDER_RESEND] + WindowBytes(edge, ws, 1, false) + now + LittleEndian(seqNum, 4)
    + LittleEndian(orderNum, 4) + data
  }

  lemma StampedBetween(head: seq<byte>, tail: seq<byte>, now: seq<byte>)
    requires |head| == 13 && |now| == 8
    ensures NextBuffer(head + tail, 0, now) == head + now + tail
  {
    assert (head + tail)[..13] == head && (head + tail)[13..] == tail;
  }

  lemma DataFrameParses(edge: uint32, ws: seq<nat>, now: seq<byte>, seqNum: uint32, data: Payload)
    requires 0 < |ws| < 256 && AreWords(ws, WORD) && |now| == 8
    ensures var b := DataFrame(edge, ws, now, seqNum, data);
            && LongEnough(b, |ws|)
            && ParseFrame(b, |ws|) == Data(Snap(edge, 64, Clipped(SeenBits(ws), 64)), seqNum, data)
  {
    hide LittleEndian, ParseLittleEndian, ParseSnap, Clipped, SeenBits, AreWords, WindowBytes;
    var b := DataFrame(edge, ws, now, seqNum, data);
    var rest := now + LittleEndian(seqNum, 4) + data;
    WindowRoundTrip(edge, ws, 1, false, rest);
    assert b[1..] == WindowBytes(edge, ws, 1, false) + rest;
    assert b[21..] == LittleEndian(seqNum, 4) + data;
    Uint32RoundTrip(seqNum, data);
    assert b[25..] == data;
  }

  lemma OrderedFrameParses(edge: uint32, ws: seq<nat>, now: seq<byte>, seqNum: uint32, orderNum: uint32, data: Payload)
    requires 0 < |ws| < 256 && AreWords(ws, WORD) && |now| == 8
    ensures var b := OrderedFrame(edge, ws, now, seqNum, orderNum, data);
            && LongEnough(b, |ws|)
            && ParseFrame(b, |ws|) == OrderedData(Snap(edge, 64, Clipped(SeenBits(ws), 64)), seqNum, orderNum, data)
  {
    hide LittleEndian, ParseLittleEndian, ParseSnap, Clipped, SeenBits, AreWords, WindowBytes;
    var b := OrderedFrame(edge, ws, now, seqNum, orderNum, data);
    var rest := now + LittleEndian(seqNum, 4) + LittleEndian(orderNum, 4) + data;
    WindowRoundTrip(edge, ws, 1, false, rest);
    assert b[1..] == WindowBytes(edge, ws, 1, false) + rest;
    assert b[21..] == LittleEndian(seqNum, 4) + (LittleEndian(orderNum, 4) + data);
    Uint32RoundTrip(seqNum, LittleEndian(orderNum, 4) + data);
    assert b[25..] == LittleEndian(orderNum, 4) + data;
    Uint32RoundTrip(orderNum, data);
    assert b[29..] == data;
  }

  /** The sequence number is the low half of the 64-bit send counter. */
  lemma SameLowBits(n: nat)
    ensures Wrap(n % 0x1_0000_0000_0000_0000) == Wrap(n)
  {
  }

  lemma CountersMove(nextSeq: nat, nextOrder: nat)
    ensures (nextSeq % 0x1_0000_0000_0000_0000 + 1) % 0x1_0000_0000_0000_0000 == (nextSeq + 1) % 0x1_0000_0000_0000_0000
    ensures Wrap(Wrap(nextOrder) + 1) == Wrap(nextOrder + 1)
  {
  }

  class ConnectionStabilizerConn {
    var sendPacketResendNumber: nat
    var sendPacketOrderNumberPrecise: uint32
    var sendPacketOrderNumberSimple: uint32
    const sendedPacketsACKsWindow: ReplayWindow
    const incomingPacketsWindow: ReplayWindow
    const ordererPrecise: PacketOrderer<Payload>
    const ordererSimple: PacketOrderer<Payload>

    /** The send counters, unwrapped. */
    ghost var nextSeq: nat
    ghost var nextOrder: nat

    ghost predicate Valid()
      reads this, sendedPacketsACKsWindow, sendedPacketsACKsWindow.window
      reads incomingPacketsWindow, incomingPacketsWindow.window
    {
      && sendedPacketsACKsWindow != incomingPacketsWindow
      && sendedPacketsACKsWindow.window != incomingPacketsWindow.window
      && sendedPacketsACKsWindow.Valid() && incomingPacketsWindow.Valid()
      && sendedPacketsACKsWindow.window.Length == incomingPacketsWindow.window.Length
      && ordererPrecise.allowMissingPackets == AllowInDump
      && ordererSimple != ordererPrecise
      && ordererSimple.allowMissingPackets == AllowInDumpAndPush
      && sendPacketResendNumber == nextSeq % 0x1_0000_0000_0000_0000
      && sendPacketOrderNumberPrecise == Wrap(nextOrder)
    }

    ghost function View(): Peer<M.Machine<Payload>>
      requires Valid()
      reads this, sendedPacketsACKsWindow, sendedPacketsACKsWindow.window
      reads incomingPacketsWindow, incomingPacketsWindow.window, ordererPrecise
    {
      Peer(nextSeq, nextOrder, sendedPacketsACKsWindow.View(), incomingPacketsWindow.View(), ordererPrecise.State())
    }

    constructor (windowWordCount: nat)
      requires 0 < windowWordCount < 256
      ensures Valid() && View() == NewPeer(windowWordCount, M.NewMachine())
      ensures sendPacketOrderNumberSimple == 0 && ordererSimple.State() == M.NewMachine()
    {
      sendPacketResendNumber, sendPacketOrderNumberPrecise, sendPacketOrderNumberSimple := 0, 0, 0;
      nextSeq, nextOrder := 0, 0;
      sendedPacketsACKsWindow := new ReplayWindow(windowWordCount);
      incomingPacketsWindow := new ReplayWindow(windowWordCount);
      ordererPrecise := new PacketOrderer(AllowInDump);
      ordererSimple := new PacketOrderer(AllowInDumpAndPush);
    }

    ghost function Words(): nat
      reads this
    {
      incomingPacketsWindow.window.Length
    }

    /** HandleWrite for ping, pong and disconnect frames. */
    method HandleWriteControl(frameType: byte, data: seq<byte>) returns (frame: seq<byte>)
      requires Valid() && frameType in {PING, PONG, DISCONNECT}
      ensures LongEnough(frame, Words()) && ParseFrame(frame, Words()) == Control(SnapOf(View().inWin, 1))
    {
      var window := incomingPacketsWindow.GetWindowDataBytes(1, false);
      frame := [frameType] + window + data;
      ghost var w := incomingPacketsWindow;
      assert frame[1..] == WindowBytes(w.rightEdge, w.window[..], 1, false) + data;
      WindowRoundTrip(w.rightEdge, w.window[..], 1, false, data);
    }

    /** HandleWrite for an acknowledgement frame of `limit` words. */
    method HandleWriteACK(limit: byte, time: seq<byte>) returns (frame: seq<byte>)
      requires Valid() && |time| == 8
      ensures LongEnough(frame, Words())
      ensures ParseFrame(frame, Words()) == Control(SnapOf(View().inWin, SentWords(Words(), limit)))
    {
      var window := incomingPacketsWindow.GetWindowDataBytes(limit, true);
      frame := [DATA_RECEIVED] + time + window;
      ghost var w := incomingPacketsWindow;
      assert frame[9..] == WindowBytes(w.rightEdge, w.window[..], limit, true) + [];
      WindowRoundTrip(w.rightEdge, w.window[..], limit, true, []);
      assert frame[13] == frame[9..][4];
      assert frame[14..] == frame[9..][5..];
    }

    /** The buffer of HandleWrite, passed through the first call of resendWrite. */
    method FirstTransmission(ordered: bool, sequenceNumber: uint32, orderNumber: uint32, data: Payload, now: seq<byte>)
      returns (frame: seq<byte>)
      requires Valid() && |now| == 8
      ensures var edge, ws := incomingPacketsWindow.rightEdge, incomingPacketsWindow.window[..];
              frame == if ordered then OrderedFrame(edge, ws, now, sequenceNumber, orderNumber, data)
                       else DataFrame(edge, ws, now, sequenceNumber, data)
    {
      hide LittleEndian, WordBytes, NextBuffer, IsSent, SeenBits, AreWords;
      var window := incomingPacketsWindow.GetWindowDataBytes(1, false);
      var buffer := [if ordered then DATA_WITH_ORDER_RESEND else DATA_WITH_RESEND] + window;
      ghost var head := buffer;
      buffer := buffer + LittleEndian(sequenceNumber, 4);
      if ordered {
        buffer := buffer + LittleEndian(orderNumber, 4);
      }
      ghost var tail := LittleEndian(sequenceNumber, 4) + (if ordered then LittleEndian(orderNumber, 4) else []) + data;
      assert buffer + data == head + tail;
      var sent;
      frame, sent := ResendWrite(buffer + data, ordered, 0, now, 0);
      StampedBetween(head, tail, now);
    }

    /** HandleWrite for a packet that is resent, with or without an order number; `frame` is its first transmission. */
    method HandleWriteResend(ordered: bool, data: Payload, now: seq<byte>) returns (frame: seq<byte>)
      requires Valid() && |now| == 8
      modifies this
      ensures Valid() && LongEnough(frame, Words())
      ensures (View(), ParseFrame(frame, Words())) == OnWrite(old(View()), ordered, data)
    {
      hide ParseFrame, LongEnough, DataFrame, OrderedFrame, SeenBits, Clipped, Wrap;
      ghost var w := incomingPacketsWindow;
      SameLowBits(nextSeq);
      CountersMove(nextSeq, nextOrder);
      var orderNumber := sendPacketOrderNumberPrecise;
      if ordered {
        sendPacketOrderNumberPrecise := Wrap(sendPacketOrderNumberPrecise + 1);
        nextOrder := nextOrder + 1;
      }
      var sequenceNumber := Wrap(sendPacketResendNumber);
      sendPacketResendNumber := (sendPacketResendNumber + 1) % 0x1_0000_0000_0000_0000;
      nextSeq := nextSeq + 1;
      frame := FirstTransmission(ordered, sequenceNumber, orderNumber, data, now);
      if ordered {
        OrderedFrameParses(w.rightEdge, w.window[..], now, sequenceNumber, orderNumber, data);
      } else {
        DataFrameParses(w.rightEdge, w.window[..], now, sequenceNumber, data);
      }
    }

    /** HandleRead: what is delivered, for every frame of these types that the reader does not run out of. */
    method HandleRead(frame: seq<byte>) returns (delivered: seq<Payload>)
      requires Valid() && (frame == [] || LongEnough(frame, Words()))
      modifies this, sendedPacketsACKsWindow, sendedPacketsACKsWindow.window
      modifies incomingPacketsWindow, incomingPacketsWindow.window, ordererPrecise
      ensures Valid()
      ensures if frame == [] then View() == old(View()) && delivered == []
              else
                var (p, out) := OnFrameOfMachine(old(View()), ParseFrame(frame, old(Words())));
                View() == p && delivered == M.ValuesOf(out)
    {
      hide DeliverOfMachine, Join, SeenBits, M.ValuesOf;
      delivered := [];
      if |frame| == 0 {
        return;
      }
      ghost var f := ParseFrame(frame, Words());
      var frameType, framedData := frame[0], frame[1..];
      if CarriesWindow(frameType) {
        var readBytes := sendedPacketsACKsWindow.JoinWindowDataBytes(framedData, 1);
        framedData := framedData[readBytes..];
      }
      if frameType == DATA_RECEIVED {
        framedData := framedData[8..];
        var _ := sendedPacketsACKsWindow.JoinWindowDataBytes(framedData, 0);
        NothingDelivered(View(), f);
      } else if frameType == DATA_WITH_RESEND {
        framedData := framedData[8..];
        delivered := DeliverData(framedData, f);
      } else if frameType == DATA_WITH_ORDER_RESEND {
        framedData := framedData[8..];
        delivered := DeliverOrdered(framedData, f);
      } else {
        NothingDelivered(View(), f);
      }
    }

    lemma NothingDelivered(q: Peer<M.Machine<Payload>>, f: Frame)
      ensures f.Control? ==> DeliverOfMachine(q, f) == (q, [])
      ensures M.ValuesOf<Payload>([]) == []
    {
    }

    /** A frame with resending, from its sequence number on. */
    method DeliverData(framedData: seq<byte>, ghost f: Frame) returns (delivered: seq<Payload>)
      requires Valid() && |framedData| >= 4
      requires f.Data? && f.seqNum == ParseUint32(framedData) && f.payload == framedData[4..]
      modifies incomingPacketsWindow, incomingPacketsWindow.window
      ensures Valid()
      ensures var (p, out) := DeliverOfMachine(old(View()), f); View() == p && delivered == M.ValuesOf(out)
    {
      hide Join, Apply, SeenBits;
      delivered := [];
      var seqNum := ParseUint32(framedData);
      var isNew := incomingPacketsWindow.ApplyWindowCheck(seqNum);
      if isNew {
        delivered := [framedData[4..]];
      }
    }

    /** A frame with resending and ordering, from its sequence number on. */
    method DeliverOrdered(framedData: seq<byte>, ghost f: Frame) returns (delivered: seq<Payload>)
      requires Valid() && |framedData| >= 8
      requires f.OrderedData? && f.seqNum == ParseUint32(framedData)
      requires f.orderNum == ParseUint32(framedData[4..]) && f.payload == framedData[8..]
      modifies incomingPacketsWindow, incomingPacketsWindow.window, ordererPrecise
      ensures Valid()
      ensures var (p, out) := DeliverOfMachine(old(View()), f); View() == p && delivered == M.ValuesOf(out)
    {
      hide Join, Apply, SeenBits, M.Push;
      delivered := [];
      var seqNum := ParseUint32(framedData);
      var rest := framedData[4..];
      var orderNum := ParseUint32(rest);
      assert rest[4..] == framedData[8..];
      var isNew := incomingPacketsWindow.ApplyWindowCheck(seqNum);
      if isNew {
        delivered := ordererPrecise.PushWithMissingPacketOption(orderNum, rest[4..], AllowInDump);
      }
    }

    /** HandleWrite for the frames that are never acknowledged: plain, or with an order number of their own. */
    method HandleWriteUnacknowledged(frameType: byte, data: Payload) returns (frame: seq<byte>)
      requires Valid() && frameType in {DATA, DATA_WITH_ORDER_INSTANT, DATA_WITH_ORDER_TIMEOUT}
      modifies this`sendPacketOrderNumberSimple
      ensures Valid() && View() == old(View())
      ensures ParseUnacknowledged(frame) == Some(if frameType == DATA then Plain(data)
                                                 else Simple(frameType == DATA_WITH_ORDER_INSTANT, old(sendPacketOrderNumberSimple), data))
      ensures sendPacketOrderNumberSimple == if frameType == DATA then old(sendPacketOrderNumberSimple)
                                             else Wrap(old(sendPacketOrderNumberSimple) + 1)
    {
      hide LittleEndian, ParseLittleEndian;
      frame := [frameType];
      if frameType != DATA {
        var orderNumber := sendPacketOrderNumberSimple;
        sendPacketOrderNumberSimple := Wrap(sendPacketOrderNumberSimple + 1);
        Uint32RoundTrip(orderNumber, data);
        frame := frame + LittleEndian(orderNumber, 4);
        assert (frame + data)[1..] == LittleEndian(orderNumber, 4) + data;
        assert (frame + data)[5..] == data;
      } else {
        assert (frame + data)[1..] == data;
      }
      frame := frame + data;
    }

    /** HandleRead for those frames. */
    method HandleReadUnacknowledged(frame: seq<byte>) returns (delivered: seq<Payload>)
      requires Valid() && ParseUnacknowledged(frame).Some?
      modifies ordererSimple
      ensures Valid() && View() == old(View())
      ensures (ordererSimple.State(), delivered)
           == OnUnacknowledged(old(ordererSimple.State()), ParseUnacknowledged(frame).value)
    {
      hide M.Push, M.ValuesOf;
      var frameType, framedData := frame[0], frame[1..];
      if frameType == DATA {
        return [framedData];
      }
      var orderNum := ParseUint32(framedData);
      assert framedData[4..] == frame[5..];
      if frameType == DATA_WITH_ORDER_INSTANT {
        delivered := ordererSimple.PushWithMissingPacketOption(orderNum, framedData[4..], AllowInDumpAndPush);
      } else {
        delivered := ordererSimple.PushWithMissingPacketOption(orderNum, framedData[4..], AllowNone);
      }
    }

    /** The timer of a frame that is ordered with a timeout. */
    method OrderTimeout(orderNum: uint32) returns (delivered: seq<Payload>)
      requires Valid()
      modifies ordererSimple
      ensures Valid() && View() == old(View())
      ensures var (m, out) := M.Dump(old(ordererSimple.State()), orderNum, AllowInDumpAndPush);
              ordererSimple.State() == m && delivered == M.ValuesOf(out)
    {
      delivered := ordererSimple.Dump(orderNum);
    }

    /** cleanupConnection: first what the simple orderer holds, then what the precise one does. */
    method Cleanup() returns (delivered: seq<Payload>)
      requires Valid()
      modifies ordererPrecise, ordererSimple
      ensures Valid()
      ensures var (p, out) := OnCleanupOfMachine(old(View()));
              var (m, first) := M.DumpAll(old(ordererSimple.State()), AllowInDumpAndPush);
              View() == p && ordererSimple.State() == m && delivered == M.ValuesOf(first) + M.ValuesOf(out)
    {
      var first := ordererSimple.DumpAll();
      var second := ordererPrecise.DumpAll();
      delivered := first + second;
    }
  }
}
