/**
 What one end of a stabilized connection does with frames (udp/UDPConnectionStabilizer.go), on decoded
 frames and on the meanings of its windows and of its orderer. All counters here are the wrapped ones.
 */
module StabilizerMeaning {
  import opened Bytes
  import opened Serial
  import opened WindowMeaning
  import opened Policies
  import opened PacketHeap
  import opened OrdererMeaning
  import opened OrdererRefinement
  import M = OrdererMachine

  type Payload = seq<byte>

  /** The part of a receive window that a frame carries: its newest `width` bits. */
  datatype Snap = Snap(edge: uint32, width: nat, seen: set<nat>)

  /** Frames that take part in acknowledgement; timestamps carry no meaning here. */
  datatype Frame =
    | Data(win: Snap, seqNum: uint32, payload: Payload)
    | OrderedData(win: Snap, seqNum: uint32, orderNum: uint32, payload: Payload)
    | Control(win: Snap)

  /** One end of a connection: its send counters, its two windows and its precise orderer. */
  datatype Peer<O> = Peer(nextSeq: nat, nextOrder: nat, ackWin: Win, inWin: Win, precise: O)

  function NewPeer<O>(words: nat, precise: O): Peer<O> {
    Peer(0, 0, Empty(64 * words), Empty(64 * words), precise)
  }

  function SnapOf(w: Win, words: nat): Snap {
    Snap(w.edge, 64 * words, Clipped(w.seen, 64 * words))
  }

  function JoinSnap(w: Win, s: Snap): Win {
    Join(w, s.width, s.edge, s.seen)
  }

  /** HandleWrite for the two frame types that are resent. */
  function OnWrite<O>(p: Peer<O>, ordered: bool, payload: Payload): (Peer<O>, Frame) {
    var win := SnapOf(p.inWin, 1);
    if ordered then
      (p.(nextSeq := p.nextSeq + 1, nextOrder := p.nextOrder + 1),
       OrderedData(win, Wrap(p.nextSeq), Wrap(p.nextOrder), payload))
    else
      (p.(nextSeq := p.nextSeq + 1), Data(win, Wrap(p.nextSeq), payload))
  }

  /** HandleRead: join the window that came along, then filter duplicates, then order. */
  function OnFrame(p: Peer<Orderer<Payload>>, f: Frame): (Peer<Orderer<Payload>>, seq<Numbered<Payload>>) {
    Deliver(AfterJoin(p, f), f)
  }

  function AfterJoin<O>(p: Peer<O>, f: Frame): Peer<O> {
    p.(ackWin := JoinSnap(p.ackWin, f.win))
  }

  function Deliver(q: Peer<Orderer<Payload>>, f: Frame): (Peer<Orderer<Payload>>, seq<Numbered<Payload>>) {
    match f
    case Control(_) => (q, [])
    case Data(_, seqNum, payload) =>
      var (w, isNew) := Apply(q.inWin, seqNum);
      (q.(inWin := w), if isNew then [Numbered(seqNum, payload)] else [])
    case OrderedData(_, seqNum, orderNum, payload) =>
      var (w, isNew) := Apply(q.inWin, seqNum);
      if isNew then
        var (o, out) := Push(q.precise, Received(q.precise.next, orderNum), payload, AllowInDump);
        (q.(inWin := w, precise := o), out)
      else
        (q.(inWin := w), [])
  }

  /** cleanupConnection: everything that still waits is delivered. */
  function OnCleanup(p: Peer<Orderer<Payload>>): (Peer<Orderer<Payload>>, seq<Numbered<Payload>>) {
    var (o, out) := DumpAll(p.precise, AllowInDump);
    (p.(precise := o), out)
  }

  // ----- the same over the orderer as it is -----

  /** HandleRead, for every frame and every state of the orderer. */
  function OnFrameOfMachine(p: Peer<M.Machine<Payload>>, f: Frame): (Peer<M.Machine<Payload>>, seq<Entry<Payload>>) {
    DeliverOfMachine(AfterJoin(p, f), f)
  }

  function DeliverOfMachine(q: Peer<M.Machine<Payload>>, f: Frame): (Peer<M.Machine<Payload>>, seq<Entry<Payload>>) {
    match f
    case Control(_) => (q, [])
    case Data(_, seqNum, payload) =>
      var (w, isNew) := Apply(q.inWin, seqNum);
      (q.(inWin := w), if isNew then [Entry(seqNum, payload)] else [])
    case OrderedData(_, seqNum, orderNum, payload) =>
      var (w, isNew) := Apply(q.inWin, seqNum);
      if isNew then
        var (m, out) := M.Push(q.precise, Entry(orderNum, payload), AllowInDump);
        (q.(inWin := w, precise := m), out)
      else
        (q.(inWin := w), [])
  }

  function OnCleanupOfMachine(p: Peer<M.Machine<Payload>>): (Peer<M.Machine<Payload>>, seq<Entry<Payload>>) {
    var (m, out) := M.DumpAll(p.precise, AllowInDump);
    (p.(precise := m), out)
  }

  /** The same peer, over the machine and over the orderer on unwrapped numbers. */
  ghost predicate PeerShows(p: Peer<M.Machine<Payload>>, q: Peer<Orderer<Payload>>) {
    && p.nextSeq == q.nextSeq && p.nextOrder == q.nextOrder && p.ackWin == q.ackWin && p.inWin == q.inWin
    && StandsFor(p.precise, q.precise)
  }

  /** The packet that a frame would push can be placed. */
  ghost predicate FrameIsPlaceable(q: Peer<Orderer<Payload>>, f: Frame) {
    f.OrderedData? && Apply(q.inWin, f.seqNum).1 ==>
      Placeable(q.precise, Received(q.precise.next, f.orderNum), AllowInDump)
  }

  lemma FrameShows(p: Peer<M.Machine<Payload>>, q: Peer<Orderer<Payload>>, f: Frame)
    requires PeerShows(p, q) && FrameIsPlaceable(q, f)
    ensures PeerShows(OnFrameOfMachine(p, f).0, OnFrame(q, f).0)
    ensures f.OrderedData? ==> OnFrameOfMachine(p, f).1 == Wrapped(OnFrame(q, f).1)
  {
    hide StandsFor, M.Push, Push, Placeable, Received, JoinSnap, Apply;
    NoneWrapped<Payload>();
    if f.OrderedData? && Apply(q.inWin, f.seqNum).1 {
      PushShows(p.precise, q.precise, f.orderNum, f.payload, AllowInDump);
    }
  }

  lemma CleanupShows(p: Peer<M.Machine<Payload>>, q: Peer<Orderer<Payload>>)
    requires PeerShows(p, q)
    ensures PeerShows(OnCleanupOfMachine(p).0, OnCleanup(q).0)
    ensures OnCleanupOfMachine(p).1 == Wrapped(OnCleanup(q).1)
  {
    hide StandsFor, M.DumpAll, DumpAll;
    DumpAllShows(p.precise, q.precise, AllowInDump);
  }

  lemma WriteShows(p: Peer<M.Machine<Payload>>, q: Peer<Orderer<Payload>>, ordered: bool, payload: Payload)
    requires PeerShows(p, q)
    ensures PeerShows(OnWrite(p, ordered, payload).0, OnWrite(q, ordered, payload).0)
    ensures OnWrite(p, ordered, payload).1 == OnWrite(q, ordered, payload).1
  {
  }
}
