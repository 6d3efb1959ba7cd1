/**
 The protocol over the orderer as it is: in every run the heap and the wrapped counters of both ends do what `Protocol`
 says of unwrapped numbers, so what they deliver is what is proved there.
 */
module ProtocolMachine {
  import opened Policies
  import opened WindowMeaning
  import opened OrdererMeaning
  import opened OrdererRefinement
  import opened OrdererRuns
  import opened StabilizerMeaning
  import opened Protocol
  import M = OrdererMachine

  /** What one end remembers, and what its precise orderer has delivered. */
  datatype End = End(peer: Peer<M.Machine<Payload>>, delivered: seq<Payload>)

  function NewEnd(words: nat): End {
    End(NewPeer(words, M.NewMachine()), [])
  }

  /** One handler call. */
  function Handle(me: End, e: Protocol.Event): End {
    match e
    case Write(ordered, payload) => me.(peer := OnWrite(me.peer, ordered, payload).0)
    case SendWindow(_) => me
    case Receive(packet) =>
      var (p, out) := OnFrameOfMachine(me.peer, packet.frame);
      End(p, if packet.frame.OrderedData? then me.delivered + M.ValuesOf(out) else me.delivered)
    case Disconnect =>
      var (p, out) := OnCleanupOfMachine(me.peer);
      End(p, me.delivered + M.ValuesOf(out))
  }

  /** Both ends after a run. */
  function HandleAll(words: nat, steps: seq<Protocol.Step>): (End, End) {
    if steps == [] then (NewEnd(words), NewEnd(words))
    else
      var (a, b) := HandleAll(words, steps[..|steps| - 1]);
      var step := steps[|steps| - 1];
      if step.atA then (Handle(a, step.event), b) else (a, Handle(b, step.event))
  }

  /** In every run, an ordered packet that the window accepts can be placed: it has not come before, nor from too far. */
  lemma RunsArePlaceable(me: Side, other: Side, packet: Packet)
    requires Inv(me, other) && Enabled(me, Receive(packet))
    ensures FrameIsPlaceable(me.peer, packet.frame)
  {
    hide Strict, Protocol.Pushed, Windows, Numbering, Apply, Placeable, Received;
    var f, i := packet.frame, packet.seqNo;
    if f.OrderedData? && Apply(me.peer.inWin, f.seqNum).1 {
      AppliedWindow(me, i);
      PushedOneMore(me.history, me.accepted, other.sent, i);
      OrdersAreNatural(other.sent, i);
      NewNumberIsPlaceable(me.peer.precise, me.out, me.history, Numbered(packet.orderNo, f.payload), AllowInDump);
    }
  }

  ghost predicate EndShows(e: End, s: Side) {
    PeerShows(e.peer, s.peer) && e.delivered == PayloadsOf(s.out)
  }

  lemma DeliveredMore(a: seq<Numbered<Payload>>, b: seq<Numbered<Payload>>)
    ensures PayloadsOf(a + b) == PayloadsOf(a) + M.ValuesOf(Wrapped(b))
  {
  }

  lemma AcceptedPeer(me: Side, packet: Packet)
    ensures Accept(me, packet).peer == OnFrame(me.peer, packet.frame).0
    ensures Accept(me, packet).out == if packet.frame.OrderedData? then me.out + OnFrame(me.peer, packet.frame).1 else me.out
  {
  }

  lemma HandleShows(x: End, me: Side, other: Side, e: Protocol.Event)
    requires EndShows(x, me) && Inv(me, other) && Enabled(me, e)
    ensures EndShows(Handle(x, e), Act(me, other, e).0)
    ensures Act(me, other, e).1.peer == other.peer && Act(me, other, e).1.out == other.out
  {
    hide PeerShows, Inv, OnWrite, OnFrame, OnFrameOfMachine, OnCleanup, OnCleanupOfMachine, Accept, PayloadsOf, M.ValuesOf, Wrapped;
    match e {
      case Write(ordered, payload) =>
        WriteShows(x.peer, me.peer, ordered, payload);
      case SendWindow(_) =>
      case Receive(packet) =>
        RunsArePlaceable(me, other, packet);
        FrameShows(x.peer, me.peer, packet.frame);
        AcceptedPeer(me, packet);
        DeliveredMore(me.out, OnFrame(me.peer, packet.frame).1);
      case Disconnect =>
        CleanupShows(x.peer, me.peer);
        DeliveredMore(me.out, OnCleanup(me.peer).1);
    }
  }

  /** In every run both ends stay what the protocol says of them, and deliver what it says. */
  lemma {:induction false} EveryRunIsShown(words: nat, steps: seq<Protocol.Step>)
    requires 0 < words < 256 && AllAllowed(words, steps)
    ensures EndShows(HandleAll(words, steps).0, TakeAll(words, steps).a)
    ensures EndShows(HandleAll(words, steps).1, TakeAll(words, steps).b)
  {
    hide Handle, Act, Enabled, Inv;
    if steps == [] {
      NewEndShows(words);
    } else {
      var before, step := steps[..|steps| - 1], steps[|steps| - 1];
      EveryRunIsShown(words, before);
      EveryRunKeepsInv(words, before);
      var s := TakeAll(words, before);
      var (a, b) := HandleAll(words, before);
      InvBothWays(s.a, s.b);
      if step.atA {
        HandleShows(a, s.a, s.b, step.event);
      } else {
        HandleShows(b, s.b, s.a, step.event);
      }
    }
  }

  lemma NewEndShows(words: nat)
    ensures EndShows(NewEnd(words), NewSide(words))
  {
    NewMachineStandsFor<Payload>();
  }

  lemma InvBothWays(a: Side, b: Side)
    requires Inv(a, b)
    ensures Inv(b, a)
  {
  }

  /** What an end delivers from its heap is a prefix of what the other end wrote for ordered delivery, until it closes. */
  lemma EndToEndOnMachines(words: nat, steps: seq<Protocol.Step>)
    requires 0 < words < 256 && AllAllowed(words, steps)
    ensures var s := TakeAll(words, steps); var (a, b) := HandleAll(words, steps);
            && (!s.b.closed ==> b.delivered <= OrderedPayloads(s.a.sent))
            && (!s.a.closed ==> a.delivered <= OrderedPayloads(s.b.sent))
  {
    EveryRunIsShown(words, steps);
    EndToEnd(words, steps);
  }
}
