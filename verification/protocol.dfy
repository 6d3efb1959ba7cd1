/**
 Two ends of a stabilized connection over a network that loses, duplicates, delays and reorders frames:
 each handler call is one step, and each end's inbox holds every frame ever sent to it. Beside the wrapped
 counters stand the unwrapped numbers they came from; the handlers never look at those.
 */
module Protocol {
  import opened Serial
  import opened WindowMeaning
  import opened WindowJoin
  import opened OrdererMeaning
  import opened Policies
  import opened StabilizerMeaning

  datatype Sent = Sent(ordered: bool, order: int, payload: Payload)

  /** A frame in flight, with the unwrapped numbers it was made from. */
  datatype Packet = Packet(frame: Frame, seqNo: int, orderNo: int, marks: Marks)

  datatype Side = Side(
    peer: Peer<Orderer<Payload>>,
    closed: bool,
    inbox: set<Packet>,
    sent: seq<Sent>,                      // everything written to the other end, by sequence number
    accepted: set<int>,                   // sequence numbers the receive window accepted
    edge: int,                            // what the right edge of the receive window stands for
    acks: Marks,                          // what the acknowledgement window stands for
    history: seq<Numbered<Payload>>,      // pushed into the precise orderer
    out: seq<Numbered<Payload>>,          // delivered by it
    loose: seq<int>)                      // sequence numbers delivered without ordering

  datatype Event =
    | Write(ordered: bool, payload: Payload)
    | SendWindow(words: nat)
    | Receive(packet: Packet)
    | Disconnect

  function NewSide(words: nat): Side {
    Side(NewPeer(words, Initial()), false, {}, [], {}, 0, Marks(0, {}), [], [], [])
  }

  function MarksOf(s: Side, words: nat): Marks {
    Marks(s.edge, set n | n in s.accepted && n > s.edge - 64 * words)
  }

  /** One handler call at one end: its new state and the other end with any frame it was sent. */
  function Act(me: Side, other: Side, e: Event): (Side, Side) {
    match e
    case Write(ordered, payload) =>
      var (p, f) := OnWrite(me.peer, ordered, payload);
      var packet := Packet(f, |me.sent|, me.peer.nextOrder, MarksOf(me, 1));
      (me.(peer := p, sent := me.sent + [Sent(ordered, me.peer.nextOrder, payload)]),
       other.(inbox := other.inbox + {packet}))
    case SendWindow(words) =>
      (me, other.(inbox := other.inbox + {Packet(Control(SnapOf(me.peer.inWin, words)), 0, 0, MarksOf(me, words))}))
    case Receive(packet) =>
      (Accept(me, packet), other)
    case Disconnect =>
      var (p, rest) := OnCleanup(me.peer);
      (me.(peer := p, closed := true, out := me.out + rest), other)
  }

  function Accept(me: Side, packet: Packet): Side {
    var (p, out) := OnFrame(me.peer, packet.frame);
    var joined := me.(peer := p, acks := ShortUnion(me.acks, packet.marks, packet.frame.win.width, me.peer.ackWin.size));
    if packet.frame.Control? || !Apply(me.peer.inWin, packet.frame.seqNum).1 then joined
    else
      var taken := joined.(accepted := me.accepted + {packet.seqNo},
                           edge := if me.accepted == {} || packet.seqNo > me.edge then packet.seqNo else me.edge);
      if packet.frame.Data? then taken.(loose := me.loose + [packet.seqNo])
      else taken.(history := me.history + [Numbered(packet.orderNo, packet.frame.payload)], out := me.out + out)
  }

  /** The step can happen: only frames that were sent arrive, and numbers stay within half the range. */
  ghost predicate Enabled(me: Side, e: Event) {
    && !me.closed
    && match e
       case Write(_, _) => true
       case SendWindow(words) => 0 < words <= me.peer.inWin.size / 64
       case Disconnect => true
       case Receive(packet) =>
         && packet in me.inbox
         && Close(me.acks.edge, packet.marks.edge)
         && (!packet.frame.Control? ==> Near(me.accepted, me.edge, packet.seqNo))
         && (packet.frame.OrderedData? ==> packet.orderNo < me.peer.precise.next + HALF)
  }

  // ----- what holds between a sender and a receiver -----

  function OrderedCount(sent: seq<Sent>): nat {
    if sent == [] then 0
    else OrderedCount(sent[..|sent| - 1]) + if sent[|sent| - 1].ordered then 1 else 0
  }

  /** The payloads written for ordered delivery, in the order of writing. */
  function OrderedPayloads(sent: seq<Sent>): (ps: seq<Payload>)
    ensures |ps| == OrderedCount(sent)
  {
    if sent == [] then []
    else OrderedPayloads(sent[..|sent| - 1]) + if sent[|sent| - 1].ordered then [sent[|sent| - 1].payload] else []
  }

  /** Ordered packets carry consecutive order numbers: the number is the place among the ordered payloads. */
  ghost predicate Numbering(sent: seq<Sent>) {
    && (forall i :: 0 <= i < |sent| && sent[i].ordered ==>
         0 <= sent[i].order < OrderedCount(sent) && OrderedPayloads(sent)[sent[i].order] == sent[i].payload)
    && forall i, j :: 0 <= i < j < |sent| && sent[i].ordered && sent[j].ordered ==> sent[i].order < sent[j].order
  }

  /** The frame is one the sender made, with the numbers written beside it. */
  ghost predicate Genuine(packet: Packet, sent: seq<Sent>) {
    var f, i := packet.frame, packet.seqNo;
    !f.Control? ==>
      && 0 <= i < |sent| && f.seqNum == Wrap(i) && f.payload == sent[i].payload
      && sent[i].ordered == f.OrderedData?
      && (f.OrderedData? ==> packet.orderNo == sent[i].order && f.orderNum == Wrap(packet.orderNo))
  }

  /** The window it carries marks only numbers that its sender has accepted. */
  ghost predicate Honest(packet: Packet, accepted: set<int>) {
    var win := packet.frame.win;
    && win.edge == Wrap(packet.marks.edge) && win.seen == SeenOf(packet.marks)
    && Within(packet.marks, win.width)
    && packet.marks.marked <= accepted
  }

  ghost predicate Windows(s: Side) {
    && 64 <= s.peer.inWin.size
    && Shows(s.peer.inWin, s.accepted, s.edge)
    && (s.accepted == {} ==> s.edge == 0 && s.peer.inWin.edge == 0)
    && s.peer.ackWin.size == s.peer.inWin.size
    && s.peer.ackWin.(isFirst := false) == View(s.acks, s.peer.ackWin.size)
    && Within(s.acks, s.peer.ackWin.size)
  }

  /** What the receiver pushed are the ordered packets among those it accepted. */
  ghost predicate Pushed(history: seq<Numbered<Payload>>, accepted: set<int>, sent: seq<Sent>) {
    && (forall e :: e in history ==>
         exists i :: i in accepted && 0 <= i < |sent| && sent[i].ordered && e == Numbered(sent[i].order, sent[i].payload))
    && forall i :: i in accepted && 0 <= i < |sent| && sent[i].ordered ==> Numbered(sent[i].order, sent[i].payload) in history
  }

  ghost predicate Loose(loose: seq<int>, accepted: set<int>, sent: seq<Sent>) {
    && Distinct(loose)
    && forall i :: i in loose <==> i in accepted && 0 <= i < |sent| && !sent[i].ordered
  }

  /** After cleanup: every pushed packet exactly once, in increasing order. */
  ghost predicate Drained(out: seq<Numbered<Payload>>, history: seq<Numbered<Payload>>) {
    Increasing(out) && forall e :: e in out <==> e in history
  }

  ghost predicate Delivery(r: Side, sent: seq<Sent>) {
    && (forall i :: i in r.accepted ==> 0 <= i < |sent|)
    && Pushed(r.history, r.accepted, sent) && DistinctNumbers(r.history)
    && Loose(r.loose, r.accepted, sent)
    && if r.closed then Drained(r.out, r.history)
       else Strict(r.peer.precise, r.out, r.history) && (r.history == [] ==> r.peer.precise == Initial())
  }

  /** From `s` to `r` go data, from `r` to `s` acknowledgements of it. */
  ghost predicate Channel(s: Side, r: Side) {
    && s.peer.nextSeq == |s.sent| && s.peer.nextOrder == OrderedCount(s.sent)
    && Numbering(s.sent)
    && Windows(r)
    && (forall packet :: packet in r.inbox ==> Genuine(packet, s.sent))
    && (forall packet :: packet in s.inbox ==> Honest(packet, r.accepted))
    && s.acks.marked <= r.accepted
    && Delivery(r, s.sent)
  }

  ghost predicate Inv(me: Side, other: Side) {
    Channel(me, other) && Channel(other, me)
  }

  // ----- writing -----

  lemma NumberingGrows(sent: seq<Sent>, ordered: bool, payload: Payload)
    requires Numbering(sent)
    ensures Numbering(sent + [Sent(ordered, OrderedCount(sent), payload)])
  {
    var more := sent + [Sent(ordered, OrderedCount(sent), payload)];
    assert more[..|sent|] == sent;
    forall i | 0 <= i < |more| && more[i].ordered
      ensures 0 <= more[i].order < OrderedCount(more) && OrderedPayloads(more)[more[i].order] == more[i].payload
    {
      if i < |sent| {
        assert sent[i].ordered;
      }
    }
  }

  lemma DeliveryOfMore(r: Side, sent: seq<Sent>, more: Sent)
    requires Delivery(r, sent)
    ensures Delivery(r, sent + [more])
  {
    var longer := sent + [more];
    forall e | e in r.history
      ensures exists i :: i in r.accepted && 0 <= i < |longer| && longer[i].ordered && e == Numbered(longer[i].order, longer[i].payload)
    {
      var i :| i in r.accepted && 0 <= i < |sent| && sent[i].ordered && e == Numbered(sent[i].order, sent[i].payload);
      assert longer[i] == sent[i];
    }
  }

  /** A window sent along marks exactly accepted numbers, and looks like its marks. */
  lemma SentWindowIsHonest(me: Side, words: nat)
    requires Windows(me) && 0 < words <= me.peer.inWin.size / 64
    ensures Honest(Packet(Control(SnapOf(me.peer.inWin, words)), 0, 0, MarksOf(me, words)), me.accepted)
  {
    var m, snap := MarksOf(me, words), SnapOf(me.peer.inWin, words);
    forall d: nat
      ensures d in snap.seen <==> d in SeenOf(m)
    {
      assert m.edge - d > m.edge - 64 * words <==> d < 64 * words;
    }
    assert snap.seen == SeenOf(m);
  }

  /** The frame that is written, and the counters after it. */
  lemma WrittenFrame(me: Side, ordered: bool, payload: Payload)
    ensures var (p, f) := OnWrite(me.peer, ordered, payload); var win := SnapOf(me.peer.inWin, 1);
            && p == me.peer.(nextSeq := me.peer.nextSeq + 1, nextOrder := me.peer.nextOrder + if ordered then 1 else 0)
            && f == if ordered then OrderedData(win, Wrap(me.peer.nextSeq), Wrap(me.peer.nextOrder), payload)
                    else Data(win, Wrap(me.peer.nextSeq), payload)
  {
  }

  lemma WriteKeeps(me: Side, other: Side, ordered: bool, payload: Payload)
    requires Inv(me, other)
    ensures Inv(Act(me, other, Write(ordered, payload)).0, Act(me, other, Write(ordered, payload)).1)
  {
    hide Shows, View, Within, Strict, Pushed, Loose, Drained, Numbering, OnWrite, SnapOf, MarksOf;
    WrittenFrame(me, ordered, payload);
    var (me', other') := Act(me, other, Write(ordered, payload));
    NumberingGrows(me.sent, ordered, payload);
    assert me'.sent[..|me.sent|] == me.sent;
    DeliveryOfMore(other, me.sent, me'.sent[|me.sent|]);
    SentWindowIsHonest(me, 1);
    assert Delivery(other', me'.sent);
    forall packet | packet in other'.inbox
      ensures Genuine(packet, me'.sent) && Honest(packet, me.accepted)
    {
      if packet in other.inbox {
        assert Genuine(packet, me.sent);
      }
    }
  }

  lemma SendWindowKeeps(me: Side, other: Side, words: nat)
    requires Inv(me, other) && 0 < words <= me.peer.inWin.size / 64
    ensures Inv(Act(me, other, SendWindow(words)).0, Act(me, other, SendWindow(words)).1)
  {
    SentWindowIsHonest(me, words);
  }

  // ----- receiving -----

  lemma JoinedWindow(me: Side, packet: Packet, accepted: set<int>)
    requires Windows(me) && Honest(packet, accepted) && Close(me.acks.edge, packet.marks.edge)
    ensures Windows(me.(peer := me.peer.(ackWin := JoinSnap(me.peer.ackWin, packet.frame.win)),
                        acks := ShortUnion(me.acks, packet.marks, packet.frame.win.width, me.peer.ackWin.size)))
    ensures JoinSnap(me.peer.ackWin, packet.frame.win)
         == View(ShortUnion(me.acks, packet.marks, packet.frame.win.width, me.peer.ackWin.size), me.peer.ackWin.size)
  {
    var win := packet.frame.win;
    JoinIsShortUnion(me.peer.ackWin, me.acks, packet.marks, win.width);
  }

  lemma AppliedWindow(me: Side, n: int)
    requires Windows(me) && Near(me.accepted, me.edge, n)
    ensures var (w, isNew) := Apply(me.peer.inWin, Wrap(n));
            if isNew then
              && n !in me.accepted
              && Windows(me.(peer := me.peer.(inWin := w), accepted := me.accepted + {n},
                             edge := if me.accepted == {} || n > me.edge then n else me.edge))
            else Windows(me.(peer := me.peer.(inWin := w)))
  {
    ApplyIsExact(me.peer.inWin, me.accepted, me.edge, n);
  }

  lemma PushedOneMore(history: seq<Numbered<Payload>>, accepted: set<int>, sent: seq<Sent>, i: int)
    requires Pushed(history, accepted, sent) && 0 <= i < |sent| && i !in accepted && Numbering(sent)
    ensures Pushed(if sent[i].ordered then history + [Numbered(sent[i].order, sent[i].payload)] else history, accepted + {i}, sent)
    ensures sent[i].ordered ==> forall k :: 0 <= k < |history| ==> history[k].number != sent[i].order
  {
    var history' := if sent[i].ordered then history + [Numbered(sent[i].order, sent[i].payload)] else history;
    forall e | e in history'
      ensures exists j :: j in accepted + {i} && 0 <= j < |sent| && sent[j].ordered && e == Numbered(sent[j].order, sent[j].payload)
    {
      if e in history {
        var j :| j in accepted && 0 <= j < |sent| && sent[j].ordered && e == Numbered(sent[j].order, sent[j].payload);
        assert j in accepted + {i};
      } else {
        assert i in accepted + {i};
      }
    }
    if sent[i].ordered {
      forall k | 0 <= k < |history|
        ensures history[k].number != sent[i].order
      {
        var e := history[k];
        assert e in history;
        var j :| j in accepted && 0 <= j < |sent| && sent[j].ordered && e == Numbered(sent[j].order, sent[j].payload);
        assert j < i || i < j;
      }
    }
  }

  lemma OrdersAreNatural(sent: seq<Sent>, i: int)
    requires Numbering(sent) && 0 <= i < |sent| && sent[i].ordered
    ensures sent[i].order >= 0
  {
  }

  lemma DistinctOneMore(history: seq<Numbered<Payload>>, e: Numbered<Payload>)
    requires DistinctNumbers(history) && forall k :: 0 <= k < |history| ==> history[k].number != e.number
    ensures DistinctNumbers(history + [e])
  {
  }

  lemma LooseOneMore(loose: seq<int>, accepted: set<int>, sent: seq<Sent>, i: int)
    requires Loose(loose, accepted, sent) && 0 <= i < |sent| && i !in accepted
    ensures Loose(if sent[i].ordered then loose else loose + [i], accepted + {i}, sent)
  {
    assert i !in loose;
  }

  /** A data frame that the window accepts is delivered at once, or pushed under a number not seen before. */
  lemma AcceptDelivers(me: Side, packet: Packet, sent: seq<Sent>)
    requires Delivery(me, sent) && !me.closed && Numbering(sent) && Windows(me) && Genuine(packet, sent)
    requires !packet.frame.Control? ==> Near(me.accepted, me.edge, packet.seqNo)
    requires packet.frame.OrderedData? ==> packet.orderNo < me.peer.precise.next + HALF
    ensures Delivery(Accept(me, packet), sent)
  {
    hide Strict, Pushed, Loose, Windows, Numbering, DistinctNumbers, Drained, Push, Received, Apply, Join, ShortUnion, Wrap;
    var f, i := packet.frame, packet.seqNo;
    if !f.Control? && Apply(me.peer.inWin, f.seqNum).1 {
      AppliedWindow(me, i);
      PushedOneMore(me.history, me.accepted, sent, i);
      LooseOneMore(me.loose, me.accepted, sent, i);
      if f.OrderedData? {
        OrdersAreNatural(sent, i);
        DistinctOneMore(me.history, Numbered(packet.orderNo, f.payload));
        StrictNext(me.peer.precise, me.out, me.history, Numbered(packet.orderNo, f.payload), AllowInDump);
      }
    }
  }

  lemma ReceiveKeeps(me: Side, other: Side, packet: Packet)
    requires Inv(me, other) && Enabled(me, Receive(packet))
    ensures Inv(Act(me, other, Receive(packet)).0, Act(me, other, Receive(packet)).1)
  {
    hide Strict, Pushed, Loose, Numbering, DistinctNumbers, Drained, Push, Received, Apply, Join, Shows, View, Within, Wrap;
    var me' := Accept(me, packet);
    AcceptDelivers(me, packet, other.sent);
    JoinedWindow(me, packet, other.accepted);
    if !packet.frame.Control? {
      AppliedWindow(me, packet.seqNo);
    }
    assert Windows(me');
    assert me'.acks.marked <= other.accepted;
    forall q | q in other.inbox
      ensures Honest(q, me'.accepted)
    {
      assert Honest(q, me.accepted);
    }
  }

  lemma DisconnectKeeps(me: Side, other: Side)
    requires Inv(me, other) && !me.closed
    ensures Inv(Act(me, other, Disconnect).0, Act(me, other, Disconnect).1)
  {
    hide Strict, Pushed, Loose, Numbering, DistinctNumbers, DumpAll, Shows, View, Within;
    DrainAfterStrict(me.peer.precise, me.out, me.history);
    var (me', other') := Act(me, other, Disconnect);
    assert Drained(me'.out, me'.history);
  }

  // ----- every run -----

  /** One step of the whole system: a handler call at one of the two ends. */
  datatype Step = Step(atA: bool, event: Event)

  datatype System = System(a: Side, b: Side)

  function NewSystem(words: nat): System {
    System(NewSide(words), NewSide(words))
  }

  function Take(s: System, step: Step): System {
    if step.atA then var (me, other) := Act(s.a, s.b, step.event); System(me, other)
    else var (me, other) := Act(s.b, s.a, step.event); System(other, me)
  }

  ghost predicate Allowed(s: System, step: Step) {
    if step.atA then Enabled(s.a, step.event) else Enabled(s.b, step.event)
  }

  function TakeAll(words: nat, steps: seq<Step>): System {
    if steps == [] then NewSystem(words)
    else Take(TakeAll(words, steps[..|steps| - 1]), steps[|steps| - 1])
  }

  ghost predicate AllAllowed(words: nat, steps: seq<Step>) {
    steps != [] ==>
      && AllAllowed(words, steps[..|steps| - 1])
      && Allowed(TakeAll(words, steps[..|steps| - 1]), steps[|steps| - 1])
  }

  lemma StepKeeps(me: Side, other: Side, e: Event)
    requires Inv(me, other) && Enabled(me, e)
    ensures Inv(Act(me, other, e).0, Act(me, other, e).1)
  {
    match e {
      case Write(ordered, payload) => WriteKeeps(me, other, ordered, payload);
      case SendWindow(words) => SendWindowKeeps(me, other, words);
      case Receive(packet) => ReceiveKeeps(me, other, packet);
      case Disconnect => DisconnectKeeps(me, other);
    }
  }

  lemma NewSideInv(words: nat)
    requires 0 < words < 256
    ensures Inv(NewSide(words), NewSide(words))
  {
    var s := NewSide(words);
    assert SeenOf(s.acks) == {};
    assert s.peer.ackWin.(isFirst := false) == View(s.acks, 64 * words);
  }

  lemma {:induction false} EveryRunKeepsInv(words: nat, steps: seq<Step>)
    requires 0 < words < 256 && AllAllowed(words, steps)
    ensures Inv(TakeAll(words, steps).a, TakeAll(words, steps).b)
  {
    if steps == [] {
      NewSideInv(words);
    } else {
      var before, step := steps[..|steps| - 1], steps[|steps| - 1];
      EveryRunKeepsInv(words, before);
      var s := TakeAll(words, before);
      if step.atA {
        StepKeeps(s.a, s.b, step.event);
      } else {
        StepKeeps(s.b, s.a, step.event);
      }
    }
  }

  function PayloadsOf(out: seq<Numbered<Payload>>): seq<Payload> {
    seq(|out|, i requires 0 <= i < |out| => out[i].value)
  }

  /** What an end delivered before closing is a prefix of what the other end wrote, in order and without gaps. */
  lemma DeliveredIsPrefix(s: Side, r: Side)
    requires Channel(s, r) && !r.closed
    ensures PayloadsOf(r.out) <= OrderedPayloads(s.sent)
  {
    forall i | 0 <= i < |r.out|
      ensures i < |OrderedPayloads(s.sent)| && r.out[i].value == OrderedPayloads(s.sent)[i]
    {
      DeliveredAt(s, r, i);
    }
    if r.out != [] {
      DeliveredAt(s, r, |r.out| - 1);
    }
    assert PayloadsOf(r.out) == OrderedPayloads(s.sent)[..|r.out|];
  }

  lemma DeliveredAt(s: Side, r: Side, i: nat)
    requires Channel(s, r) && !r.closed && i < |r.out|
    ensures i < |OrderedPayloads(s.sent)| && r.out[i].value == OrderedPayloads(s.sent)[i]
  {
    var e := r.out[i];
    assert e.number == i && e in r.history;
    var j :| j in r.accepted && 0 <= j < |s.sent| && s.sent[j].ordered && e == Numbered(s.sent[j].order, s.sent[j].payload);
  }

  /** End to end: in every run, both ends deliver prefixes of what was written for ordered delivery. */
  lemma EndToEnd(words: nat, steps: seq<Step>)
    requires 0 < words < 256 && AllAllowed(words, steps)
    ensures var s := TakeAll(words, steps);
            && (!s.b.closed ==> PayloadsOf(s.b.out) <= OrderedPayloads(s.a.sent))
            && (!s.a.closed ==> PayloadsOf(s.a.out) <= OrderedPayloads(s.b.sent))
  {
    EveryRunKeepsInv(words, steps);
    var s := TakeAll(words, steps);
    if !s.b.closed {
      DeliveredIsPrefix(s.a, s.b);
    }
    if !s.a.closed {
      DeliveredIsPrefix(s.b, s.a);
    }
  }

  ghost predicate AcceptedOrdered(s: Side, r: Side, e: Numbered<Payload>) {
    exists i :: i in r.accepted && 0 <= i < |s.sent| && s.sent[i].ordered && e == Numbered(s.sent[i].order, s.sent[i].payload)
  }

  /** What a closed end delivered: every ordered packet its window accepted, once each, in increasing order. */
  ghost predicate DeliveredAll(s: Side, r: Side) {
    Increasing(r.out) && forall e :: e in r.out <==> AcceptedOrdered(s, r, e)
  }

  lemma ClosedDeliveredAll(s: Side, r: Side)
    requires Channel(s, r) && r.closed
    ensures DeliveredAll(s, r)
  {
    forall e
      ensures e in r.out <==> AcceptedOrdered(s, r, e)
    {
      assert e in r.out <==> e in r.history;
    }
  }

  /** After cleanup nothing that was accepted is missing, and nothing comes twice. */
  lemma CleanupConserves(words: nat, steps: seq<Step>)
    requires 0 < words < 256 && AllAllowed(words, steps)
    ensures var s := TakeAll(words, steps);
            (s.b.closed ==> DeliveredAll(s.a, s.b)) && (s.a.closed ==> DeliveredAll(s.b, s.a))
  {
    EveryRunKeepsInv(words, steps);
    var s := TakeAll(words, steps);
    if s.b.closed {
      ClosedDeliveredAll(s.a, s.b);
    }
    if s.a.closed {
      ClosedDeliveredAll(s.b, s.a);
    }
  }

  /** Packets sent without ordering are delivered exactly once each when accepted, and only those that were sent. */
  lemma LooseOnce(words: nat, steps: seq<Step>)
    requires 0 < words < 256 && AllAllowed(words, steps)
    ensures var s := TakeAll(words, steps);
            Loose(s.b.loose, s.b.accepted, s.a.sent) && Loose(s.a.loose, s.a.accepted, s.b.sent)
  {
    EveryRunKeepsInv(words, steps);
  }

  /** The sender's CheckValue, for a number that lies within the range around its acknowledgement window. */
  ghost predicate SeesAcknowledged(s: Side, n: int) {
    -(MODULUS - s.peer.ackWin.size) < s.acks.edge - n < MODULUS && Check(s.peer.ackWin, Wrap(n))
  }

  lemma AcknowledgedWasAccepted(s: Side, r: Side, n: int)
    requires Inv(s, r) && SeesAcknowledged(s, n)
    ensures n in r.accepted
  {
    hide Minus, Wrap;
    SeesMarked(s, n);
  }

  /** What CheckValue finds is marked in what the window stands for. */
  lemma SeesMarked(s: Side, n: int)
    requires Windows(s) && SeesAcknowledged(s, n)
    ensures n in s.acks.marked
  {
    hide Shows, Within;
    var d := Minus(s.peer.ackWin.edge, Wrap(n));
    assert s.peer.ackWin.(isFirst := false).seen == SeenOf(s.acks);
    assert d in SeenOf(s.acks);
    AcksWithin(s, d);
    hide Minus, Wrap, SeenOf;
    SameCounter(s.acks.edge, n, d, s.peer.ackWin.size);
  }

  lemma AcksWithin(s: Side, d: nat)
    requires Windows(s) && d in SeenOf(s.acks)
    ensures d < s.peer.ackWin.size && s.acks.edge - d in s.acks.marked && s.peer.ackWin.edge == Wrap(s.acks.edge)
  {
    hide Shows;
  }

  lemma SameCounter(edge: int, n: int, d: nat, size: nat)
    requires d == Minus(Wrap(edge), Wrap(n)) && d < size && -(MODULUS - size) < edge - n < MODULUS
    ensures edge - d == n
  {
  }

  /** In every run: what a sender finds acknowledged, the other end's window has accepted. */
  lemma AckSoundness(words: nat, steps: seq<Step>, n: int)
    requires 0 < words < 256 && AllAllowed(words, steps)
    ensures var s := TakeAll(words, steps);
            (SeesAcknowledged(s.a, n) ==> n in s.b.accepted) && (SeesAcknowledged(s.b, n) ==> n in s.a.accepted)
  {
    EveryRunKeepsInv(words, steps);
    var s := TakeAll(words, steps);
    if SeesAcknowledged(s.a, n) {
      AcknowledgedWasAccepted(s.a, s.b, n);
    }
    if SeesAcknowledged(s.b, n) {
      AcknowledgedWasAccepted(s.b, s.a, n);
    }
  }
}
