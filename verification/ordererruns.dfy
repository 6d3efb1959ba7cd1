/**
 Whole histories of an orderer that is driven by frames and timeouts, as the stabilizer drives its simple one
 (udp/UDPConnectionStabilizer.go:358-381). Every packet carries its unwrapped number, which the orderer never looks at.
 */
module OrdererRuns {
  import opened Wrappers
  import opened Serial
  import opened Policies
  import opened PacketHeap
  import opened OrdererMeaning
  import opened OrdererRefinement
  import M = OrdererMachine

  /** A frame is pushed without gaps, its timeout dumps up to it, cleanup dumps all. */
  function MachineStep<T>(m: M.Machine<Numbered<T>>, e: Event<T>): (M.Machine<Numbered<T>>, seq<Entry<Numbered<T>>>) {
    match e
    case Arrival(n, v) => M.Push(m, Entry(Wrap(n), Numbered(n, v)), AllowNone)
    case Timeout(n) => M.Dump(m, Wrap(n), AllowInDumpAndPush)
    case Cleanup => M.DumpAll(m, AllowInDumpAndPush)
  }

  function RunAll<T>(events: seq<Event<T>>): (M.Machine<Numbered<T>>, seq<Entry<Numbered<T>>>) {
    if events == [] then (M.NewMachine(), [])
    else
      var (m, out) := RunAll(events[..|events| - 1]);
      var (m', more) := MachineStep(m, events[|events| - 1]);
      (m', out + more)
  }

  /** The number that is next: one past the number exported last. */
  function NextNumber<T>(out: seq<Entry<Numbered<T>>>): int {
    NextAfter(0, M.ValuesOf(out))
  }

  /** Numbers stay within half the range of the number that is next. */
  ghost predicate EventsInRange<T>(events: seq<Event<T>>) {
    events != [] ==>
      var out, e := RunAll(events[..|events| - 1]).1, events[|events| - 1];
      EventsInRange(events[..|events| - 1]) && IsInRange(out, e)
  }

  ghost predicate IsInRange<T>(out: seq<Entry<Numbered<T>>>, e: Event<T>) {
    !e.Cleanup? ==> 0 <= e.number && -HALF <= e.number - NextNumber(out) < HALF
  }

  ghost predicate Waits<T>(m: M.Machine<Numbered<T>>, n: int) {
    exists i :: 0 <= i < |m.heap| && m.heap[i].value.number == n
  }

  /** A frame arrives whose number already waits, while the next number does not. */
  ghost predicate Repeats<T>(m: M.Machine<Numbered<T>>, out: seq<Entry<Numbered<T>>>, e: Event<T>) {
    e.Arrival? && Waits(m, e.number) && !Waits(m, NextNumber(out))
  }

  ghost predicate NothingRepeats<T>(events: seq<Event<T>>) {
    events != [] ==>
      var (m, out) := RunAll(events[..|events| - 1]);
      NothingRepeats(events[..|events| - 1]) && !Repeats(m, out, events[|events| - 1])
  }

  // ----- pushes of distinct numbers, without timeouts -----

  function PushMachineAll<T>(history: seq<Numbered<T>>, allow: AllowMissing): (M.Machine<T>, seq<Entry<T>>) {
    if history == [] then (M.NewMachine(), [])
    else
      var (m, out) := PushMachineAll(history[..|history| - 1], allow);
      var e := history[|history| - 1];
      var (m', more) := M.Push(m, Entry(Wrap(e.number), e.value), allow);
      (m', out + more)
  }

  lemma NewNumberIsPlaceable<T>(o: Orderer<T>, out: seq<Numbered<T>>, history: seq<Numbered<T>>, e: Numbered<T>, allow: AllowMissing)
    requires Strict(o, out, history) && !allow.AllowInDumpAndPush? && (history == [] ==> o == Initial())
    requires 0 <= e.number < o.next + HALF
    requires forall i :: 0 <= i < |history| ==> history[i].number != e.number
    ensures Received(o.next, Wrap(e.number)) == e.number && Placeable(o, e.number, allow)
  {
    NewNumberIsAhead(o, out, history, e);
    ReceivedInRange(o.next, e.number);
    WaitingArrived(o, out, history, e.number);
  }

  lemma WaitingArrived<T>(o: Orderer<T>, out: seq<Numbered<T>>, history: seq<Numbered<T>>, n: int)
    requires Strict(o, out, history)
    ensures n in o.pending ==> exists k :: 0 <= k < |history| && history[k].number == n
  {
    if n in o.pending {
      var k :| 0 <= k < |history| && history[k] == Numbered(n, o.pending[n]);
    }
  }

  /** Over every in-range history the machine follows the orderer on unwrapped numbers, through wrap-around. */
  lemma {:induction false} StrictHistoriesAreShown<T>(history: seq<Numbered<T>>, allow: AllowMissing)
    requires !allow.AllowInDumpAndPush? && InRange(history, allow)
    ensures StandsFor(PushMachineAll(history, allow).0, PushAll(history, allow).0)
    ensures PushMachineAll(history, allow).1 == Wrapped(PushAll(history, allow).1)
  {
    hide M.Push, Push, StandsFor, Strict, Placeable, Received, Wrapped;
    if history == [] {
      NewMachineStandsFor<T>();
      NoneWrapped<T>();
    } else {
      var before, e := history[..|history| - 1], history[|history| - 1];
      StrictHistoriesAreShown(before, allow);
      StrictReordering(before, allow);
      var (o, out) := PushAll(before, allow);
      NewNumberIsPlaceable(o, out, before, e, allow);
      PushShows(PushMachineAll(before, allow).0, o, Wrap(e.number), e.value, allow);
      WrappedAppend(out, Push(o, Received(o.next, Wrap(e.number)), e.value, allow).1);
    }
  }

  // ----- without such a frame, the machine follows the orderer on unwrapped numbers -----

  function Labelled<T>(e: Event<T>): Event<Numbered<T>> {
    match e
    case Arrival(n, v) => Arrival(n, Numbered(n, v))
    case Timeout(n) => Timeout(n)
    case Cleanup => Cleanup
  }

  ghost predicate Labels<T>(o: Orderer<Numbered<T>>, out: seq<Numbered<Numbered<T>>>) {
    && (forall n :: n in o.pending ==> o.pending[n].number == n)
    && forall i :: 0 <= i < |out| ==> out[i].value.number == out[i].number
  }

  ghost predicate Follows<T>(m: M.Machine<Numbered<T>>, out: seq<Entry<Numbered<T>>>,
                             o: Orderer<Numbered<T>>, exported: seq<Numbered<Numbered<T>>>) {
    StandsFor(m, o) && out == Wrapped(exported) && Ordered(o, exported) && Labels(o, exported)
  }

  lemma RunAllFrom<T>(events: seq<Event<T>>, e: Event<T>)
    ensures var (m, out) := RunAll(events); var (m', more) := MachineStep(m, e);
            RunAll(events + [e]) == (m', out + more)
  {
    assert (events + [e])[..|events|] == events;
  }

  lemma DeliveredNumbers<T>(m: M.Machine<Numbered<T>>, out: seq<Entry<Numbered<T>>>,
                            o: Orderer<Numbered<T>>, exported: seq<Numbered<Numbered<T>>>)
    requires Follows(m, out, o, exported)
    ensures NextNumber(out) == o.next && Increasing(M.ValuesOf(out))
  {
    hide StandsFor, Ahead;
    var values := M.ValuesOf(out);
    forall i | 0 <= i < |values|
      ensures values[i].number == exported[i].number
    {
      assert out[i].value == exported[i].value;
    }
  }

  lemma WaitsShown<T>(m: M.Machine<Numbered<T>>, o: Orderer<Numbered<T>>, n: int)
    requires StandsFor(m, o) && forall k :: k in o.pending ==> o.pending[k].number == k
    ensures Waits(m, n) <==> n in o.pending
  {
    if n in o.pending {
      var e := Entry(Wrap(n), o.pending[n]);
      RankOfWaiting(o.pending, o.next, n);
      MemberOf(m.heap, o.pending, o.next, e);
      var i :| 0 <= i < |m.heap| && m.heap[i] == e;
    }
    if i :| 0 <= i < |m.heap| && m.heap[i].value.number == n {
      MemberOf(m.heap, o.pending, o.next, m.heap[i]);
    }
  }

  lemma RankOfWaiting<T>(p: map<int, T>, next: int, n: int)
    requires InReach(p, next) && n in p
    ensures NumberOf(Entry(Wrap(n), p[n]), next) == n
  {
    MinusOfWraps(n, next);
  }

  lemma LabelsStayOnPush<T>(o: Orderer<Numbered<T>>, n: int, v: T)
    requires forall k :: k in o.pending ==> o.pending[k].number == k
    ensures var (o', more) := Push(o, n, Numbered(n, v), AllowNone); Labels(o', more)
  {
  }

  lemma LabelsStayOnDump<T>(o: Orderer<Numbered<T>>, n: int)
    requires forall k :: k in o.pending ==> o.pending[k].number == k
    ensures Labels(Dump(o, n, AllowInDumpAndPush).0, Dump(o, n, AllowInDumpAndPush).1)
    ensures Labels(DumpAll(o, AllowInDumpAndPush).0, DumpAll(o, AllowInDumpAndPush).1)
  {
    AscendingIsSorted(o.pending, o.next, n + 1);
    AscendingIsSorted(o.pending, o.next, o.next + HALF);
  }

  lemma LabelsStay<T>(o: Orderer<Numbered<T>>, exported: seq<Numbered<Numbered<T>>>, e: Event<T>)
    requires Labels(o, exported)
    requires e.Arrival? ==> Received(o.next, Wrap(e.number)) == e.number
    ensures var (o', more) := Step(o, Labelled(e)); Labels(o', exported + more)
  {
    hide Received, Wrap, Push, Dump, DumpAll;
    match e {
      case Arrival(n, v) => LabelsStayOnPush(o, n, v);
      case Timeout(n) => LabelsStayOnDump(o, Received(o.next, Wrap(n)));
      case Cleanup => LabelsStayOnDump(o, 0);
    }
  }

  lemma StepShows<T>(m: M.Machine<Numbered<T>>, o: Orderer<Numbered<T>>, e: Event<T>)
    requires StandsFor(m, o) && (e.Arrival? ==> Placeable(o, Received(o.next, Wrap(e.number)), AllowNone))
    ensures var (m', more) := MachineStep(m, e); var (o', exported) := Step(o, Labelled(e));
            StandsFor(m', o') && more == Wrapped(exported)
  {
    hide StandsFor, M.Push, M.Dump, M.DumpAll, Push, Dump, DumpAll, Received, Placeable;
    match e {
      case Arrival(n, v) => PushShows(m, o, Wrap(n), Numbered(n, v), AllowNone);
      case Timeout(n) => DumpShows(m, o, Wrap(n), AllowInDumpAndPush);
      case Cleanup => DumpAllShows(m, o, AllowInDumpAndPush);
    }
  }

  lemma WrappedAppend<T>(a: seq<Numbered<T>>, b: seq<Numbered<T>>)
    ensures Wrapped(a + b) == Wrapped(a) + Wrapped(b)
  {
  }

  lemma StepFollows<T>(m: M.Machine<Numbered<T>>, out: seq<Entry<Numbered<T>>>,
                       o: Orderer<Numbered<T>>, exported: seq<Numbered<Numbered<T>>>, e: Event<T>)
    requires Follows(m, out, o, exported) && IsInRange(out, e) && !Repeats(m, out, e)
    ensures var (m', more) := MachineStep(m, e); var (o', moreExported) := Step(o, Labelled(e));
            Follows(m', out + more, o', exported + moreExported)
  {
    hide StandsFor, MachineStep, Step, Wrapped, Labels, Ordered, Received, Waits;
    DeliveredNumbers(m, out, o, exported);
    FollowsMeans(m, out, o, exported);
    if e.Arrival? {
      WaitsShown(m, o, e.number);
      WaitsShown(m, o, o.next);
      ReceivedInRange(o.next, e.number);
    }
    StepShows(m, o, e);
    LabelsStay(o, exported, e);
    OrderedStep(o, exported, Labelled(e));
    WrappedAppend(exported, Step(o, Labelled(e)).1);
  }

  lemma FollowsMeans<T>(m: M.Machine<Numbered<T>>, out: seq<Entry<Numbered<T>>>,
                        o: Orderer<Numbered<T>>, exported: seq<Numbered<Numbered<T>>>)
    requires Follows(m, out, o, exported)
    ensures Ahead(o) && (o.isFirst ==> o == Initial()) && forall n :: n in o.pending ==> o.pending[n].number == n
  {
  }

  lemma ReceivedInRange(next: int, n: int)
    requires -HALF <= n - next < HALF
    ensures Received(next, Wrap(n)) == n
  {
    UnwrapIsInverse(next - 1, n);
  }

  lemma {:induction false} AllFollow<T>(events: seq<Event<T>>)
      returns (o: Orderer<Numbered<T>>, exported: seq<Numbered<Numbered<T>>>)
    requires EventsInRange(events) && NothingRepeats(events)
    ensures Follows(RunAll(events).0, RunAll(events).1, o, exported)
  {
    if events == [] {
      o, exported := Initial(), [];
      NewMachineStandsFor<Numbered<T>>();
    } else {
      hide Follows, MachineStep, Step, Repeats, IsInRange;
      var before, e := events[..|events| - 1], events[|events| - 1];
      o, exported := AllFollow(before);
      var (m, out) := RunAll(before);
      StepFollows(m, out, o, exported, e);
      var (o', more) := Step(o, Labelled(e));
      o, exported := o', exported + more;
    }
  }

  // ----- with one, its number is exported twice -----

  /** Two packets of the same number are waiting or have been exported. */
  ghost predicate BothKept<T>(a: Entry<Numbered<T>>, b: Entry<Numbered<T>>, m: M.Machine<Numbered<T>>,
                              out: seq<Entry<Numbered<T>>>) {
    a.value.number == b.value.number && multiset{a, b} <= multiset(m.heap) + multiset(out)
  }

  lemma RepeatIsKept<T>(m: M.Machine<Numbered<T>>, out: seq<Entry<Numbered<T>>>,
                        o: Orderer<Numbered<T>>, exported: seq<Numbered<Numbered<T>>>, e: Event<T>)
      returns (a: Entry<Numbered<T>>, b: Entry<Numbered<T>>)
    requires Follows(m, out, o, exported) && IsInRange(out, e) && Repeats(m, out, e)
    ensures BothKept(a, b, MachineStep(m, e).0, out + MachineStep(m, e).1)
  {
    hide StandsFor, Received, Pushed, Ordered, Labels, Wrapped;
    var i :| 0 <= i < |m.heap| && m.heap[i].value.number == e.number;
    a, b := m.heap[i], Entry(Wrap(e.number), Numbered(e.number, e.value));
    DeliveredNumbers(m, out, o, exported);
    FollowsMeans(m, out, o, exported);
    WaitsShown(m, o, e.number);
    WaitsShown(m, o, o.next);
    EmptyShown(m, o);
    HeadIsNextShown(m, o);
    StoredBeside(m, o, b, e.number);
    PushedKeeps(m.heap, b);
  }

  /** Ahead of a next number that does not wait, a packet is stored. */
  lemma StoredBeside<T>(m: M.Machine<T>, o: Orderer<T>, e: Entry<T>, n: int)
    requires StandsFor(m, o) && !o.isFirst && e.key == Wrap(n) && o.next < n < o.next + HALF && !M.HeadIsNext(m)
    ensures M.Push(m, e, AllowNone) == (M.Store(m, e), [])
  {
    hide Represents, Received, M.Store;
    ReceivedInRange(o.next, n);
    PlacedByComparison(o.next, e.key);
    SameCounter(o.next, n);
  }

  lemma KeptThrough<T>(pair: multiset<Entry<T>>, h: seq<Entry<T>>, e: Entry<T>, more: seq<Entry<T>>, g: seq<Entry<T>>, out: seq<Entry<T>>)
    requires M.SplitsWith(h, e, more, g) && pair <= multiset(h) + multiset(out)
    ensures pair <= multiset(g) + multiset(out + more)
  {
    assert multiset(out + more) == multiset(out) + multiset(more);
    assert multiset(h + [e]) == multiset(h) + multiset{e};
    var rest := multiset(more) + multiset(g);
    assert multiset(h) <= rest by {
      if !M.Splits(h, more, g) {
        assert multiset(h + [e]) == rest;
      }
    }
    forall x | x in pair
      ensures pair[x] <= (multiset(g) + multiset(out + more))[x]
    {
      assert pair[x] <= (multiset(h) + multiset(out))[x] == multiset(h)[x] + multiset(out)[x];
      assert multiset(h)[x] <= rest[x];
    }
  }

  lemma BothStayKept<T>(a: Entry<Numbered<T>>, b: Entry<Numbered<T>>, m: M.Machine<Numbered<T>>,
                        out: seq<Entry<Numbered<T>>>, e: Event<T>)
    requires BothKept(a, b, m, out)
    ensures BothKept(a, b, MachineStep(m, e).0, out + MachineStep(m, e).1)
    ensures e.Cleanup? ==> MachineStep(m, e).0.heap == []
  {
    hide M.Push, M.Dump, M.DumpAll;
    var (m', more) := MachineStep(m, e);
    match e {
      case Arrival(n, v) =>
        M.PushConserves(m, Entry(Wrap(n), Numbered(n, v)), AllowNone);
        KeptThrough(multiset{a, b}, m.heap, Entry(Wrap(n), Numbered(n, v)), more, m'.heap, out);
      case Timeout(n) =>
        M.DumpConserves(m, Wrap(n), AllowInDumpAndPush);
        KeptThrough(multiset{a, b}, m.heap, a, more, m'.heap, out);
      case Cleanup =>
        M.DumpAllConserves(m, AllowInDumpAndPush);
        KeptThrough(multiset{a, b}, m.heap, a, more, m'.heap, out);
    }
  }

  lemma {:induction false} RepeatsAreKept<T>(events: seq<Event<T>>) returns (a: Entry<Numbered<T>>, b: Entry<Numbered<T>>)
    requires EventsInRange(events) && !NothingRepeats(events)
    ensures BothKept(a, b, RunAll(events).0, RunAll(events).1)
  {
    hide BothKept, MachineStep, Repeats, IsInRange, Follows;
    var before, e := events[..|events| - 1], events[|events| - 1];
    var (m, out) := RunAll(before);
    if NothingRepeats(before) {
      var o, exported := AllFollow(before);
      a, b := RepeatIsKept(m, out, o, exported, e);
    } else {
      a, b := RepeatsAreKept(before);
      BothStayKept(a, b, m, out, e);
    }
  }

  lemma TwoPlaces<T>(a: T, b: T, s: seq<T>) returns (i: nat, j: nat)
    requires multiset{a, b} <= multiset(s)
    ensures i < j < |s| && ((s[i] == a && s[j] == b) || (s[i] == b && s[j] == a))
  {
    assert a in multiset(s) && b in multiset(s);
    var k :| 0 <= k < |s| && s[k] == a;
    var rest := s[..k] + s[k + 1..];
    assert s == s[..k] + [a] + s[k + 1..];
    assert multiset(rest) + multiset{a} == multiset(s);
    assert b in multiset(rest);
    var l :| 0 <= l < |rest| && rest[l] == b;
    if l < k {
      i, j := l, k;
    } else {
      i, j := k, l + 1;
    }
  }

  /**
   Over any interleaving of frames, timeouts and cleanups that ends with a cleanup, the exported numbers increase strictly
   exactly when no frame arrives whose number already waits while the next number does not.
   */
  lemma TimeoutOrdering<T>(events: seq<Event<T>>)
    requires EventsInRange(events)
    ensures Increasing(M.ValuesOf(RunAll(events + [Cleanup]).1)) <==> NothingRepeats(events)
  {
    hide Follows, BothKept, MachineStep, Repeats, Increasing, M.ValuesOf;
    var (m, out) := RunAll(events);
    RunAllFrom(events, Cleanup);
    var (m', more) := MachineStep(m, Cleanup);
    if NothingRepeats(events) {
      var o, exported := AllFollow(events);
      CleanupFollows(m, out, o, exported);
    } else {
      var a, b := RepeatsAreKept(events);
      BothStayKept(a, b, m, out, Cleanup);
      BothDelivered(a, b, m', out + more);
    }
  }

  lemma CleanupFollows<T>(m: M.Machine<Numbered<T>>, out: seq<Entry<Numbered<T>>>,
                          o: Orderer<Numbered<T>>, exported: seq<Numbered<Numbered<T>>>)
    requires Follows(m, out, o, exported)
    ensures Increasing(M.ValuesOf(out + MachineStep(m, Cleanup).1))
  {
    hide Follows, MachineStep, Step, Increasing, M.ValuesOf;
    var e: Event<T> := Cleanup;
    var (m', more) := MachineStep(m, e);
    var (o', moreExported) := Step(o, Labelled(e));
    StepFollows(m, out, o, exported, e);
    DeliveredNumbers(m', out + more, o', exported + moreExported);
  }

  lemma BothDelivered<T>(a: Entry<Numbered<T>>, b: Entry<Numbered<T>>, m: M.Machine<Numbered<T>>,
                         out: seq<Entry<Numbered<T>>>)
    requires BothKept(a, b, m, out) && m.heap == []
    ensures !Increasing(M.ValuesOf(out))
  {
    var i, j := TwoPlaces(a, b, out);
    var values := M.ValuesOf(out);
    assert values[i].number == values[j].number;
  }

  /** The shortest such history: a frame arrives twice, and its timeout delivers it twice. */
  lemma RepeatedFrameIsDeliveredTwice<T>(a: T, b: T)
    ensures var events := [Arrival(5, a), Arrival(5, b), Timeout(5)];
            && EventsInRange(events) && !NothingRepeats(events)
            && M.ValuesOf(RunAll(events).1) == [Numbered(5, a), Numbered(5, b)]
  {
    hide RunAll, Repeats, IsInRange;
    var e1, e2, e3: Event<T> := Arrival(5, a), Arrival(5, b), Timeout(5);
    RunOfRepeated(a, b);
    assert [e1][..0] == [] && [e1, e2][..1] == [e1] && [e1, e2, e3][..2] == [e1, e2];
    assert EventsInRange<T>([]);
    FiveIsInRange(e1);
    FiveIsInRange(e2);
    FiveIsInRange(e3);
    assert EventsInRange([e1]);
    assert EventsInRange([e1, e2]);
    RepeatsNow(RunAll([e1]).0, e2, Entry(5, Numbered(5, a)));
    assert !NothingRepeats([e1, e2]);
  }

  lemma FiveIsInRange<T>(e: Event<T>)
    requires !e.Cleanup? && e.number == 5
    ensures IsInRange([], e)
  {
  }

  lemma RunOfRepeated<T>(a: T, b: T)
    ensures var e1, e2, e3: Event<T> := Arrival(5, a), Arrival(5, b), Timeout(5);
            var x, y := Entry(5, Numbered(5, a)), Entry(5, Numbered(5, b));
            && RunAll<T>([]).1 == []
            && RunAll([e1]) == (M.Machine(false, 0, [x]), [])
            && RunAll([e1, e2]) == (M.Machine(false, 0, [x, y]), [])
            && RunAll([e1, e2, e3]).1 == [x, y]
  {
    hide M.Push, M.Dump;
    var e1, e2, e3: Event<T> := Arrival(5, a), Arrival(5, b), Timeout(5);
    var x, y := Entry(5, Numbered(5, a)), Entry(5, Numbered(5, b));
    RunAllFrom([], e1);
    RunAllFrom([e1], e2);
    RunAllFrom([e1, e2], e3);
    assert [] + [e1] == [e1] && [e1] + [e2] == [e1, e2] && [e1, e2] + [e3] == [e1, e2, e3];
    FiveTwice(x, y);
  }

  lemma RepeatsNow<T>(m: M.Machine<Numbered<T>>, e: Event<T>, x: Entry<Numbered<T>>)
    requires m.heap == [x] && x.value.number == 5 && e.Arrival? && e.number == 5
    ensures Repeats(m, [], e)
  {
    assert m.heap[0].value.number == 5;
  }

  lemma FiveTwice<T>(x: Entry<T>, y: Entry<T>)
    requires x.key == y.key == 5
    ensures M.Push(M.NewMachine(), x, AllowNone) == (M.Machine(false, 0, [x]), [])
    ensures M.Push(M.Machine(false, 0, [x]), y, AllowNone) == (M.Machine(false, 0, [x, y]), [])
    ensures M.Dump(M.Machine(false, 0, [x, y]), 5, AllowInDumpAndPush).1 == [x, y]
  {
    assert [] + [x] == [x] && [x] + [y] == [x, y];
    assert Pushed([], x) == [x] && Pushed([x], y) == [x, y];
    assert Swap([x, y], 0, 1) == [y, x] && Swap([y], 0, 0) == [y];
    assert Down([y, x], 0, 1) == [y, x] && Popped([x, y]) == [y];
    assert Down([y], 0, 0) == [y] && Popped([y]) == [];
    hide Popped, Pushed;
    var m: M.Machine<T> := M.Machine(false, 0, [x]);
    assert M.ExportReady(m, y, false) == (m, []);
    var none: M.Machine<T> := M.Machine(false, 6, []);
    var one: M.Machine<T> := M.Machine(false, 6, [y]);
    assert M.Export(one) == none && [y] + [] == [y];
    assert M.ExportAcrossGaps(one, Some(5)) == (none, [y]);
    var two: M.Machine<T> := M.Machine(false, 0, [x, y]);
    assert M.Export(two) == one;
    assert !M.IsAfter(Some(5), two);
    var rest := M.ExportAcrossGaps(one, Some(5));
    assert M.ExportAcrossGaps(two, Some(5)) == (rest.0, [two.heap[0]] + rest.1);
  }
}
