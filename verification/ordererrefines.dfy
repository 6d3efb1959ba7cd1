/**
 The machine that works on a heap of wrapped numbers does what is said of unwrapped numbers and a map, as long as
 no packet waits twice.
 */
module OrdererRefinement {
  import opened Wrappers
  import opened Serial
  import opened Policies
  import opened PacketHeap
  import opened OrdererMeaning
  import M = OrdererMachine

  ghost function Entries<T>(p: map<int, T>): set<Entry<T>> {
    set n | n in p :: Entry(Wrap(n), p[n])
  }

  ghost predicate InReach<T>(p: map<int, T>, next: int) {
    forall n :: n in p ==> next <= n < next + HALF
  }

  /** The heap holds exactly the waiting packets, each once, under their wrapped numbers. */
  ghost predicate Represents<T>(h: seq<Entry<T>>, p: map<int, T>, next: int) {
    && InReach(p, next)
    && multiset(h) == multiset(Entries(p))
    && IsHeap(h, |h|, Wrap(next))
  }

  /** The number a heap entry stands for. */
  ghost function NumberOf<T>(e: Entry<T>, next: int): int {
    next + Rank(e, Wrap(next))
  }

  lemma KeyOfNumber<T>(e: Entry<T>, next: int)
    ensures Wrap(NumberOf(e, next)) == e.key
  {
  }

  lemma NumberOfKey<T>(n: int, v: T, next: int)
    requires next <= n < next + HALF
    ensures NumberOf(Entry(Wrap(n), v), next) == n
  {
    MinusOfWraps(n, next);
  }

  lemma InEntries<T>(e: Entry<T>, p: map<int, T>, next: int)
    requires InReach(p, next)
    ensures e in Entries(p) <==> NumberOf(e, next) in p && p[NumberOf(e, next)] == e.value
    ensures Wrap(NumberOf(e, next)) == e.key
  {
    hide NumberOf, Wrap;
    KeyOfNumber(e, next);
    var n := NumberOf(e, next);
    if e in Entries(p) {
      var m :| m in p && e == Entry(Wrap(m), p[m]);
      NumberOfKey(m, p[m], next);
    }
    if n in p && p[n] == e.value {
      assert Entry(Wrap(n), p[n]) == e;
    }
  }

  lemma AddedEntry<T>(p: map<int, T>, n: int, v: T, next: int)
    requires InReach(p, next) && n !in p && next <= n < next + HALF
    ensures multiset(Entries(p[n := v])) == multiset(Entries(p)) + multiset{Entry(Wrap(n), v)}
  {
    hide NumberOf, Wrap;
    var q, e := p[n := v], Entry(Wrap(n), v);
    NumberOfKey(n, v, next);
    InEntries(e, p, next);
    hide Entries;
    forall f
      ensures f in Entries(q) <==> f in Entries(p) || f == e
    {
      InEntries(f, p, next);
      InEntries(f, q, next);
    }
    assert Entries(q) == Entries(p) + {e};
  }

  lemma RemovedEntry<T>(p: map<int, T>, n: int, next: int)
    requires InReach(p, next) && n in p
    ensures multiset(Entries(p)) == multiset(Entries(p - {n})) + multiset{Entry(Wrap(n), p[n])}
  {
    AddedEntry(p - {n}, n, p[n], next);
    assert (p - {n})[n := p[n]] == p;
  }

  lemma MemberOf<T>(h: seq<Entry<T>>, p: map<int, T>, next: int, e: Entry<T>)
    requires Represents(h, p, next)
    ensures e in h <==> NumberOf(e, next) in p && p[NumberOf(e, next)] == e.value
  {
    InEntries(e, p, next);
    assert e in h <==> e in multiset(h);
    assert e in Entries(p) <==> e in multiset(Entries(p));
  }

  lemma RepresentsNarrow<T>(h: seq<Entry<T>>, p: map<int, T>, next: int)
    requires Represents(h, p, next)
    ensures Narrow(h, Wrap(next))
  {
    forall e | e in h
      ensures Rank(e, Wrap(next)) < HALF
    {
      MemberOf(h, p, next, e);
    }
  }

  lemma EmptyHeap<T>(h: seq<Entry<T>>, p: map<int, T>, next: int)
    requires Represents(h, p, next)
    ensures h == [] <==> p == map[]
  {
    if h == [] && p != map[] {
      NonemptyMap(h, p, next);
    } else if p == map[] && h != [] {
      MemberOf(h, p, next, h[0]);
    }
  }

  lemma NonemptyMap<T>(h: seq<Entry<T>>, p: map<int, T>, next: int)
    requires Represents(h, p, next) && h == []
    ensures p == map[]
  {
    forall n
      ensures n !in p
    {
      if n in p {
        MemberOf(h, p, next, Entry(Wrap(n), p[n]));
      }
    }
  }

  /** The first entry of the heap is the lowest waiting number. */
  lemma HeadIsLowest<T>(h: seq<Entry<T>>, p: map<int, T>, next: int)
    requires Represents(h, p, next) && h != []
    ensures var k := NumberOf(h[0], next);
            && k in p && h[0] == Entry(Wrap(k), p[k])
            && forall n :: n in p ==> k <= n
  {
    MemberOf(h, p, next, h[0]);
    InEntries(h[0], p, next);
    forall n | n in p
      ensures NumberOf(h[0], next) <= n
    {
      HeadIsBelow(h, p, next, n);
    }
  }

  lemma HeadIsBelow<T>(h: seq<Entry<T>>, p: map<int, T>, next: int, n: int)
    requires Represents(h, p, next) && h != [] && n in p
    ensures NumberOf(h[0], next) <= n
  {
    var e := Entry(Wrap(n), p[n]);
    assert NumberOf(e, next) == n;
    MemberOf(h, p, next, e);
    var i :| 0 <= i < |h| && h[i] == e;
    RootIsMinimum(h, i, Wrap(next));
  }

  lemma CancelEntry<T>(a: multiset<Entry<T>>, b: multiset<Entry<T>>, e: Entry<T>)
    requires a + multiset{e} == b + multiset{e}
    ensures a == b
  {
    assert a == a + multiset{e} - multiset{e};
    assert b == b + multiset{e} - multiset{e};
  }

  /** Moving the base of the comparison ahead, but not past a waiting packet, keeps the heap order. */
  lemma MovedBase<T>(h: seq<Entry<T>>, p: map<int, T>, next: int, next': int)
    requires Represents(h, p, next) && next <= next' <= next + HALF
    requires forall n :: n in p ==> next' <= n
    ensures Represents(h, p, next')
  {
    forall i | 0 <= i < |h|
      ensures Rank(h[i], Wrap(next')) == Rank(h[i], Wrap(next)) - (next' - next)
    {
      MemberOf(h, p, next, h[i]);
      RankMoved(h[i], next, next');
    }
  }

  lemma RankMoved<T>(e: Entry<T>, next: int, next': int)
    requires next <= next' <= NumberOf(e, next) < next + HALF
    ensures Rank(e, Wrap(next')) == Rank(e, Wrap(next)) - (next' - next)
  {
  }

  /** The heap after a pop represents the map without the lowest number. */
  lemma PoppedHeap<T>(h: seq<Entry<T>>, p: map<int, T>, next: int, k: int)
    requires Represents(h, p, next) && h != [] && k == NumberOf(h[0], next)
    ensures k in p && h[0] == Entry(Wrap(k), p[k]) && Represents(Popped(h), p - {k}, k + 1)
    ensures forall n :: n in p ==> k <= n
  {
    hide Popped, IsHeap;
    HeadIsLowest(h, p, next);
    RepresentsNarrow(h, p, next);
    PoppedIsHeap(h, Wrap(next));
    PoppedKeeps(h);
    RemovedEntry(p, k, next);
    CancelEntry(multiset(Popped(h)), multiset(Entries(p - {k})), h[0]);
    MovedBase(Popped(h), p - {k}, next, k + 1);
  }

  /** The heap after a push represents the map with one more number. */
  lemma PushedHeap<T>(h: seq<Entry<T>>, p: map<int, T>, next: int, n: int, v: T)
    requires Represents(h, p, next) && next <= n < next + HALF && n !in p
    ensures Represents(Pushed(h, Entry(Wrap(n), v)), p[n := v], next)
  {
    hide Pushed, IsHeap;
    var e := Entry(Wrap(n), v);
    RepresentsNarrow(h, p, next);
    AddedEntry(p, n, v, next);
    MinusOfWraps(n, next);
    PushedKeeps(h, e);
    PushedIsHeap(h, e, Wrap(next));
  }

  lemma MovedPast<T>(h: seq<Entry<T>>, p: map<int, T>, next: int, n: int)
    requires Represents(h, p, next)
    requires p == map[] || (n == next && n !in p)
    ensures Represents(h, p, n + 1)
  {
    EmptyHeap(h, p, next);
    if p != map[] {
      MovedBase(h, p, next, n + 1);
    }
  }

  /** The machine's state stands for a state on unwrapped numbers. */
  ghost predicate StandsFor<T>(m: M.Machine<T>, o: Orderer<T>) {
    && m.isFirst == o.isFirst && m.next == Wrap(o.next)
    && Represents(m.heap, o.pending, o.next)
    && (o.isFirst ==> o == Initial())
  }

  lemma NewMachineStandsFor<T>()
    ensures StandsFor(M.NewMachine<T>(), Initial())
  {
    assert Entries(Initial<T>().pending) == {};
  }

  function Wrapped<T>(out: seq<Numbered<T>>): (r: seq<Entry<T>>)
    ensures |r| == |out| && forall i :: 0 <= i < |out| ==> r[i] == Entry(Wrap(out[i].number), out[i].value)
  {
    seq(|out|, i requires 0 <= i < |out| => Entry(Wrap(out[i].number), out[i].value))
  }

  lemma WrappedOneMore<T>(e: Numbered<T>, out: seq<Numbered<T>>)
    ensures Wrapped([e] + out) == [Entry(Wrap(e.number), e.value)] + Wrapped(out)
    ensures Wrapped<T>([]) == []
  {
  }

  lemma EmptyShown<T>(m: M.Machine<T>, o: Orderer<T>)
    requires StandsFor(m, o)
    ensures m.heap == [] <==> o.pending == map[]
    ensures m.heap != [] ==> !o.isFirst
  {
    EmptyHeap(m.heap, o.pending, o.next);
  }

  /** The head is the next number exactly when that one waits. */
  lemma HeadIsNextShown<T>(m: M.Machine<T>, o: Orderer<T>)
    requires StandsFor(m, o)
    ensures M.HeadIsNext(m) <==> o.next in o.pending
    ensures M.HeadIsNext(m) ==> NumberOf(m.heap[0], o.next) == o.next
  {
    EmptyHeap(m.heap, o.pending, o.next);
    if m.heap != [] {
      HeadIsLowest(m.heap, o.pending, o.next);
      NoRankIsNext(m.heap[0], o.next);
    }
  }

  lemma NoRankIsNext<T>(e: Entry<T>, next: int)
    ensures Rank(e, Wrap(next)) == 0 <==> e.key == Wrap(next)
  {
  }

  /** Exporting the head exports the lowest waiting number. */
  lemma ExportShows<T>(m: M.Machine<T>, o: Orderer<T>) returns (k: int)
    requires StandsFor(m, o) && m.heap != []
    ensures k == NumberOf(m.heap[0], o.next) && k in o.pending && forall n :: n in o.pending ==> k <= n
    ensures m.heap[0] == Entry(Wrap(k), o.pending[k])
    ensures StandsFor(M.Export(m), Orderer(o.isFirst, k + 1, o.pending - {k}))
    ensures o.next <= k < o.next + HALF
  {
    hide Popped, Represents;
    EmptyShown(m, o);
    k := NumberOf(m.heap[0], o.next);
    PoppedHeap(m.heap, o.pending, o.next, k);
    WrapNext(k);
    ReachOf(m.heap, o.pending, o.next);
  }

  lemma ReachOf<T>(h: seq<Entry<T>>, p: map<int, T>, next: int)
    requires Represents(h, p, next)
    ensures InReach(p, next)
  {
  }

  lemma WrapNext(k: int)
    ensures Wrap(Wrap(k) + 1) == Wrap(k + 1)
  {
  }

  /** The comparison against the number exported last places every received counter. */
  lemma PlacedByComparison(next: int, orderNumber: uint32)
    ensures Wrap(Received(next, orderNumber)) == orderNumber
    ensures M.IsNextOrLater(Wrap(next), orderNumber) <==> Received(next, orderNumber) >= next
    ensures next - HALF - 2 <= Received(next, orderNumber) < next + HALF
  {
    hide Wrap;
    OneBefore(next);
  }

  lemma OneBefore(next: int)
    ensures Wrap(Wrap(next) - 1) == Wrap(next - 1)
  {
  }

  // ----- runs -----

  lemma {:induction false} RunFront<T>(p: map<int, T>, at: int, end: int)
    requires at < end && forall i :: at <= i < end ==> i in p
    ensures Run(p, at, end) == [Numbered(at, p[at])] + Run(p - {at}, at + 1, end)
  {
    var r, rest := Run(p, at, end), Run(p - {at}, at + 1, end);
    forall i | 0 <= i < |r|
      ensures r[i] == ([Numbered(at, p[at])] + rest)[i]
    {
    }
  }

  lemma FromWithout<T>(p: map<int, T>, at: int, end: int)
    requires at < end
    ensures From(p - {at}, end) == From(p, end)
  {
  }

  lemma FromEverything<T>(p: map<int, T>, m: int)
    requires forall n :: n in p ==> m <= n
    ensures From(p, m) == p
  {
  }

  /** What the loop of a push does to the map. */
  ghost function ReadyMap<T>(c: map<int, T>, at: int, n: int, data: T, isExported: bool): map<int, T> {
    if isExported || n < at then c else Joined(c, n, data)
  }

  lemma ReadyMapStep<T>(c: map<int, T>, at: int, n: int, data: T, isExported: bool)
    requires forall m :: m in c ==> at <= m
    ensures at in c ==>
              ReadyMap(c, at, n, data, isExported) - {at} == ReadyMap(c - {at}, at + 1, n, data, isExported)
              && at in ReadyMap(c, at, n, data, isExported) && ReadyMap(c, at, n, data, isExported)[at] == c[at]
    ensures at !in c && at == n && !isExported ==>
              ReadyMap(c, at, n, data, isExported) == c[n := data] && c[n := data] - {at} == c
              && ReadyMap(c, at + 1, n, data, true) == c
    ensures at !in c && (isExported || at != n) ==> at !in ReadyMap(c, at, n, data, isExported)
  {
  }

  lemma RunEndStep<T>(p: map<int, T>, at: int)
    ensures RunEnd(p, at) == if at in p then RunEnd(p - {at}, at + 1) else at
  {
  }

  lemma RunOfNone<T>(p: map<int, T>, at: int)
    ensures Run(p, at, at) == []
  {
  }

  lemma SameCounter(m: int, n: int)
    requires m <= n < m + MODULUS || n <= m < n + MODULUS
    ensures Wrap(m) == Wrap(n) <==> m == n
  {
  }

  /** The loop of a push exports the run of numbers that starts at the next one. */
  lemma {:induction false} ReadyShows<T>(m: M.Machine<T>, o: Orderer<T>, n: int, data: T, isExported: bool)
    requires StandsFor(m, o) && !o.isFirst && o.next - HALF <= n < o.next + HALF
    requires forall k :: k in o.pending ==> k < n + HALF
    ensures var (r, out) := M.ExportReady(m, Entry(Wrap(n), data), isExported);
            var p := ReadyMap(o.pending, o.next, n, data, isExported);
            var end := RunEnd(p, o.next);
            StandsFor(r, Orderer(false, end, From(o.pending, end))) && out == Wrapped(Run(p, o.next, end))
    decreases |m.heap| + if isExported then 0 else 1
  {
    hide Represents, Wrap, Run, RunEnd, ReadyMap, Popped, Wrapped;
    var c, at, e := o.pending, o.next, Entry(Wrap(n), data);
    var p := ReadyMap(c, at, n, data, isExported);
    var end := RunEnd(p, at);
    ReachOf(m.heap, c, at);
    HeadIsNextShown(m, o);
    ReadyMapStep(c, at, n, data, isExported);
    RunEndStep(p, at);
    if M.HeadIsNext(m) {
      var k := ExportShows(m, o);
      ReadyShows(M.Export(m), Orderer(false, at + 1, c - {at}), n, data, isExported);
      RunFront(p, at, end);
      FromWithout(c, at, end);
      WrappedOneMore(Numbered(at, c[at]), Run(p - {at}, at + 1, end));
    } else {
      SameCounter(at, n);
      if !isExported && m.next == e.key {
        WrapNext(n);
        MovedPast(m.heap, c, at, n);
        ReadyShows(m.(next := Wrap(e.key + 1)), Orderer(false, at + 1, c), n, data, true);
        RunFront(p, at, end);
        FromWithout(c, at, end);
        NotThere(c, at);
        WrappedOneMore(Numbered(n, data), Run(c, at + 1, end));
      } else {
        FromEverything(c, at);
        RunOfNone(p, at);
        WrappedOneMore(Numbered(n, data), []);
      }
    }
  }

  lemma NotThere<T>(c: map<int, T>, at: int)
    requires at !in c
    ensures c - {at} == c
  {
  }

  /** The packet can be told apart from those that wait, and a first one is not from the past. */
  ghost predicate Placeable<T>(o: Orderer<T>, n: int, allow: AllowMissing) {
    if allow.AllowInDumpAndPush? then o.pending == map[]
    else !WaitsTwice(o, n) && (o.isFirst ==> 0 <= n)
  }

  lemma PushShows<T>(m: M.Machine<T>, o: Orderer<T>, orderNumber: uint32, data: T, allow: AllowMissing)
    requires StandsFor(m, o) && Placeable(o, Received(o.next, orderNumber), allow)
    ensures var (r, out) := M.Push(m, Entry(orderNumber, data), allow);
            var (o', out') := Push(o, Received(o.next, orderNumber), data, allow);
            StandsFor(r, o') && out == Wrapped(out')
  {
    hide Represents, Wrap, Run, RunEnd, Popped, Pushed, Wrapped, Received, M.ExportReady, M.IsNextOrLater;
    var n := Received(o.next, orderNumber);
    PlacedByComparison(o.next, orderNumber);
    WrappedOneMore(Numbered(n, data), []);
    WrapNext(n);
    if o.isFirst {
      FirstPush(m, o, n, data, allow);
    } else if n >= o.next {
      if allow.AllowInDumpAndPush? {
        MovedPast(m.heap, o.pending, o.next, n);
      } else {
        LaterPush(m, o, n, data, allow);
      }
    }
  }

  lemma FirstPush<T>(m: M.Machine<T>, o: Orderer<T>, n: int, data: T, allow: AllowMissing)
    requires StandsFor(m, o) && o.isFirst && -HALF - 2 <= n < HALF && (allow.AllowInDumpAndPush? || 0 <= n)
    ensures var (r, out) := M.Push(m, Entry(Wrap(n), data), allow);
            var (o', out') := Push(o, n, data, allow);
            StandsFor(r, o') && out == Wrapped(out')
  {
    hide Represents, Popped, Pushed, Wrapped;
    WrappedOneMore(Numbered(n, data), []);
    WrapNext(n);
    SameCounter(n, 0);
    MovedPast(m.heap, o.pending, o.next, n);
    if 0 <= n {
      PushedHeap(m.heap, o.pending, 0, n, data);
    }
  }

  /** A push that is neither the first nor too late. */
  lemma LaterPush<T>(m: M.Machine<T>, o: Orderer<T>, n: int, data: T, allow: AllowMissing)
    requires StandsFor(m, o) && !o.isFirst && o.next <= n < o.next + HALF && !WaitsTwice(o, n) && !allow.AllowInDumpAndPush?
    requires M.IsNextOrLater(m.next, Wrap(n))
    ensures var (r, out) := M.Push(m, Entry(Wrap(n), data), allow);
            var (o', out') := Push(o, n, data, allow);
            StandsFor(r, o') && out == Wrapped(out')
  {
    hide Represents, Wrap, Run, RunEnd, Popped, Pushed, Wrapped, M.ExportReady, M.IsNextOrLater;
    var p := Joined(o.pending, n, data);
    var end := RunEnd(p, o.next);
    ReachOf(m.heap, o.pending, o.next);
    ReadyShows(m, o, n, data, false);
    assert ReadyMap(o.pending, o.next, n, data, false) == p;
    RunLength(p, o.next, end);
    if end == o.next {
      PushedHeap(m.heap, o.pending, o.next, n, data);
      WrappedOneMore(Numbered(n, data), []);
    }
  }

  lemma RunLength<T>(p: map<int, T>, at: int, end: int)
    requires end == RunEnd(p, at)
    ensures (Wrapped(Run(p, at, end)) == []) <==> end == at
    ensures end == at ==> at !in p
  {
  }

  // ----- dumps -----

  lemma {:induction false} AscendingWithout<T>(p: map<int, T>, k: int, from: int, end: int)
    requires k < from
    ensures Ascending(p - {k}, from, end) == Ascending(p, from, end)
    decreases end - from
  {
    if from < end {
      AscendingWithout(p, k, from + 1, end);
    }
  }

  /** Nothing waits before `k`, so exporting starts there. */
  lemma {:induction false} AscendingFront<T>(p: map<int, T>, at: int, k: int, end: int)
    requires at <= k < end && k in p && forall n :: n in p ==> k <= n
    ensures Ascending(p, at, end) == [Numbered(k, p[k])] + Ascending(p - {k}, k + 1, end)
    decreases k - at
  {
    if at < k {
      AscendingStep(p, at, end);
      hide Ascending;
      AscendingFront(p, at + 1, k, end);
    } else {
      AscendingStep(p, at, end);
      hide Ascending;
      AscendingWithout(p, k, k + 1, end);
    }
  }

  lemma AscendingStep<T>(p: map<int, T>, from: int, end: int)
    requires from < end
    ensures from in p ==> Ascending(p, from, end) == [Numbered(from, p[from])] + Ascending(p, from + 1, end)
    ensures from !in p ==> Ascending(p, from, end) == Ascending(p, from + 1, end)
  {
    assert [] + Ascending(p, from + 1, end) == Ascending(p, from + 1, end);
  }

  lemma {:induction false} AscendingOfNone<T>(p: map<int, T>, from: int, end: int)
    requires forall n :: n in p ==> end <= n
    ensures Ascending(p, from, end) == []
    decreases end - from
  {
    if from < end {
      AscendingStep(p, from, end);
      AscendingOfNone(p, from + 1, end);
    }
  }

  lemma NextAfterFront<T>(at: int, e: Numbered<T>, out: seq<Numbered<T>>)
    ensures NextAfter(at, [e] + out) == NextAfter(e.number + 1, out)
  {
  }

  /** The limit of a dump stands for number `n`, close to everything that waits; no limit reaches it all. */
  ghost predicate IsLimit<T>(limit: Option<uint32>, n: int, p: map<int, T>) {
    if limit.Some? then limit.value == Wrap(n) && forall k :: k in p ==> -HALF <= k - n <= HALF
    else forall k :: k in p ==> k <= n
  }

  lemma IsAfterShown<T>(m: M.Machine<T>, o: Orderer<T>, limit: Option<uint32>, n: int)
    requires StandsFor(m, o) && m.heap != [] && IsLimit(limit, n, o.pending)
    ensures M.IsAfter(limit, m) <==> NumberOf(m.heap[0], o.next) > n
  {
    var k := ExportShows(m, o);
    hide Represents;
    if limit.Some? {
      SerialComparison(n, k);
    }
  }

  lemma {:induction false} AcrossShows<T>(m: M.Machine<T>, o: Orderer<T>, limit: Option<uint32>, n: int)
    requires StandsFor(m, o) && IsLimit(limit, n, o.pending)
    ensures var (r, out) := M.ExportAcrossGaps(m, limit);
            var exported := Ascending(o.pending, o.next, n + 1);
            StandsFor(r, Orderer(o.isFirst, NextAfter(o.next, exported), From(o.pending, n + 1))) && out == Wrapped(exported)
    decreases |m.heap|
  {
    hide Represents, Wrap, Ascending, Wrapped, Popped, NumberOf;
    var c, at := o.pending, o.next;
    EmptyShown(m, o);
    if m.heap != [] {
      IsAfterShown(m, o, limit, n);
      var k := ExportShows(m, o);
      if k <= n {
        var rest := Ascending(c - {k}, k + 1, n + 1);
        AcrossShows(M.Export(m), Orderer(o.isFirst, k + 1, c - {k}), limit, n);
        AscendingFront(c, at, k, n + 1);
        NextAfterFront(at, Numbered(k, c[k]), rest);
        FromWithout(c, k, n + 1);
        WrappedOneMore(Numbered(k, c[k]), rest);
        return;
      }
    }
    AscendingOfNone(c, at, n + 1);
    FromEverything(c, n + 1);
    NoneWrapped<T>();
  }

  lemma NoneWrapped<T>()
    ensures Wrapped<T>([]) == []
  {
  }

  /** The end of the run that is exported, cut off behind the limit. */
  ghost function RunLimit<T>(p: map<int, T>, at: int, n: int): int {
    var run := RunEnd(p, at);
    if run <= n then run else n + 1
  }

  lemma {:induction false} UpToGapShows<T>(m: M.Machine<T>, o: Orderer<T>, limit: Option<uint32>, n: int)
    requires StandsFor(m, o) && IsLimit(limit, n, o.pending) && o.next <= n + 1
    ensures var (r, out) := M.ExportUpToGap(m, limit);
            var end := RunLimit(o.pending, o.next, n);
            && o.next <= end <= RunEnd(o.pending, o.next)
            && StandsFor(r, Orderer(o.isFirst, end, From(o.pending, end))) && out == Wrapped(Run(o.pending, o.next, end))
    decreases |m.heap|
  {
    hide Represents, Wrap, Run, RunEnd, Wrapped, Popped, NumberOf;
    var c, at := o.pending, o.next;
    ReachOf(m.heap, c, at);
    RunEndStep(c, at);
    HeadIsNextShown(m, o);
    if M.HeadIsNext(m) {
      IsAfterShown(m, o, limit, n);
      if at <= n {
        var k := ExportShows(m, o);
        UpToGapShows(M.Export(m), Orderer(o.isFirst, at + 1, c - {at}), limit, n);
        var end := RunLimit(c, at, n);
        RunFront(c, at, end);
        FromWithout(c, at, end);
        WrappedOneMore(Numbered(at, c[at]), Run(c - {at}, at + 1, end));
        return;
      }
    }
    FromEverything(c, at);
    RunOfNone(c, at);
    NoneWrapped<T>();
  }

  lemma DumpShows<T>(m: M.Machine<T>, o: Orderer<T>, orderNumber: uint32, allow: AllowMissing)
    requires StandsFor(m, o)
    ensures var (r, out) := M.Dump(m, orderNumber, allow);
            var (o', out') := Dump(o, Received(o.next, orderNumber), allow);
            StandsFor(r, o') && out == Wrapped(out')
  {
    hide Represents, Wrap, Run, RunEnd, Wrapped, Popped, Ascending, M.IsNextOrLater, M.ExportAcrossGaps, M.ExportUpToGap, Received;
    var n := Received(o.next, orderNumber);
    PlacedByComparison(o.next, orderNumber);
    EmptyShown(m, o);
    ReachOf(m.heap, o.pending, o.next);
    NoneWrapped<T>();
    if m.heap != [] && o.next <= n {
      AcrossShows(m, o, Some(orderNumber), n);
      UpToGapShows(m, o, Some(orderNumber), n);
    }
  }

  lemma DumpAllShows<T>(m: M.Machine<T>, o: Orderer<T>, allow: AllowMissing)
    requires StandsFor(m, o)
    ensures var (r, out) := M.DumpAll(m, allow);
            var (o', out') := DumpAll(o, allow);
            StandsFor(r, o') && out == Wrapped(out')
  {
    hide Represents, Wrap, Run, RunEnd, Wrapped, Popped, Ascending, M.ExportAcrossGaps, M.ExportUpToGap;
    ReachOf(m.heap, o.pending, o.next);
    var n := o.next + HALF - 1;
    AcrossShows(m, o, None, n);
    UpToGapShows(m, o, None, n);
    NothingBeyondReach(o.pending, o.next);
  }

  lemma NothingBeyondReach<T>(p: map<int, T>, next: int)
    requires InReach(p, next)
    ensures From(p, next + HALF) == map[] && RunEnd(p, next) <= next + HALF
  {
    RunEndIsAtMost(p, next, next + HALF);
  }
}
