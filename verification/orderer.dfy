/**
 What the packet orderer of helpertools/PacketOrdererHeap.go does, said on unwrapped order numbers and
 a finite map of waiting packets, and what follows over whole histories.
 */
module OrdererMeaning {
  import opened Serial
  import opened Policies

  datatype Numbered<T> = Numbered(number: int, value: T)

  /** `next` is the number to be exported next; `pending` holds the packets that wait. */
  datatype Orderer<T> = Orderer(isFirst: bool, next: int, pending: map<int, T>)

  function Initial<T>(): Orderer<T> {
    Orderer(true, 0, map[])
  }

  /** The first number from `from` on that is not waiting. */
  function RunEnd<T>(p: map<int, T>, from: int): (end: int)
    ensures from <= end && end !in p && forall i :: from <= i < end ==> i in p
    decreases p.Keys
  {
    if from in p then RunEnd(p - {from}, from + 1) else from
  }

  lemma RunEndIsUnique<T>(p: map<int, T>, from: int, end: int)
    requires from <= end && end !in p && forall i :: from <= i < end ==> i in p
    ensures RunEnd(p, from) == end
  {
    var e := RunEnd(p, from);
    assert e < end ==> e in p;
    assert end < e ==> end in p;
  }

  function Run<T>(p: map<int, T>, from: int, end: int): (out: seq<Numbered<T>>)
    requires from <= end && forall i :: from <= i < end ==> i in p
    ensures |out| == end - from
    ensures forall i :: 0 <= i < |out| ==> out[i] == Numbered(from + i, p[from + i])
    decreases end - from
  {
    if from == end then [] else Run(p, from, end - 1) + [Numbered(end - 1, p[end - 1])]
  }

  function From<T>(p: map<int, T>, m: int): map<int, T> {
    map n | n in p && n >= m :: p[n]
  }

  /** What can be exported in a push: what waits, and the pushed packet unless its number waits. */
  function Joined<T>(p: map<int, T>, n: int, data: T): map<int, T> {
    if n in p then p else p[n := data]
  }

  /** A packet with the number of one that waits would wait beside it; a map cannot hold both. */
  ghost predicate WaitsTwice<T>(o: Orderer<T>, n: int) {
    n in o.pending && o.next !in o.pending
  }

  /** PushWithMissingPacketOption, for a packet that would not wait twice. */
  function Push<T>(o: Orderer<T>, n: int, data: T, allow: AllowMissing): (Orderer<T>, seq<Numbered<T>>) {
    if !o.isFirst && n < o.next then
      (o, [])
    else if allow.AllowInDumpAndPush? then
      (Orderer(false, n + 1, o.pending), [Numbered(n, data)])
    else if o.isFirst then
      if n == 0 then (Orderer(false, 1, o.pending), [Numbered(0, data)])
      else (Orderer(false, o.next, o.pending[n := data]), [])
    else
      var p := Joined(o.pending, n, data);
      var end := RunEnd(p, o.next);
      if end == o.next then (Orderer(false, o.next, p), [])
      else (Orderer(false, end, From(o.pending, end)), Run(p, o.next, end))
  }

  // ----- exporting with gaps -----

  /** The waiting packets numbered from `from` up to `end`, in ascending order. */
  function Ascending<T>(p: map<int, T>, from: int, end: int): (out: seq<Numbered<T>>)
    decreases end - from
  {
    if from >= end then []
    else (if from in p then [Numbered(from, p[from])] else []) + Ascending(p, from + 1, end)
  }

  ghost predicate Increasing<T>(out: seq<Numbered<T>>) {
    forall i, j :: 0 <= i < j < |out| ==> out[i].number < out[j].number
  }

  /** Exactly the packets numbered from `from` up to `end`. */
  ghost predicate IsPartOf<T>(out: seq<Numbered<T>>, p: map<int, T>, from: int, end: int) {
    && (forall i :: 0 <= i < |out| ==>
         from <= out[i].number < end && out[i].number in p && p[out[i].number] == out[i].value)
    && forall n :: n in p && from <= n < end ==> Numbered(n, p[n]) in out
  }

  lemma {:induction false} AscendingIsSorted<T>(p: map<int, T>, from: int, end: int)
    ensures Increasing(Ascending(p, from, end)) && IsPartOf(Ascending(p, from, end), p, from, end)
    decreases end - from
  {
    if from < end {
      AscendingIsSorted(p, from + 1, end);
      if from in p {
        OneInFront(Ascending(p, from + 1, end), p, from, end);
      }
    }
  }

  lemma OneInFront<T>(tail: seq<Numbered<T>>, p: map<int, T>, from: int, end: int)
    requires from in p && from < end && Increasing(tail) && IsPartOf(tail, p, from + 1, end)
    ensures var out := [Numbered(from, p[from])] + tail; Increasing(out) && IsPartOf(out, p, from, end)
  {
    var out := [Numbered(from, p[from])] + tail;
    assert forall i :: 0 < i < |out| ==> out[i] == tail[i - 1];
    forall n | n in p && from <= n < end
      ensures Numbered(n, p[n]) in out
    {
      if n > from {
        assert Numbered(n, p[n]) in tail;
      } else {
        assert out[0] == Numbered(n, p[n]);
      }
    }
  }

  function NextAfter<T>(next: int, out: seq<Numbered<T>>): int {
    if out == [] then next else out[|out| - 1].number + 1
  }

  /** Dump: everything up to `n`, with or without gaps. */
  function Dump<T>(o: Orderer<T>, n: int, allow: AllowMissing): (Orderer<T>, seq<Numbered<T>>) {
    if o.pending.Keys == {} || n < o.next then
      (o, [])
    else if !allow.AllowNone? then
      var out := Ascending(o.pending, o.next, n + 1);
      (Orderer(o.isFirst, NextAfter(o.next, out), From(o.pending, n + 1)), out)
    else
      var run := RunEnd(o.pending, o.next);
      var end := if run <= n then run else n + 1;
      (Orderer(o.isFirst, end, From(o.pending, end)), Run(o.pending, o.next, end))
  }

  /** DumpAll: everything, or everything up to the first gap. */
  function DumpAll<T>(o: Orderer<T>, allow: AllowMissing): (Orderer<T>, seq<Numbered<T>>) {
    if !allow.AllowNone? then
      var out := Ascending(o.pending, o.next, o.next + HALF);
      (Orderer(o.isFirst, NextAfter(o.next, out), map[]), out)
    else
      var end := RunEnd(o.pending, o.next);
      (Orderer(o.isFirst, end, From(o.pending, end)), Run(o.pending, o.next, end))
  }

  // ----- strict reordering: histories of Push that allow no gaps -----

  /** The number a received counter stands for, seen from the number exported last. */
  function Received(next: int, orderNumber: uint32): int {
    Unwrap(next - 1, orderNumber)
  }

  /** Pushing a history one packet after the other, each under its wrapped number. */
  function PushAll<T>(history: seq<Numbered<T>>, allow: AllowMissing): (Orderer<T>, seq<Numbered<T>>) {
    if history == [] then (Initial(), [])
    else
      var (o, out) := PushAll(history[..|history| - 1], allow);
      var e := history[|history| - 1];
      var (o', more) := Push(o, Received(o.next, Wrap(e.number)), e.value, allow);
      (o', out + more)
  }

  /** Numbers are distinct, and each is less than half the range ahead of what was exported before it. */
  ghost predicate InRange<T>(history: seq<Numbered<T>>, allow: AllowMissing) {
    history != [] ==>
      var before, e := history[..|history| - 1], history[|history| - 1];
      && InRange(before, allow)
      && 0 <= e.number < PushAll(before, allow).0.next + HALF
      && forall i :: 0 <= i < |before| ==> before[i].number != e.number
  }

  /**
   After the packets of `history`: exported are exactly 0, 1, .., next-1, next has not arrived, and
   waiting are exactly the arrived packets after it.
   */
  ghost predicate Strict<T>(o: Orderer<T>, out: seq<Numbered<T>>, history: seq<Numbered<T>>) {
    && o.isFirst == (history == [])
    && |out| == o.next
    && (forall i :: 0 <= i < |out| ==> out[i].number == i && out[i] in history)
    && (forall e :: e in history ==> e.number != o.next && e.number >= 0)
    && (forall e :: e in history && e.number > o.next ==> e.number in o.pending && o.pending[e.number] == e.value)
    && (forall n :: n in o.pending ==> o.next < n < o.next + HALF && Numbered(n, o.pending[n]) in history)
  }

  lemma StrictFirst<T>(history: seq<Numbered<T>>, e: Numbered<T>, allow: AllowMissing)
    requires !allow.AllowInDumpAndPush? && 0 <= e.number < HALF
    ensures var (o, out) := Push(Initial(), e.number, e.value, allow); Strict(o, out, [e])
  {
  }

  lemma StrictStep<T>(o: Orderer<T>, out: seq<Numbered<T>>, history: seq<Numbered<T>>, e: Numbered<T>, allow: AllowMissing)
    requires Strict(o, out, history) && history != [] && !allow.AllowInDumpAndPush?
    requires o.next <= e.number < o.next + HALF
    requires forall i :: 0 <= i < |history| ==> history[i].number != e.number
    ensures var (o', more) := Push(o, e.number, e.value, allow); Strict(o', out + more, history + [e])
  {
    var p := o.pending[e.number := e.value];
    var end := RunEnd(p, o.next);
    var (o', more) := Push(o, e.number, e.value, allow);
    assert end > o.next ==> o.next in p && e.number == o.next;
    forall f | f in history + [e]
      ensures f.number != o'.next && f.number >= 0
      ensures f.number > o'.next ==> f.number in o'.pending && o'.pending[f.number] == f.value
    {
      if f.number > o.next {
        assert f.number in p && p[f.number] == f.value;
      }
    }
  }

  lemma StrictNext<T>(o: Orderer<T>, out: seq<Numbered<T>>, history: seq<Numbered<T>>, e: Numbered<T>, allow: AllowMissing)
    requires Strict(o, out, history) && !allow.AllowInDumpAndPush? && (history == [] ==> o == Initial())
    requires 0 <= e.number < o.next + HALF
    requires forall i :: 0 <= i < |history| ==> history[i].number != e.number
    ensures var (o', more) := Push(o, Received(o.next, Wrap(e.number)), e.value, allow);
            Strict(o', out + more, history + [e])
  {
    NewNumberIsAhead(o, out, history, e);
    UnwrapIsInverse(o.next - 1, e.number);
    if history == [] {
      StrictFirst(history, e, allow);
      assert out == [] && history + [e] == [e];
    } else {
      StrictStep(o, out, history, e, allow);
    }
  }

  /** Strict reordering over every in-range history, through wrap-around. */
  lemma {:induction false} StrictReordering<T>(history: seq<Numbered<T>>, allow: AllowMissing)
    requires !allow.AllowInDumpAndPush? && InRange(history, allow)
    ensures Strict(PushAll(history, allow).0, PushAll(history, allow).1, history)
  {
    if history != [] {
      var before, e := history[..|history| - 1], history[|history| - 1];
      StrictReordering(before, allow);
      var (o, out) := PushAll(before, allow);
      StrictNext(o, out, before, e, allow);
      assert before + [e] == history;
    }
  }

  lemma NotExportedYet<T>(o: Orderer<T>, out: seq<Numbered<T>>, history: seq<Numbered<T>>, e: Numbered<T>, i: nat)
    requires Strict(o, out, history) && i < o.next
    requires forall k :: 0 <= k < |history| ==> history[k].number != e.number
    ensures e.number != i
  {
    assert out[i] in history;
  }

  lemma NewNumberIsAhead<T>(o: Orderer<T>, out: seq<Numbered<T>>, history: seq<Numbered<T>>, e: Numbered<T>)
    requires Strict(o, out, history) && e.number >= 0
    requires forall i :: 0 <= i < |history| ==> history[i].number != e.number
    ensures e.number >= o.next
  {
    if e.number < o.next {
      NotExportedYet(o, out, history, e, e.number);
    }
  }

  /** No pushed packet is lost, and what is exported is a prefix of the numbering. */
  lemma NothingIsLost<T>(history: seq<Numbered<T>>, allow: AllowMissing, i: nat)
    requires !allow.AllowInDumpAndPush? && InRange(history, allow) && i < |history|
    ensures var (o, out) := PushAll(history, allow);
            var e := history[i];
            if e.number < o.next then 0 <= e.number < |out| && out[e.number] == e
            else e.number in o.pending && o.pending[e.number] == e.value
  {
    StrictReordering(history, allow);
    var (o, out) := PushAll(history, allow);
    var e := history[i];
    assert e in history;
    if e.number < o.next {
      var k :| 0 <= k < |history| && history[k] == out[e.number];
      NumbersAreDistinct(history, allow, i, k);
    }
  }

  lemma {:induction false} NumbersAreDistinct<T>(history: seq<Numbered<T>>, allow: AllowMissing, i: nat, k: nat)
    requires InRange(history, allow) && i < |history| && k < |history| && history[i].number == history[k].number
    ensures i == k
  {
    var n := |history| - 1;
    var before := history[..n];
    if i < n && k < n {
      NumbersAreDistinct(before, allow, i, k);
    }
  }

  /** What has been exported and what still waits make up the history. */
  lemma StrictSplits<T>(o: Orderer<T>, out: seq<Numbered<T>>, history: seq<Numbered<T>>, e: Numbered<T>)
    requires Strict(o, out, history) && DistinctNumbers(history)
    ensures e in history <==> e in out || (e.number in o.pending && o.pending[e.number] == e.value)
  {
    if e in history && e.number < o.next {
      assert out[e.number] in history;
    }
    if e.number in o.pending && o.pending[e.number] == e.value {
      assert Numbered(e.number, o.pending[e.number]) == e;
    }
  }

  ghost predicate DistinctNumbers<T>(history: seq<Numbered<T>>) {
    forall i, k :: 0 <= i < |history| && 0 <= k < |history| && history[i].number == history[k].number ==> i == k
  }

  /** DumpAll after strict pushing exports all the rest: every packet exactly once, in increasing order. */
  lemma DrainAfterStrict<T>(o: Orderer<T>, out: seq<Numbered<T>>, history: seq<Numbered<T>>)
    requires Strict(o, out, history) && DistinctNumbers(history)
    ensures var (o', rest) := DumpAll(o, AllowInDump);
            && o'.pending == map[] && Increasing(out + rest)
            && forall e :: e in out + rest <==> e in history
  {
    var rest := Ascending(o.pending, o.next, o.next + HALF);
    StrictDrains(o, out, history);
    AscendingIsSorted(o.pending, o.next, o.next + HALF);
    hide Ascending, Strict, IsPartOf, Increasing, DistinctNumbers, DumpAll;
    OrderedPiece(out, rest, o.next);
    forall e
      ensures e in out + rest <==> e in history
    {
      DrainedOrExported(o, out, rest, history, e);
    }
  }

  lemma DrainedOrExported<T>(o: Orderer<T>, out: seq<Numbered<T>>, rest: seq<Numbered<T>>, history: seq<Numbered<T>>, e: Numbered<T>)
    requires Strict(o, out, history) && DistinctNumbers(history)
    requires IsPartOf(rest, o.pending, o.next, o.next + HALF) && forall n :: n in o.pending ==> o.next <= n < o.next + HALF
    ensures e in out + rest <==> e in history
  {
    hide Strict, IsPartOf, DistinctNumbers;
    StrictSplits(o, out, history, e);
    InAscending(o.pending, rest, o.next, o.next + HALF, e);
  }

  lemma StrictDrains<T>(o: Orderer<T>, out: seq<Numbered<T>>, history: seq<Numbered<T>>)
    requires Strict(o, out, history)
    ensures var rest := Ascending(o.pending, o.next, o.next + HALF);
            && DumpAll(o, AllowInDump).0.pending == map[] && DumpAll(o, AllowInDump).1 == rest
            && Increasing(out) && (out != [] ==> out[|out| - 1].number < o.next)
            && (rest != [] ==> o.next <= rest[0].number)
            && forall n :: n in o.pending ==> o.next <= n < o.next + HALF
  {
    AscendingIsSorted(o.pending, o.next, o.next + HALF);
    hide Ascending;
    StrictIsIncreasing(o, out, history);
  }

  lemma StrictIsIncreasing<T>(o: Orderer<T>, out: seq<Numbered<T>>, history: seq<Numbered<T>>)
    requires Strict(o, out, history)
    ensures Increasing(out) && (out != [] ==> out[|out| - 1].number < o.next)
    ensures forall n :: n in o.pending ==> o.next <= n < o.next + HALF
  {
  }

  lemma InAscending<T>(p: map<int, T>, out: seq<Numbered<T>>, from: int, end: int, e: Numbered<T>)
    requires IsPartOf(out, p, from, end) && forall n :: n in p ==> from <= n < end
    ensures e in out <==> e.number in p && p[e.number] == e.value
  {
    if e.number in p && p[e.number] == e.value {
      assert Numbered(e.number, p[e.number]) == e;
    }
  }

  lemma DumpAllConserves<T>(history: seq<Numbered<T>>)
    requires InRange(history, AllowInDump)
    ensures var (o, out) := PushAll(history, AllowInDump);
            var (o', rest) := DumpAll(o, AllowInDump);
            && o'.pending == map[] && Increasing(out + rest)
            && forall e :: e in out + rest <==> e in history
  {
    StrictReordering(history, AllowInDump);
    forall i, k | 0 <= i < |history| && 0 <= k < |history| && history[i].number == history[k].number
      ensures i == k
    {
      NumbersAreDistinct(history, AllowInDump, i, k);
    }
    var (o, out) := PushAll(history, AllowInDump);
    DrainAfterStrict(o, out, history);
  }

  // ----- orderers that may skip on a timeout -----

  /** Everything waiting is at or after `next`, within half the range. */
  ghost predicate Ahead<T>(o: Orderer<T>) {
    forall n :: n in o.pending ==> o.next <= n < o.next + HALF
  }

  /** A number was exported or is still waiting. */
  ghost predicate Kept<T>(n: int, o: Orderer<T>, out: seq<Numbered<T>>) {
    n in o.pending || exists i :: 0 <= i < |out| && out[i].number == n
  }

  lemma RunKeeps<T>(p: map<int, T>, from: int, end: int, n: int)
    requires from <= end && forall i :: from <= i < end ==> i in p
    ensures (exists i :: 0 <= i < |Run(p, from, end)| && Run(p, from, end)[i].number == n) <==> from <= n < end
  {
    if from <= n < end {
      assert Run(p, from, end)[n - from].number == n;
    }
  }

  lemma KeptByPush<T>(o: Orderer<T>, n: int, data: T, allow: AllowMissing, m: int)
    requires Ahead(o) && !o.isFirst && n >= o.next && n !in o.pending && !allow.AllowInDumpAndPush?
    ensures var (o', out) := Push(o, n, data, allow);
            var end := RunEnd(o.pending[n := data], o.next);
            Kept(m, o', out) <==> o.next <= m < end || (m in o.pending && m >= end) || (m == n && end == o.next)
  {
    var p := o.pending[n := data];
    RunKeeps(p, o.next, RunEnd(p, o.next), m);
  }

  /**
   A push keeps everything that was waiting. It keeps the pushed packet itself exactly when the next number
   was not already waiting, or everything up to the pushed number was.
   */
  lemma PushKeepsExactly<T>(o: Orderer<T>, n: int, data: T, allow: AllowMissing)
    requires Ahead(o) && !o.isFirst && n >= o.next && n !in o.pending && !allow.AllowInDumpAndPush?
    ensures var (o', out) := Push(o, n, data, allow);
            && (forall m :: m in o.pending ==> Kept(m, o', out))
            && (Kept(n, o', out) <==> o.next !in o.pending || forall k :: o.next <= k < n ==> k in o.pending)
  {
    forall m | m in o.pending
      ensures Kept(m, Push(o, n, data, allow).0, Push(o, n, data, allow).1)
    {
      KeptByPush(o, n, data, allow, m);
    }
    KeptByPush(o, n, data, allow, n);
    RunReaches(o.pending, n, data, o.next);
  }

  /** The run drained by a push stops short of the pushed number exactly when the next one waits and a later one is missing. */
  lemma RunReaches<T>(p: map<int, T>, n: int, data: T, next: int)
    requires n >= next && n !in p
    ensures var end := RunEnd(p[n := data], next);
            n < end || end == next <==> next !in p || forall k :: next <= k < n ==> k in p
  {
    var q := p[n := data];
    var end := RunEnd(q, next);
    if forall k :: next <= k < n ==> k in p {
      RunEndIsAtLeast(q, next, n + 1);
    } else {
      var k :| next <= k < n && k !in p;
      RunEndIsAtMost(q, next, k);
    }
  }

  lemma RunEndIsAtMost<T>(p: map<int, T>, from: int, m: int)
    requires from <= m && m !in p
    ensures RunEnd(p, from) <= m
  {
  }

  lemma RunEndIsAtLeast<T>(p: map<int, T>, from: int, m: int)
    requires forall i :: from <= i < m ==> i in p
    ensures RunEnd(p, from) >= m
  {
    var e := RunEnd(p, from);
    assert e < m ==> e in p;
  }

  /** The case that loses a packet is reached by two pushes, the timeout of the first, and one more push. */
  lemma PushCanLosePacket<T>(a: T, b: T, c: T)
    ensures var o1 := Push(Initial(), 5, a, AllowNone).0;
            var o2 := Push(o1, 6, b, AllowNone).0;
            var o3 := Dump(o2, 5, AllowInDumpAndPush).0;
            var (o4, out) := Push(o3, 8, c, AllowNone);
            o3.next == 6 && 6 in o3.pending && out == [Numbered(6, b)] && o4 == Orderer(false, 7, map[])
  {
    var o1 := Push(Initial(), 5, a, AllowNone).0;
    var o2 := Push(o1, 6, b, AllowNone).0;
    assert o2 == Orderer(false, 0, map[5 := a, 6 := b]);
    var (o3, first) := Dump(o2, 5, AllowInDumpAndPush);
    assert Ascending(o2.pending, 0, 6) == [Numbered(5, a)];
    assert o3 == Orderer(false, 6, map[6 := b]);
    RunEndIsUnique(map[6 := b, 8 := c], 6, 7);
    assert Push(o3, 8, c, AllowNone) == (Orderer(false, 7, From(map[6 := b], 7)), Run(map[6 := b, 8 := c], 6, 7));
  }

  datatype Event<T> = Arrival(number: int, value: T) | Timeout(number: int) | Cleanup

  /** The simple orderer: frames are pushed without gaps, a timeout dumps up to its frame, cleanup dumps all. */
  function Step<T>(o: Orderer<T>, e: Event<T>): (Orderer<T>, seq<Numbered<T>>) {
    match e
    case Arrival(n, v) => Push(o, Received(o.next, Wrap(n)), v, AllowNone)
    case Timeout(n) => Dump(o, Received(o.next, Wrap(n)), AllowInDumpAndPush)
    case Cleanup => DumpAll(o, AllowInDumpAndPush)
  }

  /** Exported in increasing order, all of it before `next`, and everything waiting at or after `next`. */
  ghost predicate Ordered<T>(o: Orderer<T>, out: seq<Numbered<T>>) {
    && Ahead(o)
    && 0 <= o.next
    && Increasing(out)
    && o.next == NextAfter(0, out)
    && (o.isFirst ==> o == Initial())
  }

  lemma OrderedPiece<T>(out: seq<Numbered<T>>, more: seq<Numbered<T>>, next: int)
    requires Increasing(out) && (out != [] ==> out[|out| - 1].number < next)
    requires Increasing(more) && (more != [] ==> next <= more[0].number)
    ensures Increasing(out + more)
  {
    forall i, j | 0 <= i < j < |out + more|
      ensures (out + more)[i].number < (out + more)[j].number
    {
      if i < |out| <= j {
        assert out[i].number <= out[|out| - 1].number;
        assert more[0].number <= more[j - |out|].number;
      }
    }
  }

  /** One operation moves `next` ahead over what it exports, in increasing order. */
  ghost predicate Advances<T>(o: Orderer<T>, o': Orderer<T>, more: seq<Numbered<T>>) {
    && Ahead(o') && o'.next == NextAfter(o.next, more) && (o'.isFirst ==> o.isFirst && o' == o)
    && Increasing(more)
    && forall i :: 0 <= i < |more| ==> o.next <= more[i].number < o'.next
  }

  lemma PushAdvances<T>(o: Orderer<T>, n: int, v: T)
    requires Ahead(o) && n < o.next + HALF && (o.isFirst ==> o == Initial() && 0 <= n)
    ensures var (o', more) := Push(o, n, v, AllowNone); Advances(o, o', more)
  {
  }

  lemma DumpAdvances<T>(o: Orderer<T>, n: int)
    requires Ahead(o) && (o.isFirst ==> o == Initial()) && n < o.next + HALF
    ensures var (o', more) := Dump(o, n, AllowInDumpAndPush); Advances(o, o', more)
  {
    AscendingIsSorted(o.pending, o.next, n + 1);
  }

  lemma DumpAllAdvances<T>(o: Orderer<T>)
    requires Ahead(o) && (o.isFirst ==> o == Initial())
    ensures var (o', more) := DumpAll(o, AllowInDumpAndPush); Advances(o, o', more)
  {
    AscendingIsSorted(o.pending, o.next, o.next + HALF);
  }

  lemma OrderedStep<T>(o: Orderer<T>, out: seq<Numbered<T>>, e: Event<T>)
    requires Ordered(o, out)
    requires !e.Cleanup? ==> 0 <= e.number && -HALF <= e.number - o.next < HALF
    ensures Ordered(Step(o, e).0, out + Step(o, e).1)
  {
    hide Push, Dump, DumpAll, Advances, Increasing, Wrap;
    match e {
      case Arrival(n, v) =>
        UnwrapIsInverse(o.next - 1, n);
        PushAdvances(o, n, v);
      case Timeout(n) =>
        UnwrapIsInverse(o.next - 1, n);
        DumpAdvances(o, n);
      case Cleanup =>
        DumpAllAdvances(o);
    }
    var (o', more) := Step(o, e);
    StaysOrdered(o, out, o', more);
  }

  lemma StaysOrdered<T>(o: Orderer<T>, out: seq<Numbered<T>>, o': Orderer<T>, more: seq<Numbered<T>>)
    requires Ordered(o, out) && Advances(o, o', more)
    ensures Ordered(o', out + more)
  {
    OrderedPiece(out, more, o.next);
    if more == [] {
      assert out + more == out;
    }
  }
}
