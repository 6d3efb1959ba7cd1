/**
 The packet orderer of helpertools/PacketOrdererHeap.go as it is: a heap of wrapped order numbers, which may hold
 a number more than once, and the wrapped number to be exported next.
 */
module OrdererMachine {
  import opened Wrappers
  import opened Serial
  import opened PacketHeap
  import opened Policies

  datatype Machine<T> = Machine(isFirst: bool, next: uint32, heap: seq<Entry<T>>)

  function ValuesOf<T>(out: seq<Entry<T>>): (values: seq<T>)
    ensures |values| == |out| && forall i :: 0 <= i < |out| ==> values[i] == out[i].value
  {
    seq(|out|, i requires 0 <= i < |out| => out[i].value)
  }

  function NewMachine<T>(): Machine<T> {
    Machine(true, 0, [])
  }

  /** `IsSequenceNumberInFuture(nextOrderNumberToBeExported-1, orderNumber)` */
  predicate IsNextOrLater(next: uint32, orderNumber: uint32) {
    IsSequenceNumberInFuture(Wrap(next - 1), orderNumber)
  }

  /** heap.Pop, and the next number set past the exported one. */
  function Export<T>(m: Machine<T>): (r: Machine<T>)
    requires m.heap != []
    ensures |r.heap| == |m.heap| - 1
  {
    Machine(m.isFirst, Wrap(m.heap[0].key + 1), Popped(m.heap))
  }

  function Store<T>(m: Machine<T>, e: Entry<T>): Machine<T> {
    Machine(false, m.next, Pushed(m.heap, e))
  }

  predicate HeadIsNext<T>(m: Machine<T>) {
    m.heap != [] && m.heap[0].key == m.next
  }

  /** The loop of PushWithMissingPacketOption: what waits is exported while it is next, and the pushed packet once it is. */
  function ExportReady<T>(m: Machine<T>, e: Entry<T>, isExported: bool): (Machine<T>, seq<Entry<T>>)
    decreases |m.heap| + if isExported then 0 else 1
  {
    if HeadIsNext(m) then
      var (r, out) := ExportReady(Export(m), e, isExported);
      (r, [m.heap[0]] + out)
    else if !isExported && m.next == e.key then
      var (r, out) := ExportReady(m.(next := Wrap(e.key + 1)), e, true);
      (r, [e] + out)
    else (m, [])
  }

  /** PushWithMissingPacketOption. */
  function Push<T>(m: Machine<T>, e: Entry<T>, allow: AllowMissing): (Machine<T>, seq<Entry<T>>) {
    if !m.isFirst && !IsNextOrLater(m.next, e.key) then (m, [])
    else if allow.AllowInDumpAndPush? then (Machine(false, Wrap(e.key + 1), m.heap), [e])
    else if m.isFirst then
      if e.key == 0 then (Machine(false, 1, m.heap), [e]) else (Store(m, e), [])
    else
      var (r, out) := ExportReady(m, e, false);
      if out != [] then (r, out) else (Store(m, e), [])
  }

  /** Does the head of the heap lie after the limit of a dump, if there is one? */
  predicate IsAfter<T>(limit: Option<uint32>, m: Machine<T>)
    requires m.heap != []
  {
    limit.Some? && IsSequenceNumberInFuture(limit.value, m.heap[0].key)
  }

  /** The loop of Dump and DumpAll that exports across gaps. */
  function ExportAcrossGaps<T>(m: Machine<T>, limit: Option<uint32>): (Machine<T>, seq<Entry<T>>)
    decreases |m.heap|
  {
    if m.heap == [] || IsAfter(limit, m) then (m, [])
    else
      var (r, out) := ExportAcrossGaps(Export(m), limit);
      (r, [m.heap[0]] + out)
  }

  /** The loop of Dump and DumpAll that stops at the first gap. */
  function ExportUpToGap<T>(m: Machine<T>, limit: Option<uint32>): (Machine<T>, seq<Entry<T>>)
    decreases |m.heap|
  {
    if !HeadIsNext(m) || IsAfter(limit, m) then (m, [])
    else
      var (r, out) := ExportUpToGap(Export(m), limit);
      (r, [m.heap[0]] + out)
  }

  function Dump<T>(m: Machine<T>, orderNumber: uint32, allow: AllowMissing): (Machine<T>, seq<Entry<T>>) {
    if m.heap == [] || !IsNextOrLater(m.next, orderNumber) then (m, [])
    else if !allow.AllowNone? then ExportAcrossGaps(m, Some(orderNumber))
    else ExportUpToGap(m, Some(orderNumber))
  }

  function DumpAll<T>(m: Machine<T>, allow: AllowMissing): (Machine<T>, seq<Entry<T>>) {
    if !allow.AllowNone? then ExportAcrossGaps(m, None) else ExportUpToGap(m, None)
  }

  /** The branches for a heap of one entry, which look at no limit, do the same. */
  lemma SingleEntry<T>(m: Machine<T>, orderNumber: uint32)
    requires |m.heap| == 1 && HeadIsNext(m)
    ensures ExportUpToGap(m, None) == (Export(m), [m.heap[0]])
    ensures IsNextOrLater(m.next, orderNumber) ==> ExportUpToGap(m, Some(orderNumber)) == (Export(m), [m.heap[0]])
  {
    hide Popped;
    assert Export(m).heap == [];
    NextIsNotAfter(m.next, orderNumber);
    assert [m.heap[0]] + [] == [m.heap[0]];
  }

  lemma NextIsNotAfter(next: uint32, orderNumber: uint32)
    ensures IsNextOrLater(next, orderNumber) ==> !IsSequenceNumberInFuture(orderNumber, next)
  {
  }

  // ----- nothing leaves the heap but by being exported -----

  /** `out` is what has gone from heap `h`, of which `g` is left. */
  ghost predicate Splits<T>(h: seq<Entry<T>>, out: seq<Entry<T>>, g: seq<Entry<T>>) {
    multiset(h) == multiset(out) + multiset(g)
  }

  lemma SplitsOneMore<T>(h: seq<Entry<T>>, out: seq<Entry<T>>, g: seq<Entry<T>>)
    requires h != [] && Splits(Popped(h), out, g)
    ensures Splits(h, [h[0]] + out, g)
  {
    PoppedKeeps(h);
  }

  lemma {:induction false} AcrossConserves<T>(m: Machine<T>, limit: Option<uint32>)
    ensures var (r, out) := ExportAcrossGaps(m, limit); Splits(m.heap, out, r.heap) && (limit.None? ==> r.heap == [])
    decreases |m.heap|
  {
    hide Splits, Popped;
    if m.heap == [] || IsAfter(limit, m) {
      SplitsNothing(m.heap);
    } else {
      AcrossConserves(Export(m), limit);
      var (r, out) := ExportAcrossGaps(Export(m), limit);
      SplitsOneMore(m.heap, out, r.heap);
    }
  }

  lemma SplitsNothing<T>(h: seq<Entry<T>>)
    ensures Splits(h, [], h)
  {
  }

  lemma {:induction false} UpToGapConserves<T>(m: Machine<T>, limit: Option<uint32>)
    ensures var (r, out) := ExportUpToGap(m, limit); Splits(m.heap, out, r.heap)
    decreases |m.heap|
  {
    hide Splits, Popped;
    if !HeadIsNext(m) || IsAfter(limit, m) {
      SplitsNothing(m.heap);
    } else {
      UpToGapConserves(Export(m), limit);
      var (r, out) := ExportUpToGap(Export(m), limit);
      SplitsOneMore(m.heap, out, r.heap);
    }
  }

  /** The same, where packet `e` may have been added first. */
  ghost predicate SplitsWith<T>(h: seq<Entry<T>>, e: Entry<T>, out: seq<Entry<T>>, g: seq<Entry<T>>) {
    Splits(h, out, g) || Splits(h + [e], out, g)
  }

  lemma SplitsWithOneMore<T>(h: seq<Entry<T>>, e: Entry<T>, out: seq<Entry<T>>, g: seq<Entry<T>>)
    requires h != [] && SplitsWith(Popped(h), e, out, g)
    ensures SplitsWith(h, e, [h[0]] + out, g)
  {
    hide Popped;
    PoppedKeeps(h);
  }

  lemma SplitsWithPushed<T>(h: seq<Entry<T>>, e: Entry<T>, out: seq<Entry<T>>, g: seq<Entry<T>>)
    requires Splits(h, out, g)
    ensures SplitsWith(h, e, [e] + out, g) && SplitsWith(h, e, out, g)
  {
  }

  lemma {:induction false} ReadyConserves<T>(m: Machine<T>, e: Entry<T>, isExported: bool)
    ensures var (r, out) := ExportReady(m, e, isExported);
            && (if isExported then Splits(m.heap, out, r.heap) else SplitsWith(m.heap, e, out, r.heap))
            && (out == [] ==> r == m)
    decreases |m.heap| + if isExported then 0 else 1
  {
    hide Popped, Splits, SplitsWith;
    SplitsNothing(m.heap);
    SplitsWithPushed(m.heap, e, [], m.heap);
    if HeadIsNext(m) {
      ReadyConserves(Export(m), e, isExported);
      var (r, out) := ExportReady(Export(m), e, isExported);
      if isExported {
        SplitsOneMore(m.heap, out, r.heap);
      } else {
        SplitsWithOneMore(m.heap, e, out, r.heap);
      }
    } else if !isExported && m.next == e.key {
      var advanced := m.(next := Wrap(e.key + 1));
      ReadyConserves(advanced, e, true);
      SplitsWithPushed(m.heap, e, ExportReady(advanced, e, true).1, ExportReady(advanced, e, true).0.heap);
    }
  }

  /** A push adds its packet, or drops it; what waited still waits or has been exported. */
  lemma PushConserves<T>(m: Machine<T>, e: Entry<T>, allow: AllowMissing)
    ensures var (r, out) := Push(m, e, allow); SplitsWith(m.heap, e, out, r.heap)
  {
    hide ExportReady, Pushed;
    ReadyConserves(m, e, false);
    PushedKeeps(m.heap, e);
  }

  lemma DumpConserves<T>(m: Machine<T>, orderNumber: uint32, allow: AllowMissing)
    ensures var (r, out) := Dump(m, orderNumber, allow); Splits(m.heap, out, r.heap)
  {
    hide ExportAcrossGaps, ExportUpToGap, Splits;
    SplitsNothing(m.heap);
    AcrossConserves(m, Some(orderNumber));
    UpToGapConserves(m, Some(orderNumber));
  }

  /** Dumping across gaps leaves nothing behind. */
  lemma DumpAllConserves<T>(m: Machine<T>, allow: AllowMissing)
    ensures var (r, out) := DumpAll(m, allow); Splits(m.heap, out, r.heap) && (!allow.AllowNone? ==> r.heap == [])
  {
    hide ExportAcrossGaps, ExportUpToGap, Splits;
    AcrossConserves(m, None);
    UpToGapConserves(m, None);
  }
}
