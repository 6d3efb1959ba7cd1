/** The packet orderer object (helpertools/PacketOrdererHeap.go:54-276). */
module PacketOrderers {
  import opened Wrappers
  import opened Serial
  import opened PacketHeap
  import opened Policies
  import opened OrdererMachine

  lemma ValuesOfMore<T>(out: seq<Entry<T>>, e: Entry<T>, more: seq<Entry<T>>)
    ensures ValuesOf(out + [e]) == ValuesOf(out) + [e.value]
    ensures out + [e] + more == out + ([e] + more)
  {
  }

  function Behind<T>(out: seq<Entry<T>>, r: (Machine<T>, seq<Entry<T>>)): (Machine<T>, seq<Entry<T>>) {
    (r.0, out + r.1)
  }

  lemma NoValues<T>(r: (Machine<T>, seq<Entry<T>>))
    ensures ValuesOf<T>([]) == [] && Behind([], r) == r
  {
    assert [] + r.1 == r.1;
  }

  class PacketOrderer<T> {
    var packetsHeap: seq<Entry<T>>
    const allowMissingPackets: AllowMissing
    var nextOrderNumberToBeExported: uint32
    var isFirst: bool

    function State(): Machine<T>
      reads this
    {
      Machine(isFirst, nextOrderNumberToBeExported, packetsHeap)
    }

    constructor (allowMissingPackets: AllowMissing)
      ensures State() == NewMachine() && this.allowMissingPackets == allowMissingPackets
    {
      packetsHeap, nextOrderNumberToBeExported, isFirst := [], 0, true;
      this.allowMissingPackets := allowMissingPackets;
    }

    /** heap.Pop, and the next number set past the exported one. */
    method PopHead() returns (pop: Entry<T>)
      requires packetsHeap != []
      modifies this
      ensures pop == old(packetsHeap)[0] && State() == Export(old(State()))
    {
      packetsHeap, pop := HeapPop(packetsHeap);
      nextOrderNumberToBeExported := Wrap(pop.key + 1);
    }

    /** The loop that exports what is ready, before and after the pushed packet. */
    method PushReady(orderNumber: uint32, data: T) returns (result: seq<T>)
      modifies this
      ensures var (m, out) := ExportReady(old(State()), Entry(orderNumber, data), false);
              State() == m && result == ValuesOf(out)
    {
      hide Export, ValuesOf;
      ghost var e, out := Entry(orderNumber, data), [];
      ghost var all := ExportReady(State(), e, false);
      result := [];
      NoValues(all);
      var wasOk, orderNumberExported := true, false;
      while wasOk
        invariant result == ValuesOf(out)
        invariant Behind(out, ExportReady(State(), e, orderNumberExported)) == all
        invariant !wasOk ==> ExportReady(State(), e, orderNumberExported) == (State(), [])
        decreases |packetsHeap| + (if orderNumberExported then 0 else 1), wasOk
      {
        wasOk := false;
        if |packetsHeap| != 0 && packetsHeap[0].key == nextOrderNumberToBeExported {
          ghost var rest := ExportReady(Export(State()), e, orderNumberExported);
          var pop := PopHead();
          ValuesOfMore(out, pop, rest.1);
          result := result + [pop.value];
          out := out + [pop];
          wasOk := true;
          continue;
        }
        if !orderNumberExported && nextOrderNumberToBeExported == orderNumber {
          ghost var rest := ExportReady(State().(next := Wrap(orderNumber + 1)), e, true);
          ValuesOfMore(out, e, rest.1);
          result := result + [data];
          out := out + [e];
          nextOrderNumberToBeExported := Wrap(orderNumber + 1);
          wasOk, orderNumberExported := true, true;
        }
      }
      assert out + [] == out;
    }

    method PushWithMissingPacketOption(orderNumber: uint32, data: T, allow: AllowMissing) returns (result: seq<T>)
      modifies this
      ensures var (m, out) := Push(old(State()), Entry(orderNumber, data), allow);
              State() == m && result == ValuesOf(out)
    {
      hide ExportReady, Pushed;
      if !isFirst && !IsSequenceNumberInFuture(Wrap(nextOrderNumberToBeExported - 1), orderNumber) {
        return [];
      }
      var wasFirst := isFirst;
      if isFirst {
        isFirst := false;
      }
      if allow.AllowInDumpAndPush? {
        nextOrderNumberToBeExported := Wrap(orderNumber + 1);
        return [data];
      }
      if wasFirst {
        if orderNumber == 0 {
          nextOrderNumberToBeExported := Wrap(orderNumber + 1);
          return [data];
        }
        packetsHeap := HeapPush(packetsHeap, Entry(orderNumber, data));
        return [];
      }
      if IsSequenceNumberInFuture(Wrap(nextOrderNumberToBeExported - 1), orderNumber) {
        ReadyConserves(State(), Entry(orderNumber, data), false);
        result := PushReady(orderNumber, data);
        if |result| > 0 {
          return;
        }
      }
      packetsHeap := HeapPush(packetsHeap, Entry(orderNumber, data));
      return [];
    }

    /** The loop of Dump and DumpAll that exports across gaps. */
    method DumpAcrossGaps(limit: Option<uint32>) returns (result: seq<T>)
      modifies this
      ensures var (m, out) := ExportAcrossGaps(old(State()), limit); State() == m && result == ValuesOf(out)
    {
      hide Export, ValuesOf;
      ghost var out := [];
      ghost var all := ExportAcrossGaps(State(), limit);
      result := [];
      NoValues(all);
      while |packetsHeap| != 0
        invariant result == ValuesOf(out) && Behind(out, ExportAcrossGaps(State(), limit)) == all
        decreases |packetsHeap|
      {
        if limit.Some? && IsSequenceNumberInFuture(limit.value, packetsHeap[0].key) {
          break;
        }
        ghost var rest := ExportAcrossGaps(Export(State()), limit);
        var pop := PopHead();
        ValuesOfMore(out, pop, rest.1);
        result := result + [pop.value];
        out := out + [pop];
      }
      assert out + [] == out;
    }

    /** The loop of Dump and DumpAll that stops at the first gap. */
    method DumpUpToGap(limit: Option<uint32>) returns (result: seq<T>)
      modifies this
      ensures var (m, out) := ExportUpToGap(old(State()), limit); State() == m && result == ValuesOf(out)
    {
      hide Export, ValuesOf;
      ghost var out := [];
      ghost var all := ExportUpToGap(State(), limit);
      result := [];
      NoValues(all);
      while |packetsHeap| != 0 && packetsHeap[0].key == nextOrderNumberToBeExported
        invariant result == ValuesOf(out) && Behind(out, ExportUpToGap(State(), limit)) == all
        decreases |packetsHeap|
      {
        if limit.Some? && IsSequenceNumberInFuture(limit.value, packetsHeap[0].key) {
          break;
        }
        ghost var rest := ExportUpToGap(Export(State()), limit);
        var pop := PopHead();
        ValuesOfMore(out, pop, rest.1);
        result := result + [pop.value];
        out := out + [pop];
      }
      assert out + [] == out;
    }

    method Dump(orderNumber: uint32) returns (result: seq<T>)
      modifies this
      ensures var (m, out) := OrdererMachine.Dump(old(State()), orderNumber, allowMissingPackets);
              State() == m && result == ValuesOf(out)
    {
      hide ExportAcrossGaps, ExportUpToGap, Export;
      if |packetsHeap| == 0 || !IsSequenceNumberInFuture(Wrap(nextOrderNumberToBeExported - 1), orderNumber) {
        return [];
      }
      if allowMissingPackets.AllowInDump? || allowMissingPackets.AllowInDumpAndPush? {
        result := DumpAcrossGaps(Some(orderNumber));
        return;
      }
      result := DumpInOrder(Some(orderNumber));
    }

    /** What Dump and DumpAll do when no gaps are allowed. */
    method DumpInOrder(limit: Option<uint32>) returns (result: seq<T>)
      requires packetsHeap != [] && (limit.Some? ==> IsNextOrLater(nextOrderNumberToBeExported, limit.value))
      modifies this
      ensures var (m, out) := ExportUpToGap(old(State()), limit); State() == m && result == ValuesOf(out)
    {
      hide Export;
      if nextOrderNumberToBeExported == packetsHeap[0].key {
        if |packetsHeap| == 1 {
          SingleEntry(State(), if limit.Some? then limit.value else 0);
          var pop := PopHead();
          return [pop.value];
        }
        result := DumpUpToGap(limit);
        return;
      }
      return [];
    }

    method DumpAll() returns (result: seq<T>)
      modifies this
      ensures var (m, out) := OrdererMachine.DumpAll(old(State()), allowMissingPackets);
              State() == m && result == ValuesOf(out)
    {
      hide Export;
      if |packetsHeap| == 0 {
        return [];
      }
      if allowMissingPackets.AllowInDump? || allowMissingPackets.AllowInDumpAndPush? {
        result := DumpAcrossGaps(None);
        return;
      }
      result := DumpInOrder(None);
    }
  }
}
