/**
 The binary heap behind the packet orderer: container/heap's sift-up and sift-down over the Less of
 helpertools/PacketOrdererHeap.go:24-51, whose comparison wraps around.
 */
module PacketHeap {
  import opened Serial

  datatype Entry<T> = Entry(key: uint32, value: T)

  predicate Less<T>(h: seq<Entry<T>>, i: nat, j: nat)
    requires i < |h| && j < |h|
  {
    IsSequenceNumberInFuture(h[i].key, h[j].key)
  }

  /** How far a key is ahead of `base`. */
  function Rank<T>(e: Entry<T>, base: uint32): nat {
    Minus(e.key, base)
  }

  /** All keys lie within half the range ahead of `base`; only then is the wrapping Less an order. */
  ghost predicate Narrow<T>(h: seq<Entry<T>>, base: uint32) {
    forall e :: e in h ==> Rank(e, base) < HALF
  }

  lemma LessIsRankOrder<T>(h: seq<Entry<T>>, i: nat, j: nat, base: uint32)
    requires i < |h| && j < |h| && Narrow(h, base)
    ensures Less(h, i, j) <==> Rank(h[i], base) < Rank(h[j], base)
  {
    assert h[i] in h && h[j] in h;
    hide Narrow;
    FutureIsRankOrder(h[i], h[j], base);
  }

  lemma FutureIsRankOrder<T>(x: Entry<T>, y: Entry<T>, base: uint32)
    requires Rank(x, base) < HALF && Rank(y, base) < HALF
    ensures IsSequenceNumberInFuture(x.key, y.key) <==> Rank(x, base) < Rank(y, base)
  {
  }

  function Parent(i: nat): nat {
    if i == 0 then 0 else (i - 1) / 2
  }

  /** The heap property, on the first `n` entries. */
  ghost predicate IsHeap<T>(h: seq<Entry<T>>, n: nat, base: uint32)
    requires n <= |h|
  {
    forall i :: 0 <= i < n ==> Rank(h[Parent(i)], base) <= Rank(h[i], base)
  }

  /** A heap except that entry `hole` may be smaller than its parent. */
  ghost predicate HeapAbove<T>(h: seq<Entry<T>>, hole: nat, base: uint32)
    requires hole < |h|
  {
    forall i :: 0 <= i < |h| ==>
      && (i != hole ==> Rank(h[Parent(i)], base) <= Rank(h[i], base))
      && (i != 0 && Parent(i) == hole ==> Rank(h[Parent(hole)], base) <= Rank(h[i], base))
  }

  /** A heap on the first `n` entries except that entry `hole` may be larger than its children. */
  ghost predicate HeapBelow<T>(h: seq<Entry<T>>, hole: nat, n: nat, base: uint32)
    requires hole < |h| && n <= |h|
  {
    forall i :: 0 <= i < n ==>
      && (i == 0 || Parent(i) != hole ==> Rank(h[Parent(i)], base) <= Rank(h[i], base))
      && (i != 0 && hole != 0 && Parent(i) == hole ==> Rank(h[Parent(hole)], base) <= Rank(h[i], base))
  }

  function Swap<T>(h: seq<Entry<T>>, i: nat, j: nat): (s: seq<Entry<T>>)
    requires i < |h| && j < |h|
    ensures |s| == |h|
  {
    h[i := h[j]][j := h[i]]
  }

  lemma SwapPermutes<T>(h: seq<Entry<T>>, i: nat, j: nat)
    requires i < |h| && j < |h|
    ensures multiset(Swap(h, i, j)) == multiset(h)
  {
  }

  lemma SwapKeepsTail<T>(h: seq<Entry<T>>, i: nat, j: nat, n: nat)
    requires i < n <= |h| && j < n
    ensures Swap(h, i, j)[n..] == h[n..]
  {
  }

  lemma NarrowPermutation<T>(h: seq<Entry<T>>, g: seq<Entry<T>>, base: uint32)
    requires Narrow(h, base) && multiset(g) <= multiset(h)
    ensures Narrow(g, base)
  {
    forall e | e in g
      ensures e in h
    {
      assert e in multiset(g);
      assert e in multiset(h);
    }
  }

  /** The first entry of a heap is a minimum. */
  lemma {:induction false} RootIsMinimum<T>(h: seq<Entry<T>>, i: nat, base: uint32)
    requires i < |h| && IsHeap(h, |h|, base)
    ensures Rank(h[0], base) <= Rank(h[i], base)
  {
    if i > 0 {
      RootIsMinimum(h, Parent(i), base);
    }
  }

  lemma SiftUpStep<T>(h: seq<Entry<T>>, j: nat, base: uint32)
    requires 0 < j < |h| && HeapAbove(h, j, base) && Rank(h[j], base) < Rank(h[Parent(j)], base)
    ensures HeapAbove(Swap(h, Parent(j), j), Parent(j), base)
  {
    var g, i := Swap(h, Parent(j), j), Parent(j);
    forall k | 0 <= k < |g|
      ensures k != i ==> Rank(g[Parent(k)], base) <= Rank(g[k], base)
      ensures k != 0 && Parent(k) == i ==> Rank(g[Parent(i)], base) <= Rank(g[k], base)
    {
      assert Rank(h[Parent(i)], base) <= Rank(h[i], base);
      assert k != j ==> Rank(h[Parent(k)], base) <= Rank(h[k], base);
    }
  }

  lemma SiftDownStep<T>(h: seq<Entry<T>>, i: nat, j: nat, n: nat, base: uint32)
    requires n <= |h| && 2 * i + 1 <= j <= 2 * i + 2 && j < n && HeapBelow(h, i, n, base)
    requires Rank(h[j], base) < Rank(h[i], base) && Rank(h[j], base) <= Rank(h[2 * i + 1], base)
    requires 2 * i + 2 < n ==> Rank(h[j], base) <= Rank(h[2 * i + 2], base)
    ensures HeapBelow(Swap(h, i, j), j, n, base)
  {
    var g := Swap(h, i, j);
    forall k | 0 <= k < n
      ensures k == 0 || Parent(k) != j ==> Rank(g[Parent(k)], base) <= Rank(g[k], base)
      ensures k != 0 && Parent(k) == j ==> Rank(g[Parent(j)], base) <= Rank(g[k], base)
    {
      assert k != 0 && Parent(k) == j ==> Rank(h[j], base) <= Rank(h[k], base);
      assert Rank(h[Parent(i)], base) <= Rank(h[i], base);
    }
  }

  lemma SiftDownDone<T>(h: seq<Entry<T>>, i: nat, n: nat, base: uint32)
    requires n <= |h| && i < |h| && HeapBelow(h, i, n, base)
    requires 2 * i + 1 < n ==> Rank(h[i], base) <= Rank(h[2 * i + 1], base)
    requires 2 * i + 2 < n ==> Rank(h[i], base) <= Rank(h[2 * i + 2], base)
    ensures IsHeap(h, n, base)
  {
  }

  // ----- the two directions of sifting -----

  /** Exchanges entry `j` with its parents for as long as it precedes them. */
  function Up<T>(h: seq<Entry<T>>, j: nat): (g: seq<Entry<T>>)
    requires j < |h|
    ensures |g| == |h|
    decreases j
  {
    var i := Parent(j);
    if i == j || !Less(h, j, i) then h else Up(Swap(h, i, j), i)
  }

  /** The child that does not come after the other one, among the first `n` entries. */
  function SmallerChild<T>(h: seq<Entry<T>>, i: nat, n: nat): (j: nat)
    requires 2 * i + 1 < n <= |h|
    ensures 2 * i + 1 <= j <= 2 * i + 2 && j < n
  {
    var j := 2 * i + 1;
    if j + 1 < n && Less(h, j + 1, j) then j + 1 else j
  }

  /** Exchanges entry `i` with its smaller child for as long as that one precedes it, within the first `n` entries. */
  function Down<T>(h: seq<Entry<T>>, i: nat, n: nat): (g: seq<Entry<T>>)
    requires n <= |h|
    ensures |g| == |h|
    decreases n - i
  {
    if 2 * i + 1 >= n then h
    else
      var j := SmallerChild(h, i, n);
      if !Less(h, j, i) then h else Down(Swap(h, i, j), j, n)
  }

  /** container/heap's Push: append, then sift up. */
  function Pushed<T>(h: seq<Entry<T>>, x: Entry<T>): (g: seq<Entry<T>>)
    ensures |g| == |h| + 1
  {
    Up(h + [x], |h|)
  }

  /** container/heap's Pop: swap the first entry to the end, sift the new first one down, cut the last. */
  function Popped<T>(h: seq<Entry<T>>): (g: seq<Entry<T>>)
    requires h != []
    ensures |g| == |h| - 1
  {
    Down(Swap(h, 0, |h| - 1), 0, |h| - 1)[..|h| - 1]
  }

  // ----- nothing is lost, whatever the keys -----

  lemma {:induction false} UpPermutes<T>(h: seq<Entry<T>>, j: nat)
    requires j < |h|
    ensures multiset(Up(h, j)) == multiset(h)
    decreases j
  {
    var i := Parent(j);
    if i != j && Less(h, j, i) {
      SwapPermutes(h, i, j);
      UpPermutes(Swap(h, i, j), i);
    }
  }

  lemma {:induction false} DownPermutes<T>(h: seq<Entry<T>>, i: nat, n: nat)
    requires n <= |h|
    ensures multiset(Down(h, i, n)) == multiset(h) && Down(h, i, n)[n..] == h[n..]
    decreases n - i
  {
    hide Less, Swap, SmallerChild;
    if 2 * i + 1 < n {
      var j := SmallerChild(h, i, n);
      if Less(h, j, i) {
        SwapPermutes(h, i, j);
        SwapKeepsTail(h, i, j, n);
        DownPermutes(Swap(h, i, j), j, n);
      }
    }
  }

  lemma PushedKeeps<T>(h: seq<Entry<T>>, x: Entry<T>)
    ensures multiset(Pushed(h, x)) == multiset(h) + multiset{x}
  {
    UpPermutes(h + [x], |h|);
  }

  lemma PoppedKeeps<T>(h: seq<Entry<T>>)
    requires h != []
    ensures multiset(h) == multiset(Popped(h)) + multiset{h[0]}
  {
    hide Down;
    var n := |h| - 1;
    var s := Swap(h, 0, n);
    SwapPermutes(h, 0, n);
    DownPermutes(s, 0, n);
    var g := Down(s, 0, n);
    assert g[n] == g[n..][0] == s[n..][0] == h[0];
    assert g == g[..n] + [h[0]];
  }

  // ----- the heap property is restored, while all keys lie within half the range -----

  lemma {:induction false} UpRestores<T>(h: seq<Entry<T>>, j: nat, base: uint32)
    requires j < |h| && Narrow(h, base) && HeapAbove(h, j, base)
    ensures IsHeap(Up(h, j), |h|, base)
    decreases j
  {
    hide Narrow, Less, Swap, Rank;
    var i := Parent(j);
    if i != j {
      LessIsRankOrder(h, j, i, base);
      if Less(h, j, i) {
        SiftUpStep(h, j, base);
        SwapPermutes(h, i, j);
        NarrowPermutation(h, Swap(h, i, j), base);
        UpRestores(Swap(h, i, j), i, base);
      }
    }
  }

  lemma SmallerChildIsLeast<T>(h: seq<Entry<T>>, i: nat, n: nat, base: uint32)
    requires 2 * i + 1 < n <= |h| && Narrow(h, base)
    ensures var j := SmallerChild(h, i, n);
            && Rank(h[j], base) <= Rank(h[2 * i + 1], base)
            && (2 * i + 2 < n ==> Rank(h[j], base) <= Rank(h[2 * i + 2], base))
  {
    if 2 * i + 2 < n {
      LessIsRankOrder(h, 2 * i + 2, 2 * i + 1, base);
    }
  }

  lemma {:induction false} DownRestores<T>(h: seq<Entry<T>>, i: nat, n: nat, base: uint32)
    requires i < |h| && n <= |h| && Narrow(h, base) && HeapBelow(h, i, n, base)
    ensures IsHeap(Down(h, i, n), n, base)
    decreases n - i
  {
    hide Narrow, HeapBelow, IsHeap, Less, Swap, Rank, SmallerChild;
    if 2 * i + 1 >= n {
      SiftDownDone(h, i, n, base);
    } else {
      var j := SmallerChild(h, i, n);
      SmallerChildIsLeast(h, i, n, base);
      LessIsRankOrder(h, j, i, base);
      if Less(h, j, i) {
        SiftDownStep(h, i, j, n, base);
        SwapPermutes(h, i, j);
        NarrowPermutation(h, Swap(h, i, j), base);
        DownRestores(Swap(h, i, j), j, n, base);
      } else {
        SiftDownDone(h, i, n, base);
      }
    }
  }

  lemma PushedIsHeap<T>(h: seq<Entry<T>>, x: Entry<T>, base: uint32)
    requires Narrow(h + [x], base) && IsHeap(h, |h|, base)
    ensures IsHeap(Pushed(h, x), |h| + 1, base)
  {
    UpRestores(h + [x], |h|, base);
  }

  /** A pop removes an entry that no other precedes. */
  lemma PoppedIsHeap<T>(h: seq<Entry<T>>, base: uint32)
    requires h != [] && Narrow(h, base) && IsHeap(h, |h|, base)
    ensures IsHeap(Popped(h), |h| - 1, base)
    ensures forall i :: 0 <= i < |h| ==> Rank(h[0], base) <= Rank(h[i], base)
  {
    forall i | 0 <= i < |h|
      ensures Rank(h[0], base) <= Rank(h[i], base)
    {
      RootIsMinimum(h, i, base);
    }
    var n := |h| - 1;
    SwapPermutes(h, 0, n);
    NarrowPermutation(h, Swap(h, 0, n), base);
    HoleAtTop(h, base);
    DownRestores(Swap(h, 0, n), 0, n, base);
    CutHeap(Down(Swap(h, 0, n), 0, n), n, base);
  }

  lemma HoleAtTop<T>(h: seq<Entry<T>>, base: uint32)
    requires h != [] && IsHeap(h, |h|, base)
    ensures HeapBelow(Swap(h, 0, |h| - 1), 0, |h| - 1, base)
  {
  }

  lemma CutHeap<T>(h: seq<Entry<T>>, n: nat, base: uint32)
    requires n <= |h| && IsHeap(h, n, base)
    ensures IsHeap(h[..n], n, base)
  {
  }

  // ----- the loops of container/heap -----

  /** `up`, started at the last entry. */
  method SiftUp<T>(h: seq<Entry<T>>) returns (g: seq<Entry<T>>)
    requires h != []
    ensures g == Up(h, |h| - 1)
  {
    g := h;
    var j: nat := |g| - 1;
    while true
      invariant j < |g| && Up(g, j) == Up(h, |h| - 1)
      decreases j
    {
      var i := Parent(j);
      if i == j || !Less(g, j, i) {
        break;
      }
      g := Swap(g, i, j);
      j := i;
    }
  }

  /** `down`, started at the first entry and kept to the first `n`. */
  method SiftDown<T>(h: seq<Entry<T>>, n: nat) returns (g: seq<Entry<T>>)
    requires n <= |h|
    ensures g == Down(h, 0, n)
  {
    g := h;
    var i: nat := 0;
    while true
      invariant |g| == |h| && Down(g, i, n) == Down(h, 0, n)
      decreases n - i
    {
      var j := 2 * i + 1;
      if j >= n {
        break;
      }
      if j + 1 < n && Less(g, j + 1, j) {
        j := j + 1;
      }
      if !Less(g, j, i) {
        break;
      }
      g := Swap(g, i, j);
      i := j;
    }
  }

  method HeapPush<T>(h: seq<Entry<T>>, x: Entry<T>) returns (g: seq<Entry<T>>)
    ensures g == Pushed(h, x)
  {
    g := SiftUp(h + [x]);
  }

  method HeapPop<T>(h: seq<Entry<T>>) returns (g: seq<Entry<T>>, top: Entry<T>)
    requires h != []
    ensures g == Popped(h) && top == h[0]
  {
    hide Down;
    var n := |h| - 1;
    ghost var s := Swap(h, 0, n);
    g := SiftDown(Swap(h, 0, n), n);
    DownPermutes(s, 0, n);
    assert g[n] == g[n..][0] == s[n..][0];
    top := g[n];
    g := g[..n];
  }
}
