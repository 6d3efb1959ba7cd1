/**
 The sliding acknowledgement window of helpertools/ReplayWindow.go: what its words mean, what
 accepting a number and joining two windows do to that meaning, and what follows over whole runs.
 */
module WindowMeaning {
  import opened Serial

  /** `(checkedValueType(0) - 1) >> 1` */
  const MAX_FORWARD_JUMP := 0x7FFF_FFFF

  /**
   A window read from its right edge: `d in seen` says that the bit for number `edge - d` is set.
   `size` is the number of bits.
   */
  datatype Win = Win(size: nat, isFirst: bool, edge: uint32, seen: set<nat>)

  predicate IsWin(w: Win) {
    0 < w.size <= 255 * 64 && forall d :: d in w.seen ==> d < w.size
  }

  function Shifted(seen: set<nat>, k: nat, limit: nat): set<nat> {
    set d | d in seen && d + k < limit :: d + k
  }

  function Clipped(seen: set<nat>, limit: nat): set<nat> {
    set d | d in seen && d < limit
  }

  function Empty(size: nat): Win {
    Win(size, true, 0, {})
  }

  function Apply(w: Win, number: uint32): (Win, bool) {
    var forwardJump := Minus(number, w.edge);
    var olderValue := Minus(w.edge, number);
    if w.isFirst then
      (Win(w.size, false, number, {0}), true)
    else if 0 < forwardJump < MAX_FORWARD_JUMP then
      (Win(w.size, false, number, Shifted(w.seen, forwardJump, w.size) + {0}), true)
    else if forwardJump == 0 || olderValue >= w.size || olderValue in w.seen then
      (w, false)
    else
      (w.(seen := w.seen + {olderValue}), true)
  }

  predicate Check(w: Win, value: uint32) {
    Minus(w.edge, value) in w.seen
  }

  /** Joining a window of `width` bits with right edge `edge`. */
  function Join(w: Win, width: nat, edge: uint32, seen: set<nat>): Win {
    var forwardJump := Minus(edge, w.edge);
    var olderValue := Minus(w.edge, edge);
    if forwardJump < MAX_FORWARD_JUMP then
      Win(w.size, false, edge, Shifted(w.seen, forwardJump, w.size) + Clipped(seen, w.size))
    else if olderValue >= w.size then
      w.(isFirst := false)
    else
      w.(isFirst := false, seen := w.seen + Clipped(Shifted(seen, olderValue, width), w.size))
  }

  // ----- the accepted numbers, unwrapped -----

  /** The window shows the set of accepted numbers when its right edge stands for `edge`. */
  ghost predicate Shows(w: Win, accepted: set<int>, edge: int) {
    && IsWin(w)
    && w.isFirst == (accepted == {})
    && if accepted == {} then w.seen == {}
       else
         && edge in accepted
         && (forall n :: n in accepted ==> n <= edge)
         && w.edge == Wrap(edge)
         && forall d: nat :: d in w.seen <==> d < w.size && edge - d in accepted
  }

  /** The numbers the window promises to accept. */
  ghost predicate Acceptable(size: nat, accepted: set<int>, edge: int, n: int) {
    accepted == {} || n > edge || (edge - n < size && n !in accepted)
  }

  /** `n` is close enough to the right edge for the wrapping comparison to place it. */
  ghost predicate Near(accepted: set<int>, edge: int, n: int) {
    accepted != {} ==> -MAX_FORWARD_JUMP < n - edge < MAX_FORWARD_JUMP
  }

  ghost function EdgeAfter(accepted: set<int>, edge: int, n: int): int {
    if accepted == {} || n > edge then n else edge
  }

  lemma ApplyAhead(w: Win, accepted: set<int>, edge: int, n: int)
    requires Shows(w, accepted, edge) && accepted != {}
    requires 0 < n - edge < MAX_FORWARD_JUMP
    ensures Apply(w, Wrap(n)).1 && Shows(Apply(w, Wrap(n)).0, accepted + {n}, n)
  {
    hide Apply, Minus, Wrap, Shifted;
    var jump := n - edge;
    assert w.edge == Wrap(edge);
    hide Shows;
    MinusOfWraps(n, edge);
    ApplyMovesAhead(w, Wrap(n), jump);
    MovedSeen(w, accepted, edge, n);
  }

  lemma MovedSeen(w: Win, accepted: set<int>, edge: int, n: int)
    requires Shows(w, accepted, edge) && accepted != {} && edge < n
    ensures !w.isFirst && Shows(Win(w.size, false, Wrap(n), Shifted(w.seen, n - edge, w.size) + {0}), accepted + {n}, n)
  {
    hide Shifted, Wrap;
    var jump := n - edge;
    var seen := Shifted(w.seen, jump, w.size) + {0};
    forall d: nat
      ensures d in seen <==> d < w.size && n - d in accepted + {n}
    {
      ShiftedAt(w.seen, jump, w.size, d);
      if d >= jump {
        assert edge - (d - jump) == n - d;
      }
    }
  }

  /** The branch of ApplyWindowCheck that moves the right edge. */
  lemma ApplyMovesAhead(w: Win, number: uint32, jump: nat)
    requires 0 < Minus(number, w.edge) == jump < MAX_FORWARD_JUMP
    ensures !w.isFirst ==> Apply(w, number) == (Win(w.size, false, number, Shifted(w.seen, jump, w.size) + {0}), true)
  {
  }

  lemma ShiftedAt(seen: set<nat>, k: nat, limit: nat, d: nat)
    ensures d in Shifted(seen, k, limit) <==> k <= d < limit && d - k in seen
  {
    if k <= d < limit && d - k in seen {
      assert d - k + k in Shifted(seen, k, limit);
    }
  }

  lemma ApplyBehind(w: Win, accepted: set<int>, edge: int, n: int)
    requires Shows(w, accepted, edge) && accepted != {}
    requires -MAX_FORWARD_JUMP < n - edge <= 0
    ensures Apply(w, Wrap(n)).1 <==> Acceptable(w.size, accepted, edge, n)
    ensures Shows(Apply(w, Wrap(n)).0, if Apply(w, Wrap(n)).1 then accepted + {n} else accepted, edge)
  {
    hide Apply, Minus, Wrap;
    var back := edge - n;
    MinusOfWraps(n, edge);
    MinusOfWraps(edge, n);
    ApplyStaysBehind(w, Wrap(n), back);
    assert edge - back == n;
    assert back == 0 ==> 0 in w.seen;
    assert back < w.size ==> (back in w.seen <==> n in accepted);
    hide Shows;
    if back < w.size && back !in w.seen {
      OneMoreSeen(w, accepted, edge, n);
    }
  }

  /** The branches of ApplyWindowCheck for a number at or behind the right edge. */
  lemma ApplyStaysBehind(w: Win, number: uint32, back: nat)
    requires !w.isFirst && Minus(w.edge, number) == back
    requires Minus(number, w.edge) == if back == 0 then 0 else MODULUS - back
    requires back < MAX_FORWARD_JUMP
    ensures Apply(w, number) == if back == 0 || back >= w.size || back in w.seen then (w, false)
                                else (w.(seen := w.seen + {back}), true)
  {
  }

  lemma OneMoreSeen(w: Win, accepted: set<int>, edge: int, n: int)
    requires Shows(w, accepted, edge) && accepted != {} && n <= edge && edge - n < w.size
    ensures Shows(w.(seen := w.seen + {edge - n}), accepted + {n}, edge)
  {
    hide Wrap;
    var w' := w.(seen := w.seen + {edge - n});
    forall d: nat
      ensures d in w'.seen <==> d < w.size && edge - d in accepted + {n}
    {
      assert edge - d == n <==> d == edge - n;
    }
  }

  lemma ApplyIsExact(w: Win, accepted: set<int>, edge: int, n: int)
    requires Shows(w, accepted, edge) && Near(accepted, edge, n)
    ensures var (w', ok) := Apply(w, Wrap(n));
            && (ok <==> Acceptable(w.size, accepted, edge, n))
            && w'.size == w.size
            && if ok then Shows(w', accepted + {n}, EdgeAfter(accepted, edge, n)) else Shows(w', accepted, edge)
  {
    if accepted == {} {
      assert {} + {n} == {n};
    } else if n > edge {
      ApplyAhead(w, accepted, edge, n);
    } else {
      ApplyBehind(w, accepted, edge, n);
    }
  }

  // ----- whole runs -----

  function Elements(numbers: seq<int>): (s: set<int>) {
    set n | n in numbers
  }

  /** The highest number of a run; it is what the right edge stands for. */
  function Highest(numbers: seq<int>): int {
    if numbers == [] then 0
    else
      var before, last := Highest(numbers[..|numbers| - 1]), numbers[|numbers| - 1];
      if |numbers| == 1 || last > before then last else before
  }

  /** Feeding numbers one after the other: the window at the end and the numbers it accepted. */
  function Feed(w: Win, numbers: seq<int>): (Win, seq<int>) {
    if numbers == [] then (w, [])
    else
      var (w1, accepted) := Feed(w, numbers[..|numbers| - 1]);
      var n := numbers[|numbers| - 1];
      var (w2, ok) := Apply(w1, Wrap(n));
      (w2, if ok then accepted + [n] else accepted)
  }

  /** Each number arrives within half the range of the highest number accepted before it. */
  ghost predicate NearRun(w: Win, numbers: seq<int>) {
    numbers != [] ==>
      && NearRun(w, numbers[..|numbers| - 1])
      && var accepted := Feed(w, numbers[..|numbers| - 1]).1;
         Near(Elements(accepted), Highest(accepted), numbers[|numbers| - 1])
  }

  ghost predicate Distinct(numbers: seq<int>) {
    forall i, j :: 0 <= i < j < |numbers| ==> numbers[i] != numbers[j]
  }

  lemma OneMore(numbers: seq<int>, n: int)
    ensures Elements(numbers + [n]) == Elements(numbers) + {n}
    ensures Highest(numbers + [n]) == EdgeAfter(Elements(numbers), Highest(numbers), n)
  {
    assert (numbers + [n])[..|numbers|] == numbers;
    if numbers != [] {
      assert numbers[0] in Elements(numbers);
    }
  }

  lemma DistinctMore(numbers: seq<int>, n: int)
    requires Distinct(numbers) && n !in Elements(numbers)
    ensures Distinct(numbers + [n])
  {
    forall i | 0 <= i < |numbers|
      ensures numbers[i] != n
    {
      assert numbers[i] in Elements(numbers);
    }
  }

  /** No number was accepted twice, and the bits are the accepted numbers among the newest `size`. */
  ghost predicate Exact(size: nat, w: Win, accepted: seq<int>) {
    Distinct(accepted) && w.size == size && Shows(w, Elements(accepted), Highest(accepted))
  }

  lemma FeedOne(size: nat, w: Win, accepted: seq<int>, n: int)
    requires Exact(size, w, accepted) && Near(Elements(accepted), Highest(accepted), n)
    ensures var (w', ok) := Apply(w, Wrap(n));
            Exact(size, w', if ok then accepted + [n] else accepted)
  {
    ApplyIsExact(w, Elements(accepted), Highest(accepted), n);
    OneMore(accepted, n);
    if Apply(w, Wrap(n)).1 {
      assert n !in Elements(accepted);
      DistinctMore(accepted, n);
    }
  }

  /** Over any run, through wrap-around and jumps past the whole window, the window is exact. */
  lemma {:induction false} NothingIsAcceptedTwice(size: nat, numbers: seq<int>)
    requires 0 < size <= 255 * 64 && NearRun(Empty(size), numbers)
    ensures Exact(size, Feed(Empty(size), numbers).0, Feed(Empty(size), numbers).1)
  {
    if numbers != [] {
      var before, n := numbers[..|numbers| - 1], numbers[|numbers| - 1];
      NothingIsAcceptedTwice(size, before);
      var (w, accepted) := Feed(Empty(size), before);
      FeedOne(size, w, accepted, n);
      var (w', ok) := Apply(w, Wrap(n));
      assert Feed(Empty(size), numbers) == (w', if ok then accepted + [n] else accepted);
    } else {
      assert Elements([]) == {};
    }
  }

  /** A number is turned away exactly when it was accepted before or is older than the window. */
  lemma AcceptedExactlyWhen(size: nat, numbers: seq<int>, n: int)
    requires 0 < size <= 255 * 64 && NearRun(Empty(size), numbers + [n])
    ensures var (w, accepted) := Feed(Empty(size), numbers);
            Apply(w, Wrap(n)).1 <==>
              n !in accepted && (accepted == [] || Highest(accepted) - n < size)
  {
    assert (numbers + [n])[..|numbers|] == numbers;
    NothingIsAcceptedTwice(size, numbers);
    var (w, accepted) := Feed(Empty(size), numbers);
    ApplyIsExact(w, Elements(accepted), Highest(accepted), n);
    if accepted != [] {
      assert accepted[0] in Elements(accepted);
    }
  }
}
