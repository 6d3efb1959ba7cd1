/**
 Joining acknowledgement windows (helpertools/ReplayWindow.go:216-275): on unwrapped numbers it is the
 union of the two sets, cut to the newest numbers, and so it does not matter in which order or how
 often acknowledgements arrive.
 */
module WindowJoin {
  import opened Serial
  import opened WindowMeaning

  /** A window on unwrapped numbers: its right edge and the numbers it marks. */
  datatype Marks = Marks(edge: int, marked: set<int>)

  ghost predicate Within(m: Marks, width: nat) {
    forall n :: n in m.marked ==> m.edge - width < n <= m.edge
  }

  function SeenOf(m: Marks): (s: set<nat>)
    ensures forall d: nat :: d in s <==> m.edge - d in m.marked
  {
    set n | n in m.marked && n <= m.edge :: (m.edge - n) as nat
  }

  /** What a window of `size` bits shows of the marked numbers. */
  function View(m: Marks, size: nat): Win {
    Win(size, false, Wrap(m.edge), SeenOf(m))
  }

  function Max(a: int, b: int): int {
    if a > b then a else b
  }

  /** The union of both sets, cut to the newest `size` numbers. */
  function Union(a: Marks, b: Marks, size: nat): Marks {
    var edge := Max(a.edge, b.edge);
    Marks(edge, set n | n in a.marked + b.marked && n > edge - size)
  }

  /** The same when only `width` bits of `b` were sent: behind the right edge, its oldest marks are lost. */
  function ShortUnion(a: Marks, b: Marks, width: nat, size: nat): Marks {
    var edge := Max(a.edge, b.edge);
    Marks(edge, set n | n in a.marked + b.marked && n > edge - size
                     && (n in a.marked || b.edge >= a.edge || n > a.edge - width))
  }

  ghost predicate Close(a: int, b: int) {
    -MAX_FORWARD_JUMP < a - b < MAX_FORWARD_JUMP
  }

  /** Bit `d` of the window after the right edge moved ahead by `jump` and `other` was added. */
  lemma AheadAt(seen: set<nat>, other: set<nat>, a: Marks, b: Marks, size: nat, d: nat)
    requires seen == SeenOf(a) && other == SeenOf(b) && Within(a, size) && a.edge <= b.edge
    ensures d in Shifted(seen, b.edge - a.edge, size) + Clipped(other, size)
       <==> d < size && (b.edge - d in a.marked || b.edge - d in b.marked)
  {
    var jump := b.edge - a.edge;
    ShiftedAt(seen, jump, size, d);
    if d >= jump {
      assert a.edge - (d - jump) == b.edge - d;
    }
  }

  /** The branch of Join whose window is ahead. */
  lemma JoinMovesAhead(w: Win, width: nat, edge: uint32, seen: set<nat>, jump: nat)
    requires Minus(edge, w.edge) == jump < MAX_FORWARD_JUMP
    ensures Join(w, width, edge, seen) == Win(w.size, false, edge, Shifted(w.seen, jump, w.size) + Clipped(seen, w.size))
  {
  }

  lemma UnionAheadAt(a: Marks, b: Marks, width: nat, size: nat, d: nat)
    requires a.edge <= b.edge
    ensures var m := ShortUnion(a, b, width, size);
            m.edge == b.edge && (b.edge - d in m.marked <==> d < size && (b.edge - d in a.marked || b.edge - d in b.marked))
  {
  }

  lemma AheadSeen(a: Marks, b: Marks, width: nat, size: nat)
    requires Within(a, size) && a.edge <= b.edge
    ensures SeenOf(ShortUnion(a, b, width, size))
         == Shifted(SeenOf(a), b.edge - a.edge, size) + Clipped(SeenOf(b), size)
  {
    hide Shifted, Clipped, SeenOf, ShortUnion;
    var m := ShortUnion(a, b, width, size);
    forall d: nat
      ensures d in SeenOf(m) <==> d in Shifted(SeenOf(a), b.edge - a.edge, size) + Clipped(SeenOf(b), size)
    {
      AheadAt(SeenOf(a), SeenOf(b), a, b, size, d);
      UnionAheadAt(a, b, width, size, d);
    }
  }

  lemma JoinAhead(w: Win, a: Marks, b: Marks, width: nat)
    requires w.(isFirst := false) == View(a, w.size)
    requires Within(a, w.size) && Within(b, width) && 0 <= b.edge - a.edge < MAX_FORWARD_JUMP
    ensures Join(w, width, Wrap(b.edge), SeenOf(b)) == View(ShortUnion(a, b, width, w.size), w.size)
  {
    MinusOfWraps(b.edge, a.edge);
    hide Shifted, Clipped, SeenOf, Join, Minus, Wrap;
    JoinMovesAhead(w, width, Wrap(b.edge), SeenOf(b), b.edge - a.edge);
    AheadSeen(a, b, width, w.size);
  }

  /** Bit `d` of the window when `other` is `a.edge - b.edge` numbers behind. */
  lemma BehindAt(seen: set<nat>, other: set<nat>, a: Marks, b: Marks, width: nat, size: nat, d: nat)
    requires seen == SeenOf(a) && other == SeenOf(b) && Within(a, size) && Within(b, width) && b.edge < a.edge
    ensures d in seen + Clipped(Shifted(other, a.edge - b.edge, width), size)
       <==> a.edge - d in a.marked || (d < size && d < width && a.edge - d in b.marked)
  {
    var back := a.edge - b.edge;
    ShiftedAt(other, back, width, d);
    if d >= back {
      assert b.edge - (d - back) == a.edge - d;
    }
  }

  lemma UnionBehindAt(a: Marks, b: Marks, width: nat, size: nat, d: nat)
    requires Within(a, size) && b.edge < a.edge
    ensures var m := ShortUnion(a, b, width, size);
            && m.edge == a.edge
            && (a.edge - d in m.marked <==> a.edge - d in a.marked || (d < size && d < width && a.edge - d in b.marked))
  {
  }

  lemma BehindSeen(a: Marks, b: Marks, width: nat, size: nat)
    requires Within(a, size) && Within(b, width) && b.edge < a.edge
    ensures SeenOf(ShortUnion(a, b, width, size))
         == SeenOf(a) + Clipped(Shifted(SeenOf(b), a.edge - b.edge, width), size)
  {
    hide Shifted, Clipped, SeenOf, ShortUnion;
    var m := ShortUnion(a, b, width, size);
    forall d: nat
      ensures d in SeenOf(m) <==> d in SeenOf(a) + Clipped(Shifted(SeenOf(b), a.edge - b.edge, width), size)
    {
      BehindAt(SeenOf(a), SeenOf(b), a, b, width, size, d);
      UnionBehindAt(a, b, width, size, d);
    }
  }

  /** The branches of Join whose window is behind: beyond the window it would only be shifted away. */
  lemma JoinStaysBehind(w: Win, width: nat, edge: uint32, seen: set<nat>, back: nat)
    requires Minus(w.edge, edge) == back && Minus(edge, w.edge) >= MAX_FORWARD_JUMP
    ensures Join(w, width, edge, seen) == w.(isFirst := false, seen := w.seen + Clipped(Shifted(seen, back, width), w.size))
  {
    if back >= w.size {
      assert w.seen + Clipped(Shifted(seen, back, width), w.size) == w.seen;
    }
  }

  lemma JoinBehind(w: Win, a: Marks, b: Marks, width: nat)
    requires w.(isFirst := false) == View(a, w.size)
    requires Within(a, w.size) && Within(b, width) && 0 < a.edge - b.edge < MAX_FORWARD_JUMP
    ensures Join(w, width, Wrap(b.edge), SeenOf(b)) == View(ShortUnion(a, b, width, w.size), w.size)
  {
    var back := a.edge - b.edge;
    MinusOfWraps(a.edge, b.edge);
    MinusOfWraps(b.edge, a.edge);
    hide Shifted, Clipped, SeenOf, Join, Minus, Wrap;
    JoinStaysBehind(w, width, Wrap(b.edge), SeenOf(b), back);
    BehindSeen(a, b, width, w.size);
  }

  /** Joining a window of any width: exactly the union, less the old marks that a short window cannot carry. */
  lemma JoinIsShortUnion(w: Win, a: Marks, b: Marks, width: nat)
    requires w.(isFirst := false) == View(a, w.size)
    requires Within(a, w.size) && Within(b, width) && Close(a.edge, b.edge)
    ensures Join(w, width, Wrap(b.edge), SeenOf(b)) == View(ShortUnion(a, b, width, w.size), w.size)
  {
    if b.edge >= a.edge {
      JoinAhead(w, a, b, width);
    } else {
      JoinBehind(w, a, b, width);
    }
  }

  lemma JoinIsUnion(w: Win, a: Marks, b: Marks)
    requires w.(isFirst := false) == View(a, w.size)
    requires Within(a, w.size) && Within(b, w.size) && Close(a.edge, b.edge)
    ensures Join(w, w.size, Wrap(b.edge), SeenOf(b)) == View(Union(a, b, w.size), w.size)
    ensures Within(Union(a, b, w.size), w.size)
  {
    JoinIsShortUnion(w, a, b, w.size);
    assert ShortUnion(a, b, w.size, w.size) == Union(a, b, w.size);
  }

  // ----- the algebra of full-width windows -----

  function JoinViews(a: Win, b: Win): Win {
    Join(a, a.size, b.edge, b.seen)
  }

  lemma JoinCommutes(a: Marks, b: Marks, size: nat)
    requires Within(a, size) && Within(b, size) && Close(a.edge, b.edge)
    ensures JoinViews(View(a, size), View(b, size)) == JoinViews(View(b, size), View(a, size))
  {
    JoinIsUnion(View(a, size), a, b);
    JoinIsUnion(View(b, size), b, a);
    assert Union(a, b, size) == Union(b, a, size);
  }

  lemma JoinAssociates(a: Marks, b: Marks, c: Marks, size: nat)
    requires Within(a, size) && Within(b, size) && Within(c, size)
    requires Close(a.edge, b.edge) && Close(b.edge, c.edge) && Close(a.edge, c.edge)
    ensures JoinViews(JoinViews(View(a, size), View(b, size)), View(c, size))
         == JoinViews(View(a, size), JoinViews(View(b, size), View(c, size)))
  {
    var ab, bc := Union(a, b, size), Union(b, c, size);
    JoinIsUnion(View(a, size), a, b);
    JoinIsUnion(View(b, size), b, c);
    JoinIsUnion(View(ab, size), ab, c);
    JoinIsUnion(View(a, size), a, bc);
    assert Union(ab, c, size) == Union(a, bc, size);
  }

  lemma JoinIsIdempotent(a: Marks, size: nat)
    requires Within(a, size)
    ensures JoinViews(View(a, size), View(a, size)) == View(a, size)
  {
    JoinIsUnion(View(a, size), a, a);
    assert Union(a, a, size) == a;
  }

  // ----- any sequence of acknowledgements -----

  /** The window after joining one acknowledgement after the other. */
  function JoinAll(w: Win, acks: seq<Marks>): Win {
    if acks == [] then w
    else
      var last := acks[|acks| - 1];
      Join(JoinAll(w, acks[..|acks| - 1]), w.size, Wrap(last.edge), SeenOf(last))
  }

  ghost function Edges(start: Marks, acks: seq<Marks>): set<int> {
    {start.edge} + set i | 0 <= i < |acks| :: acks[i].edge
  }

  function UnionAll(start: Marks, acks: seq<Marks>, size: nat): Marks {
    if acks == [] then start
    else Union(UnionAll(start, acks[..|acks| - 1], size), acks[|acks| - 1], size)
  }

  /** All the right edges lie within half the range of each other. */
  ghost predicate AllClose(start: Marks, acks: seq<Marks>) {
    forall e, f :: e in Edges(start, acks) && f in Edges(start, acks) ==> Close(e, f)
  }

  ghost predicate AllWithin(start: Marks, acks: seq<Marks>, size: nat) {
    Within(start, size) && forall i :: 0 <= i < |acks| ==> Within(acks[i], size)
  }

  /** `m` holds everything marked by `start` or an acknowledgement that is not older than the window. */
  ghost predicate IsUnionOf(m: Marks, start: Marks, acks: seq<Marks>, size: nat) {
    && m.edge in Edges(start, acks)
    && (forall e :: e in Edges(start, acks) ==> e <= m.edge)
    && forall n :: n in m.marked <==> n > m.edge - size && (n in start.marked || exists i :: 0 <= i < |acks| && n in acks[i].marked)
  }

  lemma {:induction false} JoinAllIsUnionAll(w: Win, start: Marks, acks: seq<Marks>)
    requires w == View(start, w.size)
    requires AllWithin(start, acks, w.size) && AllClose(start, acks)
    ensures JoinAll(w, acks) == View(UnionAll(start, acks, w.size), w.size)
    ensures IsUnionOf(UnionAll(start, acks, w.size), start, acks, w.size)
  {
    if acks != [] {
      var before, last := acks[..|acks| - 1], acks[|acks| - 1];
      assert Edges(start, acks) == Edges(start, before) + {last.edge};
      assert forall i :: 0 <= i < |before| ==> before[i] == acks[i];
      JoinAllIsUnionAll(w, start, before);
      var m := UnionAll(start, before, w.size);
      assert Close(m.edge, last.edge);
      UnionWithin(m, start, before, w.size);
      JoinIsUnion(JoinAll(w, before), m, last);
      LastOfUnion(m, last, start, acks, w.size);
    }
  }

  lemma UnionWithin(m: Marks, start: Marks, acks: seq<Marks>, size: nat)
    requires AllWithin(start, acks, size) && IsUnionOf(m, start, acks, size)
    ensures Within(m, size)
  {
    forall n | n in m.marked
      ensures m.edge - size < n <= m.edge
    {
      if i :| 0 <= i < |acks| && n in acks[i].marked {
        assert acks[i].edge in Edges(start, acks);
      }
    }
  }

  lemma LastOfUnion(m: Marks, last: Marks, start: Marks, acks: seq<Marks>, size: nat)
    requires acks != [] && last == acks[|acks| - 1]
    requires AllWithin(start, acks, size) && IsUnionOf(m, start, acks[..|acks| - 1], size)
    ensures IsUnionOf(Union(m, last, size), start, acks, size)
  {
    var before := acks[..|acks| - 1];
    assert Edges(start, acks) == Edges(start, before) + {last.edge};
    var u := Union(m, last, size);
    forall n
      ensures n in u.marked <==> n > u.edge - size && (n in start.marked || exists i :: 0 <= i < |acks| && n in acks[i].marked)
    {
      if i :| 0 <= i < |acks| && n in acks[i].marked {
        if i < |before| {
          assert n in before[i].marked;
        }
      }
    }
  }

  /** Reordered or duplicated acknowledgements leave the same window behind. */
  lemma AcksInAnyOrder(w: Win, start: Marks, acks: seq<Marks>, others: seq<Marks>)
    requires w == View(start, w.size)
    requires AllWithin(start, acks, w.size) && AllClose(start, acks)
    requires forall m :: m in acks <==> m in others
    ensures JoinAll(w, acks) == JoinAll(w, others)
  {
    forall i | 0 <= i < |others|
      ensures others[i] in acks
    {
      assert others[i] in others;
    }
    assert Edges(start, acks) == Edges(start, others) by {
      forall e
        ensures e in Edges(start, acks) <==> e in Edges(start, others)
      {
        EdgesAreElements(start, acks, e);
        EdgesAreElements(start, others, e);
      }
    }
    JoinAllIsUnionAll(w, start, acks);
    JoinAllIsUnionAll(w, start, others);
    var u, v := UnionAll(start, acks, w.size), UnionAll(start, others, w.size);
    assert u.edge == v.edge;
    forall n
      ensures n in u.marked <==> n in v.marked
    {
      MarkedByElement(acks, n);
      MarkedByElement(others, n);
    }
    assert u.marked == v.marked;
  }

  lemma EdgesAreElements(start: Marks, acks: seq<Marks>, e: int)
    ensures e in Edges(start, acks) <==> e == start.edge || exists m :: m in acks && m.edge == e
  {
    if m :| m in acks && m.edge == e {
      var i :| 0 <= i < |acks| && acks[i] == m;
      assert acks[i].edge in Edges(start, acks);
    }
  }

  lemma MarkedByElement(acks: seq<Marks>, n: int)
    ensures (exists i :: 0 <= i < |acks| && n in acks[i].marked) <==> exists m :: m in acks && n in m.marked
  {
    if m :| m in acks && n in m.marked {
      var i :| 0 <= i < |acks| && acks[i] == m;
    }
  }
}
