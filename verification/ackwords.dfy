/** How many window words an ACK frame carries (udp/UDPConnectionStabilizer.go:426-449). */
module AckWords {
  import opened Bits
  import opened Serial
  import opened WindowMeaning
  import opened WindowJoin
  import opened StabilizerMeaning
  import opened Protocol

  /** The word that handleACKSend computes for a sequence number; the frame then carries one word more. */
  function WordIndex(rightEdge: uint32, seqNum: uint32, windowBitSize: nat): nat
    requires windowBitSize > 0
  {
    Shr(And(Minus(rightEdge, seqNum), windowBitSize - 1), 6)
  }

  predicate AllOnes(x: nat) {
    x == 0 || (x % 2 == 1 && AllOnes(x / 2))
  }

  lemma {:induction false} OnesOfPowerOfTwo(k: nat)
    ensures AllOnes(Pow2(k) - 1)
  {
    if k > 0 {
      OnesOfPowerOfTwo(k - 1);
      assert (Pow2(k) - 1) / 2 == Pow2(k - 1) - 1;
    }
  }

  lemma {:induction false} PowerOfTwoOfOnes(x: nat) returns (k: nat)
    requires AllOnes(x)
    ensures x + 1 == Pow2(k)
  {
    if x == 0 {
      k := 0;
    } else {
      var h := PowerOfTwoOfOnes(x / 2);
      k := h + 1;
    }
  }

  lemma {:induction false} OnesKeepAll(q: nat, x: nat)
    requires AllOnes(x) && q <= x
    ensures And(q, x) == q
  {
    if q > 0 {
      OnesKeepAll(q / 2, x / 2);
    }
  }

  /** A mask with a gap loses some number that does not exceed it. */
  lemma {:induction false} GapLosesOne(x: nat) returns (q: nat)
    requires !AllOnes(x)
    ensures q <= x && And(q, x) < q
  {
    if x % 2 == 0 {
      q := 1;
    } else {
      var h := GapLosesOne(x / 2);
      q := 2 * h;
    }
  }

  lemma {:induction false} AndOfFields(h1: nat, l1: nat, h2: nat, l2: nat, w: nat)
    requires l1 < Pow2(w) && l2 < Pow2(w)
    ensures And(Doubled(h1, w) + l1, Doubled(h2, w) + l2) == Doubled(And(h1, h2), w) + And(l1, l2)
    decreases w
  {
    if w > 0 {
      var x, y := Doubled(h1, w) + l1, Doubled(h2, w) + l2;
      assert x / 2 == Doubled(h1, w - 1) + l1 / 2 && x % 2 == l1 % 2;
      assert y / 2 == Doubled(h2, w - 1) + l2 / 2 && y % 2 == l2 % 2;
      AndOfFields(h1, l1 / 2, h2, l2 / 2, w - 1);
      AndByHalves(x, y);
      AndByHalves(l1, l2);
    }
  }

  lemma AndByHalves(x: nat, y: nat)
    ensures And(x, y) == 2 * And(x / 2, y / 2) + if x % 2 == 1 && y % 2 == 1 then 1 else 0
  {
  }

  /** The word index is the word of the distance, masked by the word count less one. */
  lemma WordIndexMasksWords(rightEdge: uint32, seqNum: uint32, words: nat)
    requires words > 0
    ensures WordIndex(rightEdge, seqNum, 64 * words) == And(Minus(rightEdge, seqNum) / 64, words - 1)
  {
    hide And, Doubled, Low, Shr;
    var d := Minus(rightEdge, seqNum);
    assert Pow2(6) == 64;
    DoubledIsProduct(d / 64, 6);
    DoubledIsProduct(words - 1, 6);
    AndOfFields(d / 64, d % 64, words - 1, 63, 6);
    MaskIsLow(d % 64, 6);
    LowOfSmall(d % 64, 6);
    var x := And(d, 64 * words - 1);
    assert x == Doubled(And(d / 64, words - 1), 6) + d % 64;
    DoubledIsProduct(And(d / 64, words - 1), 6);
    ShiftsAreDivision(x, 6);
  }

  /** The index never leaves the array of timestamps, whatever the sequence number. */
  lemma WordIndexInBounds(rightEdge: uint32, seqNum: uint32, words: nat)
    requires words > 0
    ensures WordIndex(rightEdge, seqNum, 64 * words) < words
  {
    WordIndexMasksWords(rightEdge, seqNum, words);
    AndFits(Minus(rightEdge, seqNum) / 64, words - 1);
  }

  /** An ACK frame reaches back to every number in the window. */
  ghost predicate AlwaysCovers(words: nat)
    requires words > 0
  {
    forall rightEdge: uint32, seqNum: uint32 :: Minus(rightEdge, seqNum) < 64 * words ==>
      Minus(rightEdge, seqNum) < 64 * (WordIndex(rightEdge, seqNum, 64 * words) + 1)
  }

  /** It does so exactly for window sizes that are powers of two. */
  lemma CoversExactlyPowersOfTwo(words: nat)
    requires 0 < words < 256
    ensures AlwaysCovers(words) <==> exists k :: words == Pow2(k)
  {
    hide And, AllOnes, Pow2, WordIndex;
    if AllOnes(words - 1) {
      var k := PowerOfTwoOfOnes(words - 1);
      assert words == Pow2(k);
      forall rightEdge: uint32, seqNum: uint32 | Minus(rightEdge, seqNum) < 64 * words
        ensures Minus(rightEdge, seqNum) < 64 * (WordIndex(rightEdge, seqNum, 64 * words) + 1)
      {
        WordIndexMasksWords(rightEdge, seqNum, words);
        OnesKeepAll(Minus(rightEdge, seqNum) / 64, words - 1);
      }
    } else {
      var q := GapLosesOne(words - 1);
      WordIndexMasksWords(64 * q, 0, words);
      assert Minus(64 * q, 0) == 64 * q;
      assert !AlwaysCovers(words);
      if k :| words == Pow2(k) {
        OnesOfPowerOfTwo(k);
      }
    }
  }

  /** The frame that handleACKSend sends for sequence number `n`. */
  function AckFor(r: Side, n: int): Packet
    requires r.peer.inWin.size > 0
  {
    var limit := WordIndex(r.peer.inWin.edge, Wrap(n), r.peer.inWin.size) + 1;
    Packet(Control(SnapOf(r.peer.inWin, limit)), 0, 0, MarksOf(r, limit))
  }

  lemma AckMarks(r: Side, n: int, words: nat)
    requires Windows(r) && r.peer.inWin.size == 64 * words && 0 < words < 256 && AlwaysCovers(words)
    requires n in r.accepted && r.edge - n < 64 * words
    ensures n in AckFor(r, n).marks.marked && Honest(AckFor(r, n), r.accepted)
  {
    hide WordIndex, SnapOf, View, Within;
    MinusOfWraps(r.edge, n);
    var d := r.edge - n;
    assert Minus(r.peer.inWin.edge, Wrap(n)) == d;
    hide Minus, Wrap, Shows;
    WordIndexInBounds(r.peer.inWin.edge, Wrap(n), words);
    SentWindowIsHonest(r, WordIndex(r.peer.inWin.edge, Wrap(n), 64 * words) + 1);
  }

  lemma JoinShowsMark(s: Side, packet: Packet, n: int, accepted: set<int>)
    requires Windows(s) && Honest(packet, accepted) && packet.frame.Control? && n in packet.marks.marked
    requires 0 <= packet.marks.edge - s.acks.edge < MAX_FORWARD_JUMP
    requires 0 <= packet.marks.edge - n < s.peer.ackWin.size < MODULUS
    ensures Check(Accept(s, packet).peer.ackWin, Wrap(n))
  {
    hide Join, Apply;
    JoinedWindow(s, packet, accepted);
    var acks := ShortUnion(s.acks, packet.marks, packet.frame.win.width, s.peer.ackWin.size);
    var w := Accept(s, packet).peer.ackWin;
    var d := packet.marks.edge - n;
    assert w.seen == SeenOf(acks) && w.edge == Wrap(acks.edge);
    assert n in acks.marked && acks.edge - d == n;
    MinusOfWraps(acks.edge, n);
  }

  /**
   An ACK frame sent for an accepted number still in the window makes the sender see that number
   acknowledged, unless the sender's window is already further ahead.
   */
  lemma AckCompletes(s: Side, r: Side, n: int, words: nat)
    requires Windows(s) && Windows(r) && r.peer.inWin.size == 64 * words && s.peer.ackWin.size == 64 * words
    requires 0 < words < 256 && exists k :: words == Pow2(k)
    requires n in r.accepted && r.edge - n < 64 * words
    requires s.acks.edge <= r.edge < s.acks.edge + MAX_FORWARD_JUMP
    ensures Check(Accept(s, AckFor(r, n)).peer.ackWin, Wrap(n))
  {
    CoversExactlyPowersOfTwo(words);
    AckMarks(r, n, words);
    JoinShowsMark(s, AckFor(r, n), n, r.accepted);
  }
}
