/** The window object itself, over its array of 64-bit words (helpertools/ReplayWindow.go). */
module ReplayWindows {
  import opened Bits
  import opened BitArrays
  import opened Bytes
  import opened Serial
  import opened WindowMeaning

  const WORD := 64

  /** The marked offsets from the right edge: bit `p` of the whole array. */
  ghost function SeenBits(ws: seq<nat>): set<nat> {
    set p: nat | p < 64 * |ws| && BitOf(ws, WORD, p)
  }

  lemma BitAt(ws: seq<nat>, p: nat)
    ensures BitOf(ws, WORD, p) == Bit(WordAt(ws, |ws| - 1 - p / 64), p % 64)
  {
    BitOfWord(ws, WORD, p / 64, p % 64, p);
  }

  lemma SeenMovedUp(b: seq<nat>, a: seq<nat>, n: nat)
    requires MovedUp(b, a, n, WORD)
    ensures SeenBits(b) == Shifted(SeenBits(a), n, 64 * |a|)
  {
    forall p: nat
      ensures p in SeenBits(b) <==> p in Shifted(SeenBits(a), n, 64 * |a|)
    {
      if p >= n && p - n in SeenBits(a) && p < 64 * |a| {
        assert p - n + n in Shifted(SeenBits(a), n, 64 * |a|);
      }
    }
  }

  lemma SeenOnlyEdge(ws: seq<nat>)
    requires ws != [] && ws[|ws| - 1] == 1
    requires forall i :: 0 <= i < |ws| - 1 ==> ws[i] == 0
    ensures SeenBits(ws) == {0}
  {
    assert Pow2(0) == 1;
    forall p: nat
      ensures BitOf(ws, WORD, p) <==> p == 0
    {
      BitAt(ws, p);
      BitOfZero(p % 64);
      BitOfPow2(0, p % 64);
    }
  }

  lemma SeenEdgeToo(b: seq<nat>, a: seq<nat>)
    requires a != [] && AreWords(a, WORD) && b == a[|a| - 1 := Or(a[|a| - 1], 1)]
    ensures AreWords(b, WORD) && SeenBits(b) == SeenBits(a) + {0}
  {
    hide Or, BitOf;
    EdgeFits(a[|a| - 1]);
    forall p: nat
      ensures BitOf(b, WORD, p) <==> BitOf(a, WORD, p) || p == 0
    {
      EdgeBitAt(b, a, p);
    }
  }

  lemma EdgeFits(x: nat)
    requires x < Pow2(WORD)
    ensures Or(x, 1) < Pow2(WORD)
  {
    assert Pow2(0) == 1;
    Pow2Grows(1, WORD);
    OrFits(x, 1, WORD);
  }

  lemma EdgeBitAt(b: seq<nat>, a: seq<nat>, p: nat)
    requires a != [] && b == a[|a| - 1 := Or(a[|a| - 1], 1)]
    ensures BitOf(b, WORD, p) <==> BitOf(a, WORD, p) || p == 0
  {
    hide Or, Bit, BitOf;
    var q, k := p / 64, p % 64;
    BitAt(a, p);
    BitAt(b, p);
    OrOne(a[|a| - 1], k);
    EdgeWordAt(b, a, q);
    assert p == 64 * q + k;
  }

  lemma EdgeWordAt(b: seq<nat>, a: seq<nat>, q: nat)
    requires a != [] && b == a[|a| - 1 := Or(a[|a| - 1], 1)]
    ensures WordAt(b, |b| - 1 - q) == if q == 0 then Or(a[|a| - 1], 1) else WordAt(a, |a| - 1 - q)
    ensures q == 0 ==> WordAt(a, |a| - 1 - q) == a[|a| - 1]
  {
    hide Or;
  }

  lemma OrOne(x: nat, k: nat)
    ensures Bit(Or(x, 1), k) <==> Bit(x, k) || k == 0
  {
    assert Pow2(0) == 1;
    BitOr(x, 1, k);
    BitOfPow2(0, k);
  }

  /** `a` with the words of `other` or-ed in from the right. */
  ghost predicate OredFromRight(b: seq<nat>, a: seq<nat>, other: seq<nat>) {
    && |b| == |a|
    && forall i :: 0 <= i < |a| ==> b[i] == Or(a[i], WordAt(other, i + |other| - |a|))
  }

  lemma SeenOred(b: seq<nat>, a: seq<nat>, other: seq<nat>)
    requires AreWords(a, WORD) && AreWords(other, WORD) && OredFromRight(b, a, other)
    ensures AreWords(b, WORD) && SeenBits(b) == SeenBits(a) + Clipped(SeenBits(other), 64 * |a|)
  {
    forall i | 0 <= i < |b|
      ensures b[i] < Pow2(WORD)
    {
      OrFits(a[i], WordAt(other, i + |other| - |a|), WORD);
    }
    forall p: nat | p < 64 * |a|
      ensures BitOf(b, WORD, p) <==> BitOf(a, WORD, p) || (p < 64 * |other| && BitOf(other, WORD, p))
    {
      BitAt(a, p);
      BitAt(b, p);
      BitAt(other, p);
      var i := |a| - 1 - p / 64;
      BitOr(a[i], WordAt(other, i + |other| - |a|), p % 64);
      if p >= 64 * |other| {
        BitOfZero(p % 64);
      }
    }
  }

  lemma SeenNothing(ws: seq<nat>)
    requires forall i :: 0 <= i < |ws| ==> ws[i] == 0
    ensures SeenBits(ws) == {}
  {
    forall p: nat
      ensures !BitOf(ws, WORD, p)
    {
      NothingInZeros(ws, WORD, p);
    }
  }

  /** GetWindowDataBytes: the right edge, optionally the word count, and the newest words. */
  function WindowBytes(edge: uint32, ws: seq<nat>, limit: byte, writeSize: bool): seq<byte>
    requires 0 < |ws| < 256
  {
    var n := SentWords(|ws|, limit);
    LittleEndian(edge, 4) + (if writeSize then [n] else []) + WordBytes(ws[|ws| - n..])
  }

  function SentWords(words: nat, limit: byte): (n: byte)
    requires 0 < words < 256
    ensures 0 < n <= words
  {
    if limit == 0 || limit > words then words else limit
  }

  /** The place of an offset, counted from the front, is beyond the window when the offset is. */
  lemma LocationFromFront(size: uint32, offset: uint32)
    ensures var location := Wrap(size - 1 - offset);
            if offset < size then location == size - 1 - offset else location >= size
  {
  }

  class ReplayWindow {
    const window: array<nat>
    const maxForwardJump: nat := MAX_FORWARD_JUMP
    var rightEdge: uint32
    var isFirstValue: bool

    ghost predicate Valid()
      reads this, window
    {
      0 < window.Length < 256 && AreWords(window[..], WORD)
    }

    ghost function View(): (w: Win)
      requires Valid()
      reads this, window
    {
      Win(64 * window.Length, isFirstValue, rightEdge, SeenBits(window[..]))
    }

    constructor (windowWordCount: nat)
      requires 0 < windowWordCount < 256
      ensures Valid() && fresh(window) && View() == Empty(64 * windowWordCount)
    {
      window := new nat[windowWordCount](_ => 0);
      rightEdge, isFirstValue := 0, true;
      new;
      SeenNothing(window[..]);
    }

    function GetWindowBitSize(): nat {
      window.Length * WORD
    }

    method ApplyWindowCheck(number: uint32) returns (ok: bool)
      requires Valid()
      modifies this, window
      ensures Valid() && (View(), ok) == Apply(old(View()), number)
    {
      hide AreWords;
      ghost var w := View();
      if isFirstValue {
        rightEdge := number;
        KeepOnlyEdge();
        isFirstValue := false;
        assert View() == Win(w.size, false, number, {0});
        return true;
      }
      var forwardJump := Minus(number, rightEdge);
      var windowSizeBits := GetWindowBitSize();
      if forwardJump > 0 && forwardJump < maxForwardJump {
        if forwardJump >= windowSizeBits {
          rightEdge := number;
          assert Shifted(w.seen, forwardJump, w.size) + {0} == {0};
          KeepOnlyEdge();
          assert View() == Win(w.size, false, number, {0});
          return true;
        }
        ghost var was := window[..];
        BitShiftArrayLeft(window, forwardJump, WORD);
        SeenMovedUp(window[..], was, forwardJump);
        rightEdge := number;
        SetEdge();
        assert View() == Win(w.size, false, number, Shifted(w.seen, forwardJump, w.size) + {0});
        return true;
      }
      if forwardJump == 0 {
        return false;
      }
      var olderValue := Minus(rightEdge, number);
      if olderValue >= windowSizeBits {
        return false;
      }
      var isSet := CheckBitArray(window, windowSizeBits - 1 - olderValue, WORD);
      assert isSet <==> olderValue in w.seen;
      if isSet {
        return false;
      }
      MarkOlder(olderValue);
      assert View() == w.(seen := w.seen + {olderValue});
      return true;
    }

    /** `window.window = SetBitArray(window.window, windowSizeBits-1-olderValue)` */
    method MarkOlder(olderValue: nat)
      requires Valid() && olderValue < GetWindowBitSize()
      modifies window
      ensures Valid() && SeenBits(window[..]) == old(SeenBits(window[..])) + {olderValue}
    {
      ghost var was := window[..];
      SetBitArray(window, GetWindowBitSize() - 1 - olderValue, WORD);
      forall p: nat
        ensures p in SeenBits(window[..]) <==> p in SeenBits(was) + {olderValue}
      {
        assert BitOf(window[..], WORD, p) == (BitOf(was, WORD, p) || p == olderValue);
      }
    }

    /** `window[len(window)-1] |= 1` */
    method SetEdge()
      requires Valid()
      modifies window
      ensures Valid() && SeenBits(window[..]) == old(SeenBits(window[..])) + {0}
    {
      ghost var was := window[..];
      var last := window.Length - 1;
      window[last] := Or(window[last], 1);
      SeenEdgeToo(window[..], was);
    }

    /** The loop that clears the window, and the word set to 1 after it. */
    method KeepOnlyEdge()
      requires Valid()
      modifies window
      ensures Valid() && SeenBits(window[..]) == {0}
    {
      for i := 0 to window.Length
        invariant forall k :: 0 <= k < i ==> window[k] == 0
      {
        window[i] := 0;
      }
      window[window.Length - 1] := 1;
      Pow2Grows(1, WORD);
      hide Pow2, BitOf, SeenBits;
      SeenOnlyEdge(window[..]);
    }

    method CheckValue(value: uint32) returns (isSet: bool)
      requires Valid()
      ensures isSet == Check(View(), value)
    {
      hide BitOf, AreWords, Wrap, Minus;
      var location := Wrap(GetWindowBitSize() - 1 - Minus(rightEdge, value));
      LocationFromFront(GetWindowBitSize(), Minus(rightEdge, value));
      if location >= GetWindowBitSize() {
        return false;
      }
      isSet := CheckBitArray(window, location, WORD);
    }

    method GetWindowDataBytes(limit: byte, writeSize: bool) returns (result: seq<byte>)
      requires Valid()
      ensures result == WindowBytes(rightEdge, window[..], limit, writeSize)
    {
      result := LittleEndian(rightEdge, 4);
      var n: byte := limit;
      if n == 0 || n > window.Length {
        n := window.Length;
      }
      if writeSize {
        result := result + [n];
      }
      var words := AppendWords(n);
      result := result + words;
    }

    /** The loop that appends the newest `n` words. */
    method AppendWords(n: nat) returns (result: seq<byte>)
      requires Valid() && n <= window.Length
      ensures result == WordBytes(window[window.Length - n..])
    {
      ghost var ws := window[window.Length - n..];
      result := [];
      assert ws[..|ws| - 0] == ws;
      for i := 0 to n
        invariant WordBytes(ws) == result + WordBytes(ws[..|ws| - i])
      {
        ghost var left := ws[..|ws| - i];
        assert left[..|left| - 1] == ws[..|ws| - (i + 1)];
        result := result + LittleEndian(window[window.Length - 1 - i], WORD_BYTES);
      }
    }

    method JoinWindowData(windowBytes: array<nat>, edge: uint32)
      requires Valid() && windowBytes != window && AreWords(windowBytes[..], WORD)
      modifies this, window
      ensures Valid()
      ensures View() == Join(old(View()), 64 * windowBytes.Length, edge, SeenBits(windowBytes[..]))
    {
      isFirstValue := false;
      var forwardJump := Minus(edge, rightEdge);
      var windowSizeBits := GetWindowBitSize();
      ghost var was, other := window[..], windowBytes[..];
      if forwardJump < maxForwardJump {
        if forwardJump >= windowSizeBits {
          assert Shifted(SeenBits(was), forwardJump, windowSizeBits) + Clipped(SeenBits(other), windowSizeBits)
              == Clipped(SeenBits(other), windowSizeBits);
          rightEdge := edge;
          CopyFromRight(windowBytes);
          return;
        }
        BitShiftArrayLeft(window, forwardJump, WORD);
        SeenMovedUp(window[..], was, forwardJump);
        rightEdge := edge;
        OrFromRight(windowBytes);
        return;
      }
      var olderValue := Minus(rightEdge, edge);
      if olderValue >= windowSizeBits {
        return;
      }
      var temp := new nat[windowBytes.Length](i requires 0 <= i < windowBytes.Length reads windowBytes => windowBytes[i]);
      assert temp[..] == other;
      BitShiftArrayLeft(temp, olderValue, WORD);
      SeenMovedUp(temp[..], other, olderValue);
      OrFromRight(temp);
    }

    /** Clearing the window and copying the other words into it from the right. */
    method CopyFromRight(source: array<nat>)
      requires Valid() && source != window && AreWords(source[..], WORD)
      modifies window
      ensures Valid()
      ensures SeenBits(window[..]) == Clipped(SeenBits(source[..]), 64 * window.Length)
    {
      for i := 0 to window.Length
        invariant forall k :: 0 <= k < i ==> window[k] == 0
      {
        window[i] := 0;
      }
      ghost var zeros, other := window[..], source[..];
      SeenNothing(zeros);
      var n := if source.Length < window.Length then source.Length else window.Length;
      for i := 0 to n
        invariant forall k :: window.Length - i <= k < window.Length ==> window[k] == WordAt(other, k + |other| - |zeros|)
        invariant forall k :: 0 <= k < window.Length - i ==> window[k] == 0
        invariant source[..] == other
      {
        window[window.Length - 1 - i] := source[source.Length - 1 - i];
      }
      forall k | 0 <= k < window.Length
        ensures window[k] == Or(zeros[k], WordAt(other, k + |other| - |zeros|))
      {
        ZeroOr(window[k]);
      }
      SeenOred(window[..], zeros, other);
    }

    /** The loop that joins two arrays of words from the right. */
    method OrFromRight(source: array<nat>)
      requires Valid() && source != window && AreWords(source[..], WORD)
      modifies window
      ensures Valid()
      ensures SeenBits(window[..]) == old(SeenBits(window[..])) + Clipped(SeenBits(source[..]), 64 * window.Length)
    {
      ghost var was, other := window[..], source[..];
      var n := if source.Length < window.Length then source.Length else window.Length;
      for i := 0 to n
        invariant forall k :: window.Length - i <= k < window.Length ==>
                    window[k] == Or(was[k], WordAt(other, k + |other| - |was|))
        invariant forall k :: 0 <= k < window.Length - i ==> window[k] == was[k]
        invariant source[..] == other
      {
        var at := window.Length - 1 - i;
        window[at] := Or(window[at], source[source.Length - 1 - i]);
      }
      forall k | 0 <= k < window.Length - n
        ensures window[k] == Or(was[k], WordAt(other, k + |other| - |was|))
      {
        OrZero(was[k]);
      }
      SeenOred(window[..], was, other);
    }

    method JoinWindowDataBytes(b: seq<byte>, wordCount: byte) returns (readBytesTotal: nat)
      requires Valid()
      requires |b| >= HeaderBytes(wordCount)
      requires |b| >= HeaderBytes(wordCount) + 8 * ReadWords(b, wordCount, window.Length)
      modifies this, window
      ensures Valid()
      ensures View() == JoinBytes(old(View()), b, wordCount, window.Length)
      ensures readBytesTotal == 4 + (if wordCount == 0 && b[4] == 0 then 1 else 0) + 8 * ReadWords(b, wordCount, window.Length)
    {
      var edge := ParseUint32(b);
      var count, rest := wordCount, b[4..];
      if count == 0 {
        count := b[4];
        rest := b[5..];
      }
      var n := if count < window.Length then count else window.Length;
      assert rest == b[HeaderBytes(wordCount)..] && n == ReadWords(b, wordCount, window.Length);
      var windowBytes := ReadWindowWords(rest, n);
      ParsedWordsFit(rest, n);
      JoinWindowData(windowBytes, edge);
      readBytesTotal := 4 + (if count == 0 then 1 else 0) + windowBytes.Length * 8;
    }
  }

  lemma ParseOneMore(b: seq<byte>, n: nat, tail: seq<nat>)
    requires 0 < 8 * n <= |b|
    ensures ParseWords(b, n) + tail == ParseWords(b[8..], n - 1) + ([ParseLittleEndian(b, WORD_BYTES)] + tail)
  {
    hide ParseLittleEndian;
  }

  /** The loop that parses the words, the rightmost one first. */
  method ReadWindowWords(b: seq<byte>, n: nat) returns (windowBytes: array<nat>)
    requires 8 * n <= |b|
    ensures fresh(windowBytes) && windowBytes[..] == ParseWords(b, n)
  {
    var rest := b;
    windowBytes := new nat[n](_ => 0);
    for i := 0 to n
      invariant |rest| >= 8 * (n - i)
      invariant ParseWords(b, n) == ParseWords(rest, n - i) + windowBytes[n - i..]
    {
      hide ParseLittleEndian;
      ghost var tail := windowBytes[n - i..];
      ParseOneMore(rest, n - i, tail);
      windowBytes[n - 1 - i] := ParseLittleEndian(rest, WORD_BYTES);
      assert windowBytes[n - (i + 1)..] == [ParseLittleEndian(rest, WORD_BYTES)] + tail;
      rest := rest[8..];
    }
    assert windowBytes[..] == windowBytes[0..];
  }

  function ParseUint32(b: seq<byte>): uint32
    requires |b| >= 4
  {
    ParseFits(b, 4);
    Pow2Of32();
    ParseLittleEndian(b, 4)
  }

  /** Joining an encoded window: its right edge, and as many words as are read. */
  ghost function JoinBytes(w: Win, b: seq<byte>, wordCount: byte, words: nat): Win
    requires |b| >= HeaderBytes(wordCount)
    requires |b| >= HeaderBytes(wordCount) + 8 * ReadWords(b, wordCount, words)
  {
    var n := ReadWords(b, wordCount, words);
    Join(w, 64 * n, ParseUint32(b), SeenBits(ParseWords(b[HeaderBytes(wordCount)..], n)))
  }

  /** The right edge, and the word count where it is sent. */
  function HeaderBytes(wordCount: byte): nat {
    if wordCount == 0 then 5 else 4
  }

  /** How many words JoinWindowDataBytes reads: at most as many as the window has. */
  function ReadWords(b: seq<byte>, wordCount: byte, words: nat): nat
    requires |b| >= HeaderBytes(wordCount)
  {
    var count := if wordCount == 0 then b[4] else wordCount;
    if count < words then count else words
  }

  // ----- listing the numbers of a window (lines 316-336) -----

  /** The distances below `n` whose bit is as wanted, the largest first. */
  function Picked(seen: set<nat>, n: nat, isSet: bool): seq<nat> {
    if n == 0 then []
    else (if (n - 1 in seen) == isSet then [n - 1] else []) + Picked(seen, n - 1, isSet)
  }

  function NumbersAt(edge: uint32, ds: seq<nat>): (r: seq<uint32>)
    ensures |r| == |ds| && forall i :: 0 <= i < |r| ==> r[i] == Wrap(edge - ds[i])
  {
    seq(|ds|, i requires 0 <= i < |ds| => Wrap(edge - ds[i]))
  }

  /** GetReplayWindowBits: the numbers IterateReplayWindowBits calls back with, in order. */
  method GetReplayWindowBits(window: array<nat>, rightEdge: uint32, isSet: bool) returns (result: seq<uint32>)
    requires AreWords(window[..], WORD)
    ensures result == NumbersAt(rightEdge, Picked(SeenBits(window[..]), 64 * window.Length, isSet))
  {
    hide BitOf, SeenBits, NumbersAt, Picked, Minus, Wrap;
    result := [];
    var size := 64 * window.Length;
    NonePicked(rightEdge, SeenBits(window[..]), isSet);
    ghost var seen := SeenBits(window[..]);
    for i := 0 to size
      invariant result + NumbersAt(rightEdge, Picked(seen, size - i, isSet)) == NumbersAt(rightEdge, Picked(seen, size, isSet))
    {
      var isActive := CheckBitArray(window, i, WORD);
      SeenAt(window[..], size - i - 1);
      PickedStep(rightEdge, seen, size - i, isSet);
      if isActive == isSet {
        DistanceWraps(rightEdge, size, i);
        result := result + [Minus(rightEdge, Minus(Wrap(size - 1), Wrap(i)))];
      }
    }
  }

  lemma SeenAt(ws: seq<nat>, d: nat)
    ensures d in SeenBits(ws) <==> d < 64 * |ws| && BitOf(ws, WORD, d)
  {
  }

  lemma NonePicked(edge: uint32, seen: set<nat>, isSet: bool)
    ensures NumbersAt(edge, Picked(seen, 0, isSet)) == []
  {
  }

  lemma PickedStep(edge: uint32, seen: set<nat>, n: nat, isSet: bool)
    requires n > 0
    ensures NumbersAt(edge, Picked(seen, n, isSet))
         == (if (n - 1 in seen) == isSet then [Wrap(edge - (n - 1))] else []) + NumbersAt(edge, Picked(seen, n - 1, isSet))
  {
  }

  lemma DistanceWraps(edge: uint32, size: nat, i: nat)
    requires i < size
    ensures Minus(edge, Minus(Wrap(size - 1), Wrap(i))) == Wrap(edge - (size - i - 1))
  {
    hide Minus, Wrap;
    var d := size - i - 1;
    calc {
      Minus(edge, Minus(Wrap(size - 1), Wrap(i)));
    == { MinusOfWraps(size - 1, i); }
      Minus(edge, Wrap(d));
    == { WrapOfSmall(edge); }
      Minus(Wrap(edge), Wrap(d));
    == { MinusOfWraps(edge, d); }
      Wrap(edge - d);
    }
  }

  lemma WrapOfSmall(x: uint32)
    ensures Wrap(x) == x
  {
  }

  lemma {:induction false} PickedExactly(seen: set<nat>, n: nat, isSet: bool)
    ensures forall d: nat :: d in Picked(seen, n, isSet) <==> d < n && (d in seen) == isSet
    ensures forall i, j :: 0 <= i < j < |Picked(seen, n, isSet)| ==> Picked(seen, n, isSet)[i] > Picked(seen, n, isSet)[j]
  {
    if n > 0 {
      PickedExactly(seen, n - 1, isSet);
      var ds := Picked(seen, n - 1, isSet);
      forall i | 0 <= i < |ds|
        ensures ds[i] < n - 1
      {
        assert ds[i] in ds;
      }
    }
  }

  lemma DistanceOf(edge: uint32, d: nat)
    requires d < MODULUS
    ensures Minus(edge, Wrap(edge - d)) == d
  {
  }

  lemma AtDistance(edge: uint32, value: uint32)
    ensures Wrap(edge - Minus(edge, value)) == value
  {
  }

  /** The active numbers listed are exactly those that CheckValue finds. */
  lemma ListedExactlyWhenChecked(w: Win, value: uint32)
    requires IsWin(w)
    ensures value in NumbersAt(w.edge, Picked(w.seen, w.size, true)) <==> Check(w, value)
  {
    hide Minus, Wrap, Picked;
    var ds := Picked(w.seen, w.size, true);
    var numbers := NumbersAt(w.edge, ds);
    var d := Minus(w.edge, value);
    PickedExactly(w.seen, w.size, true);
    AtDistance(w.edge, value);
    if d in w.seen {
      assert d in ds;
      var i :| 0 <= i < |ds| && ds[i] == d;
      assert numbers[i] == value;
    }
    if value in numbers {
      var i :| 0 <= i < |numbers| && numbers[i] == value;
      assert ds[i] in ds;
      DistanceOf(w.edge, ds[i]);
    }
  }
}
