/** Little-endian encoding of unsigned numbers (helpertools/BitOperations.go:225-253). */
module Bytes {
  import opened Bits

  type byte = x: nat | x < 256

  /** AppendGenericLitteEndian: the bytes appended for a value of `k` bytes. */
  function LittleEndian(x: nat, k: nat): (b: seq<byte>)
    ensures |b| == k
  {
    if k == 0 then [] else [x % 256] + LittleEndian(x / 256, k - 1)
  }

  /** ParseGenericLitteEndian: the value held by the first `k` bytes. */
  function ParseLittleEndian(b: seq<byte>, k: nat): nat
    requires k <= |b|
  {
    if k == 0 then 0 else b[0] + 256 * ParseLittleEndian(b[1..], k - 1)
  }

  /** Parsing returns exactly the part of the value that fits into `k` bytes. */
  lemma {:induction false} ParseAfterAppend(x: nat, k: nat, rest: seq<byte>)
    ensures ParseLittleEndian(LittleEndian(x, k) + rest, k) == Low(x, 8 * k)
    decreases k
  {
    if k > 0 {
      ParseAfterAppend(x / 256, k - 1, rest);
      assert (LittleEndian(x, k) + rest)[1..] == LittleEndian(x / 256, k - 1) + rest;
      LowByByte(x, 8 * (k - 1));
    }
  }

  lemma LowByByte(x: nat, w: nat)
    ensures Low(x, 8 + w) == x % 256 + 256 * Low(x / 256, w)
  {
    Pow2OfByte(0);
    LowSplits(x, 8, w);
    ShiftsAreDivision(x, 8);
    DoubledIsProduct(Low(x / 256, w), 8);
  }

  lemma RoundTrip(x: nat, k: nat, rest: seq<byte>)
    requires x < Pow2(8 * k)
    ensures ParseLittleEndian(LittleEndian(x, k) + rest, k) == x
  {
    ParseAfterAppend(x, k, rest);
    LowOfSmall(x, 8 * k);
  }

  lemma {:induction false} ParseFits(b: seq<byte>, k: nat)
    requires k <= |b|
    ensures ParseLittleEndian(b, k) < Pow2(8 * k)
    decreases k
  {
    if k > 0 {
      ParseFits(b[1..], k - 1);
      Pow2OfByte(8 * (k - 1));
    }
  }

  lemma Pow2OfByte(w: nat)
    ensures Pow2(w + 8) == 256 * Pow2(w)
  {
    assert Pow2(w + 8) == 2 * Pow2(w + 7) == 4 * Pow2(w + 6) == 8 * Pow2(w + 5);
    assert Pow2(w + 5) == 2 * Pow2(w + 4) == 4 * Pow2(w + 3) == 8 * Pow2(w + 2);
    assert Pow2(w + 2) == 2 * Pow2(w + 1) == 4 * Pow2(w);
  }

  lemma Pow2Of32()
    ensures Pow2(32) == 0x1_0000_0000
  {
    Pow2OfByte(0);
    Pow2OfByte(8);
    Pow2OfByte(16);
    Pow2OfByte(24);
  }

  // ----- the words of a window, rightmost word first -----

  const WORD_BYTES := 8

  function WordBytes(ws: seq<nat>): (b: seq<byte>)
    ensures |b| == 8 * |ws|
  {
    if ws == [] then [] else LittleEndian(ws[|ws| - 1], WORD_BYTES) + WordBytes(ws[..|ws| - 1])
  }

  function ParseWords(b: seq<byte>, n: nat): (ws: seq<nat>)
    requires 8 * n <= |b|
    ensures |ws| == n
  {
    if n == 0 then [] else ParseWords(b[8..], n - 1) + [ParseLittleEndian(b, WORD_BYTES)]
  }

  lemma {:induction false} WordsRoundTrip(ws: seq<nat>, rest: seq<byte>)
    requires forall i :: 0 <= i < |ws| ==> ws[i] < Pow2(64)
    ensures ParseWords(WordBytes(ws) + rest, |ws|) == ws
  {
    hide LittleEndian, ParseLittleEndian, Pow2;
    if ws != [] {
      var init, last := ws[..|ws| - 1], ws[|ws| - 1];
      assert WordBytes(ws) + rest == LittleEndian(last, 8) + (WordBytes(init) + rest);
      RoundTrip(last, 8, WordBytes(init) + rest);
      assert (WordBytes(ws) + rest)[8..] == WordBytes(init) + rest;
      WordsRoundTrip(init, rest);
    }
  }

  lemma {:induction false} ParsedWordsFit(b: seq<byte>, n: nat)
    requires 8 * n <= |b|
    ensures forall i :: 0 <= i < n ==> ParseWords(b, n)[i] < Pow2(64)
  {
    if n > 0 {
      ParsedWordsFit(b[8..], n - 1);
      ParseFits(b, 8);
    }
  }
}
