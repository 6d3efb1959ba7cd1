/**
 Arrays of machine words read as one wide number, most significant word first
 (helpertools/BitOperations.go).
 */
module BitArrays {
  import opened Bits

  /** The widths of the word types the arrays are instantiated with. */
  predicate IsWidth(w: nat) {
    w == 8 || w == 16 || w == 32 || w == 64
  }

  /** GetBitShiftSize: the logarithm of the width. */
  function BitShiftSize(w: nat): nat {
    match w
    case 8 => 3
    case 16 => 4
    case 32 => 5
    case 64 => 6
    case _ => 0
  }

  ghost predicate AreWords(ws: seq<nat>, w: nat) {
    forall i :: 0 <= i < |ws| ==> ws[i] < Pow2(w)
  }

  /** The number an array of `w`-bit words stands for. */
  ghost function Value(ws: seq<nat>, w: nat): nat {
    if ws == [] then 0 else Doubled(Value(ws[..|ws| - 1], w), w) + ws[|ws| - 1]
  }

  /** Bit `p` of that number, found by walking back from the last word. */
  ghost predicate BitOf(ws: seq<nat>, w: nat, p: nat)
    requires w > 0
  {
    ws != [] && if p < w then Bit(ws[|ws| - 1], p) else BitOf(ws[..|ws| - 1], w, p - w)
  }

  /** The word at `i`, or zero outside the array. */
  ghost function WordAt(ws: seq<nat>, i: int): nat {
    if 0 <= i < |ws| then ws[i] else 0
  }

  /** The bits of `b` are those of `a` moved up by `n`, within the same length. */
  ghost predicate MovedUp(b: seq<nat>, a: seq<nat>, n: nat, w: nat)
    requires w > 0
  {
    |a| == |b| && forall p: nat :: BitOf(b, w, p) == (n <= p < |a| * w && BitOf(a, w, p - n))
  }

  ghost predicate MovedDown(b: seq<nat>, a: seq<nat>, n: nat, w: nat)
    requires w > 0
  {
    |a| == |b| && forall p: nat :: BitOf(b, w, p) == BitOf(a, w, p + n)
  }

  // ----- positions -----

  /** The word a position falls in, and its place inside that word. */
  lemma Split(p: nat, w: nat) returns (q: nat, r: nat)
    requires w > 0
    ensures p == q * w + r && r < w
  {
    q, r := p / w, p % w;
  }

  /** Go's `n >> shift` and `n & (w - 1)` split `n` in this way. */
  lemma SplitByShift(n: nat, w: nat) returns (q: nat, r: nat)
    requires IsWidth(w)
    ensures q == Shr(n, BitShiftSize(w)) && r == And(n, w - 1)
    ensures n == q * w + r && r < w
  {
    var b := BitShiftSize(w);
    assert Pow2(3) == 8 && Pow2(4) == 16 && Pow2(5) == 32 && Pow2(6) == 64;
    MaskIsLow(n, b);
    ShrSplits(n, b);
    LowFits(n, b);
    DoubledIsProduct(Shr(n, b), b);
    q, r := Shr(n, b), And(n, w - 1);
  }

  lemma Below(q: int, r: nat, n: int, w: nat)
    requires r < w
    ensures q * w + r < n * w <==> q < n
  {
    if q < n {
      Distributes(n, q, w);
      AtLeastOnce(n - q, w);
    } else if q > n {
      Distributes(q, n, w);
      AtLeastOnce(q - n, w);
    }
  }

  lemma {:induction false} ValueFits(ws: seq<nat>, w: nat)
    requires AreWords(ws, w)
    ensures Value(ws, w) < Pow2(|ws| * w)
  {
    if ws != [] {
      var init := ws[..|ws| - 1];
      ValueFits(init, w);
      Distributes(|ws|, 1, w);
      ShiftedFieldFits(Value(init, w), ws[|ws| - 1], |init| * w, w);
    }
  }

  lemma {:induction false} BitOfValue(ws: seq<nat>, w: nat, p: nat)
    requires AreWords(ws, w) && w > 0
    ensures Bit(Value(ws, w), p) == BitOf(ws, w, p)
  {
    if ws == [] {
      BitOfZero(p);
    } else {
      BitOfFields(Value(ws[..|ws| - 1], w), ws[|ws| - 1], w, p);
      if p >= w {
        BitOfValue(ws[..|ws| - 1], w, p - w);
      }
    }
  }

  /** Bit `r` of the word `q` places from the end is bit `q * w + r` of the number. */
  lemma {:induction false} BitOfWord(ws: seq<nat>, w: nat, q: nat, r: nat, p: nat)
    requires r < w && p == q * w + r
    ensures BitOf(ws, w, p) == Bit(WordAt(ws, |ws| - 1 - q), r)
    decreases |ws|
  {
    if ws == [] {
      BitOfZero(r);
    } else if q > 0 {
      AtLeastOnce(q, w);
      Distributes(q, 1, w);
      var init := ws[..|ws| - 1];
      BitOfWord(init, w, q - 1, r, p - w);
      assert WordAt(init, |init| - 1 - (q - 1)) == WordAt(ws, |ws| - 1 - q);
    }
  }

  lemma {:induction false} NothingAbove(ws: seq<nat>, w: nat, p: nat)
    requires w > 0 && p >= |ws| * w
    ensures !BitOf(ws, w, p)
  {
    if ws != [] {
      Distributes(|ws|, 1, w);
      AtLeastOnce(|ws|, w);
      NothingAbove(ws[..|ws| - 1], w, p - w);
    }
  }

  lemma {:induction false} NothingInZeros(ws: seq<nat>, w: nat, p: nat)
    requires w > 0 && forall i :: 0 <= i < |ws| ==> ws[i] == 0
    ensures !BitOf(ws, w, p)
  {
    if ws != [] {
      if p < w {
        BitOfZero(p);
      } else {
        NothingInZeros(ws[..|ws| - 1], w, p - w);
      }
    }
  }

  // ----- moving whole words, then bits inside words -----

  lemma WordMovedUp(a: seq<nat>, b: seq<nat>, k: nat, w: nat, p: nat)
    requires w > 0 && |a| == |b|
    requires forall i :: 0 <= i < |b| ==> b[i] == WordAt(a, i + k)
    ensures BitOf(b, w, p) == (k * w <= p < |a| * w && BitOf(a, w, p - k * w))
  {
    var q, r := Split(p, w);
    Below(q, r, |a|, w);
    Below(q, r, k, w);
    BitOfWord(b, w, q, r, p);
    BitOfZero(r);
    if q >= k {
      Distributes(q, k, w);
      BitOfWord(a, w, q - k, r, p - k * w);
    }
  }

  lemma WordsMovedUp(a: seq<nat>, b: seq<nat>, k: nat, w: nat)
    requires w > 0 && |a| == |b|
    requires forall i :: 0 <= i < |b| ==> b[i] == WordAt(a, i + k)
    ensures MovedUp(b, a, k * w, w)
  {
    AtLeastZero(k, w);
    forall p: nat
      ensures BitOf(b, w, p) == (k * w <= p < |a| * w && BitOf(a, w, p - k * w))
    {
      WordMovedUp(a, b, k, w, p);
    }
  }

  lemma WordMovedDown(a: seq<nat>, b: seq<nat>, k: nat, w: nat, n: nat, p: nat)
    requires w > 0 && |a| == |b| && n == k * w
    requires forall i :: 0 <= i < |b| ==> b[i] == WordAt(a, i - k)
    ensures BitOf(b, w, p) == BitOf(a, w, p + n)
  {
    var q, r := Split(p, w);
    Distributes(q + k, k, w);
    BitOfWord(b, w, q, r, p);
    BitOfWord(a, w, q + k, r, p + n);
    BitOfZero(r);
  }

  lemma WordsMovedDown(a: seq<nat>, b: seq<nat>, k: nat, w: nat)
    requires w > 0 && |a| == |b|
    requires forall i :: 0 <= i < |b| ==> b[i] == WordAt(a, i - k)
    ensures MovedDown(b, a, k * w, w)
  {
    AtLeastZero(k, w);
    forall p: nat
      ensures BitOf(b, w, p) == BitOf(a, w, p + k * w)
    {
      WordMovedDown(a, b, k, w, k * w, p);
    }
  }

  lemma AtLeastZero(q: nat, w: nat)
    ensures q * w >= 0
  {
  }

  /** Word `i` after a shift left by less than a word: its own bits, and those coming in from the right. */
  ghost function CarriedUp(a: seq<nat>, i: nat, s: nat, w: nat): nat
    requires i < |a| && s <= w
  {
    Or(Shl(a[i], s, w), Shr(WordAt(a, i + 1), w - s))
  }

  ghost function CarriedDown(a: seq<nat>, i: nat, s: nat, w: nat): nat
    requires i < |a| && s <= w
  {
    Or(Shr(a[i], s), Shl(WordAt(a, i - 1), w - s, w))
  }

  /** The word left behind by `high << s | low >> (w - s)`. */
  lemma BitOfCarriedUp(high: nat, low: nat, s: nat, w: nat, r: nat)
    requires 0 < s < w && low < Pow2(w) && r < w
    ensures Bit(Or(Shl(high, s, w), Shr(low, w - s)), r)
         == if r >= s then Bit(high, r - s) else Bit(low, w - s + r)
  {
    BitOr(Shl(high, s, w), Shr(low, w - s), r);
    BitShl(high, s, w, r);
    BitShr(low, w - s, r);
    if r >= s {
      NoBitsAbove(low, w, r + (w - s));
    }
  }

  /** The word left behind by `low >> s | high << (w - s)`. */
  lemma BitOfCarriedDown(high: nat, low: nat, s: nat, w: nat, r: nat)
    requires 0 < s < w && low < Pow2(w) && r < w
    ensures Bit(Or(Shr(low, s), Shl(high, w - s, w)), r)
         == if r < w - s then Bit(low, r + s) else Bit(high, r - (w - s))
  {
    BitOr(Shr(low, s), Shl(high, w - s, w), r);
    BitShr(low, s, r);
    BitShl(high, w - s, w, r);
    if r >= w - s {
      NoBitsAbove(low, w, r + s);
    }
  }

  lemma BitMovedUp(a: seq<nat>, b: seq<nat>, s: nat, w: nat, p: nat)
    requires AreWords(a, w) && 0 < s < w && |a| == |b|
    requires forall i :: 0 <= i < |b| ==> b[i] == CarriedUp(a, i, s, w)
    ensures BitOf(b, w, p) == (s <= p < |a| * w && BitOf(a, w, p - s))
  {
    var q, r := Split(p, w);
    Below(q, r, |a|, w);
    if q < |a| {
      BitOfWord(b, w, q, r, p);
      var i := |a| - 1 - q;
      BitOfCarriedUp(a[i], WordAt(a, i + 1), s, w, r);
      if r >= s {
        AtLeastZero(q, w);
        BitOfWord(a, w, q, r - s, p - s);
      } else if q > 0 {
        AtLeastOnce(q, w);
        Distributes(q, 1, w);
        BitOfWord(a, w, q - 1, w - s + r, p - s);
      } else {
        BitOfZero(w - s + r);
      }
    } else {
      NothingAbove(b, w, p);
    }
  }

  lemma BitsMovedUp(a: seq<nat>, b: seq<nat>, s: nat, w: nat)
    requires AreWords(a, w) && 0 < s < w && |a| == |b|
    requires forall i :: 0 <= i < |b| ==> b[i] == CarriedUp(a, i, s, w)
    ensures MovedUp(b, a, s, w)
  {
    forall p: nat
      ensures BitOf(b, w, p) == (s <= p < |a| * w && BitOf(a, w, p - s))
    {
      BitMovedUp(a, b, s, w, p);
    }
  }

  lemma NextWord(q: nat, r: nat, s: nat, w: nat)
    ensures (q + 1) * w + (r - (w - s)) == q * w + r + s
  {
  }

  lemma BitMovedDown(a: seq<nat>, b: seq<nat>, s: nat, w: nat, p: nat)
    requires AreWords(a, w) && 0 < s < w && |a| == |b|
    requires forall i :: 0 <= i < |b| ==> b[i] == CarriedDown(a, i, s, w)
    ensures BitOf(b, w, p) == BitOf(a, w, p + s)
  {
    var q, r := Split(p, w);
    Below(q, r, |a|, w);
    if q < |a| {
      BitOfWord(b, w, q, r, p);
      var i := |a| - 1 - q;
      BitOfCarriedDown(WordAt(a, i - 1), a[i], s, w, r);
      if r < w - s {
        BitOfWord(a, w, q, r + s, p + s);
      } else {
        NextWord(q, r, s, w);
        BitOfWord(a, w, q + 1, r - (w - s), p + s);
      }
    } else {
      NothingAbove(b, w, p);
      NothingAbove(a, w, p + s);
    }
  }

  lemma BitsMovedDown(a: seq<nat>, b: seq<nat>, s: nat, w: nat)
    requires AreWords(a, w) && 0 < s < w && |a| == |b|
    requires forall i :: 0 <= i < |b| ==> b[i] == CarriedDown(a, i, s, w)
    ensures MovedDown(b, a, s, w)
  {
    forall p: nat
      ensures BitOf(b, w, p) == BitOf(a, w, p + s)
    {
      BitMovedDown(a, b, s, w, p);
    }
  }

  // ----- what the moves mean as arithmetic -----

  lemma MovedUpIsShift(b: seq<nat>, a: seq<nat>, n: nat, w: nat)
    requires w > 0 && AreWords(a, w) && AreWords(b, w) && MovedUp(b, a, n, w)
    ensures Value(b, w) == Shl(Value(a, w), n, |a| * w)
  {
    var size := |a| * w;
    forall p | 0 <= p < size
      ensures Bit(Value(b, w), p) == Bit(Shl(Value(a, w), n, size), p)
    {
      BitOfValue(b, w, p);
      BitShl(Value(a, w), n, size, p);
      if p >= n {
        BitOfValue(a, w, p - n);
      }
    }
    ValueFits(b, w);
    LowFits(Doubled(Value(a, w), n), size);
    SameBits(Value(b, w), Shl(Value(a, w), n, size), size);
  }

  lemma MovedDownIsShift(b: seq<nat>, a: seq<nat>, n: nat, w: nat)
    requires w > 0 && AreWords(a, w) && AreWords(b, w) && MovedDown(b, a, n, w)
    ensures Value(b, w) == Shr(Value(a, w), n)
  {
    var size := |a| * w;
    forall p | 0 <= p < size
      ensures Bit(Value(b, w), p) == Bit(Shr(Value(a, w), n), p)
    {
      BitOfValue(b, w, p);
      BitShr(Value(a, w), n, p);
      BitOfValue(a, w, p + n);
    }
    ValueFits(a, w);
    ValueFits(b, w);
    ShrFits(Value(a, w), n);
    SameBits(Value(b, w), Shr(Value(a, w), n), size);
  }

  /** Moving up is multiplication of the whole number by a power of two, as far as the array reaches. */
  lemma MovedUpIsMultiplication(b: seq<nat>, a: seq<nat>, n: nat, w: nat)
    requires w > 0 && AreWords(a, w) && AreWords(b, w) && MovedUp(b, a, n, w)
    ensures Value(b, w) == Value(a, w) * Pow2(n) % Pow2(|a| * w)
  {
    MovedUpIsShift(b, a, n, w);
    ShlIsProduct(Value(a, w), n, |a| * w);
  }

  /** Moving down is division by it, rounded down. */
  lemma MovedDownIsDivision(b: seq<nat>, a: seq<nat>, n: nat, w: nat)
    requires w > 0 && AreWords(a, w) && AreWords(b, w) && MovedDown(b, a, n, w)
    ensures Value(b, w) == Value(a, w) / Pow2(n)
  {
    MovedDownIsShift(b, a, n, w);
    ShiftsAreDivision(Value(a, w), n);
  }

  /** The number after `BitShiftArrayLeft(data, n)`; a negative count shifts to the right. */
  ghost function ShiftedLeft(v: nat, n: int, size: nat): nat {
    if n >= 0 then Shl(v, n, size) else Shr(v, -n)
  }

  /** Shifting left and back again clears the top `n` bits and keeps all the others. */
  lemma LeftThenRight(v: nat, n: nat, size: nat)
    requires n <= size && v < Pow2(size)
    ensures Shr(Shl(v, n, size), n) == Low(v, size - n)
  {
    var there := Shl(v, n, size);
    var back, kept := Shr(there, n), Low(v, size - n);
    forall p | 0 <= p < size
      ensures Bit(back, p) == Bit(kept, p)
    {
      BitShr(there, n, p);
      BitShl(v, n, size, p + n);
      BitOfLow(v, size - n, p);
    }
    LowFits(Doubled(v, n), size);
    LowFits(v, size - n);
    ShrFits(there, n);
    Pow2Grows(size - n, size);
    SameBits(back, kept, size);
  }

  /** Consecutive shifts to the left add up, for every pair of counts. */
  lemma LeftThenLeft(v: nat, m: nat, n: nat, size: nat)
    ensures Shl(Shl(v, m, size), n, size) == Shl(v, m + n, size)
  {
    var first := Shl(v, m, size);
    forall p | 0 <= p < size
      ensures Bit(Shl(first, n, size), p) == Bit(Shl(v, m + n, size), p)
    {
      BitShl(first, n, size, p);
      BitShl(v, m + n, size, p);
      if p >= n {
        BitShl(v, m, size, p - n);
      }
    }
    LowFits(Doubled(first, n), size);
    LowFits(Doubled(v, m + n), size);
    SameBits(Shl(first, n, size), Shl(v, m + n, size), size);
  }

  // ----- the operations -----

  /** The two loops that move whole words to the left and clear those vacated. */
  method ShiftWordsLeft(data: array<nat>, bytes: nat, w: nat)
    requires w > 0 && bytes < data.Length && AreWords(data[..], w)
    modifies data
    ensures AreWords(data[..], w) && MovedUp(data[..], old(data[..]), bytes * w, w)
  {
    ghost var was := data[..];
    for i := 0 to data.Length - bytes
      invariant forall k :: 0 <= k < i ==> data[k] == WordAt(was, k + bytes)
      invariant forall k :: i <= k < data.Length ==> data[k] == was[k]
    {
      data[i] := data[i + bytes];
    }
    for i := data.Length - bytes to data.Length
      invariant forall k :: 0 <= k < i ==> data[k] == WordAt(was, k + bytes)
    {
      data[i] := 0;
    }
    WordsMovedUp(was, data[..], bytes, w);
  }

  /** The loop that moves the bits inside the words, carrying from each word into the one before it. */
  method ShiftBitsLeft(data: array<nat>, bitShift: nat, w: nat)
    requires 0 < bitShift < w && data.Length > 0 && AreWords(data[..], w)
    modifies data
    ensures AreWords(data[..], w) && MovedUp(data[..], old(data[..]), bitShift, w)
  {
    ghost var was := data[..];
    for i := 0 to data.Length - 1
      invariant forall k :: 0 <= k < i ==> data[k] == CarriedUp(was, k, bitShift, w)
      invariant forall k :: i <= k < data.Length ==> data[k] == was[k]
    {
      data[i] := Or(Shl(data[i], bitShift, w), Shr(data[i + 1], w - bitShift));
      assert data[i] == CarriedUp(was, i, bitShift, w);
    }
    var last := data.Length - 1;
    data[last] := Shl(data[last], bitShift, w);
    CarriedUpWords(was, data[..], bitShift, w);
    BitsMovedUp(was, data[..], bitShift, w);
  }

  method BitShiftArrayLeft(data: array<nat>, bitShift: int, w: nat)
    requires IsWidth(w) && AreWords(data[..], w)
    modifies data
    ensures AreWords(data[..], w)
    ensures bitShift >= 0 ==> MovedUp(data[..], old(data[..]), bitShift, w)
    ensures Value(data[..], w) == ShiftedLeft(old(Value(data[..], w)), bitShift, data.Length * w)
    decreases bitShift < 0
  {
    ghost var was := data[..];
    if bitShift < 0 {
      BitShiftArrayRight(data, -bitShift, w);
    } else if bitShift == 0 {
      NotMoved(was, w);
    } else {
      var bytes := Shr(bitShift, BitShiftSize(w));
      ghost var q, r := SplitByShift(bitShift, w);
      Below(q, r, data.Length, w);
      if bytes >= data.Length {
        for i := 0 to data.Length
          invariant forall k :: 0 <= k < i ==> data[k] == 0
        {
          data[i] := 0;
        }
        EverythingMovedOut(was, data[..], bitShift, w);
        return;
      } else if bytes > 0 {
        ShiftWordsLeft(data, bytes, w);
      }
      ghost var mid := data[..];
      var rest := And(bitShift, w - 1);
      if rest > 0 {
        ShiftBitsLeft(data, rest, w);
      }
      MovedUpInSteps(data[..], mid, was, rest, bytes, bitShift, w);
    }
  }

  method ShiftWordsRight(data: array<nat>, bytes: nat, w: nat)
    requires w > 0 && bytes < data.Length && AreWords(data[..], w)
    modifies data
    ensures AreWords(data[..], w) && MovedDown(data[..], old(data[..]), bytes * w, w)
  {
    ghost var was := data[..];
    for i := data.Length downto bytes
      invariant forall k :: i <= k < data.Length ==> data[k] == WordAt(was, k - bytes)
      invariant forall k :: 0 <= k < i ==> data[k] == was[k]
    {
      data[i] := data[i - bytes];
    }
    for i := 0 to bytes
      invariant forall k :: 0 <= k < i || bytes <= k < data.Length ==> data[k] == WordAt(was, k - bytes)
    {
      data[i] := 0;
    }
    WordsMovedDown(was, data[..], bytes, w);
  }

  method ShiftBitsRight(data: array<nat>, bitShift: nat, w: nat)
    requires 0 < bitShift < w && data.Length > 0 && AreWords(data[..], w)
    modifies data
    ensures AreWords(data[..], w) && MovedDown(data[..], old(data[..]), bitShift, w)
  {
    ghost var was := data[..];
    for i := data.Length downto 1
      invariant forall k :: i <= k < data.Length ==> data[k] == CarriedDown(was, k, bitShift, w)
      invariant forall k :: 0 <= k < i ==> data[k] == was[k]
    {
      data[i] := Or(Shr(data[i], bitShift), Shl(data[i - 1], w - bitShift, w));
      assert data[i] == CarriedDown(was, i, bitShift, w);
    }
    data[0] := Shr(data[0], bitShift);
    CarriedDownWords(was, data[..], bitShift, w);
    BitsMovedDown(was, data[..], bitShift, w);
  }

  method BitShiftArrayRight(data: array<nat>, bitShift: int, w: nat)
    requires IsWidth(w) && AreWords(data[..], w)
    modifies data
    ensures AreWords(data[..], w)
    ensures bitShift >= 0 ==> MovedDown(data[..], old(data[..]), bitShift, w)
    ensures Value(data[..], w) == ShiftedLeft(old(Value(data[..], w)), -bitShift, data.Length * w)
    decreases bitShift < 0
  {
    ghost var was := data[..];
    if bitShift < 0 {
      BitShiftArrayLeft(data, -bitShift, w);
    } else if bitShift == 0 {
      NotMoved(was, w);
    } else {
      var bytes := Shr(bitShift, BitShiftSize(w));
      ghost var q, r := SplitByShift(bitShift, w);
      Below(q, r, data.Length, w);
      if bytes >= data.Length {
        for i := 0 to data.Length
          invariant forall k :: 0 <= k < i ==> data[k] == 0
        {
          data[i] := 0;
        }
        EverythingMovedOut(was, data[..], bitShift, w);
        return;
      } else if bytes > 0 {
        ShiftWordsRight(data, bytes, w);
      }
      ghost var mid := data[..];
      var rest := And(bitShift, w - 1);
      if rest > 0 {
        ShiftBitsRight(data, rest, w);
      }
      MovedDownInSteps(data[..], mid, was, rest, bytes, bitShift, w);
    }
  }

  lemma NotMoved(ws: seq<nat>, w: nat)
    requires AreWords(ws, w) && w > 0
    ensures MovedUp(ws, ws, 0, w) && MovedDown(ws, ws, 0, w)
    ensures Value(ws, w) == ShiftedLeft(Value(ws, w), 0, |ws| * w)
  {
    forall p: nat | p >= |ws| * w
      ensures !BitOf(ws, w, p)
    {
      NothingAbove(ws, w, p);
    }
    MovedUpIsShift(ws, ws, 0, w);
  }

  lemma EverythingMovedOut(a: seq<nat>, b: seq<nat>, n: nat, w: nat)
    requires AreWords(a, w) && |a| == |b| && w > 0 && n >= |a| * w
    requires forall i :: 0 <= i < |b| ==> b[i] == 0
    ensures AreWords(b, w) && MovedUp(b, a, n, w) && MovedDown(b, a, n, w)
    ensures Value(b, w) == Shl(Value(a, w), n, |a| * w)
    ensures Value(b, w) == Shr(Value(a, w), n)
  {
    forall p: nat
      ensures !BitOf(b, w, p) && !BitOf(a, w, p + n)
    {
      NothingInZeros(b, w, p);
      NothingAbove(a, w, p + n);
    }
    MovedUpIsShift(b, a, n, w);
    MovedDownIsShift(b, a, n, w);
  }

  lemma MovedUpTwice(c: seq<nat>, b: seq<nat>, a: seq<nat>, s: nat, t: nat, n: nat, w: nat)
    requires w > 0 && n == t + s && MovedUp(b, a, t, w)
    requires if s > 0 then MovedUp(c, b, s, w) else c == b
    ensures MovedUp(c, a, n, w)
  {
    forall p: nat
      ensures BitOf(c, w, p) == (n <= p < |a| * w && BitOf(a, w, p - n))
    {
      if p >= n { assert BitOf(b, w, p - s) == (p - s < |a| * w && BitOf(a, w, p - s - t)); }
    }
  }

  /** First by `q` whole words, then by `s` bits. */
  lemma MovedUpInSteps(c: seq<nat>, b: seq<nat>, a: seq<nat>, s: nat, q: nat, n: nat, w: nat)
    requires w > 0 && n == q * w + s && AreWords(a, w) && AreWords(c, w)
    requires if q > 0 then MovedUp(b, a, q * w, w) else b == a
    requires if s > 0 then MovedUp(c, b, s, w) else c == b
    ensures MovedUp(c, a, n, w) && Value(c, w) == Shl(Value(a, w), n, |a| * w)
  {
    if q == 0 {
      NotMoved(a, w);
      MovedUpTwice(c, b, a, s, 0, n, w);
    } else {
      MovedUpTwice(c, b, a, s, q * w, n, w);
    }
    MovedUpIsShift(c, a, n, w);
  }

  lemma MovedDownTwice(c: seq<nat>, b: seq<nat>, a: seq<nat>, s: nat, t: nat, n: nat, w: nat)
    requires w > 0 && n == t + s && MovedDown(b, a, t, w)
    requires if s > 0 then MovedDown(c, b, s, w) else c == b
    ensures MovedDown(c, a, n, w)
  {
    forall p: nat
      ensures BitOf(c, w, p) == BitOf(a, w, p + n)
    {
      assert BitOf(b, w, p + s) == BitOf(a, w, p + s + t);
    }
  }

  /** First by `q` whole words, then by `s` bits. */
  lemma MovedDownInSteps(c: seq<nat>, b: seq<nat>, a: seq<nat>, s: nat, q: nat, n: nat, w: nat)
    requires w > 0 && n == q * w + s && AreWords(a, w) && AreWords(c, w)
    requires if q > 0 then MovedDown(b, a, q * w, w) else b == a
    requires if s > 0 then MovedDown(c, b, s, w) else c == b
    ensures MovedDown(c, a, n, w) && Value(c, w) == Shr(Value(a, w), n)
  {
    if q == 0 {
      NotMoved(a, w);
      MovedDownTwice(c, b, a, s, 0, n, w);
    } else {
      MovedDownTwice(c, b, a, s, q * w, n, w);
    }
    MovedDownIsShift(c, a, n, w);
  }

  lemma CarriedUpWord(high: nat, low: nat, s: nat, w: nat)
    requires 0 < s < w && low < Pow2(w)
    ensures Or(Shl(high, s, w), Shr(low, w - s)) < Pow2(w)
    ensures low == 0 ==> Or(Shl(high, s, w), Shr(low, w - s)) == Shl(high, s, w)
  {
    LowFits(Doubled(high, s), w);
    ShrFits(low, w - s);
    OrFits(Shl(high, s, w), Shr(low, w - s), w);
    OrZero(Shl(high, s, w));
    if low == 0 {
      ShrFits(0, w - s);
    }
  }

  lemma CarriedUpWords(a: seq<nat>, b: seq<nat>, s: nat, w: nat)
    requires AreWords(a, w) && 0 < s < w && |a| == |b| > 0
    requires forall k :: 0 <= k < |a| - 1 ==> b[k] == CarriedUp(a, k, s, w)
    requires b[|a| - 1] == Shl(a[|a| - 1], s, w)
    ensures AreWords(b, w)
    ensures forall i :: 0 <= i < |b| ==> b[i] == CarriedUp(a, i, s, w)
  {
    forall i | 0 <= i < |b|
      ensures b[i] == CarriedUp(a, i, s, w) && b[i] < Pow2(w)
    {
      CarriedUpWord(a[i], WordAt(a, i + 1), s, w);
    }
  }

  lemma CarriedDownWord(high: nat, low: nat, s: nat, w: nat)
    requires 0 < s < w && low < Pow2(w)
    ensures Or(Shr(low, s), Shl(high, w - s, w)) < Pow2(w)
    ensures high == 0 ==> Or(Shr(low, s), Shl(high, w - s, w)) == Shr(low, s)
  {
    LowFits(Doubled(high, w - s), w);
    ShrFits(low, s);
    OrFits(Shr(low, s), Shl(high, w - s, w), w);
    OrZero(Shr(low, s));
    DoubledIsProduct(0, w - s);
    LowOfSmall(0, w);
  }

  lemma CarriedDownWords(a: seq<nat>, b: seq<nat>, s: nat, w: nat)
    requires AreWords(a, w) && 0 < s < w && |a| == |b| > 0
    requires forall k :: 1 <= k < |a| ==> b[k] == CarriedDown(a, k, s, w)
    requires b[0] == Shr(a[0], s)
    ensures AreWords(b, w)
    ensures forall i :: 0 <= i < |b| ==> b[i] == CarriedDown(a, i, s, w)
  {
    forall i | 0 <= i < |b|
      ensures b[i] == CarriedDown(a, i, s, w) && b[i] < Pow2(w)
    {
      CarriedDownWord(WordAt(a, i - 1), a[i], s, w);
    }
  }

  lemma {:induction false} OrZero(x: nat)
    ensures Or(x, 0) == x
  {
    if x > 0 {
      OrZero(x / 2);
    }
  }

  lemma {:induction false} ZeroOr(x: nat)
    ensures Or(0, x) == x
  {
    if x > 0 {
      ZeroOr(x / 2);
    }
  }

  /** Position `pos` counts from the most significant bit of the first word. */
  method SetBitArray(b: array<nat>, pos: nat, w: nat)
    requires IsWidth(w) && AreWords(b[..], w)
    modifies b
    ensures AreWords(b[..], w)
    ensures forall p: nat :: BitOf(b[..], w, p) == (BitOf(old(b[..]), w, p) || p == b.Length * w - 1 - pos)
  {
    hide Or, And, Shl, Shr, BitOf, Pow2, AreWords, BitShiftSize;
    var byteIndex := Shr(pos, BitShiftSize(w));
    ghost var q, r := SplitByShift(pos, w);
    Below(q, r, b.Length, w);
    if byteIndex >= b.Length {
      return;
    }
    var mask := w - 1;
    ghost var was := b[..];
    b[byteIndex] := Or(b[byteIndex], Shl(1, mask - And(pos, mask), w));
    OneBitMask(mask - r, w);
    assert b[..] == was[q := Or(was[q], Pow2(mask - r))];
    SetWordBit(was, b[..], w, q, r, pos);
  }

  method ClearBitArray(b: array<nat>, pos: nat, w: nat)
    requires IsWidth(w) && AreWords(b[..], w)
    modifies b
    ensures AreWords(b[..], w)
    ensures forall p: nat :: BitOf(b[..], w, p) == (BitOf(old(b[..]), w, p) && p != b.Length * w - 1 - pos)
  {
    hide AndNot, And, Shl, Shr, BitOf, Pow2, AreWords, BitShiftSize;
    var byteIndex := Shr(pos, BitShiftSize(w));
    ghost var q, r := SplitByShift(pos, w);
    Below(q, r, b.Length, w);
    if byteIndex >= b.Length {
      return;
    }
    var mask := w - 1;
    ghost var was := b[..];
    b[byteIndex] := AndNot(b[byteIndex], Shl(1, mask - And(pos, mask), w));
    OneBitMask(mask - r, w);
    assert b[..] == was[q := AndNot(was[q], Pow2(mask - r))];
    ClearWordBit(was, b[..], w, q, r, pos);
  }

  method CheckBitArray(b: array<nat>, pos: nat, w: nat) returns (isSet: bool)
    requires IsWidth(w) && AreWords(b[..], w)
    ensures isSet == (pos < b.Length * w && BitOf(b[..], w, b.Length * w - 1 - pos))
  {
    hide And, Shl, Shr, BitOf, Pow2, AreWords, BitShiftSize;
    var byteIndex := Shr(pos, BitShiftSize(w));
    ghost var q, r := SplitByShift(pos, w);
    Below(q, r, b.Length, w);
    if byteIndex >= b.Length {
      return false;
    }
    var mask := w - 1;
    OneBitMask(mask - r, w);
    TestBit(b[byteIndex], mask - r);
    BitFromFront(b[..], w, q, r, pos);
    return And(b[byteIndex], Shl(1, mask - And(pos, mask), w)) != 0;
  }

  lemma OneBitMask(k: nat, w: nat)
    requires k < w
    ensures Shl(1, k, w) == Pow2(k) < Pow2(w)
  {
    Pow2Grows(k + 1, w);
    DoubledIsProduct(1, k);
    LowOfSmall(Pow2(k), w);
  }

  /** Replacing word `q` changes only its own bits; the mask is the bit at position `q * w + r` from the front. */
  lemma BitOfReplacedWord(a: seq<nat>, b: seq<nat>, w: nat, q: nat, r: nat, p: nat) 
      returns (word: nat, k: nat)
    requires r < w && |a| == |b| && q < |a| && b == a[q := b[q]]
    ensures if word == |a| - 1 - q then BitOf(a, w, p) == Bit(a[q], k) && BitOf(b, w, p) == Bit(b[q], k)
            else BitOf(a, w, p) == BitOf(b, w, p)
    ensures p == |a| * w - 1 - (q * w + r) <==> word == |a| - 1 - q && Bit(Pow2(w - 1 - r), k)
  {
    var pq, pr := Split(p, w);
    word, k := pq, pr;
    BitOfWord(a, w, pq, pr, p);
    BitOfWord(b, w, pq, pr, p);
    BitOfPow2(w - 1 - r, pr);
    SamePosition(pq, pr, q, r, |a|, w);
  }

  lemma BitFromFront(ws: seq<nat>, w: nat, q: nat, r: nat, pos: nat)
    requires r < w && q < |ws| && pos == q * w + r
    ensures pos < |ws| * w && BitOf(ws, w, |ws| * w - 1 - pos) == Bit(ws[q], w - 1 - r)
  {
    Below(q, r, |ws|, w);
    SamePosition(|ws| - 1 - q, w - 1 - r, q, r, |ws|, w);
    BitOfWord(ws, w, |ws| - 1 - q, w - 1 - r, |ws| * w - 1 - pos);
  }

  lemma SetWordBit(a: seq<nat>, b: seq<nat>, w: nat, q: nat, r: nat, pos: nat)
    requires r < w && q < |a| && pos == q * w + r && AreWords(a, w)
    requires b == a[q := Or(a[q], Pow2(w - 1 - r))]
    ensures AreWords(b, w)
    ensures forall p: nat :: BitOf(b, w, p) == (BitOf(a, w, p) || p == |a| * w - 1 - pos)
  {
    OneBitMask(w - 1 - r, w);
    OrFits(a[q], Pow2(w - 1 - r), w);
    forall p: nat
      ensures BitOf(b, w, p) == (BitOf(a, w, p) || p == |a| * w - 1 - pos)
    {
      var word, k := BitOfReplacedWord(a, b, w, q, r, p);
      BitOr(a[q], Pow2(w - 1 - r), k);
    }
  }

  lemma ClearWordBit(a: seq<nat>, b: seq<nat>, w: nat, q: nat, r: nat, pos: nat)
    requires r < w && q < |a| && pos == q * w + r && AreWords(a, w)
    requires b == a[q := AndNot(a[q], Pow2(w - 1 - r))]
    ensures AreWords(b, w)
    ensures forall p: nat :: BitOf(b, w, p) == (BitOf(a, w, p) && p != |a| * w - 1 - pos)
  {
    AndNotFits(a[q], Pow2(w - 1 - r));
    forall p: nat
      ensures BitOf(b, w, p) == (BitOf(a, w, p) && p != |a| * w - 1 - pos)
    {
      var word, k := BitOfReplacedWord(a, b, w, q, r, p);
      BitAndNot(a[q], Pow2(w - 1 - r), k);
    }
  }

  /** Counting from the front and counting from the end name the same bit. */
  lemma SamePosition(pq: nat, pr: nat, q: nat, r: nat, len: nat, w: nat)
    requires pr < w && r < w
    ensures pq * w + pr == len * w - 1 - (q * w + r) <==> pq == len - 1 - q && pr == w - 1 - r
  {
    Distributes(len, q + 1, w);
    assert len * w - 1 - (q * w + r) == (len - 1 - q) * w + (w - 1 - r);
    Below(pq, pr, len - 1 - q, w);
    Below(pq, pr, len - q, w);
  }
}
