/**
 Unsigned machine words as natural numbers: the bits of a number, and Go's operators
 `|`, `&`, `&^`, `<<` and `>>` on words of a given width.
 */
module Bits {

  function Pow2(k: nat): (p: nat)
    ensures p > 0
  {
    if k == 0 then 1 else 2 * Pow2(k - 1)
  }

  /** Bit `k` of `x`, counted from the least significant one. */
  predicate Bit(x: nat, k: nat) {
    if k == 0 then x % 2 == 1 else Bit(x / 2, k - 1)
  }

  /** The lowest `w` bits of `x`: what a word of `w` bits keeps of it. */
  function Low(x: nat, w: nat): nat {
    if w == 0 then 0 else 2 * Low(x / 2, w - 1) + x % 2
  }

  function Doubled(x: nat, s: nat): nat {
    if s == 0 then x else 2 * Doubled(x, s - 1)
  }

  /** Go's `x << s` on words of `w` bits: high bits fall off. */
  function Shl(x: nat, s: nat, w: nat): nat {
    Low(Doubled(x, s), w)
  }

  /** Go's `x >> s` on unsigned words. */
  function Shr(x: nat, s: nat): nat {
    if s == 0 then x else Shr(x / 2, s - 1)
  }

  function Or(x: nat, y: nat): nat {
    if x == 0 && y == 0 then 0
    else 2 * Or(x / 2, y / 2) + if x % 2 == 1 || y % 2 == 1 then 1 else 0
  }

  function And(x: nat, y: nat): nat {
    if x == 0 || y == 0 then 0
    else 2 * And(x / 2, y / 2) + if x % 2 == 1 && y % 2 == 1 then 1 else 0
  }

  /** Go's `x &^ y`. */
  function AndNot(x: nat, y: nat): nat
    decreases x
  {
    if x == 0 then 0
    else 2 * AndNot(x / 2, y / 2) + if x % 2 == 1 && y % 2 == 0 then 1 else 0
  }

  // ----- what each operator does to the bits -----

  lemma {:induction false} BitOfZero(k: nat)
    ensures !Bit(0, k)
  {
    if k > 0 {
      BitOfZero(k - 1);
    }
  }

  lemma {:induction false} BitOr(x: nat, y: nat, k: nat)
    ensures Bit(Or(x, y), k) == (Bit(x, k) || Bit(y, k))
    decreases k
  {
    if x == 0 && y == 0 {
      BitOfZero(k);
    } else {
      var half, low := Or(x / 2, y / 2), if x % 2 == 1 || y % 2 == 1 then 1 else 0;
      assert Or(x, y) == 2 * half + low;
      if k > 0 {
        BitOr(x / 2, y / 2, k - 1);
        assert (2 * half + low) / 2 == half;
      }
    }
  }

  lemma {:induction false} BitAnd(x: nat, y: nat, k: nat)
    ensures Bit(And(x, y), k) == (Bit(x, k) && Bit(y, k))
    decreases k
  {
    if x == 0 || y == 0 {
      BitOfZero(k);
    } else {
      var half, low := And(x / 2, y / 2), if x % 2 == 1 && y % 2 == 1 then 1 else 0;
      assert And(x, y) == 2 * half + low;
      if k > 0 {
        BitAnd(x / 2, y / 2, k - 1);
        assert (2 * half + low) / 2 == half;
      }
    }
  }

  lemma {:induction false} BitAndNot(x: nat, y: nat, k: nat)
    ensures Bit(AndNot(x, y), k) == (Bit(x, k) && !Bit(y, k))
    decreases k
  {
    if x == 0 {
      BitOfZero(k);
    } else {
      var half, low := AndNot(x / 2, y / 2), if x % 2 == 1 && y % 2 == 0 then 1 else 0;
      assert AndNot(x, y) == 2 * half + low;
      if k > 0 {
        BitAndNot(x / 2, y / 2, k - 1);
        assert (2 * half + low) / 2 == half;
      }
    }
  }

  lemma {:induction false} BitOfLow(x: nat, w: nat, k: nat)
    ensures Bit(Low(x, w), k) == (k < w && Bit(x, k))
    decreases w
  {
    if w == 0 {
      BitOfZero(k);
    } else {
      LowByHalves(x, w);
      BitByHalves(x, k);
      BitByHalves(Low(x, w), k);
      hide Low, Bit;
      if k > 0 {
        BitOfLow(x / 2, w - 1, k - 1);
      }
    }
  }

  lemma LowByHalves(x: nat, w: nat)
    requires w > 0
    ensures Low(x, w) / 2 == Low(x / 2, w - 1) && Low(x, w) % 2 == x % 2
  {
  }

  lemma BitByHalves(x: nat, k: nat)
    ensures Bit(x, k) == if k == 0 then x % 2 == 1 else Bit(x / 2, k - 1)
  {
  }

  lemma {:induction false} BitOfDoubled(x: nat, s: nat, k: nat)
    ensures Bit(Doubled(x, s), k) == (k >= s && Bit(x, k - s))
    decreases s
  {
    if s > 0 && k > 0 {
      BitOfDoubled(x, s - 1, k - 1);
      assert Doubled(x, s) / 2 == Doubled(x, s - 1);
    }
  }

  lemma BitShl(x: nat, s: nat, w: nat, k: nat)
    ensures Bit(Shl(x, s, w), k) == (s <= k < w && Bit(x, k - s))
  {
    BitOfLow(Doubled(x, s), w, k);
    BitOfDoubled(x, s, k);
  }

  lemma {:induction false} BitShr(x: nat, s: nat, k: nat)
    ensures Bit(Shr(x, s), k) == Bit(x, k + s)
    decreases s
  {
    if s > 0 {
      BitShr(x / 2, s - 1, k);
    }
  }

  /** A power of two has exactly one bit. */
  lemma {:induction false} BitOfPow2(s: nat, k: nat)
    ensures Bit(Pow2(s), k) == (k == s)
    decreases s
  {
    if s == 0 && k > 0 {
      BitOfZero(k - 1);
    } else if s > 0 && k > 0 {
      BitOfPow2(s - 1, k - 1);
      assert Pow2(s) / 2 == Pow2(s - 1);
    }
  }

  /** Two fields laid side by side: the high one above bit `w`, the low one below it. */
  lemma {:induction false} BitOfFields(high: nat, low: nat, w: nat, k: nat)
    requires low < Pow2(w)
    ensures Bit(Doubled(high, w) + low, k) == if k < w then Bit(low, k) else Bit(high, k - w)
    decreases w
  {
    if w > 0 && k > 0 {
      BitOfFields(high, low / 2, w - 1, k - 1);
      assert (Doubled(high, w) + low) / 2 == Doubled(high, w - 1) + low / 2;
    }
  }

  lemma {:induction false} NoBitsAbove(x: nat, n: nat, k: nat)
    requires x < Pow2(n) && n <= k
    ensures !Bit(x, k)
    decreases n
  {
    if n == 0 {
      BitOfZero(k);
    } else {
      NoBitsAbove(x / 2, n - 1, k - 1);
    }
  }

  /** A number is determined by its bits. */
  lemma {:induction false} SameBits(x: nat, y: nat, n: nat)
    requires x < Pow2(n) && y < Pow2(n)
    requires forall k :: 0 <= k < n ==> Bit(x, k) == Bit(y, k)
    ensures x == y
    decreases n
  {
    if n > 0 {
      assert Bit(x, 0) == Bit(y, 0);
      forall k | 0 <= k < n - 1
        ensures Bit(x / 2, k) == Bit(y / 2, k)
      {
        assert Bit(x, k + 1) == Bit(y, k + 1);
      }
      SameBits(x / 2, y / 2, n - 1);
    }
  }

  lemma {:induction false} Pow2Grows(a: nat, b: nat)
    requires a <= b
    ensures Pow2(a) <= Pow2(b)
    decreases b
  {
    if a < b {
      Pow2Grows(a, b - 1);
    }
  }

  lemma {:induction false} OrFits(x: nat, y: nat, w: nat)
    requires x < Pow2(w) && y < Pow2(w)
    ensures Or(x, y) < Pow2(w)
    decreases w
  {
    if w > 0 && (x > 0 || y > 0) {
      OrFits(x / 2, y / 2, w - 1);
    }
  }

  lemma {:induction false} AndNotFits(x: nat, y: nat)
    ensures AndNot(x, y) <= x
  {
    if x > 0 {
      AndNotFits(x / 2, y / 2);
    }
  }

  lemma {:induction false} LowFits(x: nat, w: nat)
    ensures Low(x, w) < Pow2(w)
  {
    if w > 0 {
      LowFits(x / 2, w - 1);
    }
  }

  lemma {:induction false} LowOfSmall(x: nat, w: nat)
    requires x < Pow2(w)
    ensures Low(x, w) == x
  {
    if w > 0 {
      LowOfSmall(x / 2, w - 1);
    }
  }

  lemma {:induction false} ShrFits(x: nat, s: nat)
    ensures Shr(x, s) <= x
  {
    if s > 0 {
      ShrFits(x / 2, s - 1);
    }
  }

  lemma {:induction false} ShiftedFieldFits(high: nat, low: nat, n: nat, w: nat)
    requires high < Pow2(n) && low < Pow2(w)
    ensures Doubled(high, w) + low < Pow2(n + w)
    decreases w
  {
    if w > 0 {
      ShiftedFieldFits(high, low / 2, n, w - 1);
    }
  }

  /** Masking with `2^b - 1` keeps the low bits: why `pos & mask` is a position in a word. */
  lemma {:induction false} MaskIsLow(x: nat, b: nat)
    ensures And(x, Pow2(b) - 1) == Low(x, b)
    decreases b
  {
    if b > 0 {
      MaskIsLow(x / 2, b - 1);
      assert (Pow2(b) - 1) / 2 == Pow2(b - 1) - 1;
    }
  }

  lemma {:induction false} AndFits(x: nat, y: nat)
    ensures And(x, y) <= x && And(x, y) <= y
  {
    if x > 0 && y > 0 {
      AndFits(x / 2, y / 2);
    }
  }

  /** Go's test `x & (1 << k) != 0` reads bit `k`. */
  lemma TestBit(x: nat, k: nat)
    ensures And(x, Pow2(k)) != 0 <==> Bit(x, k)
  {
    BitAnd(x, Pow2(k), k);
    BitOfPow2(k, k);
    if And(x, Pow2(k)) == 0 {
      BitOfZero(k);
    } else if !Bit(x, k) {
      var y := And(x, Pow2(k));
      AndFits(x, Pow2(k));
      forall j | 0 <= j < k + 1
        ensures Bit(y, j) == Bit(0, j)
      {
        BitAnd(x, Pow2(k), j);
        BitOfPow2(k, j);
        BitOfZero(j);
      }
      SameBits(y, 0, k + 1);
    }
  }

  // ----- the same operators as arithmetic -----

  lemma Distributes(a: int, b: int, d: int)
    ensures (a - b) * d == a * d - b * d
  {
  }

  lemma AtLeastOnce(a: nat, d: nat)
    requires a > 0
    ensures a * d >= d
  {
  }

  lemma DivisionIsUnique(x: int, d: nat, q: int, r: nat)
    requires r < d && x == q * d + r
    ensures x / d == q && x % d == r
  {
    var q', r' := x / d, x % d;
    Distributes(q', q, d);
    if q' > q {
      AtLeastOnce(q' - q, d);
    } else if q' < q {
      Distributes(q, q', d);
      AtLeastOnce(q - q', d);
    }
  }

  lemma {:induction false} DoubledIsProduct(x: nat, s: nat)
    ensures Doubled(x, s) == x * Pow2(s)
  {
    if s > 0 {
      DoubledIsProduct(x, s - 1);
    }
  }

  /** `x >> s` and the `s` bits it drops are quotient and remainder of the division by `2^s`. */
  lemma {:induction false} ShrSplits(x: nat, s: nat)
    ensures x == Doubled(Shr(x, s), s) + Low(x, s)
  {
    if s > 0 {
      ShrSplits(x / 2, s - 1);
    }
  }

  lemma {:induction false} LowSplits(x: nat, s: nat, w: nat)
    ensures Low(x, s + w) == Low(x, s) + Doubled(Low(Shr(x, s), w), s)
  {
    if s > 0 {
      LowSplits(x / 2, s - 1, w);
    }
  }

  lemma ShiftsAreDivision(x: nat, s: nat)
    ensures Shr(x, s) == x / Pow2(s) && Low(x, s) == x % Pow2(s)
  {
    ShrSplits(x, s);
    DoubledIsProduct(Shr(x, s), s);
    LowFits(x, s);
    DivisionIsUnique(x, Pow2(s), Shr(x, s), Low(x, s));
  }

  /** `x << s` on words of `w` bits is `x * 2^s` modulo `2^w`. */
  lemma ShlIsProduct(x: nat, s: nat, w: nat)
    ensures Shl(x, s, w) == x * Pow2(s) % Pow2(w)
  {
    DoubledIsProduct(x, s);
    ShiftsAreDivision(Doubled(x, s), w);
  }
}
