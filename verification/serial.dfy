/**
 Wrapping 32-bit counters and their serial comparison (section 3.2 of RFC 1982).
 Every unwrapped number is an `int`; `Wrap` is what a uint32 keeps of it.
 */
module Serial {

  const MODULUS := 0x1_0000_0000
  /** `(T(0) - 1) >> 1` for uint32. */
  const HALF := 0x7FFF_FFFF

  type uint32 = x: nat | x < 0x1_0000_0000

  function Wrap(n: int): uint32 {
    n % 0x1_0000_0000
  }

  /** uint32 subtraction. */
  function Minus(a: uint32, b: uint32): uint32 {
    Wrap(a - b)
  }

  /** The difference of two wrapped numbers is that of the numbers, modulo the range. */
  lemma MinusOfWraps(a: int, b: int)
    ensures Minus(Wrap(a), Wrap(b)) == Wrap(a - b)
    ensures 0 <= a - b < MODULUS ==> Minus(Wrap(a), Wrap(b)) == a - b
    ensures -MODULUS < a - b < 0 ==> Minus(Wrap(a), Wrap(b)) == MODULUS + (a - b)
  {
  }

  predicate IsSequenceNumberInFuture(rightEdge: uint32, sequenceNumber: uint32) {
    var jump := Minus(sequenceNumber, rightEdge);
    jump > 0 && jump <= HALF
  }

  /** The unwrapped number nearest to `around` that a received counter can stand for. */
  function Unwrap(around: int, n: uint32): (m: int)
    ensures Wrap(m) == n && -HALF - 1 <= m - around <= HALF
  {
    var jump := Minus(n, Wrap(around));
    if jump <= HALF then around + jump else around + jump - MODULUS
  }

  /** A received counter is read back as the number that was sent, unless the two are half the range apart. */
  lemma UnwrapIsInverse(around: int, m: int)
    ensures Unwrap(around, Wrap(m)) == m <==> -HALF - 1 <= m - around <= HALF
  {
  }

  /** The serial comparison is the comparison of the unwrapped numbers exactly within half the range. */
  lemma SerialComparison(a: int, b: int)
    requires -MODULUS < b - a < MODULUS
    ensures (IsSequenceNumberInFuture(Wrap(a), Wrap(b)) <==> a < b) <==> -HALF - 1 <= b - a <= HALF
  {
    MinusOfWraps(b, a);
    hide Minus, Wrap;
  }

  /** Half the range apart, neither number is in the future of the other. */
  lemma OppositeNumbers(a: int)
    ensures !IsSequenceNumberInFuture(Wrap(a), Wrap(a + HALF + 1))
    ensures !IsSequenceNumberInFuture(Wrap(a + HALF + 1), Wrap(a))
  {
  }

  /** The comparison is not transitive around the circle. */
  lemma SerialComparisonCycles()
    ensures IsSequenceNumberInFuture(0, 0x6000_0000)
    ensures IsSequenceNumberInFuture(0x6000_0000, 0xC000_0000)
    ensures IsSequenceNumberInFuture(0xC000_0000, 0)
  {
  }
}
