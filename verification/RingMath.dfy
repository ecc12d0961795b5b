/** Arithmetic of `size_t` stream positions and the ring order used on them.
    Model of base/math.hpp (ringDistance, isAtOrAfterInRing, ringLess, ringLessEq,
    ringGreater, ringGreaterEq) at UInt = size_t with 64 bits. */
module RingMath {

  const RING: int := 0x1_0000_0000_0000_0000

  /** std::numeric_limits<UInt>::max() / 2 */
  const HALF_VALUE_RANGE_MINUS_ONE: int := 0x7FFF_FFFF_FFFF_FFFF

  type Position = x: int | 0 <= x < RING witness 0

  /** The stored representation of an unbounded clock value. */
  function Wrap(clock: int): Position {
    clock % RING
  }

  /** Unsigned subtraction a - b. */
  function Minus(a: Position, b: Position): Position {
    Wrap(a - b)
  }

  /** make_signed_t<UInt>(a - b), two's complement. */
  function RingDistance(a: Position, b: Position): int {
    var d := Minus(a, b);
    if d <= HALF_VALUE_RANGE_MINUS_ONE then d else d - RING
  }

  predicate IsAtOrAfterInRing(reference: Position, probe: Position) {
    Minus(probe, reference) <= HALF_VALUE_RANGE_MINUS_ONE
  }

  predicate RingLess(a: Position, b: Position) {
    a != b && Minus(b, a) <= HALF_VALUE_RANGE_MINUS_ONE
  }

  predicate RingLessEq(a: Position, b: Position) {
    Minus(b, a) <= HALF_VALUE_RANGE_MINUS_ONE
  }

  predicate RingGreater(a: Position, b: Position) {
    a != b && Minus(a, b) <= HALF_VALUE_RANGE_MINUS_ONE
  }

  predicate RingGreaterEq(a: Position, b: Position) {
    Minus(a, b) <= HALF_VALUE_RANGE_MINUS_ONE
  }

  /** Subtracting representations subtracts the clocks modulo the ring. */
  lemma MinusOfWraps(a: int, b: int)
    ensures Minus(Wrap(a), Wrap(b)) == Wrap(a - b)
  {
    var q := a / RING - b / RING;
    assert Wrap(a) - Wrap(b) == (a - b) - q * RING;
    WrapPeriodic(a - b, -q);
  }

  lemma WrapIdentity(p: Position)
    ensures Wrap(p) == p
  {
  }

  lemma WrapPeriodic(a: int, turns: int)
    ensures Wrap(a + turns * RING) == Wrap(a)
  {
  }

  /** A distance that fits the ring is recovered exactly. */
  lemma MinusIsElapsed(a: int, b: int)
    requires 0 <= a - b < RING
    ensures Minus(Wrap(a), Wrap(b)) == a - b
  {
    MinusOfWraps(a, b);
  }

  /** The signed ring distance is the clock difference if and only if that difference is
      representable as a signed 64-bit number. */
  lemma RingDistanceIsClockDifference(a: int, b: int)
    ensures RingDistance(Wrap(a), Wrap(b)) == a - b
       <==> -HALF_VALUE_RANGE_MINUS_ONE - 1 <= a - b <= HALF_VALUE_RANGE_MINUS_ONE
  {
    MinusOfWraps(a, b);
  }

  /** Within half a ring every ring comparison agrees with the order of the unbounded clocks,
      wherever the 64-bit counter wrapped. */
  lemma RingOrderIsClockOrder(a: int, b: int)
    requires -HALF_VALUE_RANGE_MINUS_ONE <= a - b <= HALF_VALUE_RANGE_MINUS_ONE
    ensures RingLess(Wrap(a), Wrap(b)) <==> a < b
    ensures RingLessEq(Wrap(a), Wrap(b)) <==> a <= b
    ensures RingGreater(Wrap(a), Wrap(b)) <==> a > b
    ensures RingGreaterEq(Wrap(a), Wrap(b)) <==> a >= b
    ensures IsAtOrAfterInRing(Wrap(b), Wrap(a)) <==> a >= b
    ensures Wrap(a) == Wrap(b) <==> a == b
  {
    MinusOfWraps(a, b);
    MinusOfWraps(b, a);
    assert Wrap(a) == Wrap(b) ==> Wrap(a - b) == 0;
  }
}
