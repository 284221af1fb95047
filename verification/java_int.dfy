/** Java's 32-bit `int`, as used for a note's like counter.
    Java integer arithmetic never fails on overflow: the result is the
    mathematical result reduced to 32-bit two's complement. */
module JavaInt {

  const MIN_INT: int := -0x8000_0000
  const MAX_INT: int := 0x7fff_ffff
  const MODULUS: int := 0x1_0000_0000

  type Int32 = x: int | MIN_INT <= x <= MAX_INT

  /** Narrowing of a mathematical integer to `int` (two's-complement wrap-around). */
  function Wrap(x: int): (r: Int32)
    ensures (x - r) % MODULUS == 0
    ensures MIN_INT <= x <= MAX_INT ==> r == x
  {
    MIN_INT + (x - MIN_INT) % MODULUS
  }

  /** Java's `x++` on an `int`. */
  function Increment(x: Int32): (r: Int32)
    ensures x < MAX_INT ==> r == x + 1
    ensures x == MAX_INT ==> r == MIN_INT
  {
    if x == MAX_INT then MIN_INT else x + 1
  }

  /** Java's `x--` on an `int`. */
  function Decrement(x: Int32): (r: Int32)
    ensures x > MIN_INT ==> r == x - 1
    ensures x == MIN_INT ==> r == MAX_INT
  {
    if x == MIN_INT then MAX_INT else x - 1
  }

  /** Increment and decrement undo each other on every `int`, overflow included. */
  lemma IncrementDecrementInverse(x: Int32)
    ensures Decrement(Increment(x)) == x
    ensures Increment(Decrement(x)) == x
  {
  }

  /** `++` and `--` are the mathematical successor and predecessor narrowed
      back to `int`, as Java's integer arithmetic prescribes. */
  lemma StepsAreNarrowedSums(x: Int32)
    ensures Increment(x) == Wrap(x + 1)
    ensures Decrement(x) == Wrap(x - 1)
  {
  }

  /** Adding to an already wrapped value is the same as wrapping the whole sum. */
  lemma WrapShift(x: int, d: int)
    ensures Wrap(Wrap(x) + d) == Wrap(x + d)
  {
  }

  /** One `++` on a wrapped sum advances the sum by one. */
  lemma IncrementWrap(x: int)
    ensures Increment(Wrap(x)) == Wrap(x + 1)
  {
    StepsAreNarrowedSums(Wrap(x));
    WrapShift(x, 1);
  }

  /** One `--` on a wrapped sum moves the sum back by one. */
  lemma DecrementWrap(x: int)
    ensures Decrement(Wrap(x)) == Wrap(x - 1)
  {
    StepsAreNarrowedSums(Wrap(x));
    WrapShift(x, -1);
  }
}
