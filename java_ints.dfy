/** Java `int` facts the model needs: the two sentinels the search uses and
    Java's truncating division, which differs from Dafny's Euclidean one on
    negative operands. */
module JavaInts {
  /** Integer.MIN_VALUE */
  const MinInt: int := -0x8000_0000
  /** Integer.MAX_VALUE */
  const MaxInt: int := 0x7fff_ffff

  /** Java's `a / b` for a positive divisor: rounds toward zero. */
  function JavaDiv(a: int, b: int): int
    requires b > 0
  {
    if a >= 0 then a / b else -((-a) / b)
  }

  /** Java's `a % b` for a positive divisor: takes the sign of `a`. */
  function JavaRem(a: int, b: int): int
    requires b > 0
  {
    if a >= 0 then a % b else -((-a) % b)
  }

  /** Java's division identity: the quotient rounds toward zero and the
      remainder, which takes the sign of the dividend, makes up the rest. */
  lemma JavaDivRem(a: int, b: int)
    requires b > 0
    ensures a == JavaDiv(a, b) * b + JavaRem(a, b)
    ensures a >= 0 ==> 0 <= JavaRem(a, b) < b
    ensures a < 0 ==> -b < JavaRem(a, b) <= 0
  {
    if a < 0 {
      var q, m := (-a) / b, (-a) % b;
      assert -a == q * b + m;
      assert JavaDiv(a, b) * b == -(q * b);
    }
  }
}

module Wrappers {
  datatype Option<T> = None | Some(value: T)
}

/** The two value types the board is made of (their Java classes are
    Side and Square). */
module Squares {
  /** The owner of a square; WHITE marks a square nobody has claimed. */
  datatype Side = RED | BLUE | WHITE

  /** The contents of one square: its owner and its number of spots. */
  datatype Square = Square(side: Side, spots: int)

  /** The opponent of a player. */
  function Opposite(s: Side): Side
  {
    match s
    case RED => BLUE
    case BLUE => RED
    case WHITE => WHITE
  }
}
