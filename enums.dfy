/** The immutable vocabulary of an animation: its directions, the behaviour at
    the end of the envelope and between cycles, and the configuration that the
    builder hands to an Animator once and for all. */
module AnimatorEnums {
  import Arith

  /** The direction in which a cycle runs. */
  datatype Direction = Forward | Backward

  /** Direction.getOppositeDirection: each direction names the other one. */
  function Opposite(d: Direction): (r: Direction)
    ensures r != d
  {
    match d
    case Forward => Backward
    case Backward => Forward
  }

  /** Turning round twice faces the original way. */
  lemma OppositeInvolutive(d: Direction)
    ensures Opposite(Opposite(d)) == d
  {
  }

  /** What the fraction shows once the repeats are used up. */
  datatype EndBehavior = Hold | Reset

  /** How successive cycles follow each other. */
  datatype RepeatBehavior = Loop | Reverse

  /** The repeat count that never runs out. */
  const INFINITE: int := -1

  /** The builder's settings. The duration is already in nanoseconds. */
  datatype Config = Config(
    duration: int,
    endBehavior: EndBehavior,
    repeatBehavior: RepeatBehavior,
    repeatCount: int,
    startDirection: Direction)

  /** What the builder guarantees about its settings: a cycle lasts at least one
      tick of the clock, and the repeat count is positive or INFINITE. */
  predicate ValidConfig(c: Config)
  {
    c.duration >= 1 && (c.repeatCount == INFINITE || c.repeatCount >= 1)
  }

  /** Java's `long` division, which truncates toward zero (Dafny's `/` floors
      for a positive divisor). */
  function JavaDiv(a: int, b: int): int
    requires b > 0
  {
    if a >= 0 then a / b else -((-a) / b)
  }

  /** The quotient is the multiple of `b` nearest zero without passing `a`:
      below `a` for a non-negative dividend, above it for a negative one. */
  lemma JavaDivTruncates(a: int, b: int)
    requires b > 0
    ensures var q := JavaDiv(a, b);
      && (0 <= a ==> 0 <= q * b <= a < q * b + b)
      && (a < 0 ==> q * b - b < a <= q * b <= 0)
  {
    if a >= 0 {
      Arith.DivBounds(a, b);
    } else {
      var p := (-a) / b;
      Arith.DivBounds(-a, b);
      assert (-p) * b == -(p * b);
    }
  }
}
