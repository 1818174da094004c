/** The three Unity engine calls the game logic depends on: Mathf.Clamp,
    Mathf.Max and UnityEngine.Random.Range(int, int). Random numbers are an
    explicit input: a RandomSource answers its k-th Range call from Draw(k). */
module UnityMath {

  /** Mathf.Clamp for ints: a value below `min` becomes `min`, otherwise a value
      above `max` becomes `max`. */
  function Clamp(value: int, min: int, max: int): (r: int)
    ensures min <= max ==> min <= r <= max
    ensures min <= value <= max ==> r == value
    ensures r == value || r == min || r == max
  {
    if value < min then min else if value > max then max else value
  }

  /** Mathf.Abs for ints. */
  function Abs(value: int): (r: nat)
    ensures r == value || r == -value
  {
    if value < 0 then -value else value
  }

  /** Mathf.Max for ints. */
  function Max(a: int, b: int): (r: int)
    ensures r >= a && r >= b && (r == a || r == b)
  {
    if a > b then a else b
  }

  /** The answer Random.Range(min, max) gives when the stream's next draw is `d`:
      a value in [min, max), or `min` itself when the range is empty. */
  function RangeOf(d: nat, min: int, max: int): (r: int)
    requires min <= max
    ensures min < max ==> min <= r < max
    ensures min == max ==> r == min
  {
    if min == max then min else min + d % (max - min)
  }

  /** The answer of a stream's k-th Range(min, max) call. */
  function RangeAt(draw: nat -> nat, k: nat, min: int, max: int): (r: int)
    requires min <= max
    ensures min < max ==> min <= r < max
    ensures min == max ==> r == min
  {
    RangeOf(draw(k), min, max)
  }

  /** Every value of a non-empty range is the answer to some draw, so a result
      proved for every stream covers every run of the engine's generator. */
  lemma RangeOfIsOnto(min: int, max: int, v: int)
    requires min <= v < max
    ensures RangeOf((v - min) as nat, min, max) == v
  {
  }

  /** The engine's random number generator, as a stream of draws. */
  class RandomSource {
    const Draw: nat -> nat
    var Calls: nat

    constructor (draw: nat -> nat)
      ensures Draw == draw && Calls == 0
    {
      Draw := draw;
      Calls := 0;
    }

    /** UnityEngine.Random.Range(int min, int max): max is exclusive. */
    method Range(min: int, max: int) returns (r: int)
      requires min <= max
      modifies this`Calls
      ensures Calls == old(Calls) + 1
      ensures r == RangeAt(Draw, old(Calls), min, max)
      ensures min < max ==> min <= r < max
    {
      r := RangeAt(Draw, Calls, min, max);
      Calls := Calls + 1;
    }
  }
}
