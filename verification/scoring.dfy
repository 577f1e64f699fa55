/**
 * The score ledger: ScoreManager keeps one C# `int` that AddScore and
 * SubtractScore update in place. C# arithmetic on `int` is unchecked, so an
 * update that leaves the 32-bit range wraps around; nothing clamps the score,
 * so it may go negative.
 */
module Scoring {

  const Half: int := 0x8000_0000
  const Modulus: int := 0x1_0000_0000

  /** The values of a C# `int`. */
  type Int32 = x: int | -0x8000_0000 <= x < 0x8000_0000

  /** Two's-complement wrap-around of an exact result into a C# `int`. */
  function Wrap32(x: int): (r: Int32)
    ensures -Half <= x < Half ==> r == x
    ensures (x - r) % Modulus == 0
  {
    var q := (x + Half) / Modulus;
    assert x + Half == q * Modulus + (x + Half) % Modulus;
    (x + Half) % Modulus - Half
  }

  /** Adding a whole number of periods does not change the wrapped value. */
  lemma WrapPeriodic(x: int, q: int)
    ensures Wrap32(x + q * Modulus) == Wrap32(x)
  {
    var r := (x + Half) % Modulus;
    var p := (x + Half) / Modulus;
    assert x + Half == p * Modulus + r;
    assert x + q * Modulus + Half == (p + q) * Modulus + r;
    ModOfMultiplePlus(p + q, r);
  }

  lemma ModOfMultiplePlus(k: int, r: int)
    requires 0 <= r < Modulus
    ensures (k * Modulus + r) % Modulus == r
  {
  }

  /**
   * AddScore(a) followed by SubtractScore(a) restores the score, also when
   * the addition wrapped around.
   */
  lemma AddThenSubtractRestores(s: Int32, a: Int32)
    ensures Wrap32(Wrap32(s + a) - a) == s
  {
  }

  class ScoreManager {
    var score: Int32

    /** A new ledger holds the C# default 0. */
    constructor ()
      ensures score == 0
    {
      score := 0;
    }

    method AddScore(amount: Int32)
      modifies this
      ensures score == Wrap32(old(score) + amount)
      ensures -Half <= old(score) + amount < Half ==> score == old(score) + amount
    {
      score := Wrap32(score + amount);
    }

    method SubtractScore(amount: Int32)
      modifies this
      ensures score == Wrap32(old(score) - amount)
      ensures -Half <= old(score) - amount < Half ==> score == old(score) - amount
    {
      score := Wrap32(score - amount);
    }

    /** The stored score; reading it changes nothing. */
    function CurrentScore(): Int32
      reads this
    {
      score
    }
  }
}
