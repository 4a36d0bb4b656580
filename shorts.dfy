/** The element type of the list: C#'s `short`, a signed 16-bit integer, and
    the wrap-around that unchecked `short` arithmetic performs. */
module Shorts {

  newtype int16 = x: int | -0x8000 <= x < 0x8000

  /** Number of distinct 16-bit values. */
  const Modulus: int := 0x1_0000

  /** The `short` that an integer becomes when it is narrowed without an
      overflow check (`sum += v` on a `short` in an unchecked context):
      the unique 16-bit value congruent to `x` modulo 2^16. */
  function Wrap16(x: int): (r: int16)
    ensures (x - r as int) % Modulus == 0
    ensures -0x8000 <= x < 0x8000 ==> r as int == x
  {
    var q := (x + 0x8000) / Modulus;
    assert x - ((x + 0x8000) % Modulus - 0x8000) == q * Modulus;
    ((x + 0x8000) % Modulus - 0x8000) as int16
  }

  /** Two 16-bit values that are congruent modulo 2^16 are equal. */
  lemma CongruentShortsEqual(a: int16, b: int16)
    requires (a as int - b as int) % Modulus == 0
    ensures a == b
  {
    var d := a as int - b as int;
    assert d == Modulus * (d / Modulus);
  }

  /** Wrapping after every addition gives the same `short` as wrapping once
      at the end: the accumulator of a `short` sum loop is the wrapped
      mathematical sum. */
  lemma WrapAdd(total: int, v: int)
    ensures Wrap16(Wrap16(total) as int + v) == Wrap16(total + v)
  {
    var w := Wrap16(total) as int;
    var r1 := Wrap16(w + v) as int;
    var r2 := Wrap16(total + v) as int;
    assert total - w == Modulus * ((total - w) / Modulus);
    assert w + v - r1 == Modulus * ((w + v - r1) / Modulus);
    assert total + v - r2 == Modulus * ((total + v - r2) / Modulus);
    assert r1 - r2 == Modulus * ((total + v - r2) / Modulus - (w + v - r1) / Modulus - (total - w) / Modulus);
    CongruentShortsEqual(r1 as int16, r2 as int16);
  }
}
