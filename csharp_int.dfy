/** C#'s 32-bit `int` and its unchecked addition, which wraps modulo 2^32. */
module CSharpInt {

  const Modulus: int := 0x1_0000_0000
  const Half: int := 0x8000_0000

  newtype Int32 = x: int | -0x8000_0000 <= x < 0x8000_0000

  predicate InRange(x: int) {
    -Half <= x < Half
  }

  /** The 32-bit value that `x` wraps to: add or remove 2^32 until it fits. */
  function Wrap(x: int): (r: Int32)
    ensures InRange(x) ==> r as int == x
    decreases if x < 0 then -x else x + 1
  {
    if x < -Half then Wrap(x + Modulus)
    else if x >= Half then Wrap(x - Modulus)
    else x as Int32
  }

  /** `a + b` as unchecked C# computes it. */
  function WrappingAdd(a: Int32, b: Int32): (r: Int32)
    ensures InRange(a as int + b as int) ==> r as int == a as int + b as int
  {
    Wrap(a as int + b as int)
  }

  /** Wrapping keeps the value modulo 2^32. */
  lemma {:induction false} WrapCongruent(x: int)
    ensures (x - Wrap(x) as int) % Modulus == 0
    decreases if x < 0 then -x else x + 1
  {
    if x < -Half {
      WrapCongruent(x + Modulus);
    } else if x >= Half {
      WrapCongruent(x - Modulus);
    }
  }

  /** The only 32-bit value congruent to `x` modulo 2^32 is `Wrap(x)`. */
  lemma WrapUnique(x: int, r: int)
    requires InRange(r) && (x - r) % Modulus == 0
    ensures Wrap(x) as int == r
  {
    var w := Wrap(x) as int;
    WrapCongruent(x);
    var q1 := (x - r) / Modulus;
    var q2 := (x - w) / Modulus;
    assert x - r == Modulus * q1;
    assert x - w == Modulus * q2;
    assert w - r == Modulus * (q1 - q2);
  }

  /** Wrapping after every addition is the same as wrapping once at the end. */
  lemma WrapAbsorbs(x: int, c: int)
    ensures Wrap(Wrap(x) as int + c) == Wrap(x + c)
  {
    var w := Wrap(x) as int;
    var r := Wrap(w + c) as int;
    WrapCongruent(x);
    WrapCongruent(w + c);
    var q1 := (x - w) / Modulus;
    var q2 := (w + c - r) / Modulus;
    assert x - w == Modulus * q1;
    assert w + c - r == Modulus * q2;
    assert x + c - r == Modulus * (q1 + q2);
    WrapUnique(x + c, r);
  }
}
