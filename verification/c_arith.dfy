/**
 * C++ integer division and remainder. Dafny's `/` and `%` are Euclidean; the
 * kernel's integer scalars divide with truncation toward zero, so every
 * arithmetic in the model that stands for C++ `/` or `%` goes through here.
 */
module CArith {

  function Abs(x: int): nat {
    if x < 0 then -x else x
  }

  /**
   * C++ `a / b`: the quotient rounded toward zero. For a non-negative
   * dividend the Euclidean quotient already rounds toward zero, whatever the
   * divisor's sign; a negative dividend is divided as its negation.
   */
  function TruncDiv(a: int, b: int): int
    requires b != 0
  {
    if a >= 0 then a / b else -((-a) / b)
  }

  /** C++ `a % b`: the remainder whose sign follows the dividend. */
  function TruncMod(a: int, b: int): int
    requires b != 0
  {
    if a >= 0 then a % b else -((-a) % b)
  }

  /** The C++ pair satisfies the division identity, the remainder is smaller than the divisor and never has the opposite sign of the dividend. */
  lemma TruncDivModSpec(a: int, b: int)
    requires b != 0
    ensures a == b * TruncDiv(a, b) + TruncMod(a, b)
    ensures Abs(TruncMod(a, b)) < Abs(b)
    ensures a >= 0 ==> TruncMod(a, b) >= 0
    ensures a <= 0 ==> TruncMod(a, b) <= 0
  {
    if a < 0 {
      var q := (-a) / b;
      var r := (-a) % b;
      assert -a == b * q + r;
      assert a == b * (-q) + (-r);
    }
  }

  /** On a non-negative dividend and a positive divisor C++ and Euclidean division agree. */
  lemma TruncAgreesWithEuclid(a: int, b: int)
    requires a >= 0 && b > 0
    ensures TruncDiv(a, b) == a / b
    ensures TruncMod(a, b) == a % b
  {
  }

  /** On a negative dividend the two disagree: -7 / 2 is -3 in C++ and -4 in Dafny. */
  lemma TruncDiffersOnNegative()
    ensures TruncDiv(-7, 2) == -3 && -7 / 2 == -4
    ensures TruncMod(-7, 2) == -1 && -7 % 2 == 1
  {
  }

  /** C++ `ceilDiv(a, b)` as the kernel writes it, `(a + b - 1) / b`. */
  function CeilDiv(a: int, b: int): int
    requires b != 0
  {
    TruncDiv(a + b - 1, b)
  }

  /** For a non-negative dividend and a positive divisor `ceilDiv` is the least multiple count covering the dividend. */
  lemma CeilDivIsCeiling(a: int, b: int)
    requires a >= 0 && b > 0
    ensures (CeilDiv(a, b) - 1) * b < a <= CeilDiv(a, b) * b
  {
    var q := (a + b - 1) / b;
    var r := (a + b - 1) % b;
    assert a + b - 1 == b * q + r;
    assert q * b == a + b - 1 - r;
  }
}
