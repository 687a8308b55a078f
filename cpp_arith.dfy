/**
 * The C++ meaning of integer division. Dafny's `/` is Euclidean (the remainder is never
 * negative); C++ `/` truncates the quotient toward zero, so the remainder takes the
 * sign of the dividend.
 */
module CppArith {

  function Abs(x: int): nat {
    if x < 0 then -x else x
  }

  /** `a / b` on C++ integers. */
  function TruncDiv(a: int, b: int): int
    requires b != 0
  {
    if (a < 0) == (b < 0) then Abs(a) / Abs(b) else -(Abs(a) / Abs(b))
  }

  /**
   * The C++ standard's characterisation: `(a / b) * b + a % b == a`, where the remainder
   * `a % b` is smaller than the divisor in magnitude and is zero or has the sign of `a`.
   */
  lemma TruncDivCharacterized(a: int, b: int)
    requires b != 0
    ensures var r := a - TruncDiv(a, b) * b;
      Abs(r) < Abs(b) && (r == 0 || (r < 0) == (a < 0))
  {
  }

  /** Only one quotient meets that characterisation, so it pins the truncated quotient down. */
  lemma TruncDivUnique(a: int, b: int, q: int)
    requires b != 0
    requires Abs(a - q * b) < Abs(b)
    requires a - q * b == 0 || (a - q * b < 0) == (a < 0)
    ensures q == TruncDiv(a, b)
  {
    TruncDivCharacterized(a, b);
    var t := TruncDiv(a, b);
    var r, s := a - q * b, a - t * b;
    // Both remainders lie strictly within one divisor of zero, on the side of a.
    assert Abs(r - s) < Abs(b);
    assert r - s == (t - q) * b by { MulSubDistributes(t, q, b); }
    if t != q {
      AbsMul(t - q, b);
      MulAtLeastOne(Abs(t - q), Abs(b));
      assert false;
    }
  }

  lemma MulSubDistributes(t: int, q: int, b: int)
    ensures (t - q) * b == t * b - q * b
  {
  }

  lemma AbsMul(x: int, y: int)
    ensures Abs(x * y) == Abs(x) * Abs(y)
  {
  }

  lemma MulAtLeastOne(k: nat, n: nat)
    requires k >= 1
    ensures k * n >= n
  {
  }
}
