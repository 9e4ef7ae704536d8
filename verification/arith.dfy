/** Facts about integer division, products and powers that the limb arithmetic relies on. */
module Arith {

  /** The quotient and remainder of Euclidean division are determined by any decomposition a == q*d + r with 0 <= r < d. */
  lemma {:induction false} DivModUnique(a: int, d: int, q: int, r: int)
    requires d > 0 && 0 <= r < d && a == q * d + r
    ensures a / d == q && a % d == r
  {
    var q0, r0 := a / d, a % d;
    assert a == q0 * d + r0 && 0 <= r0 < d;
    assert (q0 - q) * d == r - r0;
    if q0 > q {
      MulLeq(1, q0 - q, d);
      assert false;
    } else if q0 < q {
      MulLeq(1, q - q0, d);
      assert false;
    }
  }

  lemma {:induction false} MulLeq(x: int, y: int, d: int)
    requires x <= y && d >= 0
    ensures x * d <= y * d
  {
    assert y * d - x * d == (y - x) * d;
  }

  lemma {:induction false} MulLess(x: int, y: int, d: int)
    requires x < y && d > 0
    ensures x * d < y * d
  {
    assert y * d - x * d == (y - x) * d;
  }

  /** (x*f) / (y*f) == x / y: scaling dividend and divisor by the same factor keeps the quotient. */
  lemma {:induction false} DivScaled(x: int, y: int, f: int)
    requires x >= 0 && y > 0 && f > 0
    ensures (x * f) / (y * f) == x / y
  {
    var q, r := x / y, x % y;
    assert x == q * y + r;
    assert x * f == q * (y * f) + r * f;
    MulLess(r, y, f);
    MulLeq(0, r, f);
    DivModUnique(x * f, y * f, q, r * f);
  }

  /** Division by a product is division by each factor in turn. */
  lemma {:induction false} DivDiv(x: int, p: int, q: int)
    requires p > 0 && q > 0
    ensures x / (p * q) == (x / p) / q
  {
    var a, r1 := x / p, x % p;
    var b, r2 := a / q, a % q;
    assert x == a * p + r1;
    assert a == b * q + r2;
    assert x == b * (p * q) + (r2 * p + r1);
    MulLeq(r2, q - 1, p);
    assert (q - 1) * p + p == p * q;
    MulLeq(0, r2, p);
    DivModUnique(x, p * q, b, r2 * p + r1);
  }

  /** Adding a multiple of the divisor shifts the quotient by that multiple. */
  lemma {:induction false} DivAddMultiple(l: int, x: int, p: int)
    requires p > 0 && 0 <= l < p
    ensures (l + p * x) / p == x && (l + p * x) % p == l
  {
    DivModUnique(l + p * x, p, x, l);
  }

  /** Powers of two. */
  function Pow2(k: nat): (r: int)
    ensures r >= 1
  {
    if k == 0 then 1 else 2 * Pow2(k - 1)
  }

  lemma {:induction false} Pow2Add(a: nat, b: nat)
    ensures Pow2(a + b) == Pow2(a) * Pow2(b)
  {
    if a > 0 {
      Pow2Add(a - 1, b);
      assert Pow2(a + b) == 2 * Pow2(a - 1 + b);
    }
  }

  lemma {:induction false} Pow2Monotone(a: nat, b: nat)
    requires a <= b
    ensures Pow2(a) <= Pow2(b)
  {
    if a < b {
      Pow2Monotone(a, b - 1);
    }
  }

  /**
   * Division truncating toward zero, the rule of C++'s built-in `/`:
   * the magnitude is |a| / |b| and the sign is negative when exactly one operand is.
   */
  ghost function TruncDiv(a: int, b: int): int
    requires b != 0
  {
    var q := Abs(a) / Abs(b);
    if (a < 0) != (b < 0) then -q else q
  }

  /** The remainder that goes with TruncDiv: a - b * (a / b). */
  ghost function TruncMod(a: int, b: int): int
    requires b != 0
  {
    a - b * TruncDiv(a, b)
  }

  function Abs(x: int): nat { if x < 0 then -x else x }

  /**
   * The remainder of truncating division is smaller than the divisor in magnitude and
   * carries the dividend's sign; together with TruncMod's definition, (a/b)*b + a%b == a.
   */
  lemma {:induction false} TruncModProperties(a: int, b: int)
    requires b != 0
    ensures TruncDiv(a, b) * b + TruncMod(a, b) == a
    ensures Abs(TruncMod(a, b)) < Abs(b)
    ensures a >= 0 ==> TruncMod(a, b) >= 0
    ensures a <= 0 ==> TruncMod(a, b) <= 0
  {
    var q, r := Abs(a) / Abs(b), Abs(a) % Abs(b);
    assert Abs(a) == q * Abs(b) + r && 0 <= r < Abs(b);
    var t := TruncDiv(a, b);
    assert t == (if (a < 0) != (b < 0) then -q else q);
    TruncCases(a, b, q, r, t);
  }

  lemma {:induction false} TruncCases(a: int, b: int, q: int, r: int, t: int)
    requires b != 0 && Abs(a) == q * Abs(b) + r
    requires t == (if (a < 0) != (b < 0) then -q else q)
    ensures a - b * t == (if a < 0 then -r else r)
    ensures t * b == b * t
  {
    if a >= 0 && b > 0 {
      assert b * t == q * b;
    } else if a >= 0 {
      assert b * t == q * (-b);
    } else if b > 0 {
      assert b * t == -(q * b);
    } else {
      assert b * t == -(q * (-b));
    }
  }

  /** Dividing the magnitudes and giving the quotient the XOR of the signs is TruncDiv. */
  lemma {:induction false} TruncDivOfMagnitudes(a: int, b: int, r: int, neg: bool, zero: bool)
    requires b != 0 && neg == ((a < 0) != (b < 0))
    requires zero ==> Abs(a) / Abs(b) == 0
    requires r == (if neg && !zero then -(Abs(a) / Abs(b)) else Abs(a) / Abs(b))
    ensures r == TruncDiv(a, b)
  {
  }

  /** On a non-negative dividend and a positive divisor, truncation and floor agree. */
  lemma TruncDivNonNegative(a: int, b: int)
    requires a >= 0 && b > 0
    ensures TruncDiv(a, b) == a / b && a / b >= 0
  {
    var q, r := a / b, a % b;
    assert a == q * b + r && r < b;
    if q < 0 {
      MulLeq(q, -1, b);
      assert false;
    }
  }

  lemma Reassociate(a: int, b: int, c: int)
    ensures c * (a * b) == a * (b * c)
  {
  }
}
