/** The arithmetic behind the single-limb and schoolbook multiplication and the single-limb division. */
module LimbProducts {
  import opened Arith
  import opened Limbs

  /** A limb times a limb plus a limb carry fits in two limbs, so the carry stays a limb. */
  lemma {:induction false} ProductFits(x: int, y: int, c: int, d: int)
    requires 0 <= x < BASE && 0 <= y < BASE && 0 <= c < BASE && 0 <= d < BASE
    ensures 0 <= x * y + c + d < BASE * BASE
    ensures (x * y + c + d) / BASE < BASE
  {
    MulLeq(x, BASE - 1, y);
    MulLeq(y, BASE - 1, BASE - 1);
    assert (BASE - 1) * (BASE - 1) + 2 * (BASE - 1) < BASE * BASE;
    MulLeq(0, x, y);
  }

  /** One step of `mul_uint`, on plain numbers. */
  lemma {:induction false} MulCarryArith(nd: int, no: int, carry: int, p: int, x: int, r: int, d: int, c: int)
    requires nd + carry * p == no * r
    requires d + BASE * c == x * r + carry
    ensures (nd + d * p) + c * (BASE * p) == (no + x * p) * r
  {
    assert (d + BASE * c) * p == (x * r + carry) * p;
    assert (d + BASE * c) * p == d * p + c * (BASE * p);
    assert (x * r + carry) * p == (x * p) * r + carry * p;
    assert (no + x * p) * r == no * r + (x * p) * r;
  }

  /**
   * The loop of `mul_uint` after limb i: the low limbs written so far, plus the pending
   * carry at weight BASE^i, equal the corresponding low limbs of the input times r.
   */
  lemma {:induction false} MulLimbStep(prev: seq<Limb>, O: seq<Limb>, i: nat, carry: int, r: int, d: Limb, c: int)
    requires i < |prev| == |O|
    requires Nat(prev[..i]) + carry * Pow(i) == Nat(O[..i]) * r
    requires d + BASE * c == O[i] * r + carry
    ensures Nat(prev[i := d][..i + 1]) + c * Pow(i + 1) == Nat(O[..i + 1]) * r
  {
    assert prev[i := d][..i + 1] == prev[..i] + [d];
    assert O[..i + 1] == O[..i] + [O[i]];
    NatAppend(prev[..i], d);
    NatAppend(O[..i], O[i]);
    MulCarryArith(Nat(prev[..i]), Nat(O[..i]), carry, Pow(i), O[i], r, d, c);
    assert d * Pow(i) == Pow(i) * d && O[i] * Pow(i) == Pow(i) * O[i];
  }

  /** One step of `div_uint`, on plain numbers. */
  lemma {:induction false} DivCarryArith(nd: int, no: int, carry: int, b: int, x: int, d: int, c: int)
    requires nd * b + carry == no
    requires d * b + c == x + carry * BASE
    ensures (d + BASE * nd) * b + c == x + BASE * no
  {
    assert (d + BASE * nd) * b == d * b + BASE * (nd * b);
  }

  /**
   * The loop of `div_uint` after limb i, which runs from the top limb down: the limbs at i
   * and above, read as a number, times b plus the remainder give the input's limbs at i and above.
   */
  lemma {:induction false} DivLimbStep(prev: seq<Limb>, O: seq<Limb>, i: nat, carry: int, b: int, d: Limb, c: int)
    requires i < |prev| == |O|
    requires prev[..i + 1] == O[..i + 1]
    requires Nat(prev[i + 1..]) * b + carry == Nat(O[i + 1..])
    requires d * b + c == O[i] + carry * BASE
    ensures prev[i := d][..i] == O[..i]
    ensures Nat(prev[i := d][i..]) * b + c == Nat(O[i..])
  {
    var next := prev[i := d];
    assert next[i..][1..] == prev[i + 1..];
    assert O[i..][1..] == O[i + 1..];
    assert O[..i + 1][i] == O[i];
    DivCarryArith(Nat(prev[i + 1..]), Nat(O[i + 1..]), carry, b, O[i], d, c);
  }

  /** The running remainder of `div_uint` stays below the divisor and the new limb fits. */
  lemma {:induction false} DivDigitFits(x: int, carry: int, b: int)
    requires 0 <= x < BASE && 0 <= carry < b
    ensures 0 <= (x + carry * BASE) / b < BASE
  {
    MulLeq(carry, b - 1, BASE);
    assert x + carry * BASE < b * BASE;
    DivModUnique(x + carry * BASE, b, (x + carry * BASE) / b, (x + carry * BASE) % b);
    if (x + carry * BASE) / b >= BASE {
      MulLeq(BASE, (x + carry * BASE) / b, b);
      assert false;
    }
  }

  /**
   * After `mul_uint` by a non-zero limb a non-zero top limb stays non-zero: either the carry
   * was appended, or the product is at least the old value, which already reached the top limb.
   */
  lemma {:induction false} MulUintTop(O: seq<Limb>, R: seq<Limb>, r: nat)
    requires Nat(R) == Nat(O) * r
    requires |R| == |O| || (|R| == |O| + 1 && R[|R| - 1] != 0)
    ensures r != 0 && |O| >= 1 && O[|O| - 1] != 0 ==> R[|R| - 1] != 0
  {
    if r != 0 && |O| >= 1 && O[|O| - 1] != 0 && |R| == |O| {
      var n := |O| - 1;
      var lo, lr, p := Nat(O[..n]), Nat(R[..n]), Pow(n);
      NatTop(O);
      NatTop(R);
      NatBound(R[..n]);
      TopArith(lo, p, O[n], lr, R[n], r, Nat(O), Nat(R));
    }
  }

  lemma {:induction false} TopArith(lo: int, p: int, top: int, lr: int, tr: int, r: int, n: int, nr: int)
    requires 0 <= lo && 1 <= top && 0 <= lr < p && 0 <= tr && 1 <= r
    requires n == lo + p * top && nr == lr + p * tr && nr == n * r
    ensures tr != 0
  {
    MulLeq(1, top, p);
    MulLeq(1, r, lo + p * top);
  }

  /** The digits of b below j, with the limbs past its end read as 0 (the `j < size ? b[j] : 0` of `*=`). */
  ghost function LowPart(b: seq<Limb>, j: nat): nat
  {
    Nat(b[..if j < |b| then j else |b|])
  }

  /** One step of the inner loop of `*=`, on plain numbers. */
  lemma {:induction false} MulAccArith(nc: int, cx: int, carry: int, P: int, ai: int, bj: int, pi: int, pj: int, T: int, nb: int, d: int, c2: int, nc2: int)
    requires nc + carry * P == T + ai * nb * pi
    requires P == pi * pj
    requires d + BASE * c2 == ai * bj + cx + carry
    requires nc2 == nc + (d - cx) * P
    ensures nc2 + c2 * (BASE * P) == T + ai * (nb + bj * pj) * pi
  {
    assert (d + BASE * c2) * P == (ai * bj + cx + carry) * P;
    assert (d + BASE * c2) * P == d * P + c2 * (BASE * P);
    assert (ai * bj + cx + carry) * P == ai * bj * P + cx * P + carry * P;
    assert ai * bj * P == ai * (bj * pj) * pi;
    assert ai * (nb + bj * pj) * pi == ai * nb * pi + ai * (bj * pj) * pi;
    assert nc2 == nc + d * P - cx * P;
  }

  /**
   * The inner loop of `*=` at row i, column j: limb i+j of the accumulator receives
   * (a[i] * b[j] + c[i+j] + carry) mod BASE and the quotient becomes the next carry.
   */
  lemma {:induction false} MulAccStep(C: seq<Limb>, T: int, ai: Limb, B: seq<Limb>, i: nat, j: nat, carry: int, d: Limb, c2: int)
    requires i + j < |C|
    requires Nat(C) + carry * Pow(i + j) == T + ai * LowPart(B, j) * Pow(i)
    requires d + BASE * c2 == ai * (if j < |B| then B[j] else 0) + C[i + j] + carry
    ensures Nat(C[i + j := d]) + c2 * Pow(i + j + 1) == T + ai * LowPart(B, j + 1) * Pow(i)
  {
    var bj := if j < |B| then B[j] else 0;
    NatUpdate(C, i + j, d);
    PowAdd(i, j);
    if j < |B| {
      assert B[..j + 1] == B[..j] + [B[j]];
      NatAppend(B[..j], B[j]);
      assert LowPart(B, j + 1) == LowPart(B, j) + bj * Pow(j);
    } else {
      assert LowPart(B, j + 1) == LowPart(B, j) + bj * Pow(j);
    }
    MulAccArith(Nat(C), C[i + j], carry, Pow(i + j), ai, bj, Pow(i), Pow(j), T, LowPart(B, j), d, c2, Nat(C[i + j := d]));
  }

  /**
   * Past the end of b a non-zero carry can only be pending at column |b|: the row sum is below
   * BASE^(i+1+|b|). So every index i+j that `*=` writes is below len(a) + len(b).
   */
  lemma {:induction false} CarryColumn(nc: nat, T: nat, ai: Limb, A: seq<Limb>, B: seq<Limb>, i: nat, j: nat, carry: int)
    requires i < |A| && ai == A[i] && T == Nat(A[..i]) * Nat(B)
    requires j >= |B| && carry >= 1
    requires nc + carry * Pow(i + j) == T + ai * LowPart(B, j) * Pow(i)
    ensures j == |B|
  {
    MulRowDone(A, B, i, j, T + ai * LowPart(B, j) * Pow(i));
    NatBound(A[..i + 1]);
    NatBound(B);
    PowAdd(i + 1, |B|);
    ProductBelow(nc, carry, Pow(i + j), Nat(A[..i + 1]), Pow(i + 1), Nat(B), Pow(|B|));
    if j > |B| {
      PowMonotone(i + 1 + |B|, i + j);
      assert false;
    }
  }

  lemma {:induction false} ProductBelow(nc: int, carry: int, p: int, x: int, px: int, y: int, py: int)
    requires nc >= 0 && carry >= 1 && p >= 1
    requires 0 <= x < px && 0 <= y < py
    requires nc + carry * p == x * y
    ensures p < px * py
  {
    MulLeq(1, carry, p);
    MulLeq(x, px, y);
    MulLess(y, py, px);
  }

  /** The end of row i of `*=`: the accumulator holds the product of the low i+1 limbs of a with b. */
  lemma {:induction false} MulRowDone(A: seq<Limb>, B: seq<Limb>, i: nat, j: nat, nc: int)
    requires i < |A| && j >= |B|
    requires nc == Nat(A[..i]) * Nat(B) + A[i] * LowPart(B, j) * Pow(i)
    ensures nc == Nat(A[..i + 1]) * Nat(B)
  {
    assert B[..|B|] == B;
    assert LowPart(B, j) == Nat(B);
    assert A[..i + 1] == A[..i] + [A[i]];
    NatAppend(A[..i], A[i]);
    RowArith(Nat(A[..i]), A[i], Pow(i), Nat(B));
  }

  lemma {:induction false} RowArith(low: int, ai: int, p: int, nb: int)
    ensures low * nb + ai * nb * p == (low + ai * p) * nb
  {
  }

  /** The sign rule of `*=`: the product of the magnitudes, negated when exactly one operand is negative. */
  lemma {:induction false} SignedProduct(va: int, vb: int, neg: bool)
    requires neg == ((va < 0) != (vb < 0))
    ensures (if neg then -(Abs(va) * Abs(vb)) else Abs(va) * Abs(vb)) == va * vb
  {
    if va < 0 && vb >= 0 {
      assert Abs(va) * Abs(vb) == (-va) * vb;
    } else if va >= 0 && vb < 0 {
      assert Abs(va) * Abs(vb) == va * (-vb);
    } else if va < 0 && vb < 0 {
      assert Abs(va) * Abs(vb) == (-va) * (-vb);
    }
  }
}
