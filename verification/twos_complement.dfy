/** Addition and complement on limb sequences read in infinite two's complement. */
module TwosComplement {
  import opened Arith
  import opened Limbs

  /** The limbs of (s, sign) at positions 0 .. L-1, reading the fill past the end. */
  ghost function Extended(s: seq<Limb>, sign: bool, L: nat): (r: seq<Limb>)
    ensures |r| == L
  {
    seq(L, k requires 0 <= k < L => LimbAt(s, sign, k))
  }

  /** Sign-extending to L limbs keeps the value. */
  lemma {:induction false} ExtendedValue(s: seq<Limb>, sign: bool, L: nat)
    requires L >= |s|
    ensures Extended(s, sign, L) == s + Fills(sign, L - |s|)
    ensures Value(Extended(s, sign, L), sign) == Value(s, sign)
  {
    assert Extended(s, sign, L) == s + Fills(sign, L - |s|);
    ValueExtend(s, sign, L - |s|);
  }

  /** One step of the carry chain of `+=`: limb i gets (x + y + c) mod 2^32 and the carry moves up. */
  lemma {:induction false} CarryStep(nr: int, na: int, nb: int, c: int, x: int, y: int, p: int, d: int, c2: int)
    requires nr + c * p == na + nb
    requires d + BASE * c2 == x + y + c
    ensures (nr + d * p) + c2 * (BASE * p) == (na + x * p) + (nb + y * p)
  {
    assert (d + BASE * c2) * p == (x + y + c) * p;
    assert (d + BASE * c2) * p == d * p + c2 * (BASE * p);
    assert (x + y + c) * p == x * p + y * p + c * p;
  }

  /** The loop of `+=` after limb i: prefix sums agree once the new carry is weighed in. */
  lemma {:induction false} AddLimbStep(prev: seq<Limb>, A: seq<Limb>, Bx: seq<Limb>, i: nat, c0: int, d: Limb, c: int)
    requires i < |prev| == |A| == |Bx|
    requires c0 == 0 || c0 == 1
    requires Nat(prev[..i]) + (if c0 == 1 then Pow(i) else 0) == Nat(A[..i]) + Nat(Bx[..i])
    requires d + BASE * c == A[i] + Bx[i] + c0
    requires c == 0 || c == 1
    ensures Nat(prev[i := d][..i + 1]) + (if c == 1 then Pow(i + 1) else 0) == Nat(A[..i + 1]) + Nat(Bx[..i + 1])
  {
    assert prev[i := d][..i + 1] == prev[..i] + [d];
    assert A[..i + 1] == A[..i] + [A[i]];
    assert Bx[..i + 1] == Bx[..i] + [Bx[i]];
    NatAppend(prev[..i], d);
    NatAppend(A[..i], A[i]);
    NatAppend(Bx[..i], Bx[i]);
    assert c0 * Pow(i) == (if c0 == 1 then Pow(i) else 0);
    assert c * (BASE * Pow(i)) == (if c == 1 then Pow(i + 1) else 0);
    CarryStep(Nat(prev[..i]), Nat(A[..i]), Nat(Bx[..i]), c0, A[i], Bx[i], Pow(i), d, c);
    assert d * Pow(i) == Pow(i) * d && A[i] * Pow(i) == Pow(i) * A[i];
  }

  /**
   * The closing step of `+=`: the two operands were sign-extended to L = max(len) + 1 limbs
   * and added modulo BASE^L. The exact sum fits in half that range, so bit 31 of the top
   * limb is its sign and the L limbs read back as the exact sum.
   */
  lemma {:induction false} AddResult(a: seq<Limb>, sa: bool, b: seq<Limb>, sb: bool, A: seq<Limb>, Bx: seq<Limb>, R: seq<Limb>, L: nat, carry: int, s: bool)
    requires |a| < L && |b| < L
    requires |A| == L
    requires |R| == L
    requires A == a + Fills(sa, L - |a|)
    requires Bx == Extended(b, sb, L)
    requires carry == 0 || carry == 1
    requires Nat(R) + (if carry == 1 then Pow(L) else 0) == Nat(A) + Nat(Bx)
    requires s == (R[L - 1] >= HALF)
    ensures Value(R, s) == Value(a, sa) + Value(b, sb)
  {
    ExtendedOperands(a, sa, b, sb, A, Bx, L);
    assert Pow(L) == BASE * Pow(L - 1);
    NatBound(R);
    TopBit(R);
    SumSign(Nat(R), Pow(L), Pow(L - 1), Value(a, sa), Value(b, sb), sa, sb, carry, s);
  }

  /** Both operands of `+=`, sign-extended to L limbs, read as unsigned numbers, and their range. */
  lemma {:induction false} ExtendedOperands(a: seq<Limb>, sa: bool, b: seq<Limb>, sb: bool, A: seq<Limb>, Bx: seq<Limb>, L: nat)
    requires |a| < L && |b| < L
    requires A == a + Fills(sa, L - |a|)
    requires Bx == Extended(b, sb, L)
    ensures Nat(A) == Value(a, sa) + (if sa then Pow(L) else 0)
    ensures Nat(Bx) == Value(b, sb) + (if sb then Pow(L) else 0)
    ensures -Pow(L - 1) <= Value(a, sa) < Pow(L - 1) && -Pow(L - 1) <= Value(b, sb) < Pow(L - 1)
  {
    ExtendedValue(b, sb, L);
    ValueExtend(a, sa, L - |a|);
    ValueRange(a, sa);
    PowMonotone(|a|, L - 1);
    ValueRange(b, sb);
    PowMonotone(|b|, L - 1);
  }

  /** The arithmetic behind AddResult, with every product by a 0/1 quantity made explicit. */
  lemma {:induction false} SumSign(nr: int, P: int, h: int, va: int, vb: int, sa: bool, sb: bool, carry: int, s: bool)
    requires P == BASE * h && h >= 1 && 0 <= nr < P
    requires carry == 0 || carry == 1
    requires -h <= va < h && -h <= vb < h
    requires nr + (if carry == 1 then P else 0) == va + (if sa then P else 0) + vb + (if sb then P else 0)
    requires s <==> 2 * nr >= P
    ensures nr - (if s then P else 0) == va + vb
  {
  }

  /** Limb-wise complement `~x` of every stored limb. */
  ghost function Flip(s: seq<Limb>): (r: seq<Limb>)
    ensures |r| == |s|
  {
    seq(|s|, k requires 0 <= k < |s| => MAX_LIMB - s[k])
  }

  lemma {:induction false} NatFlip(s: seq<Limb>)
    ensures Nat(Flip(s)) + Nat(s) == Pow(|s|) - 1
  {
    if |s| > 0 {
      assert Flip(s)[1..] == Flip(s[1..]);
      NatFlip(s[1..]);
      assert Nat(Flip(s)) == MAX_LIMB - s[0] + BASE * Nat(Flip(s[1..]));
      assert BASE * Nat(Flip(s[1..])) + BASE * Nat(s[1..]) == BASE * (Pow(|s| - 1) - 1);
    }
  }

  /** Complementing the limbs and the fill gives -v - 1, the meaning of `~`. */
  lemma ComplementValue(s: seq<Limb>, sign: bool)
    ensures Value(Flip(s), !sign) == -Value(s, sign) - 1
  {
    NatFlip(s);
  }

  /** A canonical sequence stays canonical, with the same length, under complement. */
  lemma ComplementCanonical(s: seq<Limb>, sign: bool)
    requires Canonical(s, sign)
    ensures Canonical(Flip(s), !sign) && TrimFill(Flip(s), !sign) == Flip(s)
  {
  }
}
