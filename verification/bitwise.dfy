/**
 * Bitwise AND, OR and XOR on limb sequences, and the reference meaning of these operators on
 * unbounded integers read in infinite two's complement.
 */
module Bitwise {
  import opened Arith
  import opened Limbs
  import opened TwosComplement

  datatype Op = And | Or | Xor

  /** The operator on single bits and on the sign flags, the values of the infinite fill. */
  function BoolOp(op: Op, a: bool, b: bool): bool
  {
    match op
    case And => a && b
    case Or => a || b
    case Xor => a != b
  }

  /** The operator on the low n bits of two integers (bit 0 of x is x mod 2). */
  function BitsOp(op: Op, x: int, y: int, n: nat): nat
    decreases n
  {
    if n == 0 then 0
    else (if BoolOp(op, x % 2 == 1, y % 2 == 1) then 1 else 0) + 2 * BitsOp(op, x / 2, y / 2, n - 1)
  }

  /** n bits hold a number below 2^n. */
  lemma {:induction false} BitsBound(op: Op, x: int, y: int, n: nat)
    ensures BitsOp(op, x, y, n) < Pow2(n)
    decreases n
  {
    if n > 0 {
      BitsBound(op, x / 2, y / 2, n - 1);
    }
  }

  /** The operator on one 32-bit limb, `uint32_t & | ^`. */
  function LimbOp(op: Op, x: Limb, y: Limb): Limb
  {
    BitsBound(op, x, y, LIMB_BITS);
    Pow2Base();
    BitsOp(op, x, y, LIMB_BITS)
  }

  /**
   * The reference meaning of the operator on integers in infinite two's complement: 0 and -1
   * are the all-zeros and all-ones bit strings; any other number is its lowest bit (x mod 2)
   * followed by the bits of floor(x / 2).
   */
  ghost function BitOp(op: Op, x: int, y: int): int
    decreases Abs(x) + Abs(y)
  {
    if (x == 0 || x == -1) && (y == 0 || y == -1) then
      (if BoolOp(op, x == -1, y == -1) then -1 else 0)
    else
      HalfShrinks(x);
      HalfShrinks(y);
      (if BoolOp(op, x % 2 == 1, y % 2 == 1) then 1 else 0) + 2 * BitOp(op, x / 2, y / 2)
  }

  lemma {:induction false} HalfShrinks(x: int)
    ensures Abs(x / 2) <= Abs(x)
    ensures x != 0 && x != -1 ==> Abs(x / 2) < Abs(x)
  {
  }

  /** The unfolding of BitOp holds also at 0 and -1, whose halves are themselves. */
  lemma {:induction false} BitOpUnfold(op: Op, x: int, y: int)
    ensures BitOp(op, x, y) == (if BoolOp(op, x % 2 == 1, y % 2 == 1) then 1 else 0) + 2 * BitOp(op, x / 2, y / 2)
  {
  }

  /** Splitting off the low n bits: BitOp is BitsOp below bit n and BitOp of the quotients above. */
  lemma {:induction false} BitOpSplit(op: Op, x: int, y: int, n: nat)
    ensures BitOp(op, x, y) == BitsOp(op, x, y, n) + Pow2(n) * BitOp(op, x / Pow2(n), y / Pow2(n))
    decreases n
  {
    if n > 0 {
      BitOpUnfold(op, x, y);
      BitOpSplit(op, x / 2, y / 2, n - 1);
      DivDiv(x, 2, Pow2(n - 1));
      DivDiv(y, 2, Pow2(n - 1));
      Twice(Pow2(n - 1), BitOp(op, x / Pow2(n), y / Pow2(n)));
    }
  }

  lemma Twice(p: int, t: int)
    ensures 2 * (p * t) == (2 * p) * t
  {
  }

  /** Bit k of x mod 2^n is bit k of x for k < n. */
  lemma {:induction false} BitsMod(op: Op, x: int, y: int, n: nat)
    ensures BitsOp(op, x % Pow2(n), y % Pow2(n), n) == BitsOp(op, x, y, n)
    decreases n
  {
    if n > 0 {
      HalfMod(x, n);
      HalfMod(y, n);
      BitsMod(op, x / 2, y / 2, n - 1);
    }
  }

  /** The limb operator depends on the low 32 bits of its operands only. */
  lemma {:induction false} BitsModBase(op: Op, x: int, y: int)
    ensures BitsOp(op, x % BASE, y % BASE, LIMB_BITS) == BitsOp(op, x, y, LIMB_BITS)
  {
    Pow2Base();
    BitsMod(op, x, y, LIMB_BITS);
  }

  lemma {:induction false} HalfMod(x: int, n: nat)
    requires n > 0
    ensures (x % Pow2(n)) % 2 == x % 2
    ensures (x % Pow2(n)) / 2 == (x / 2) % Pow2(n - 1)
  {
    var p := Pow2(n - 1);
    var q, r := x / Pow2(n), x % Pow2(n);
    assert x == q * (2 * p) + r;
    var r2, r1 := r / 2, r % 2;
    assert x == 2 * (q * p + r2) + r1;
    DivModUnique(x, 2, q * p + r2, r1);
    assert 2 * r2 <= r < 2 * p;
    DivModUnique(x / 2, p, q, r2);
  }

  /** The limb-wise operator on two sequences of the same length. */
  ghost function Zip(op: Op, A: seq<Limb>, B: seq<Limb>): (r: seq<Limb>)
    requires |A| == |B|
    ensures |r| == |A|
  {
    seq(|A|, k requires 0 <= k < |A| => LimbOp(op, A[k], B[k]))
  }

  /**
   * Applying the operator limb by limb to two sequences of one length, with the signs
   * combined by the same operator, computes the operator on their values.
   */
  lemma {:induction false} ZipValue(op: Op, A: seq<Limb>, sa: bool, B: seq<Limb>, sb: bool)
    requires |A| == |B|
    ensures Value(Zip(op, A, B), BoolOp(op, sa, sb)) == BitOp(op, Value(A, sa), Value(B, sb))
  {
    var s := BoolOp(op, sa, sb);
    var x, y := Value(A, sa), Value(B, sb);
    if |A| == 0 {
      ValueEmpty(sa);
      ValueEmpty(sb);
      ValueEmpty(s);
    } else {
      var R := Zip(op, A, B);
      assert R[1..] == Zip(op, A[1..], B[1..]);
      ZipValue(op, A[1..], sa, B[1..], sb);
      ValueCons(A, sa);
      ValueCons(B, sb);
      ValueCons(R, s);
      DivModUnique(x, BASE, Value(A[1..], sa), A[0]);
      DivModUnique(y, BASE, Value(B[1..], sb), B[0]);
      Pow2Base();
      BitOpSplit(op, x, y, LIMB_BITS);
      BitsMod(op, x, y, LIMB_BITS);
    }
  }

  /**
   * The padding the C++ operators use: an operand shorter than the result is read with the
   * fill of the result's sign. That is its own fill when it is long enough or its sign is the
   * result's sign.
   */
  ghost predicate PadsAgree(s: seq<Limb>, sign: bool, ns: bool, L: nat)
  {
    |s| >= L || sign == ns
  }

  lemma {:induction false} PaddedOperand(s: seq<Limb>, sign: bool, ns: bool, L: nat)
    requires PadsAgree(s, sign, ns, L) && |s| <= L
    ensures Extended(s, ns, L) == Extended(s, sign, L)
    ensures Value(Extended(s, ns, L), sign) == Value(s, sign)
  {
    ExtendedValue(s, sign, L);
  }

  /** The result of the C++ operator on (a, sa) and (b, sb): both read with the result's fill. */
  ghost function Padded(op: Op, a: seq<Limb>, sa: bool, b: seq<Limb>, sb: bool): (r: seq<Limb>)
    ensures |r| == if |a| < |b| then |b| else |a|
  {
    var L := if |a| < |b| then |b| else |a|;
    var ns := BoolOp(op, sa, sb);
    Zip(op, Extended(a, ns, L), Extended(b, ns, L))
  }

  /** Both operands are read with their own fill. */
  ghost predicate PaddingSafe(op: Op, a: seq<Limb>, sa: bool, b: seq<Limb>, sb: bool)
  {
    var L := if |a| < |b| then |b| else |a|;
    PadsAgree(a, sa, BoolOp(op, sa, sb), L) && PadsAgree(b, sb, BoolOp(op, sa, sb), L)
  }

  /**
   * When the padding agrees with each operand's own fill, the C++ operator computes the
   * two's-complement operator on the values.
   */
  lemma {:induction false} PaddedValue(op: Op, a: seq<Limb>, sa: bool, b: seq<Limb>, sb: bool)
    requires PaddingSafe(op, a, sa, b, sb)
    ensures Value(Padded(op, a, sa, b, sb), BoolOp(op, sa, sb)) == BitOp(op, Value(a, sa), Value(b, sb))
  {
    var L := if |a| < |b| then |b| else |a|;
    var ns := BoolOp(op, sa, sb);
    PaddedOperand(a, sa, ns, L);
    PaddedOperand(b, sb, ns, L);
    ZipValue(op, Extended(a, sa, L), sa, Extended(b, sb, L), sb);
  }

  /**
   * The cases in which the padding is right: equal lengths; equal signs for AND and OR;
   * two non-negative operands for XOR.
   */
  lemma SafePadding(op: Op, a: seq<Limb>, sa: bool, b: seq<Limb>, sb: bool)
    requires |a| == |b| || (sa == sb && op != Xor) || (!sa && !sb)
    ensures PaddingSafe(op, a, sa, b, sb)
  {
  }

  /** A clear operand clears every bit of AND. */
  lemma {:induction false} BitsAndZero(x: int, n: nat)
    ensures BitsOp(And, x, 0, n) == 0 && BitsOp(And, 0, x, n) == 0
    decreases n
  {
    if n > 0 {
      BitsAndZero(x / 2, n - 1);
    }
  }

  /** -1 is all ones, the neutral element of AND. */
  lemma {:induction false} AndMinusOne(x: int)
    ensures BitOp(And, x, -1) == x
    decreases Abs(x)
  {
    if !(x == 0 || x == -1) {
      BitOpUnfold(And, x, -1);
      HalfShrinks(x);
      AndMinusOne(x / 2);
    }
  }

  /** 2^32 & -1 is 2^32, but the C++ `&=` pads -1 with zero limbs and yields 0. */
  lemma AndPaddingCounterexample()
    ensures Value([0, 1], false) == BASE && Value([MAX_LIMB], true) == -1
    ensures BitOp(And, BASE, -1) == BASE
    ensures Value(Padded(And, [0, 1], false, [MAX_LIMB], true), false) == 0
  {
    assert Nat([0, 1]) == 0 + BASE * Nat([1]);
    assert Nat([1]) == 1 + BASE * Nat([]);
    assert Nat([MAX_LIMB]) == MAX_LIMB + BASE * Nat([]);
    AndMinusOne(BASE);
    BitsAndZero(MAX_LIMB, LIMB_BITS);
    BitsAndZero(1, LIMB_BITS);
    var r := Padded(And, [0, 1], false, [MAX_LIMB], true);
    assert r == [0, 0];
    assert Nat([0, 0]) == 0 + BASE * Nat([0]);
    assert Nat([0]) == 0 + BASE * Nat([]);
  }

  /** x AND (-x - 1), the AND of a number with its complement, is 0 for every integer. */
  lemma {:induction false} AndComplement(x: int)
    ensures BitOp(And, x, -x - 1) == 0
    decreases Abs(x)
  {
    if !(x == 0 || x == -1) {
      BitOpUnfold(And, x, -x - 1);
      assert (-x - 1) / 2 == -(x / 2) - 1;
      HalfShrinks(x);
      AndComplement(x / 2);
    }
  }

  /** An n-bit number and its n-bit complement have no bit in common. */
  lemma {:induction false} BitsAndComplement(x: int, n: nat)
    requires 0 <= x < Pow2(n)
    ensures BitsOp(And, x, Pow2(n) - 1 - x, n) == 0
    decreases n
  {
    if n > 0 {
      var p := Pow2(n - 1);
      var a, b := x / 2, x % 2;
      assert x == 2 * a + b;
      DivModUnique(Pow2(n) - 1 - x, 2, p - 1 - a, 1 - b);
      BitsAndComplement(a, n - 1);
    }
  }

  lemma ComplementLimb(u: Limb)
    ensures LimbOp(And, u, MAX_LIMB - u) == 0
  {
    Pow2Base();
    ComplementBits(u, LIMB_BITS);
  }

  lemma {:induction false} ComplementBits(u: Limb, n: nat)
    requires Pow2(n) == BASE
    ensures BitsOp(And, u, MAX_LIMB - u, n) == 0
  {
    BitsAndComplement(u, n);
  }

  /**
   * The limb-wise AND of a sequence with its complement (the stored form of `~a`)
   * is all zeros with a clear sign, so `shrink` turns it into the single limb 0.
   */
  lemma {:induction false} AndComplementLimbs(s: seq<Limb>, sign: bool)
    ensures BoolOp(And, sign, !sign) == false
    ensures Padded(And, s, sign, Flip(s), !sign) == Fills(false, |s|)
  {
    var r := Padded(And, s, sign, Flip(s), !sign);
    forall k | 0 <= k < |r|
      ensures r[k] == 0
    {
      ComplementLimb(s[k]);
    }
  }

  /**
   * For a canonical a, `a & ~a` is structurally 0: `~a` keeps the length and flips every limb
   * and the sign, the AND clears every limb and the sign, and `shrink` leaves the single limb 0.
   */
  lemma {:induction false} AndComplementIsZero(s: seq<Limb>, sign: bool)
    requires Canonical(s, sign)
    ensures TrimFill(Padded(And, s, sign, TrimFill(Flip(s), !sign), !sign), false) == [0]
  {
    ComplementCanonical(s, sign);
    AndComplementLimbs(s, sign);
    var z := Fills(false, |s|);
    NatZeros(|s|);
    TrimFillSpec(z, false);
    assert Nat([0]) == 0 + BASE * Nat([]);
    CanonicalUnique(TrimFill(z, false), false, [0], false);
  }

  /** Equal bits give 0 under `^`. */
  lemma {:induction false} XorSelfBits(x: int, n: nat)
    ensures BitsOp(Xor, x, x, n) == 0
    decreases n
  {
    if n > 0 {
      XorSelfBits(x / 2, n - 1);
    }
  }

  /** Two zeros give 0 under every operator. */
  lemma {:induction false} ZeroBits(op: Op, n: nat)
    ensures BitsOp(op, 0, 0, n) == 0
    decreases n
  {
    if n > 0 {
      ZeroBits(op, n - 1);
    }
  }

  /**
   * `^=` keeps the longer length and does not shrink: [5, 7] ^ [3, 7] stores [6, 0], a
   * non-negative vector whose top limb is 0.
   */
  lemma XorKeepsZeroTop()
    ensures Padded(Xor, [5, 7], false, [3, 7], false) == [6, 0]
  {
    ZeroBits(Xor, 29);
    assert BitsOp(Xor, 1, 0, 30) == 1;
    assert BitsOp(Xor, 2, 1, 31) == 3;
    assert LimbOp(Xor, 5, 3) == 6;
    XorSelfBits(7, LIMB_BITS);
    assert Extended([5, 7], false, 2) == [5, 7];
    assert Extended([3, 7], false, 2) == [3, 7];
  }
}
