/** The arithmetic behind `<<=` and `>>=`: whole-limb moves and powers of two. */
module Shifts {
  import opened Arith
  import opened Limbs

  /** A whole limb is 32 bits: BASE^k == 2^(32k). */
  lemma {:induction false} PowIsPow2(k: nat)
    ensures Pow(k) == Pow2(LIMB_BITS * k)
  {
    if k > 0 {
      PowIsPow2(k - 1);
      Pow2Base();
      Pow2Add(LIMB_BITS, LIMB_BITS * (k - 1));
    }
  }

  /** A shift count splits into whole limbs and the bits within a limb. */
  lemma {:induction false} ShiftSplit(k: nat)
    ensures Pow2(k) == Pow2(k % LIMB_BITS) * Pow(k / LIMB_BITS)
    ensures Pow2(k % LIMB_BITS) < BASE
  {
    PowIsPow2(k / LIMB_BITS);
    Pow2Add(k % LIMB_BITS, LIMB_BITS * (k / LIMB_BITS));
    Pow2Monotone(k % LIMB_BITS + 1, LIMB_BITS);
    Pow2Base();
  }

  /** Putting k zero limbs below the stored ones multiplies the value by BASE^k. */
  lemma {:induction false} ValueShiftedUp(s: seq<Limb>, sign: bool, k: nat)
    ensures Value(Fills(false, k) + s, sign) == Pow(k) * Value(s, sign)
  {
    var t := Fills(false, k) + s;
    NatConcat(Fills(false, k), s);
    NatZeros(k);
    PowAdd(k, |s|);
    assert Nat(t) == Pow(k) * Nat(s) && Pow(|t|) == Pow(k) * Pow(|s|);
    SplitArith(0, Pow(k), Nat(s), Pow(|s|), sign);
  }

  /**
   * Dropping the k lowest limbs of a non-negative number, or all of them when there are
   * fewer, divides it by BASE^k, rounding down.
   */
  lemma {:induction false} ValueDropped(s: seq<Limb>, k: nat)
    ensures var j := if k < |s| then k else |s|;
      Value(s[j..], false) == Nat(s) / Pow(k)
  {
    if k < |s| {
      DropSome(s, k);
    } else {
      DropAll(s, k);
    }
  }

  lemma {:induction false} DropSome(s: seq<Limb>, k: nat)
    requires k < |s|
    ensures Nat(s[k..]) == Nat(s) / Pow(k)
  {
    var low, high, p := Nat(s[..k]), Nat(s[k..]), Pow(k);
    NatSplit(s, k);
    NatBound(s[..k]);
    assert Nat(s) == high * p + low;
    DivModUnique(Nat(s), p, high, low);
  }

  lemma {:induction false} DropAll(s: seq<Limb>, k: nat)
    requires k >= |s|
    ensures Nat(s) / Pow(k) == 0 && Nat(s[|s|..]) == 0
  {
    assert s[|s|..] == [];
    NatBound(s);
    PowMonotone(|s|, k);
    DivModUnique(Nat(s), Pow(k), 0, Nat(s));
  }

  /** Dividing by 2^(k mod 32) and then by BASE^(k / 32) is dividing by 2^k. */
  lemma {:induction false} DivideInTwoSteps(x: nat, k: nat)
    ensures x / Pow2(k % LIMB_BITS) / Pow(k / LIMB_BITS) == x / Pow2(k)
  {
    ShiftSplit(k);
    DivDiv(x, Pow2(k % LIMB_BITS), Pow(k / LIMB_BITS));
  }

  /**
   * The rule `>>=` applies to a negative x, -(|x| / 2^k) - 1, is the floor of x / 2^k exactly
   * when x is not a multiple of 2^k.
   */
  lemma {:induction false} NegativeShiftIsFloor(x: int, k: nat)
    requires x < 0
    ensures -(Abs(x) / Pow2(k)) - 1 == x / Pow2(k) <==> x % Pow2(k) != 0
  {
    var p := Pow2(k);
    var q, r := Abs(x) / p, Abs(x) % p;
    assert Abs(x) == q * p + r;
    if r > 0 {
      DivModUnique(x, p, -q - 1, p - r);
    } else {
      DivModUnique(x, p, -q, 0);
    }
  }
}
