/**
 * The limb representation of `big_integer`: a little-endian sequence of 32-bit limbs and a
 * sign flag that stands for the infinite fill above the stored limbs (all ones when set,
 * zeros otherwise). The number it denotes is read in infinite two's complement.
 */
module Limbs {
  import opened Arith

  const BASE: int := 0x1_0000_0000
  const MAX_LIMB: int := 0xFFFF_FFFF
  /** Bit 31 of a limb. */
  const HALF: int := 0x8000_0000

  type Limb = x: int | 0 <= x < 0x1_0000_0000

  /** The width of a limb in bits. */
  const LIMB_BITS: nat := 32

  lemma {:induction false} Pow2Base()
    ensures Pow2(LIMB_BITS) == BASE
  {
    Pow2Add(16, 16);
    Pow2Add(8, 8);
    Pow2Add(4, 4);
    Pow2Add(2, 2);
    Pow2Add(1, 1);
    assert Pow2(1) == 2;
  }

  /** BASE^k. */
  ghost function Pow(k: nat): (r: int)
    ensures r >= 1
  {
    if k == 0 then 1 else BASE * Pow(k - 1)
  }

  /** The limbs read as an unsigned number, least significant limb first. */
  ghost function Nat(s: seq<Limb>): nat
  {
    if |s| == 0 then 0 else s[0] + BASE * Nat(s[1..])
  }

  /** The limb that stands for the infinite fill above the stored limbs. */
  function Fill(sign: bool): Limb
  {
    if sign then MAX_LIMB else 0
  }

  /** The number denoted by (limbs, sign) in infinite two's complement. */
  ghost function Value(s: seq<Limb>, sign: bool): int
  {
    Nat(s) - (if sign then Pow(|s|) else 0)
  }

  /** The limb at position i, reading the fill past the end (`operator[]`). */
  function LimbAt(s: seq<Limb>, sign: bool, i: nat): Limb
  {
    if i < |s| then s[i] else Fill(sign)
  }

  /** `k` copies of the fill limb. */
  function Fills(sign: bool, k: nat): (r: seq<Limb>)
    ensures |r| == k && forall j :: 0 <= j < k ==> r[j] == Fill(sign)
  {
    seq(k, _ => Fill(sign))
  }

  /**
   * The normal form `shrink` produces: at least one limb, and a top limb different from the
   * fill unless it is the only one.
   */
  ghost predicate Canonical(s: seq<Limb>, sign: bool)
  {
    |s| >= 1 && (|s| == 1 || s[|s| - 1] != Fill(sign))
  }

  /** The result of `shrink`: top limbs equal to the fill removed while more than one limb remains. */
  ghost function TrimFill(s: seq<Limb>, sign: bool): (r: seq<Limb>)
    decreases |s|
  {
    if |s| > 1 && s[|s| - 1] == Fill(sign) then TrimFill(s[..|s| - 1], sign) else s
  }

  lemma {:induction false} PowAdd(a: nat, b: nat)
    ensures Pow(a + b) == Pow(a) * Pow(b)
  {
    if a > 0 {
      PowAdd(a - 1, b);
      assert Pow(a + b) == BASE * Pow(a - 1 + b);
      assert BASE * (Pow(a - 1) * Pow(b)) == (BASE * Pow(a - 1)) * Pow(b);
    }
  }

  lemma {:induction false} PowMonotone(a: nat, b: nat)
    requires a <= b
    ensures Pow(a) <= Pow(b)
  {
    if a < b {
      PowMonotone(a, b - 1);
    }
  }

  lemma {:induction false} PowStrict(a: nat, b: nat)
    requires a < b
    ensures Pow(a) * BASE <= Pow(b)
  {
    PowMonotone(a + 1, b);
    assert Pow(a + 1) == BASE * Pow(a);
  }

  /** A number of n limbs is below BASE^n. */
  lemma {:induction false} NatBound(s: seq<Limb>)
    ensures Nat(s) < Pow(|s|)
  {
    if |s| > 0 {
      NatBound(s[1..]);
      MulLeq(Nat(s[1..]), Pow(|s| - 1) - 1, BASE);
    }
  }

  /** Concatenation of limb sequences: the second part is scaled by BASE^|s|. */
  lemma {:induction false} NatConcat(s: seq<Limb>, t: seq<Limb>)
    ensures Nat(s + t) == Nat(s) + Pow(|s|) * Nat(t)
  {
    if |s| > 0 {
      assert (s + t)[1..] == s[1..] + t && (s + t)[0] == s[0];
      NatConcat(s[1..], t);
      var rest, p, nt := Nat(s[1..]), Pow(|s| - 1), Nat(t);
      assert Nat(s + t) == s[0] + BASE * (rest + p * nt);
      assert Nat(s) == s[0] + BASE * rest && Pow(|s|) == BASE * p;
      ScaleSum(BASE, rest, p, nt);
    } else {
      assert s + t == t;
    }
  }

  lemma {:induction false} ScaleSum(b: int, r: int, p: int, n: int)
    ensures b * (r + p * n) == b * r + (b * p) * n
  {
    assert b * (p * n) == (b * p) * n;
  }

  lemma {:induction false} NatSplit(s: seq<Limb>, k: nat)
    requires k <= |s|
    ensures Nat(s) == Nat(s[..k]) + Pow(k) * Nat(s[k..])
  {
    assert s == s[..k] + s[k..];
    NatConcat(s[..k], s[k..]);
  }

  /** `push_back(x)` adds x * BASE^|s|. */
  lemma {:induction false} NatAppend(s: seq<Limb>, x: Limb)
    ensures Nat(s + [x]) == Nat(s) + x * Pow(|s|)
  {
    NatConcat(s, [x]);
    assert Nat([x]) == x + BASE * Nat([]) == x;
    assert Pow(|s|) * Nat([x]) == x * Pow(|s|);
  }

  lemma {:induction false} NatZeros(k: nat)
    ensures Nat(Fills(false, k)) == 0
  {
    if k > 0 {
      assert Fills(false, k)[1..] == Fills(false, k - 1);
      NatZeros(k - 1);
    }
  }

  /** Overwriting limb k changes the number by (v - s[k]) * BASE^k. */
  lemma {:induction false} NatUpdate(s: seq<Limb>, k: nat, v: Limb)
    requires k < |s|
    ensures Nat(s[k := v]) == Nat(s) + (v - s[k]) * Pow(k)
  {
    var t := s[k := v];
    var u := s[k + 1..];
    NatSplit(s, k);
    NatSplit(t, k);
    assert t[..k] == s[..k];
    assert s[k..][1..] == u && t[k..][1..] == u;
    var a, b, p, lo := Nat(t[k..]), Nat(s[k..]), Pow(k), Nat(s[..k]);
    assert b == s[k] + BASE * Nat(u);
    assert a == v + BASE * Nat(u);
    UpdateArith(lo, p, a, b, v - s[k]);
  }

  lemma {:induction false} UpdateArith(lo: int, p: int, a: int, b: int, delta: int)
    requires a - b == delta
    ensures lo + p * a == lo + p * b + delta * p
  {
    assert p * a == p * b + p * delta;
  }

  /** Nat only depends on the limbs below the last non-zero one. */
  lemma {:induction false} NatPadZeros(s: seq<Limb>, k: nat)
    ensures Nat(s + Fills(false, k)) == Nat(s)
  {
    NatConcat(s, Fills(false, k));
    NatZeros(k);
  }

  /** The top limb is at least 2^31 exactly when the number is at least half of BASE^n. */
  lemma {:induction false} TopBit(s: seq<Limb>)
    requires |s| >= 1
    ensures s[|s| - 1] >= HALF <==> 2 * Nat(s) >= Pow(|s|)
  {
    var n := |s|;
    NatTop(s);
    NatBound(s[..n - 1]);
    assert Pow(n) == BASE * Pow(n - 1);
    TopBitArith(Nat(s[..n - 1]), Pow(n - 1), s[n - 1]);
  }

  lemma {:induction false} TopBitArith(low: int, p: int, top: int)
    requires 0 <= low < p && 0 <= top
    ensures top >= HALF <==> 2 * (low + p * top) >= BASE * p
  {
    if top >= HALF {
      MulLeq(HALF, top, p);
    } else {
      MulLeq(top, HALF - 1, p);
    }
  }

  /** The two's complement value stays within [-BASE^n, BASE^n) and is negative exactly when the sign is set. */
  lemma {:induction false} ValueRange(s: seq<Limb>, sign: bool)
    ensures -Pow(|s|) <= Value(s, sign) < Pow(|s|)
    ensures sign <==> Value(s, sign) < 0
  {
    NatBound(s);
  }

  /** Peeling off the lowest limb. */
  lemma {:induction false} ValueCons(s: seq<Limb>, sign: bool)
    requires |s| >= 1
    ensures Value(s, sign) == s[0] + BASE * Value(s[1..], sign)
  {
    assert Pow(|s|) == BASE * Pow(|s| - 1);
  }

  /** An empty limb sequence denotes just its fill: 0 or -1. */
  lemma {:induction false} ValueEmpty(sign: bool)
    ensures Value([], sign) == (if sign then -1 else 0)
  {
  }

  /** Appending one fill limb (what `expand` does, what `shrink` undoes) keeps the value. */
  lemma {:induction false} ValuePushFill(s: seq<Limb>, sign: bool)
    ensures Value(s + [Fill(sign)], sign) == Value(s, sign)
  {
    NatAppend(s, Fill(sign));
    assert Pow(|s| + 1) == BASE * Pow(|s|);
  }

  lemma {:induction false} ValueExtend(s: seq<Limb>, sign: bool, k: nat)
    ensures Value(s + Fills(sign, k), sign) == Value(s, sign)
  {
    if k > 0 {
      ValueExtend(s, sign, k - 1);
      var p := s + Fills(sign, k - 1);
      assert s + Fills(sign, k) == p + [Fill(sign)];
      ValuePushFill(p, sign);
      assert Value(s + Fills(sign, k), sign) == Value(p + [Fill(sign)], sign);
    } else {
      assert s + Fills(sign, k) == s;
    }
  }

  /**
   * `operator[]` reads the two's-complement limbs of the value: the limb at any position,
   * stored or past the end, is digit i of Value in base 2^32 (floor division).
   */
  lemma {:induction false} DigitOfValue(s: seq<Limb>, sign: bool, i: nat)
    ensures LimbAt(s, sign, i) == (Value(s, sign) / Pow(i)) % BASE
  {
    if i < |s| {
      DigitStored(s, sign, i);
    } else {
      var v := Value(s, sign);
      ValueRange(s, sign);
      PowMonotone(|s|, i);
      if sign {
        DivModUnique(v, Pow(i), -1, v + Pow(i));
        DivModUnique(-1, BASE, -1, MAX_LIMB);
      } else {
        DivModUnique(v, Pow(i), 0, v);
      }
    }
  }

  lemma {:induction false} DigitStored(s: seq<Limb>, sign: bool, i: nat)
    requires i < |s|
    ensures s[i] == (Value(s, sign) / Pow(i)) % BASE
  {
    var lo, hi := s[..i], s[i..];
    ValueSplit(s, sign, i);
    ValueCons(hi, sign);
    assert hi[0] == s[i];
    NatBound(lo);
    DivAddMultiple(Nat(lo), Value(hi, sign), Pow(i));
    DivAddMultiple(s[i], Value(hi[1..], sign), BASE);
  }

  /** Splitting the limbs at position i: the low part is unsigned, the high part carries the sign. */
  lemma {:induction false} ValueSplit(s: seq<Limb>, sign: bool, i: nat)
    requires i <= |s|
    ensures Value(s, sign) == Nat(s[..i]) + Pow(i) * Value(s[i..], sign)
  {
    var n := |s|;
    NatSplit(s, i);
    PowAdd(i, n - i);
    SplitArith(Nat(s[..i]), Pow(i), Nat(s[i..]), Pow(n - i), sign);
  }

  lemma {:induction false} SplitArith(low: int, p: int, h: int, f: int, sign: bool)
    ensures low + p * h - (if sign then p * f else 0) == low + p * (h - (if sign then f else 0))
  {
    if sign {
      assert p * (h - f) == p * h - p * f;
    }
  }

  /** The top limb's weight. */
  lemma {:induction false} NatTop(t: seq<Limb>)
    requires |t| >= 1
    ensures Nat(t) == Nat(t[..|t| - 1]) + Pow(|t| - 1) * t[|t| - 1]
  {
    var n := |t|;
    NatSplit(t, n - 1);
    assert t[n - 1..] == [t[n - 1]];
    assert Nat(t[n - 1..]) == t[n - 1] + BASE * Nat([]);
  }

  /** A canonical representation is determined by its value, so `==` on canonical values is equality of numbers. */
  lemma {:induction false} CanonicalUnique(s: seq<Limb>, sign: bool, t: seq<Limb>, tsign: bool)
    requires Canonical(s, sign) && Canonical(t, tsign)
    requires Value(s, sign) == Value(t, tsign)
    ensures s == t && sign == tsign
  {
    ValueRange(s, sign);
    ValueRange(t, tsign);
    if |s| != |t| {
      if |s| < |t| {
        CanonicalLonger(s, sign, t);
      } else {
        CanonicalLonger(t, sign, s);
      }
    }
    forall i | 0 <= i < |s|
      ensures s[i] == t[i]
    {
      DigitOfValue(s, sign, i);
      DigitOfValue(t, sign, i);
    }
  }

  /** A longer canonical sequence denotes a number of larger magnitude than any shorter one with the same sign. */
  lemma {:induction false} CanonicalLonger(s: seq<Limb>, sign: bool, t: seq<Limb>)
    requires 1 <= |s| < |t| && Canonical(t, sign)
    ensures sign ==> Value(t, sign) < -Pow(|s|)
    ensures !sign ==> Value(t, sign) >= Pow(|s|)
  {
    var n := |t|;
    var top := t[n - 1];
    var p := Pow(n - 1);
    NatTop(t);
    NatBound(t[..n - 1]);
    PowMonotone(|s|, n - 1);
    assert Pow(n) == BASE * p;
    if sign {
      MulLeq(top, MAX_LIMB - 1, p);
      LongerNegative(Nat(t[..n - 1]), top, p);
    } else {
      MulLeq(1, top, p);
    }
  }

  lemma {:induction false} LongerNegative(low: int, top: int, p: int)
    requires 0 <= low < p && p * top <= (MAX_LIMB - 1) * p
    ensures low + p * top - BASE * p < -p
  {
  }

  /** `shrink` only drops fill limbs, keeps the value and yields the canonical form of a non-empty sequence. */
  lemma {:induction false} TrimFillSpec(s: seq<Limb>, sign: bool)
    ensures Value(TrimFill(s, sign), sign) == Value(s, sign)
    ensures |s| >= 1 ==> Canonical(TrimFill(s, sign), sign)
    ensures TrimFill(s, sign) <= s
    ensures forall k :: |TrimFill(s, sign)| <= k < |s| ==> s[k] == Fill(sign)
    decreases |s|
  {
    if |s| > 1 && s[|s| - 1] == Fill(sign) {
      var p := s[..|s| - 1];
      TrimFillSpec(p, sign);
      assert p + [Fill(sign)] == s;
      ValuePushFill(p, sign);
    }
  }

  /** The canonical limbs of a natural number. */
  ghost function NatLimbs(v: nat): (r: seq<Limb>)
    decreases v
  {
    if v < BASE then [v] else [v % BASE] + NatLimbs(v / BASE)
  }

  lemma {:induction false} NatLimbsSpec(v: nat)
    ensures Canonical(NatLimbs(v), false) && Value(NatLimbs(v), false) == v
    decreases v
  {
    if v >= BASE {
      NatLimbsSpec(v / BASE);
      var r := NatLimbs(v);
      var q := NatLimbs(v / BASE);
      assert r == [v % BASE] + q && r[1..] == q;
      assert Nat(r) == v % BASE + BASE * Nat(q);
      assert v == v % BASE + BASE * (v / BASE);
      assert r[|r| - 1] == q[|q| - 1];
      assert |q| == 1 ==> q[0] == v / BASE;
    } else {
      assert Nat([v]) == v + BASE * Nat([]);
    }
  }

  /** A canonical non-negative sequence is the NatLimbs of its value. */
  lemma {:induction false} MagnitudeLimbs(s: seq<Limb>, v: nat)
    requires Canonical(s, false) && Value(s, false) == v
    ensures s == NatLimbs(v)
  {
    NatLimbsSpec(v);
    CanonicalUnique(s, false, NatLimbs(v), false);
  }

  /** A number below BASE^2 has at most two canonical limbs. */
  lemma {:induction false} NatLimbsShort(v: nat)
    requires v < Pow(2)
    ensures |NatLimbs(v)| <= 2
  {
    NatLimbsSpec(v);
    if |NatLimbs(v)| > 2 {
      CanonicalLonger([0, 0], false, NatLimbs(v));
    }
  }
}
