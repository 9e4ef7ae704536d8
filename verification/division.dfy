/**
 * The number theory of the multi-limb division `/=`: windows of limbs, the 3-by-2 trial
 * quotient of `calc3to2`, the lexicographic test of `compare_prefix` and the in-place
 * subtraction of `difference`.
 */
module LongDivision {
  import opened Arith
  import opened Limbs
  import opened TwosComplement

  /** The len limbs of (s, sign) from position pos up, as `operator[]` reads them. */
  ghost function Window(s: seq<Limb>, sign: bool, pos: nat, len: nat): (r: seq<Limb>)
    ensures |r| == len
  {
    Extended(s, sign, pos + len)[pos..]
  }

  lemma {:induction false} WindowAt(s: seq<Limb>, sign: bool, pos: nat, len: nat, k: nat)
    requires k < len
    ensures Window(s, sign, pos, len)[k] == LimbAt(s, sign, pos + k)
  {
  }

  lemma {:induction false} WindowSplit(s: seq<Limb>, sign: bool, pos: nat, len: nat, k: nat)
    requires k <= len
    ensures Window(s, sign, pos, len) == Window(s, sign, pos, k) + Window(s, sign, pos + k, len - k)
  {
  }

  /** A window of a non-negative sequence starting at 0 holds its value modulo BASE^len. */
  lemma {:induction false} WindowLow(s: seq<Limb>, len: nat)
    ensures Nat(Window(s, false, 0, len)) == Nat(s) % Pow(len)
  {
    if len >= |s| {
      assert Window(s, false, 0, len) == Extended(s, false, len);
      ExtendedValue(s, false, len);
      NatBound(s);
      PowMonotone(|s|, len);
      DivModUnique(Nat(s), Pow(len), 0, Nat(s));
    } else {
      assert Window(s, false, 0, len) == s[..len];
      var low, high, p := Nat(s[..len]), Nat(s[len..]), Pow(len);
      NatSplit(s, len);
      NatBound(s[..len]);
      assert Nat(s) == high * p + low;
      DivModUnique(Nat(s), p, high, low);
    }
  }

  /** When a non-negative value fits below BASE^(pos+len), the window at pos is the value shifted down by pos limbs. */
  lemma {:induction false} WindowHigh(s: seq<Limb>, pos: nat, len: nat)
    requires Nat(s) < Pow(pos + len)
    ensures Nat(Window(s, false, pos, len)) == Nat(s) / Pow(pos)
  {
    WindowSplit(s, false, 0, pos + len, pos);
    WindowLow(s, pos + len);
    DivModUnique(Nat(s), Pow(pos + len), 0, Nat(s));
    var lo, hi := Window(s, false, 0, pos), Window(s, false, pos, len);
    NatConcat(lo, hi);
    NatBound(lo);
    DivAddMultiple(Nat(lo), Nat(hi), Pow(pos));
  }

  /** Dropping the low k limbs of a window is division by BASE^k. */
  lemma {:induction false} WindowTop(s: seq<Limb>, sign: bool, pos: nat, len: nat, k: nat)
    requires k <= len
    ensures Nat(Window(s, sign, pos, len)) / Pow(k) == Nat(Window(s, sign, pos + k, len - k))
  {
    WindowSplit(s, sign, pos, len, k);
    var lo, hi := Window(s, sign, pos, k), Window(s, sign, pos + k, len - k);
    NatConcat(lo, hi);
    NatBound(lo);
    DivAddMultiple(Nat(lo), Nat(hi), Pow(k));
  }

  /** The number read from three limbs, most significant first, as `calc3to2` assembles it. */
  lemma {:induction false} NatThree(w: seq<Limb>)
    requires |w| == 3
    ensures Nat(w) == w[2] * BASE * BASE + w[1] * BASE + w[0]
  {
    assert w[1..][1..][1..] == [];
    assert Nat(w[1..][1..]) == w[2] + BASE * 0;
  }

  lemma {:induction false} NatTwo(w: seq<Limb>)
    requires |w| == 2
    ensures Nat(w) == w[1] * BASE + w[0]
  {
    assert w[1..][1..] == [];
    assert Nat(w[1..]) == w[1] + BASE * 0;
  }

  /**
   * The 3-by-2 trial quotient. W is the current window of the remainder, D the divisor, and
   * s = BASE^(m-2) the weight of the limbs the estimate ignores. When the divisor's top limb is
   * not zero (D >= BASE * s) and the true digit q = W / D is below BASE, the estimate
   * (W / s) / (D / s) is q or q + 1, and never more than BASE.
   */
  lemma {:induction false} EstimateBound(W: int, D: int, s: int)
    requires s >= 1 && D >= BASE * s && 0 <= W < BASE * D
    ensures W / D <= (W / s) / (D / s) <= W / D + 1
    ensures (W / s) / (D / s) <= BASE
  {
    var w, rw, d, rd := W / s, W % s, D / s, D % s;
    var q, qh := W / D, w / d;
    assert W == w * s + rw && D == d * s + rd;
    assert d >= BASE by {
      if d < BASE {
        MulLeq(d, BASE - 1, s);
        assert false;
      }
    }
    EstimateAtMost(W, D, s, w, rw, d, rd, qh);
    EstimateLower(W, D, s, w, rw, d, rd, q);
    EstimateUpper(W, D, s, w, rw, d, rd, q, qh);
  }

  lemma {:induction false} EstimateAtMost(W: int, D: int, s: int, w: int, rw: int, d: int, rd: int, qh: int)
    requires s >= 1 && d >= BASE && 0 <= rw < s && 0 <= rd < s && w >= 0
    requires W == w * s + rw && D == d * s + rd && 0 <= W < BASE * D
    requires qh == w / d
    ensures qh <= BASE
  {
    assert BASE * D == BASE * d * s + BASE * rd;
    MulLeq(rd, s, BASE);
    assert w * s < (BASE * d + BASE) * s;
    if w >= BASE * d + BASE {
      MulLeq(BASE * d + BASE, w, s);
      assert false;
    }
    if qh > BASE {
      MulLeq(BASE + 1, qh, d);
      assert false;
    }
  }

  lemma {:induction false} EstimateLower(W: int, D: int, s: int, w: int, rw: int, d: int, rd: int, q: int)
    requires s >= 1 && d >= BASE && 0 <= rw < s && 0 <= rd < s && w >= 0
    requires W == w * s + rw && D == d * s + rd && W >= 0
    requires q == W / D
    ensures q <= w / d
  {
    var r := W % D;
    assert W == q * D + r && 0 <= r < D;
    if q < 0 {
      MulLeq(q, -1, D);
      assert false;
    }
    var qd := q * d;
    assert q * D == qd * s + q * rd by {
      assert q * (d * s) == (q * d) * s;
    }
    MulLeq(0, q, rd);
    if qd > w {
      MulLeq(w + 1, qd, s);
      assert false;
    }
    DivLower(w, d, q);
  }

  /** q * d <= w gives q <= w / d. */
  lemma {:induction false} DivLower(w: int, d: int, q: int)
    requires d > 0 && q * d <= w
    ensures q <= w / d
  {
    if q > w / d {
      MulLeq(w / d + 1, q, d);
      assert false;
    }
  }

  lemma {:induction false} EstimateUpper(W: int, D: int, s: int, w: int, rw: int, d: int, rd: int, q: int, qh: int)
    requires s >= 1 && d >= BASE && 0 <= rw < s && 0 <= rd < s && w >= 0
    requires W == w * s + rw && D == d * s + rd && W >= 0
    requires q == W / D && qh == w / d && 0 <= qh <= BASE
    ensures qh <= q + 1
  {
    var hi := qh * d;
    assert hi <= w;
    MulLeq(hi, w, s);
    var lo := qh * rd;
    MulLeq(rd, s - 1, qh);
    MulLeq(qh, BASE, s - 1);
    MulLeq(BASE, d, s);
    assert lo < D;
    Distribute(qh, d, s, rd);
    assert qh * D == hi * s + lo;
    QuotientAbove(W, D, q, qh);
  }

  lemma {:induction false} Distribute(x: int, d: int, s: int, r: int)
    ensures x * (d * s + r) == (x * d) * s + x * r
  {
  }

  /** A multiple of D below W + D has a factor at most W / D + 1. */
  lemma {:induction false} QuotientAbove(W: int, D: int, q: int, qh: int)
    requires D > 0 && W >= 0 && q == W / D && qh * D < W + D
    ensures qh <= q + 1
  {
    if qh > q + 1 {
      MulLeq(q + 2, qh, D);
    }
  }

  /**
   * An input on which the trial quotient overflows a limb: a window whose top three limbs
   * are [0, 2^32-1, 2^31] (least significant first) over a divisor whose top two limbs are
   * [2^32-1, 2^31], with one limb below each. The true digit is 2^32 - 1 but the estimate is
   * 2^32, which `calc3to2`'s cast to `uint32_t` turns into 0.
   */
  lemma EstimateWraps()
    ensures var W := Nat([0, 0, MAX_LIMB, HALF]);
            var D := Nat([1, MAX_LIMB, HALF]);
            W < BASE * D && W / D == MAX_LIMB && (W / BASE) / (D / BASE) == BASE
  {
    var W := Nat([0, 0, MAX_LIMB, HALF]);
    var D := Nat([1, MAX_LIMB, HALF]);
    NatThree([0, MAX_LIMB, HALF]);
    assert [0, 0, MAX_LIMB, HALF][1..] == [0, MAX_LIMB, HALF];
    NatThree([1, MAX_LIMB, HALF]);
    var d2 := MAX_LIMB + BASE * HALF;
    assert W == BASE * BASE * d2;
    assert D == 1 + BASE * d2;
    DivModUnique(W, D, MAX_LIMB, W - MAX_LIMB * D);
    DivModUnique(W, BASE, BASE * d2, 0);
    DivModUnique(D, BASE, d2, 1);
    DivModUnique(BASE * d2, d2, BASE, 0);
  }

  /**
   * Lexicographic order from the top: for two limb sequences of the same length whose limbs
   * above position j agree, the one with the smaller limb at j is the smaller number.
   */
  lemma {:induction false} NatLex(X: seq<Limb>, Y: seq<Limb>, j: nat)
    requires |X| == |Y| && j < |X|
    requires forall k :: j < k < |X| ==> X[k] == Y[k]
    ensures X[j] < Y[j] ==> Nat(X) < Nat(Y)
    ensures X[j] > Y[j] ==> Nat(X) > Nat(Y)
  {
    assert X[j + 1..] == Y[j + 1..];
    NatSplit(X, j + 1);
    NatSplit(Y, j + 1);
    NatTop(X[..j + 1]);
    NatTop(Y[..j + 1]);
    assert X[..j + 1][..j] == X[..j] && Y[..j + 1][..j] == Y[..j];
    NatBound(X[..j]);
    NatBound(Y[..j]);
    LexArith(Nat(X[..j]), Nat(Y[..j]), X[j], Y[j], Pow(j), Pow(j + 1) * Nat(X[j + 1..]));
  }

  lemma {:induction false} LexArith(lx: int, ly: int, x: int, y: int, p: int, h: int)
    requires 0 <= lx < p && 0 <= ly < p
    ensures x < y ==> lx + p * x + h < ly + p * y + h
    ensures x > y ==> lx + p * x + h > ly + p * y + h
  {
    if x < y {
      MulLeq(x + 1, y, p);
    } else if x > y {
      MulLeq(y + 1, x, p);
    }
  }

  /** 2^64, the modulus of the `uint64_t` arithmetic in `difference`. */
  const WORD64: int := 0x1_0000_0000_0000_0000

  /**
   * `difference` computes a[i] - b[i] - borrow in `uint64_t`: a negative difference wraps
   * to 2^64 plus it, so bits 32 and up are set exactly when it is negative, and its low 32
   * bits are the difference modulo 2^32.
   */
  lemma {:induction false} Wrap64(x: int)
    requires -BASE <= x < BASE
    ensures (x % WORD64) / BASE != 0 <==> x < 0
    ensures (x % WORD64) % BASE == x % BASE
  {
    if x < 0 {
      DivModUnique(x, WORD64, -1, x + WORD64);
      DivModUnique(x + WORD64, BASE, MAX_LIMB + x / BASE + 1, x % BASE);
    } else {
      DivModUnique(x, WORD64, 0, x);
      DivModUnique(x, BASE, 0, x);
    }
  }

  /**
   * One limb of the subtraction in `difference`: the digits written so far plus the
   * subtrahend equal the minuend, once the outstanding borrow is weighed in.
   */
  lemma {:induction false} SubLimbStep(Dig: seq<Limb>, Wo: seq<Limb>, Wb: seq<Limb>, i: nat, c0: int, d: Limb, c: int)
    requires |Dig| == i < |Wo| == |Wb|
    requires c0 == 0 || c0 == 1
    requires Nat(Dig) + Nat(Wb[..i]) == Nat(Wo[..i]) + c0 * Pow(i)
    requires c == (if Wo[i] - Wb[i] - c0 < 0 then 1 else 0)
    requires d == Wo[i] - Wb[i] - c0 + c * BASE
    ensures Nat(Dig + [d]) + Nat(Wb[..i + 1]) == Nat(Wo[..i + 1]) + c * Pow(i + 1)
  {
    assert Wo[..i + 1] == Wo[..i] + [Wo[i]];
    assert Wb[..i + 1] == Wb[..i] + [Wb[i]];
    NatAppend(Dig, d);
    NatAppend(Wo[..i], Wo[i]);
    NatAppend(Wb[..i], Wb[i]);
    assert Pow(i + 1) == BASE * Pow(i);
    SubArith(d, Wo[i], Wb[i], c0, c, Pow(i));
  }

  lemma {:induction false} SubArith(d: int, x: int, y: int, c0: int, c: int, p: int)
    requires d == x - y - c0 + c * BASE
    ensures d * p + y * p == x * p - c0 * p + c * (BASE * p)
  {
    assert d * p == x * p - y * p - c0 * p + c * BASE * p;
  }

  /** Replacing limbs pos .. pos+|X|-1 of E by X changes the number by (Nat(X) - Nat(old limbs)) * BASE^pos. */
  lemma {:induction false} NatReplace(E: seq<Limb>, pos: nat, X: seq<Limb>)
    requires pos + |X| <= |E|
    ensures Nat(E[..pos] + X + E[pos + |X|..]) == Nat(E) + Pow(pos) * (Nat(X) - Nat(E[pos..pos + |X|]))
  {
    var n := |X|;
    var lo, mid, hi := E[..pos], E[pos..pos + n], E[pos + n..];
    assert E == lo + (mid + hi);
    assert lo + X + hi == lo + (X + hi);
    NatConcat(lo, mid + hi);
    NatConcat(lo, X + hi);
    NatConcat(mid, hi);
    NatConcat(X, hi);
    assert Pow(pos) * (Nat(X) + Pow(n) * Nat(hi)) - Pow(pos) * (Nat(mid) + Pow(n) * Nat(hi))
        == Pow(pos) * (Nat(X) - Nat(mid));
  }

  /**
   * The closing step of `difference`. The m+1 digits Dig were computed from the window Wo of
   * the minuend O at offset and the window Wb of the subtrahend, and were written over the
   * window (when offset <= |O|) or appended to O (when offset > |O|, where the window reads as
   * zeros). When the subtrahend does not exceed the window, the result is O minus the
   * subtrahend shifted by offset limbs.
   */
  lemma {:induction false} DifferenceResult(O: seq<Limb>, Bd: seq<Limb>, offset: nat, m: nat, Dig: seq<Limb>, borrow: int, R: seq<Limb>)
    requires |Dig| == m + 1 && (borrow == 0 || borrow == 1)
    requires Nat(Dig) + Nat(Window(Bd, false, 0, m + 1)) == Nat(Window(O, false, offset, m + 1)) + borrow * Pow(m + 1)
    requires offset <= |O| ==>
      var K := if |O| > offset + m + 1 then |O| else offset + m + 1;
      var E := Extended(O, false, K);
      R == E[..offset] + Dig + E[offset + m + 1..]
    requires offset > |O| ==> R == O + Dig
    ensures Nat(Window(O, false, offset, m + 1)) >= Nat(Window(Bd, false, 0, m + 1)) ==>
      Nat(R) == Nat(O) - Nat(Window(Bd, false, 0, m + 1)) * Pow(offset)
  {
    var Wo, Wb := Window(O, false, offset, m + 1), Window(Bd, false, 0, m + 1);
    if Nat(Wo) >= Nat(Wb) {
      NatBound(Dig);
      assert borrow == 0;
      if offset <= |O| {
        DifferenceInPlace(O, offset, m, Dig, R);
        ShiftedDifference(Nat(R), Nat(O), Pow(offset), Nat(Dig), Nat(Wo), Nat(Wb));
      } else {
        assert Wo == Fills(false, m + 1);
        NatZeros(m + 1);
        assert Nat(Wb) == 0 && Nat(Dig) == 0;
        NatConcat(O, Dig);
        assert Nat(R) == Nat(O) + Pow(|O|) * 0;
      }
    }
  }

  lemma {:induction false} ShiftedDifference(r: int, o: int, p: int, dig: int, wo: int, wb: int)
    requires r == o + p * (dig - wo) && dig == wo - wb
    ensures r == o - wb * p
  {
  }

  lemma {:induction false} DifferenceInPlace(O: seq<Limb>, offset: nat, m: nat, Dig: seq<Limb>, R: seq<Limb>)
    requires |Dig| == m + 1 && offset <= |O|
    requires var K := if |O| > offset + m + 1 then |O| else offset + m + 1;
      R == Extended(O, false, K)[..offset] + Dig + Extended(O, false, K)[offset + m + 1..]
    ensures Nat(R) == Nat(O) + Pow(offset) * (Nat(Dig) - Nat(Window(O, false, offset, m + 1)))
  {
    var K := if |O| > offset + m + 1 then |O| else offset + m + 1;
    var E := Extended(O, false, K);
    ExtendedValue(O, false, K);
    NatPadZeros(O, K - |O|);
    assert E[offset..offset + m + 1] == Window(O, false, offset, m + 1);
    NatReplace(E, offset, Dig);
  }

  /** A window of n limbs starting at 0 over a sequence of n limbs is the sequence itself. */
  lemma {:induction false} WholeWindow(s: seq<Limb>, sign: bool)
    ensures Window(s, sign, 0, |s|) == s
  {
    ExtendedValue(s, sign, |s|);
    assert s + Fills(sign, 0) == s;
  }

  /** R < X * p gives R / p < X. */
  lemma {:induction false} DivBelow(R: int, p: int, X: int)
    requires p > 0 && 0 <= R < X * p
    ensures R / p < X
  {
    if R / p >= X {
      MulLeq(X, R / p, p);
      assert false;
    }
  }

  /**
   * What the loop of `/=` knows at digit i. The remainder R is below D * BASE^(i+1), so its
   * window of m+1 limbs at i is R / BASE^i, the true digit q = W / D is a single limb, and
   * the 3-by-2 estimate from the top limbs is q or q + 1 (exactly q for a two-limb divisor).
   */
  lemma {:induction false} EstimateCorrect(Rd: seq<Limb>, Bd: seq<Limb>, i: nat, m: nat)
    requires |Bd| == m >= 2 && Bd[m - 1] != 0
    requires Nat(Rd) < Nat(Bd) * Pow(i + 1)
    ensures Pow(m - 1) <= Nat(Bd) < Pow(m)
    ensures Nat(Window(Bd, false, m - 2, 2)) >= BASE
    ensures var W := Nat(Window(Rd, false, i, m + 1));
            var qh := Nat(Window(Rd, false, i + m - 2, 3)) / Nat(Window(Bd, false, m - 2, 2));
            W == Nat(Rd) / Pow(i) && W < BASE * Nat(Bd) && W / Nat(Bd) < BASE &&
            W / Nat(Bd) <= qh <= W / Nat(Bd) + 1 && qh <= BASE &&
            (m == 2 ==> qh == W / Nat(Bd))
  {
    DivisorBounds(Bd);
    RemainderWindow(Rd, Nat(Bd), i, m);
    var W, D, s := Nat(Window(Rd, false, i, m + 1)), Nat(Bd), Pow(m - 2);
    var hw, hd := Nat(Window(Rd, false, i + m - 2, 3)), Nat(Window(Bd, false, m - 2, 2));
    WindowTop(Rd, false, i, m + 1, m - 2);
    assert hw == W / s;
    WholeWindow(Bd, false);
    WindowTop(Bd, false, 0, m, m - 2);
    assert hd == D / s;
    assert Pow(m - 1) == BASE * s;
    EstimateBound(W, D, s);
    if m == 2 {
      assert s == 1;
    }
  }

  /** A divisor of m limbs with a non-zero top limb lies in [BASE^(m-1), BASE^m), and so do its top two limbs scaled down. */
  lemma {:induction false} DivisorBounds(Bd: seq<Limb>)
    requires |Bd| >= 2 && Bd[|Bd| - 1] != 0
    ensures Pow(|Bd| - 1) <= Nat(Bd) < Pow(|Bd|)
    ensures Nat(Window(Bd, false, |Bd| - 2, 2)) >= BASE
  {
    DivisorRange(Bd);
    var m := |Bd|;
    var top := Window(Bd, false, m - 2, 2);
    WindowAt(Bd, false, m - 2, 2, 1);
    NatTwo(top);
  }

  lemma {:induction false} DivisorRange(Bd: seq<Limb>)
    requires |Bd| >= 1 && Bd[|Bd| - 1] != 0
    ensures Pow(|Bd| - 1) <= Nat(Bd) < Pow(|Bd|)
  {
    var m := |Bd|;
    NatBound(Bd);
    NatTop(Bd);
    MulLeq(1, Bd[m - 1], Pow(m - 1));
  }

  /** Below D * BASE^(i+1), the remainder's window at i is R / BASE^i and the true digit is a single limb. */
  lemma {:induction false} RemainderWindow(Rd: seq<Limb>, D: int, i: nat, m: nat)
    requires 1 <= D < Pow(m) && Nat(Rd) < D * Pow(i + 1)
    ensures var W := Nat(Window(Rd, false, i, m + 1));
            W == Nat(Rd) / Pow(i) && W < BASE * D && W / D < BASE
  {
    var R := Nat(Rd);
    MulLeq(D, Pow(m), Pow(i + 1));
    PowAdd(m, i + 1);
    WindowHigh(Rd, i, m + 1);
    var W := Nat(Window(Rd, false, i, m + 1));
    assert Pow(i + 1) == BASE * Pow(i);
    assert D * Pow(i + 1) == (D * BASE) * Pow(i);
    DivBelow(R, Pow(i), D * BASE);
    DivBelow(W, D, BASE);
  }

  /**
   * One digit of `/=`: subtracting q * D * BASE^i from the remainder and recording q as
   * quotient digit i keeps remainder + D * quotient equal to the dividend and brings the
   * remainder below D * BASE^i.
   */
  lemma {:induction false} DivStepArith(R: int, D: int, Q: int, A: int, p: int, q: int)
    requires p >= 1 && D >= 1 && R >= 0 && Q >= 0
    requires R + D * Q * (BASE * p) == A && R < D * (BASE * p)
    requires q == (R / p) / D
    ensures D * q <= R / p
    ensures (R - D * q * p) + D * (q + BASE * Q) * p == A
    ensures 0 <= R - D * q * p < D * p
  {
    var W, r0 := R / p, R % p;
    var r1 := W % D;
    assert W == q * D + r1 && R == W * p + r0;
    assert R - D * q * p == r1 * p + r0 by {
      assert W * p == q * D * p + r1 * p;
    }
    MulLeq(r1 + 1, D, p);
    MulLeq(0, r1, p);
    assert D * (q + BASE * Q) * p == D * q * p + D * Q * (BASE * p);
  }

  /** A product of a divisor below BASE^m and one limb fits the m+1 limbs `compare_prefix` reads. */
  lemma {:induction false} ProductWindow(Pd: seq<Limb>, D: int, m: nat, digit: Limb)
    requires 0 <= D < Pow(m) && Nat(Pd) == D * digit
    ensures Nat(Window(Pd, false, 0, m + 1)) == D * digit
  {
    var P, x := Pow(m), D * digit;
    WindowLow(Pd, m + 1);
    MulLeq(D, P, digit);
    MulLess(digit, BASE, P);
    assert P * digit == digit * P;
    assert Pow(m + 1) == BASE * P;
    DivModUnique(x, Pow(m + 1), 0, x);
  }

  /**
   * The digit `/=` settles on: the estimate, decremented once (modulo 2^32) when the product
   * divisor * estimate exceeds the window. It is the true digit whenever the remainder is below
   * divisor * BASE^(i+1) and the estimate fits a limb.
   */
  lemma {:induction false} CorrectedDigit(Rd: seq<Limb>, Bd: seq<Limb>, i: nat, m: nat, est: Limb, Pd: seq<Limb>, less: bool, digit: Limb)
    requires |Bd| == m >= 2 && Bd[m - 1] != 0
    requires est == Estimate(Rd, Bd, i, m) % BASE
    requires Nat(Pd) == Nat(Bd) * est
    requires less <==> Nat(Window(Rd, false, i, m + 1)) < Nat(Window(Pd, false, 0, m + 1))
    requires digit == if less then (est + MAX_LIMB) % BASE else est
    ensures Nat(Rd) < Nat(Bd) * Pow(i + 1) && Estimate(Rd, Bd, i, m) < BASE ==>
      digit == Nat(Window(Rd, false, i, m + 1)) / Nat(Bd)
  {
    var D, W, qh := Nat(Bd), Nat(Window(Rd, false, i, m + 1)), Estimate(Rd, Bd, i, m);
    if Nat(Rd) < D * Pow(i + 1) && qh < BASE {
      EstimateCorrect(Rd, Bd, i, m);
      DivModUnique(qh, BASE, 0, qh);
      ProductWindow(Pd, D, m, est);
      var q := W / D;
      Correction(W, D, q, qh, less);
      if less {
        DivModUnique(est + MAX_LIMB, BASE, 1, q);
      }
    }
  }

  /**
   * The invariant of the digit loop of `/=` once the quotient digits from k up are in Cd: the
   * remainder Rd plus divisor * those digits * BASE^k is the dividend A, and Rd < divisor * BASE^k.
   */
  ghost predicate QuotientSoFar(Rd: seq<Limb>, Bd: seq<Limb>, Cd: seq<Limb>, k: nat, A: int)
    requires k <= |Cd|
  {
    Nat(Rd) + Nat(Bd) * Nat(Cd[k..]) * Pow(k) == A && Nat(Rd) < Nat(Bd) * Pow(k)
  }

  /** With no digit fixed yet the invariant holds. */
  lemma {:induction false} QuotientStart(Ad: seq<Limb>, Bd: seq<Limb>, Cd: seq<Limb>)
    requires |Bd| >= 2 && |Ad| > |Bd| && Bd[|Bd| - 1] != 0 && Nat(Ad) < Pow(|Ad| - 1)
    requires |Cd| == |Ad| - |Bd| + 1
    ensures QuotientSoFar(Ad, Bd, Cd, |Cd|, Nat(Ad))
  {
    DivInit(Ad, Bd);
    assert Cd[|Cd|..] == [];
  }

  /** With every digit fixed the invariant is the division identity. */
  lemma {:induction false} QuotientDone(Rd: seq<Limb>, Bd: seq<Limb>, Cd: seq<Limb>, A: int)
    requires QuotientSoFar(Rd, Bd, Cd, 0, A)
    ensures A == Nat(Cd) * Nat(Bd) + Nat(Rd) && Nat(Rd) < Nat(Bd)
  {
    var D, C := Nat(Bd), Nat(Cd);
    assert Cd[0..] == Cd && Pow(0) == 1;
    assert D * C * 1 == C * D;
  }

  /**
   * Before the first digit: the normalized dividend has a zero top limb, so it is below
   * D * BASE^(n-m+1) for a divisor of m limbs with a non-zero top limb.
   */
  lemma {:induction false} DivInit(Ad: seq<Limb>, Bd: seq<Limb>)
    requires |Bd| >= 2 && |Ad| > |Bd| && Bd[|Bd| - 1] != 0 && Nat(Ad) < Pow(|Ad| - 1)
    ensures Nat(Ad) < Nat(Bd) * Pow(|Ad| - |Bd| + 1)
  {
    var n, m := |Ad|, |Bd|;
    var p, q, D := Pow(m - 1), Pow(n - m + 1), Nat(Bd);
    var top, low := Bd[m - 1], Nat(Bd[..m - 1]);
    NatTop(Bd);
    assert D == low + p * top;
    MulLeq(1, top, p);
    assert top * p == p * top;
    MulLeq(p, D, q);
    PowAdd(m - 1, n - m + 1);
    assert p * q == Pow(n);
    PowMonotone(n - 1, n);
  }

  /**
   * The state of the receiver during `difference`, after i = |Dig| result limbs: when the window
   * starts inside the stored limbs, limbs offset .. offset+i-1 hold Dig and the others are the
   * original limbs (zeros past the end), with the length grown to cover the written ones;
   * when it starts past the end, Dig has been pushed after the stored limbs.
   */
  ghost predicate Partial(O: seq<Limb>, K: nat, d: seq<Limb>, Dig: seq<Limb>, offset: nat)
  {
    var i := |Dig|;
    (offset <= |O| ==>
      (|d| == (if |O| > offset + i then |O| else offset + i)
       && |d| <= K
       && forall k :: 0 <= k < |d| ==> d[k] == (if offset <= k < offset + i then Dig[k - offset] else Extended(O, false, K)[k])))
    && (offset > |O| ==> d == O + Dig)
  }

  /** Storing the next result limb: overwritten when it exists, pushed otherwise. */
  lemma {:induction false} PartialStep(O: seq<Limb>, K: nat, d: seq<Limb>, Dig: seq<Limb>, offset: nat, m: nat, digit: Limb)
    requires |Dig| <= m && K == (if |O| > offset + m + 1 then |O| else offset + m + 1)
    requires Partial(O, K, d, Dig, offset)
    ensures Partial(O, K, if offset + |Dig| < |d| then d[offset + |Dig| := digit] else d + [digit], Dig + [digit], offset)
  {
  }

  /** The limb `difference` reads at position offset + i is limb i of the original window. */
  lemma {:induction false} ReadMinuend(O: seq<Limb>, K: nat, d: seq<Limb>, Dig: seq<Limb>, offset: nat, m: nat, i: nat)
    requires i <= m && |Dig| == i && K == (if |O| > offset + m + 1 then |O| else offset + m + 1)
    requires Partial(O, K, d, Dig, offset)
    ensures LimbAt(d, false, offset + i) == Window(O, false, offset, m + 1)[i]
  {
    WindowAt(O, false, offset, m + 1, i);
  }

  /** After m + 1 limbs the receiver is the original with the window replaced by Dig. */
  lemma {:induction false} PartialDone(O: seq<Limb>, K: nat, d: seq<Limb>, Dig: seq<Limb>, offset: nat, m: nat)
    requires |Dig| == m + 1 && K == (if |O| > offset + m + 1 then |O| else offset + m + 1)
    requires Partial(O, K, d, Dig, offset)
    ensures offset <= |O| ==> d == Extended(O, false, K)[..offset] + Dig + Extended(O, false, K)[offset + m + 1..]
  {
    if offset <= |O| {
      var E := Extended(O, false, K);
      assert d == E[..offset] + Dig + E[offset + m + 1..];
    }
  }

  /** The three limbs `calc3to2` reads from the dividend and the two it reads from the divisor, as numbers. */
  lemma {:induction false} WindowParts(s: seq<Limb>, ss: bool, p: nat, t: seq<Limb>, ts: bool, k: nat)
    ensures Nat(Window(s, ss, p, 3)) == LimbAt(s, ss, p + 2) * BASE * BASE + LimbAt(s, ss, p + 1) * BASE + LimbAt(s, ss, p)
    ensures Nat(Window(t, ts, k, 2)) == LimbAt(t, ts, k + 1) * BASE + LimbAt(t, ts, k)
  {
    NatThree(Window(s, ss, p, 3));
    NatTwo(Window(t, ts, k, 2));
    WindowAt(s, ss, p, 3, 0);
    WindowAt(s, ss, p, 3, 1);
    WindowAt(s, ss, p, 3, 2);
    WindowAt(t, ts, k, 2, 0);
    WindowAt(t, ts, k, 2, 1);
  }

  /**
   * The correction step after `compare_prefix`: with an estimate that is the true digit q or
   * q + 1, the window is below estimate * D exactly when the estimate is one too large.
   */
  lemma {:induction false} Correction(W: int, D: int, q: int, qh: int, less: bool)
    requires D > 0 && W >= 0 && q == W / D && q <= qh <= q + 1
    requires less <==> W < D * qh
    ensures less <==> qh == q + 1
    ensures q >= 0
  {
    assert D * q <= W < D * (q + 1) by {
      assert W == D * q + W % D;
    }
  }

  /** A divisor of m limbs times the normalizing factor 2^32 / (top + 1) still fits in m limbs. */
  lemma {:induction false} NormalizeFits(Bd: seq<Limb>, base: int)
    requires |Bd| >= 1 && Bd[|Bd| - 1] < MAX_LIMB && base == BASE / (Bd[|Bd| - 1] + 1)
    ensures 1 <= base && Nat(Bd) * base < Pow(|Bd|)
  {
    var m := |Bd|;
    NatTop(Bd);
    NatBound(Bd[..m - 1]);
    assert Pow(m) == BASE * Pow(m - 1);
    NormalizeArith(Nat(Bd[..m - 1]), Pow(m - 1), Bd[m - 1], base);
  }

  lemma {:induction false} NormalizeArith(low: int, p: int, t: int, base: int)
    requires 0 <= low < p && 0 <= t < MAX_LIMB && base == BASE / (t + 1)
    ensures 1 <= base && (low + p * t) * base < BASE * p
  {
    var x := low + p * t;
    assert x < p * (t + 1);
    assert base * (t + 1) <= BASE by {
      assert BASE == base * (t + 1) + BASE % (t + 1);
    }
    MulLess(x, p * (t + 1), base);
    MulLeq(base * (t + 1), BASE, p);
    assert (p * (t + 1)) * base == (base * (t + 1)) * p;
  }

  /**
   * Scaling by 2^32 / (top + 1) makes the divisor normalized in Knuth's sense: when the product
   * keeps m limbs, its top limb is at least 2^31.
   */
  lemma {:induction false} NormalizedTop(Bd: seq<Limb>, base: int, Sd: seq<Limb>)
    requires |Bd| >= 1 && 1 <= Bd[|Bd| - 1] < MAX_LIMB && base == BASE / (Bd[|Bd| - 1] + 1)
    requires |Sd| == |Bd| && Nat(Sd) == Nat(Bd) * base
    ensures Sd[|Sd| - 1] >= HALF
  {
    var m := |Bd|;
    var low, p, t := Nat(Bd[..m - 1]), Pow(m - 1), Bd[m - 1];
    NatTop(Bd);
    NormalizeBound(t, base);
    ScaledTop(low, p, t, base);
    assert Pow(m) == BASE * p;
    TopBit(Sd);
  }

  /** 2 * t * (2^32 / (t + 1)) >= 2^32 for every top limb t from 1 to 2^32 - 2. */
  lemma {:induction false} NormalizeBound(t: int, base: int)
    requires 1 <= t < MAX_LIMB && base == BASE / (t + 1)
    ensures 2 * t * base >= BASE
  {
    var r := BASE % (t + 1);
    assert BASE == base * (t + 1) + r && 0 <= r <= t;
    if t == 1 {
      assert base == HALF;
    } else if base == 1 {
      assert BASE < 2 * (t + 1);
    } else {
      assert base >= 2 by {
        if base < 1 {
          MulLeq(base, 0, t + 1);
          assert false;
        }
      }
      MulLeq(2, base, t - 1);
      assert 2 * t * base == base * (t + 1) + base * (t - 1);
    }
  }

  lemma {:induction false} ScaledTop(low: int, p: int, t: int, base: int)
    requires low >= 0 && p >= 1 && t >= 0 && base >= 0 && 2 * t * base >= BASE
    ensures 2 * ((low + p * t) * base) >= BASE * p
  {
    MulLeq(p * t, low + p * t, base);
    MulLeq(BASE, 2 * t * base, p);
    assert 2 * (p * t * base) == (2 * t * base) * p;
  }

  /** The 3-by-2 trial quotient of the window at i, before `calc3to2` reduces it modulo 2^32. */
  ghost function Estimate(Rd: seq<Limb>, Bd: seq<Limb>, i: nat, m: nat): nat
    requires m >= 2
  {
    var d2 := Nat(Window(Bd, false, m - 2, 2));
    if d2 == 0 then 0 else Nat(Window(Rd, false, i + m - 2, 3)) / d2
  }

  /**
   * What a wrapped trial digit of the digit loop means: the quotient limbs above `at` were
   * fixed with the remainder Rd exact, and the `calc3to2` estimate at `at` is 2^32, which the
   * cast to `uint32_t` turns into 0.
   */
  ghost predicate WrapWitness(A: nat, Bd: seq<Limb>, Cd: seq<Limb>, at: int, Rd: seq<Limb>)
  {
    |Bd| >= 2 && 0 <= at < |Cd| && QuotientSoFar(Rd, Bd, Cd, at + 1, A)
    && Estimate(Rd, Bd, at, |Bd|) == BASE
  }

  /** Rewriting quotient limbs at or below position i leaves a wrap above i on record. */
  lemma WrapWitnessKept(A: nat, Bd: seq<Limb>, C0: seq<Limb>, C1: seq<Limb>, i: nat, at: int, Rd: seq<Limb>)
    requires WrapWitness(A, Bd, C0, at, Rd) && i < at
    requires |C1| == |C0| && i + 1 <= |C0| && C1[i + 1..] == C0[i + 1..]
    ensures WrapWitness(A, Bd, C1, at, Rd)
  {
    assert C1[at + 1..] == C1[i + 1..][at - i..];
    assert C0[at + 1..] == C0[i + 1..][at - i..];
  }

  /**
   * One pass of the digit loop of `/=`, from the invariant at i+1 to the invariant at i: the
   * quotient limb i is the true digit and the dividend lost divisor * digit * BASE^i.
   */
  lemma {:induction false} LongDivStep(Rd: seq<Limb>, Bd: seq<Limb>, Cd: seq<Limb>, Pd: seq<Limb>, Rd2: seq<Limb>, i: nat, m: nat, A: int, digit: Limb)
    requires |Bd| == m >= 2 && Bd[m - 1] != 0 && i < |Cd|
    requires QuotientSoFar(Rd, Bd, Cd, i + 1, A)
    requires digit == Nat(Window(Rd, false, i, m + 1)) / Nat(Bd) && Cd[i] == digit
    requires Nat(Pd) == Nat(Bd) * digit
    requires Nat(Window(Rd, false, i, m + 1)) >= Nat(Window(Pd, false, 0, m + 1)) ==>
      Value(Rd2, false) == Value(Rd, false) - Nat(Window(Pd, false, 0, m + 1)) * Pow(i)
    ensures QuotientSoFar(Rd2, Bd, Cd, i, A)
  {
    var R, D, Q := Nat(Rd), Nat(Bd), Nat(Cd[i + 1..]);
    EstimateCorrect(Rd, Bd, i, m);
    ProductWindow(Pd, D, m, digit);
    assert Pow(i + 1) == BASE * Pow(i);
    DivStepArith(R, D, Q, A, Pow(i), digit);
    assert Cd[i..] == [digit] + Cd[i + 1..];
    assert Nat(Cd[i..]) == digit + BASE * Q;
  }

  /**
   * After the loop of `/=`: quotient and remainder of the scaled operands are those of the
   * original magnitudes scaled, so the quotient is A / D.
   */
  lemma {:induction false} NormalizedQuotient(A: int, D: int, base: int, Q: int, R: int)
    requires A >= 0 && D > 0 && base >= 1
    requires A * base == Q * (D * base) + R && 0 <= R < D * base
    ensures Q == A / D
  {
    DivModUnique(A * base, D * base, Q, R);
    DivScaled(A, D, base);
  }

  /** A dividend of n limbs divided by a divisor with a non-zero limb above position n gives 0. */
  lemma {:induction false} ShortDividend(Ad: seq<Limb>, Bd: seq<Limb>)
    requires |Bd| >= 2 && |Bd| > |Ad| && Bd[|Bd| - 1] != 0
    ensures Nat(Bd) >= Pow(|Bd| - 1) && Nat(Ad) / Nat(Bd) == 0
  {
    DivisorBounds(Bd);
    NatBound(Ad);
    PowMonotone(|Ad|, |Bd| - 1);
    DivModUnique(Nat(Ad), Nat(Bd), 0, Nat(Ad));
  }

  /** `mul_uint` by the normalizing factor pushes no limb: the scaled divisor stays below BASE^m. */
  lemma {:induction false} NoCarryOut(Bd: seq<Limb>, m: nat)
    requires |Bd| == m || (|Bd| == m + 1 && Bd[m] != 0)
    requires Nat(Bd) < Pow(m)
    ensures |Bd| == m
  {
    if |Bd| != m {
      NatTop(Bd);
      MulLeq(1, Bd[m], Pow(m));
    }
  }
}
