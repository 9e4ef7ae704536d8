/**
 * The `big_integer` class: a vector of 32-bit limbs, least significant first, and a sign flag
 * that is the value of the implicit infinite fill above them (all ones when set). Every
 * compound operator updates the receiver in place; temporaries are fresh objects.
 */
module BigIntegers {
  import opened Arith
  import opened Limbs
  import opened TwosComplement
  import opened LimbProducts
  import opened LongDivision
  import opened Bitwise
  import opened Shifts
  import opened DecimalNotation

  class BigInteger {
    var data: seq<Limb>
    var sign: bool

    /** The number this object denotes, in infinite two's complement. */
    ghost function Value(): int
      reads this
    {
      Limbs.Value(data, sign)
    }

    /** The form `shrink` leaves behind. */
    ghost predicate Canonical()
      reads this
    {
      Limbs.Canonical(data, sign)
    }

    /** Default constructor: the single limb 0. */
    constructor ()
      ensures data == [0] && !sign
      ensures Value() == 0 && Canonical()
    {
      data, sign := [0], false;
    }

    /** Copy constructor. */
    constructor Copy(other: BigInteger)
      ensures data == other.data && sign == other.sign
    {
      data, sign := other.data, other.sign;
    }

    /** Constructor from `uint32_t`. */
    constructor FromUint32(a: Limb)
      ensures data == [a] && !sign
      ensures Value() == a && Canonical()
    {
      data, sign := [a], false;
      assert Nat([a]) == a + BASE * Nat([]);
    }

    /**
     * Constructor from a 32-bit `int`. A negative argument is first stored as its magnitude
     * (INT32_MIN through a multiplication that wraps back to 2^31) and then negated.
     */
    constructor FromInt(a: int)
      requires -0x8000_0000 <= a < 0x8000_0000
      ensures Value() == a && Canonical()
      ensures a >= 0 ==> data == [a] && !sign
      decreases if a < 0 then 2 else 0
    {
      sign := false;
      data := [];
      new;
      if a < 0 {
        // (a == INT32_MIN ? 1 : -1) cast to uint32_t, times a, all modulo 2^32
        var factor := if a == -0x8000_0000 then 1 else MAX_LIMB;
        data := data + [(factor * (a % BASE)) % BASE];
        // data_[0] *= (a == INT32_MIN ? -1 : 1), again modulo 2^32
        var second := if a == -0x8000_0000 then MAX_LIMB else 1;
        data := data[0 := (data[0] * second) % BASE];
        NegativeMagnitude(a, factor, second);
        assert data == [-a];
        assert Value() == -a by {
          assert Nat([-a]) == -a + BASE * Nat([]);
        }
        var t := Negate();
        data, sign := t.data, t.sign;
      } else {
        data := [a];
        assert Nat([a]) == a + BASE * Nat([]);
      }
    }

    /**
     * Constructor from a decimal string: for each digit, `*this *= 10` and `*this += digit`.
     * A leading '-' then negates, except when every limb of the magnitude m is 2^32 - 1;
     * then the result is `~m - 1`, that is -m - 2 (see AllOnesIff).
     */
    constructor FromString(s: string)
      requires WellFormed(s)
      ensures Canonical() && Value() == Constructed(s)
    {
      data, sign := [0], false;
      new;
      assert Nat([0]) == 0 + BASE * Nat([]);
      var start := if s[0] == '-' then 1 else 0;
      assert Digits(s) == s[start..];
      ReadDigits(s, start);
      ghost var m := ParseDigits(Digits(s));
      var f := AllLimbsMax(data);
      ValueRange(data, sign);
      MagnitudeLimbs(data, m);
      if s[0] == '-' && f {
        var t := Complement();
        data, sign := t.data, t.sign;
        var one := new BigInteger.FromInt(1);
        SubAssign(one);
      } else if s[0] == '-' && !f {
        var t := Negate();
        data, sign := t.data, t.sign;
      }
    }

    /** The digit loop of the string constructor: `*this *= 10; *this += digit` for each digit from `start` on. */
    method ReadDigits(s: string, start: nat)
      requires start <= |s| && AllDigits(s[start..])
      requires Canonical() && Value() == 0
      modifies this
      ensures Canonical() && Value() == ParseDigits(s[start..])
    {
      var i := start;
      while i < |s|
        invariant start <= i <= |s| && AllDigits(s[start..i])
        invariant Canonical() && Value() == ParseDigits(s[start..i])
      {
        assert s[start..i + 1][..i - start] == s[start..i];
        assert s[i] == s[start..][i - start];
        var ten := new BigInteger.FromInt(10);
        MulAssign(ten);
        var digit := new BigInteger.FromInt(DigitValue(s[i]));
        AddAssign(digit);
        i := i + 1;
      }
      assert s[start..i] == s[start..];
    }

    /**
     * `operator[]`: the stored limb below the length, the fill above it; GetIsDigit reads
     * that as a digit of the value.
     */
    function Get(index: nat): (r: Limb)
      reads this
      ensures index < |data| ==> r == data[index]
      ensures index >= |data| ==> r == Fill(sign)
    {
      LimbAt(data, sign, index)
    }

    /** `shrink`: pops top limbs equal to the fill while more than one limb remains. */
    method Shrink()
      modifies this
      ensures sign == old(sign) && data == TrimFill(old(data), sign)
      ensures Value() == old(Value())
      ensures old(|data|) >= 1 ==> Canonical()
    {
      var x := Fill(sign);
      while |data| > 1 && data[|data| - 1] == x
        invariant sign == old(sign)
        invariant TrimFill(data, sign) == TrimFill(old(data), sign)
      {
        data := data[..|data| - 1];
      }
      TrimFillSpec(old(data), sign);
    }

    /** `expand`: pads with fill limbs up to `len`; a longer vector is left alone. */
    method Expand(len: nat)
      modifies this
      ensures sign == old(sign)
      ensures data == old(data) + Fills(sign, if len > old(|data|) then len - old(|data|) else 0)
      ensures Value() == old(Value())
    {
      if |data| > len {
        assert data == data + Fills(sign, 0);
        return;
      }
      var cnt := len - |data|;
      var i := 0;
      while i < cnt
        invariant 0 <= i <= cnt && sign == old(sign)
        invariant data == old(data) + Fills(sign, i)
      {
        data := data + [Fill(sign)];
        i := i + 1;
      }
      ValueExtend(old(data), sign, cnt);
    }

    /**
     * `+=`: sign-extends both operands to one limb more than the longer one, adds them limb
     * by limb with a carry, takes the new sign from bit 31 of the top limb and shrinks.
     */
    method AddAssign(rhs: BigInteger)
      modifies this
      ensures Value() == old(Value()) + old(rhs.Value())
      ensures Canonical()
    {
      // rhs is read through a copy of its fields. When rhs is *this the C++ loop reads
      // the same limbs: `expand` only appends fill limbs and limb i is read before it is written.
      var rb, rs := rhs.data, rhs.sign;
      ghost var a, sa := data, sign;
      ghost var va, vb := Value(), rhs.Value();
      assert va == Limbs.Value(a, sa) && vb == Limbs.Value(rb, rs);
      var l := if |rb| > |data| then |rb| else |data|;
      Expand(l + 1);
      ghost var A := data;
      ghost var L := |A|;
      assert L == l + 1 && A == a + Fills(sa, L - |a|);
      ghost var Bx := Extended(rb, rs, L);
      var carry := AddLimbs(rb, rs);
      sign := data[|data| - 1] >= HALF;
      AddResult(a, sa, rb, rs, A, Bx, data, L, carry, sign);
      assert Value() == va + vb;
      Shrink();
      assert Value() == va + vb;
    }

    /**
     * The limb loop of `+=`: limb i becomes the low 32 bits of limb i + rb's limb i (the fill of
     * rs past its end) + the carry, and the carry is the high bit.
     */
    method AddLimbs(rb: seq<Limb>, rs: bool) returns (carry: int)
      modifies this
      ensures sign == old(sign) && |data| == old(|data|) && (carry == 0 || carry == 1)
      ensures Nat(data) + (if carry == 1 then Pow(|data|) else 0) == Nat(old(data)) + Nat(Extended(rb, rs, |data|))
    {
      ghost var A, L := data, |data|;
      ghost var Bx := Extended(rb, rs, L);
      carry := 0;
      var i := 0;
      while i < |data|
        invariant |data| == L && 0 <= i <= L && (carry == 0 || carry == 1) && sign == old(sign)
        invariant data[i..] == A[i..]
        invariant Nat(data[..i]) + (if carry == 1 then Pow(i) else 0) == Nat(A[..i]) + Nat(Bx[..i])
      {
        var res := data[i] + carry;
        res := res + LimbAt(rb, rs, i);
        ghost var prev, c0 := data, carry;
        carry := res / BASE;
        data := data[i := res % BASE];
        AddLimbStep(prev, A, Bx, i, c0, res % BASE, carry);
        i := i + 1;
      }
      assert data[..L] == data && A[..L] == A && Bx[..L] == Bx;
    }

    /**
     * `mul_uint`: multiplies the stored limbs, read as an unsigned number, by one limb and
     * appends the final carry when it is not zero. The sign is left alone, so on a
     * non-negative receiver this is multiplication of the value.
     */
    method MulUint(rhs: Limb)
      modifies this
      ensures sign == old(sign)
      ensures Nat(data) == Nat(old(data)) * rhs
      ensures |data| == old(|data|) || (|data| == old(|data|) + 1 && data[|data| - 1] != 0)
      ensures !sign ==> Value() == old(Value()) * rhs
      ensures rhs != 0 && old(|data|) >= 1 && old(data[|data| - 1]) != 0 ==> data[|data| - 1] != 0
    {
      ghost var O := data;
      var carry := MulLimbs(rhs);
      if carry != 0 {
        NatAppend(data, carry);
        data := data + [carry];
      }
      MulUintTop(O, data, rhs);
    }

    /** The limb loop of `mul_uint`: each limb becomes the low half of limb * rhs + carry. */
    method MulLimbs(rhs: Limb) returns (carry: int)
      modifies this
      ensures sign == old(sign) && |data| == old(|data|) && 0 <= carry < BASE
      ensures Nat(data) + carry * Pow(|data|) == Nat(old(data)) * rhs
    {
      ghost var O := data;
      carry := 0;
      var i := 0;
      while i < |data|
        invariant |data| == |O| && 0 <= i <= |O| && 0 <= carry < BASE && sign == old(sign)
        invariant data[i..] == O[i..]
        invariant Nat(data[..i]) + carry * Pow(i) == Nat(O[..i]) * rhs
      {
        ProductFits(data[i], rhs, carry, 0);
        var cur := data[i] * rhs + carry;
        ghost var prev, c0 := data, carry;
        carry := cur / BASE;
        data := data[i := cur % BASE];
        MulLimbStep(prev, O, i, c0, rhs, cur % BASE, carry);
        i := i + 1;
      }
      assert data[..|data|] == data && O[..|O|] == O;
    }

    /**
     * `div_uint`: divides the stored limbs, read as an unsigned number, by one non-zero limb,
     * from the top limb down with a running remainder, then shrinks. The sign is left alone,
     * so on a non-negative receiver this is floor division of the value.
     */
    method DivUint(b: Limb)
      requires b != 0
      modifies this
      ensures sign == old(sign)
      ensures Value() == Nat(old(data)) / b - (if sign then Pow(old(|data|)) else 0)
      ensures !sign ==> Value() == old(Value()) / b
      ensures old(|data|) >= 1 ==> Canonical()
      ensures old(data) == [] ==> data == []
    {
      ghost var O := data;
      var carry := DivLimbs(b);
      DivModUnique(Nat(O), b, Nat(data), carry);
      ghost var q := data;
      Shrink();
      TrimFillSpec(q, sign);
    }

    /** The limb loop of `div_uint`, from the top limb down: limb i becomes (carry * BASE + limb) / b. */
    method DivLimbs(b: Limb) returns (carry: int)
      requires b != 0
      modifies this
      ensures sign == old(sign) && |data| == old(|data|) && 0 <= carry < b
      ensures Nat(data) * b + carry == Nat(old(data))
    {
      ghost var O := data;
      carry := 0;
      var i := |data| - 1;
      while i >= 0
        invariant |data| == |O| && -1 <= i < |O| && 0 <= carry < b && sign == old(sign)
        invariant data[..i + 1] == O[..i + 1]
        invariant Nat(data[i + 1..]) * b + carry == Nat(O[i + 1..])
      {
        var was := data[i];
        var cur := was + carry * BASE;
        DivDigitFits(was, carry, b);
        ghost var prev, c0 := data, carry;
        data := data[i := cur / b];
        carry := cur % b;
        DivLimbStep(prev, O, i, c0, b, cur / b, carry);
        i := i - 1;
      }
      assert data[0..] == data && O[0..] == O;
    }

    /**
     * `*=`: multiplying by -1 is negation. Otherwise both operands are replaced by their
     * magnitudes (the right one through a copy), the magnitudes are multiplied schoolbook
     * style into an accumulator of len(a) + len(b) limbs, and the accumulator is negated
     * when exactly one operand was negative.
     */
    method MulAssign(rhs: BigInteger)
      modifies this
      ensures Value() == old(Value()) * old(rhs.Value())
      ensures Canonical()
    {
      var minusOne := new BigInteger.FromInt(-1);
      if Equal(rhs, minusOne) {
        var t := Negate();
        data, sign := t.data, t.sign;
        return;
      }
      ghost var va, vb := Value(), rhs.Value();
      ValueRange(data, sign);
      ValueRange(rhs.data, rhs.sign);
      var b := new BigInteger.Copy(rhs);
      var resSign := false;
      if sign {
        resSign := resSign != sign;
        var t := Negate();
        data, sign := t.data, t.sign;
      }
      if b.sign {
        resSign := resSign != b.sign;
        b := b.Negate();
      }
      assert Value() == Abs(va) && b.Value() == Abs(vb);
      ValueRange(data, sign);
      ValueRange(b.data, b.sign);
      assert !sign && !b.sign;
      ghost var ma: int, mb: int := Nat(data), Nat(b.data);
      assert ma == Abs(va) && mb == Abs(vb);
      assert resSign == ((va < 0) != (vb < 0));
      TakeProduct(data, b.data, resSign);
      assert Value() == (if resSign then -(ma * mb) else ma * mb);
      SignedProduct(va, vb, resSign);
    }

    /**
     * The end of `*=`: an accumulator of zeros as long as both magnitudes receives their product,
     * is negated when `neg` holds, shrunk and assigned.
     */
    method TakeProduct(ad: seq<Limb>, bd: seq<Limb>, neg: bool)
      modifies this
      ensures Value() == (if neg then -(Nat(ad) * Nat(bd)) else Nat(ad) * Nat(bd))
      ensures Canonical()
    {
      var c := new BigInteger();
      c.Expand(|bd| + |ad|);
      NatPadZeros([0], if |bd| + |ad| > 1 then |bd| + |ad| - 1 else 0);
      assert Nat([0]) == 0 + BASE * Nat([]);
      var product := MultiplyMagnitudes(ad, bd, c.data);
      c.data := product;
      if neg {
        c := c.Negate();
      }
      c.Shrink();
      data, sign := c.data, c.sign;
    }

    /** `operator~`: complements every limb and the fill, then shrinks. */
    method Complement() returns (r: BigInteger)
      ensures fresh(r)
      ensures r.sign == !sign && r.data == TrimFill(Flip(data), !sign)
      ensures r.Value() == -Value() - 1
      ensures |data| >= 1 ==> r.Canonical()
    {
      r := new BigInteger.Copy(this);
      r.sign := !r.sign;
      var i := 0;
      while i < |data|
        invariant 0 <= i <= |data| && |r.data| == |data| && r.sign == !sign
        invariant forall k :: 0 <= k < i ==> r.data[k] == MAX_LIMB - data[k]
        invariant forall k :: i <= k < |data| ==> r.data[k] == data[k]
      {
        r.data := r.data[i := MAX_LIMB - r.data[i]];
        i := i + 1;
      }
      assert r.data == Flip(data);
      ComplementValue(data, sign);
      r.Shrink();
    }

    /**
     * Unary `-`: zero (the single limb 0) is returned as it is; otherwise `~x + 1`, shrunk.
     * The result is always canonical, so there is no negative zero.
     */
    method Negate() returns (r: BigInteger)
      ensures fresh(r) && r.Value() == -Value() && r.Canonical()
      decreases 1
    {
      var zero := new BigInteger.FromUint32(0);
      if Equal(this, zero) {
        r := new BigInteger.Copy(this);
        assert Nat([0]) == 0 + BASE * Nat([]);
        return;
      }
      r := Complement();
      var one := new BigInteger.FromInt(1);
      r.AddAssign(one);
      r.Shrink();
    }

    /**
     * The digit loop of `/=`, on a normalized non-negative dividend (this, whose top limb is 0)
     * and divisor b of m >= 2 limbs with a non-zero top limb. For i from n-m down to 0 the trial
     * digit comes from `calc3to2`, is lowered by one when `compare_prefix` finds the product
     * b * digit above the window of m+1 limbs at i, is stored as quotient limb i of c, and
     * b * digit * BASE^i is taken off the dividend by `difference`.
     * The ghost result `wrapped` records whether some trial digit was 2^32, which the cast in
     * `calc3to2` turns into 0; otherwise c holds the quotient and this the remainder.
     */
    method LongDivide(b: BigInteger, c: BigInteger) returns (ghost wrapped: bool, ghost at: int, ghost Rat: seq<Limb>)
      requires this != b && this != c && b != c
      requires !sign && !b.sign && !c.sign
      requires |b.data| >= 2 && b.data[|b.data| - 1] != 0
      requires |data| > |b.data| && Nat(data) < Pow(|data| - 1)
      requires |c.data| == |data| - |b.data| + 1
      modifies this, c
      ensures !sign && !c.sign && |c.data| == old(|c.data|)
      ensures !wrapped ==> Nat(old(data)) == Nat(c.data) * Nat(b.data) + Nat(data) && Nat(data) < Nat(b.data)
      ensures wrapped ==> WrapWitness(Nat(old(data)), b.data, c.data, at, Rat)
      ensures |b.data| == 2 ==> !wrapped
    {
      var n, m := |data|, |b.data|;
      ghost var A := Nat(data);
      QuotientStart(data, b.data, c.data);
      wrapped, at, Rat := false, 0, [];
      var i: int := n - m;
      while i >= 0
        invariant -1 <= i <= n - m
        invariant !sign && !c.sign && |c.data| == n - m + 1
        invariant !wrapped ==> QuotientSoFar(data, b.data, c.data, i + 1, A)
        invariant wrapped ==> i < at && WrapWitness(A, b.data, c.data, at, Rat)
        invariant m == 2 ==> !wrapped
      {
        ghost var w0, R0, C0 := wrapped, data, c.data;
        wrapped := DigitStep(b, c, i, A, wrapped);
        if wrapped && !w0 {
          at, Rat := i, R0;
          assert c.data[i + 1..] == C0[i + 1..];
          assert WrapWitness(A, b.data, c.data, at, Rat);
        } else if wrapped {
          WrapWitnessKept(A, b.data, C0, c.data, i, at, Rat);
        }
        i := i - 1;
      }
      if !wrapped {
        QuotientDone(data, b.data, c.data, A);
      }
    }

    /**
     * One pass of the digit loop of `/=` at quotient position i: the digit is chosen, stored as
     * limb i of c, and b * digit * BASE^i is taken off the dividend. Unless a trial digit has
     * wrapped, the dividend keeps equal to quotient * b + remainder with one more digit fixed.
     */
    method DigitStep(b: BigInteger, c: BigInteger, i: nat, ghost A: nat, ghost wrapped0: bool) returns (ghost wrapped: bool)
      requires this != b && this != c && b != c
      requires !sign && !b.sign && !c.sign
      requires |b.data| >= 2 && b.data[|b.data| - 1] != 0
      requires i < |c.data|
      requires !wrapped0 ==> QuotientSoFar(data, b.data, c.data, i + 1, A)
      modifies this, c
      ensures !sign && !c.sign && |c.data| == old(|c.data|)
      ensures !wrapped ==> QuotientSoFar(data, b.data, c.data, i, A)
      ensures wrapped == (wrapped0 || Estimate(old(data), b.data, i, |b.data|) == BASE)
      ensures c.data[i + 1..] == old(c.data[i + 1..])
      ensures |b.data| == 2 && !wrapped0 ==> !wrapped
    {
      var m := |b.data|;
      ghost var D := Nat(b.data);
      wrapped := wrapped0;
      ghost var Rd := data;
      ghost var ok := !wrapped;
      if ok {
        EstimateCorrect(data, b.data, i, m);
        assert Estimate(data, b.data, i, m) <= BASE;
        if Estimate(data, b.data, i, m) == BASE {
          wrapped, ok := true, false;
        }
      }
      var digit, product := NextDigit(b, i, m);
      assert ok ==> digit == Nat(Window(Rd, false, i, m + 1)) / D;
      ghost var Cold := c.data;
      c.data := c.data[i := digit];
      Difference(product, i, m);
      if ok {
        assert c.data[i + 1..] == Cold[i + 1..];
        assert QuotientSoFar(Rd, b.data, c.data, i + 1, A);
        LongDivStep(Rd, b.data, c.data, product.data, data, i, m, A, digit);
      }
    }

    /**
     * The choice of one quotient digit in `/=`: the `calc3to2` estimate, the product b * digit,
     * and one decrement of the digit (and a fresh product) when `compare_prefix` finds that
     * product above the window of m+1 limbs at i. While the remainder is below b * BASE^(i+1)
     * and the estimate fits a limb, the digit is the true quotient digit.
     */
    method NextDigit(b: BigInteger, i: nat, m: nat) returns (digit: Limb, product: BigInteger)
      requires !sign && !b.sign && |b.data| == m >= 2 && b.data[m - 1] != 0
      ensures fresh(product) && !product.sign && Nat(product.data) == Nat(b.data) * digit
      ensures Nat(data) < Nat(b.data) * Pow(i + 1) && Estimate(data, b.data, i, m) < BASE ==>
        digit == Nat(Window(data, false, i, m + 1)) / Nat(b.data)
    {
      DivisorBounds(b.data);
      digit := CalcThreeToTwo(this, b, i, m);
      product := new BigInteger.Copy(b);
      product.MulUint(digit);
      var less := ComparePrefix(this, product, i, m);
      ghost var est, Pd := digit, product.data;
      if less {
        digit := (digit + MAX_LIMB) % BASE;  // cur_digit-- on a uint32_t
        product := new BigInteger.Copy(b);
        product.MulUint(digit);
      }
      CorrectedDigit(data, b.data, i, m, est, Pd, less, digit);
    }

    /**
     * `/=`: division truncating toward zero. Both operands are replaced by their magnitudes
     * (the right one through a copy) and the quotient's sign is the XOR of theirs; the
     * magnitudes are divided, the quotient is shrunk, and it is negated when the signs
     * differed and it is not the early zero.
     * The early zero is decided on the number of stored limbs, so a non-negative divisor kept
     * with zero top limbs (which `^=` can leave) and more limbs than the dividend gives 0
     * whatever its value; for a negative or canonical divisor it is the true quotient.
     * The quotient is exact unless a trial digit of the loop reached 2^32 (ghost `wrapped`),
     * which cannot happen for a divisor below 2^64.
     */
    method DivAssign(rhs: BigInteger) returns (ghost wrapped: bool)
      requires rhs.Value() != 0
      requires DivisorTopFits(this, rhs)
      modifies this
      ensures !wrapped ==> Value() == (if old(EarlyZero(data, sign, rhs.data, rhs.sign)) then 0
        else TruncDiv(old(Value()), old(rhs.Value())))
      ensures !wrapped && old(rhs.sign || rhs.Canonical()) ==> Value() == TruncDiv(old(Value()), old(rhs.Value()))
      ensures Abs(old(rhs.Value())) < Pow(2) ==> !wrapped
      ensures Canonical() || (data == [] && !sign && old(data) == [] && !old(sign))
      ensures old(data == [] && !sign && !rhs.sign && |rhs.data| == 1) ==> data == [] && !sign
    {
      ghost var va, vb := Value(), rhs.Value();
      ghost var a0, s0, b0, t0 := data, sign, rhs.data, rhs.sign;
      var b := new BigInteger.Copy(rhs);
      var resSign := false;
      if sign {
        resSign := resSign != sign;
        var t := Negate();
        data, sign := t.data, t.sign;
      }
      if b.sign {
        resSign := resSign != b.sign;
        b := b.Negate();
      }
      Magnitudes(a0, s0, b0, t0, data, sign, b.data, b.sign);
      ghost var early := EarlyZero(a0, s0, b0, t0);
      ghost var q := Abs(va) / Abs(vb);
      ghost var A1, B1 := data, b.data;
      assert TopFits(A1, B1);
      var c, zero;
      c, zero, wrapped := DivideMagnitudes(b);
      assert zero == early;
      assert !wrapped ==> Nat(c.data) == if zero then 0 else q;
      assert resSign == ((va < 0) != (vb < 0));
      assert wrapped ==> Abs(vb) >= Pow(2) by {
        if wrapped {
          WideDivisor(B1, Abs(vb));
        }
      }
      TakeQuotient(c, resSign && !zero);
      if !wrapped {
        if zero {
          assert Value() == 0;
        } else {
          TruncDivOfMagnitudes(va, vb, Value(), resSign, false);
        }
        if t0 || Limbs.Canonical(b0, t0) {
          if zero {
            EarlyZeroExact(a0, s0, b0, t0);
          }
        }
      }
    }

    /** The end of `/=`: the quotient c is shrunk, negated when `neg` holds, and assigned. */
    method TakeQuotient(c: BigInteger, neg: bool)
      requires c != this && !c.sign
      modifies this, c
      ensures Value() == (if neg then -old(c.Value()) else old(c.Value()))
      ensures Canonical() || (data == [] && !sign && old(c.data) == [])
      ensures !neg ==> data == TrimFill(old(c.data), false) && !sign
    {
      c.Shrink();
      var r := c;
      if neg {
        r := c.Negate();
      }
      data, sign := r.data, r.sign;
    }

    /**
     * The magnitude part of `/=`, on a non-negative dividend (this) and a non-zero
     * non-negative divisor b. A one-limb divisor goes through `div_uint` on a copy of the
     * dividend; a divisor of more stored limbs than the dividend sets the dividend to 0 and
     * raises the `zero` flag, leaving the quotient at its initial 0; otherwise both are scaled
     * by 2^32 / (top + 1), the dividend gets an extra zero limb, and the digit loop fills in
     * the quotient.
     */
    method DivideMagnitudes(b: BigInteger) returns (c: BigInteger, zero: bool, ghost wrapped: bool)
      requires b != this && !sign && !b.sign && Nat(b.data) != 0
      requires TopFits(data, b.data)
      modifies this, b
      ensures fresh(c) && !c.sign
      ensures zero <==> 2 <= old(|b.data|) && old(|data|) < old(|b.data|)
      ensures !wrapped ==> Limbs.Value(c.data, false) == if zero then 0 else Nat(old(data)) / Nat(old(b.data))
      ensures |c.data| >= 1 || old(data) == []
      ensures old(data) == [] && old(|b.data|) == 1 ==> c.data == []
      ensures wrapped ==> 2 < old(|b.data|) <= old(|data|)
    {
      wrapped := false;
      ghost var ma, mb := Nat(data), Nat(b.data);
      var n, m := |data|, |b.data|;
      c := new BigInteger();
      zero := false;
      if m == 1 {
        assert mb == b.data[0] + BASE * Nat([]);
        c := new BigInteger.Copy(this);
        c.DivUint(b.Get(0));
      } else if m > n {
        data, sign := [0], false;
        zero := true;
      } else {
        c, wrapped := NormalizedDivide(b);
      }
    }

    /**
     * The normalized branch of `/=`, for a divisor b of 2 <= m <= n limbs whose top limb is
     * neither 0 nor 2^32 - 1: both operands are scaled, c is set to n - m + 2 zero limbs, and
     * the digit loop fills in the quotient.
     */
    method NormalizedDivide(b: BigInteger) returns (c: BigInteger, ghost wrapped: bool)
      requires b != this && !sign && !b.sign
      requires 2 <= |b.data| <= |data| && 0 < b.data[|b.data| - 1] < MAX_LIMB && Nat(b.data) != 0
      modifies this, b
      ensures fresh(c) && !c.sign && |c.data| >= 1
      ensures !wrapped ==> Limbs.Value(c.data, false) == Nat(old(data)) / Nat(old(b.data))
      ensures old(|b.data|) == 2 ==> !wrapped
    {
      ghost var ma, mb := Nat(data), Nat(b.data);
      var base := ScaleOperands(b);
      var n, m := |data|, |b.data|;
      c := new BigInteger.FromInt(0);
      c.Expand(n - m + 1);
      assert |c.data| == n - m + 1 && !c.sign && !sign && !b.sign;
      ghost var at, Rat;
      wrapped, at, Rat := LongDivide(b, c);
      if !wrapped {
        NormalizedQuotient(ma, mb, base, Nat(c.data), Nat(data));
      }
    }

    /**
     * The scaling step of `/=`: `base = 2^32 / (b[m-1] + 1)`, then `a.mul_uint(base)`, a zero
     * limb pushed onto a, and `b.mul_uint(base)`. The divisor keeps its m limbs and gets a top
     * limb of at least 2^31; the dividend's new top limb is 0.
     */
    method ScaleOperands(b: BigInteger) returns (base: Limb)
      requires b != this && !sign && !b.sign
      requires 2 <= |b.data| <= |data| && 0 < b.data[|b.data| - 1] < MAX_LIMB
      modifies this, b
      ensures base >= 1 && !sign && !b.sign
      ensures Nat(data) == Nat(old(data)) * base && Nat(b.data) == Nat(old(b.data)) * base
      ensures |b.data| == old(|b.data|) && b.data[|b.data| - 1] != 0
      ensures |data| > |b.data| && Nat(data) < Pow(|data| - 1)
    {
      ghost var ma, mb := Nat(data), Nat(b.data);
      var n, m := |data|, |b.data|;
      base := BASE / (b.Get(m - 1) + 1);
      NormalizeFits(b.data, base);
      MulUint(base);
      ghost var scaled := data;
      assert Nat(scaled) == ma * base && |scaled| >= n;
      NatBound(scaled);
      NatAppend(scaled, 0);
      data := data + [0];
      b.MulUint(base);
      assert Nat(b.data) == mb * base && b.data[|b.data| - 1] != 0;
      NoCarryOut(b.data, m);
    }

    /**
     * `%=`: this - rhs * (this / rhs), built from the by-value operators, so the remainder has
     * the dividend's sign and a smaller magnitude than the divisor (TruncModProperties). It is
     * exact whenever the quotient is; after the early zero of `/=` it is the dividend itself.
     */
    method ModAssign(rhs: BigInteger) returns (ghost wrapped: bool)
      requires rhs.Value() != 0
      requires DivisorTopFits(this, rhs)
      modifies this
      ensures !wrapped ==> Value() == (if old(EarlyZero(data, sign, rhs.data, rhs.sign)) then old(Value())
        else TruncMod(old(Value()), old(rhs.Value())))
      ensures !wrapped && old(rhs.sign || rhs.Canonical()) ==> Value() == TruncMod(old(Value()), old(rhs.Value()))
      ensures Abs(old(rhs.Value())) < Pow(2) ==> !wrapped
      ensures Canonical()
    {
      var q := new BigInteger.Copy(this);
      wrapped := q.DivAssign(rhs);
      var p := new BigInteger.Copy(rhs);
      p.MulAssign(q);
      var r := new BigInteger.Copy(this);
      r.SubAssign(p);
      data, sign := r.data, r.sign;
    }

    /**
     * The loop shared by `&=`, `|=` and `^=`: the new sign is the operator on the two signs,
     * the receiver is expanded to the longer length with the new sign's fill, and each limb is
     * combined with the right operand's limb, or past its end with that same fill.
     */
    method ApplyBitwise(op: Op, rhs: BigInteger)
      modifies this
      ensures sign == BoolOp(op, old(sign), old(rhs.sign))
      ensures data == Padded(op, old(data), old(sign), old(rhs.data), old(rhs.sign))
      ensures PaddingSafe(op, old(data), old(sign), old(rhs.data), old(rhs.sign)) ==>
        Value() == BitOp(op, old(Value()), old(rhs.Value()))
    {
      // As in `+=`, rhs is read through a copy of its fields; when rhs is *this the C++ loop
      // combines each limb with itself, which is what the copy gives.
      var rb, rs := rhs.data, rhs.sign;
      ghost var a, sa := data, sign;
      sign := BoolOp(op, sign, rs);
      var l := if |rb| > |data| then |rb| else |data|;
      Expand(l);
      ExtendedValue(a, sign, l);
      data := CombineLimbs(op, data, rb, sign);
      ghost var P := Padded(op, a, sa, rb, rs);
      assert data == P;
      if PaddingSafe(op, a, sa, rb, rs) {
        PaddedValue(op, a, sa, rb, rs);
      }
    }

    /** `&=`: the shared loop, then `shrink`; the only bitwise operator that shrinks. */
    method AndAssign(rhs: BigInteger)
      modifies this
      ensures sign == (old(sign) && old(rhs.sign))
      ensures data == TrimFill(Padded(And, old(data), old(sign), old(rhs.data), old(rhs.sign)), sign)
      ensures PaddingSafe(And, old(data), old(sign), old(rhs.data), old(rhs.sign)) ==>
        Value() == BitOp(And, old(Value()), old(rhs.Value()))
      ensures |old(data)| >= 1 || |old(rhs.data)| >= 1 ==> Canonical()
    {
      ApplyBitwise(And, rhs);
      Shrink();
    }

    /** `|=`: the shared loop; the result is not shrunk. */
    method OrAssign(rhs: BigInteger)
      modifies this
      ensures sign == (old(sign) || old(rhs.sign))
      ensures data == Padded(Or, old(data), old(sign), old(rhs.data), old(rhs.sign))
      ensures PaddingSafe(Or, old(data), old(sign), old(rhs.data), old(rhs.sign)) ==>
        Value() == BitOp(Or, old(Value()), old(rhs.Value()))
    {
      ApplyBitwise(Or, rhs);
    }

    /** `^=`: the shared loop; the result is not shrunk. */
    method XorAssign(rhs: BigInteger)
      modifies this
      ensures sign == (old(sign) != old(rhs.sign))
      ensures data == Padded(Xor, old(data), old(sign), old(rhs.data), old(rhs.sign))
      ensures PaddingSafe(Xor, old(data), old(sign), old(rhs.data), old(rhs.sign)) ==>
        Value() == BitOp(Xor, old(Value()), old(rhs.Value()))
    {
      ApplyBitwise(Xor, rhs);
    }

    /**
     * `<<=`: a negative count shifts right by its magnitude. Otherwise the receiver is multiplied
     * by 2^(k mod 32), k / 32 zero limbs are put below the stored ones (the C++ reverses, pushes
     * and reverses back) and the result is shrunk. The C++ resets an empty vector to 0 before
     * shrinking; `*=` always leaves at least one limb, so that branch is not reached.
     */
    method ShlAssign(rhs: int)
      requires -0x8000_0000 < rhs < 0x8000_0000
      modifies this
      ensures rhs >= 0 ==> Value() == old(Value()) * Pow2(rhs)
      ensures rhs < 0 && old(Value()) >= 0 ==> Value() == old(Value()) / Pow2(-rhs)
      ensures rhs < 0 && old(Value()) < 0 ==> Value() == -(Abs(old(Value())) / Pow2(-rhs)) - 1
      ensures rhs >= 0 || old(Value()) < 0 ==> Canonical()
      ensures Canonical() || (data == [] && !sign)
      decreases if rhs < 0 then 1 else 0
    {
      if rhs < 0 {
        ShrAssign(-rhs);
        return;
      }
      ghost var v := Value();
      var mod, cnt := rhs % LIMB_BITS, rhs / LIMB_BITS;
      ShiftSplit(rhs);
      var f := new BigInteger.FromUint32(Pow2(mod));
      MulAssign(f);
      ghost var m, ms := data, sign;
      var i := 0;
      while i < cnt
        invariant 0 <= i <= cnt && sign == ms
        invariant data == Fills(false, i) + m
      {
        data := [0] + data;
        assert [0] + (Fills(false, i) + m) == Fills(false, i + 1) + m;
        i := i + 1;
      }
      ValueShiftedUp(m, sign, cnt);
      ghost var p2, pc := Pow2(mod), Pow(cnt);
      assert Limbs.Value(m, ms) == v * p2;
      Reassociate(v, p2, pc);
      assert Value() == v * Pow2(rhs);
      Shrink();
    }

    /**
     * `>>=`: a negative count shifts left by its magnitude. Otherwise the magnitude (the
     * receiver, or its negation when negative) is divided by 2^(k mod 32) through `/=`, its k / 32
     * lowest limbs are dropped (all of them when there are fewer), and a negative receiver gets
     * the result plus one, negated. That is the floor of x / 2^k for x >= 0, but for x < 0 it is
     * -(|x| / 2^k) - 1, which is the floor only when 2^k does not divide x (NegativeShiftIsFloor).
     * A non-negative receiver shifted past all of its limbs is left with no limbs at all.
     */
    method ShrAssign(rhs: int)
      requires -0x8000_0000 < rhs < 0x8000_0000
      modifies this
      ensures rhs < 0 ==> Value() == old(Value()) * Pow2(-rhs)
      ensures rhs >= 0 && old(Value()) >= 0 ==> Value() == old(Value()) / Pow2(rhs)
      ensures rhs >= 0 && old(Value()) < 0 ==> Value() == -(Abs(old(Value())) / Pow2(rhs)) - 1
      ensures rhs < 0 || old(Value()) < 0 ==> Canonical()
      ensures Canonical() || (data == [] && !sign)
      decreases if rhs < 0 then 1 else 0
    {
      if rhs < 0 {
        ShlAssign(-rhs);
        return;
      }
      ghost var v := Value();
      ValueRange(data, sign);
      var mod, cnt := rhs % LIMB_BITS, rhs / LIMB_BITS;
      ShiftSplit(rhs);
      var tmp: BigInteger;
      if !sign {
        tmp := new BigInteger.Copy(this);
      } else {
        tmp := Negate();
      }
      var d := ShiftDivide(tmp, Pow2(mod), cnt);
      DivideInTwoSteps(Abs(v), rhs);
      tmp := new BigInteger();
      tmp.data, tmp.sign := d, false;
      assert tmp.Value() == Abs(v) / Pow2(rhs);
      if sign {
        var one := new BigInteger.FromInt(1);
        tmp.AddAssign(one);
        tmp := tmp.Negate();
      }
      data, sign := tmp.data, tmp.sign;
      Shrink();
    }

    /** `-=`: adds the negation of the right operand. */
    method SubAssign(rhs: BigInteger)
      modifies this
      ensures Value() == old(Value()) - old(rhs.Value())
      ensures Canonical()
    {
      var n := rhs.Negate();
      AddAssign(n);
    }

    /**
     * `difference`: subtracts limbs 0..m of b from limbs offset..offset+m of the receiver, with
     * a borrow computed in 64-bit arithmetic. A limb is overwritten when it is stored and pushed
     * otherwise, then the receiver shrinks. When the subtrahend does not exceed that window the
     * receiver loses b * BASE^offset.
     */
    method Difference(b: BigInteger, offset: nat, m: nat)
      requires b != this && !sign && !b.sign
      modifies this
      ensures !sign && Canonical()
      ensures Nat(Window(old(data), false, offset, m + 1)) >= Nat(Window(b.data, false, 0, m + 1)) ==>
        Value() == old(Value()) - Nat(Window(b.data, false, 0, m + 1)) * Pow(offset)
    {
      var d := SubtractShifted(data, b.data, offset, m);
      data := d;
      Shrink();
    }
  }

  /**
   * The division part of `>>=` on the non-negative `tmp`: `tmp /= p` for p = 2^(k mod 32), then
   * the `cnt` lowest limbs are popped, stopping early when none are left.
   */
  method ShiftDivide(tmp: BigInteger, p: Limb, cnt: nat) returns (d: seq<Limb>)
    requires tmp.Value() >= 0 && p >= 1
    modifies tmp
    ensures Limbs.Value(d, false) == old(tmp.Value()) / p / Pow(cnt)
    ensures |d| == 0 || Limbs.Canonical(d, false)
  {
    ghost var v := tmp.Value();
    var divisor := new BigInteger.FromUint32(p);
    MagnitudeLimbs(divisor.data, p);
    assert p < Pow(2);
    var wrapped := tmp.DivAssign(divisor);
    ghost var q, r := tmp.data, v / p;
    TruncDivNonNegative(v, p);
    assert tmp.Value() == r && r >= 0;
    ValueRange(q, tmp.sign);
    d := DropLow(tmp.data, cnt);
    assert !tmp.sign && Nat(q) == r;
    ValueDropped(q, cnt);
    assert |d| == 0 || |d| == 1 || d[|d| - 1] == q[|q| - 1];
  }

  /**
   * The popping loop of `>>=` (on the reversed vector, so from the low end): removes the lowest
   * limb `cnt` times or until no limb is left.
   */
  method DropLow(q: seq<Limb>, cnt: nat) returns (d: seq<Limb>)
    ensures d == q[(if cnt < |q| then cnt else |q|)..]
  {
    d := q;
    var c := cnt;
    while c > 0 && |d| > 0
      invariant 0 <= c <= cnt && cnt - c <= |q| && d == q[cnt - c..]
    {
      d := d[1..];
      c := c - 1;
    }
  }

  /**
   * The limb loop of the bitwise operators: limb i of d becomes the operator applied to it and
   * to limb i of rb, read with the fill of `sign` past its end.
   */
  method CombineLimbs(op: Op, d: seq<Limb>, rb: seq<Limb>, sign: bool) returns (r: seq<Limb>)
    requires |rb| <= |d|
    ensures r == Zip(op, d, Extended(rb, sign, |d|))
  {
    r := d;
    var l := |d|;
    var val := Fill(sign);
    var i := 0;
    while i < l
      invariant 0 <= i <= l && |r| == l
      invariant forall k :: 0 <= k < i ==> r[k] == LimbOp(op, d[k], LimbAt(rb, sign, k))
      invariant forall k :: i <= k < l ==> r[k] == d[k]
    {
      var y: Limb := if i < |rb| then rb[i] else val;
      r := r[i := LimbOp(op, r[i], y)];
      i := i + 1;
    }
  }

  /**
   * `calc3to2`: the trial quotient digit of `/=`. The limbs i+m, i+m-1, i+m-2 of a and the limbs
   * m-1, m-2 of b, read through `operator[]`, are assembled into 128-bit numbers and divided; the
   * quotient is cast to `uint32_t` (reduced modulo 2^32) and capped at 2^32 - 1.
   */
  function CalcThreeToTwo(a: BigInteger, b: BigInteger, i: nat, m: nat): (r: Limb)
    reads a, b
    requires m >= 2 && Nat(Window(b.data, b.sign, m - 2, 2)) != 0
    ensures r == (Nat(Window(a.data, a.sign, i + m - 2, 3)) / Nat(Window(b.data, b.sign, m - 2, 2))) % BASE
  {
    var a3 := a.Get(i + m) * BASE * BASE + a.Get(i + m - 1) * BASE + a.Get(i + m - 2);
    var b2 := b.Get(m - 1) * BASE + b.Get(m - 2);
    WindowParts(a.data, a.sign, i + m - 2, b.data, b.sign, m - 2);
    var q := (a3 / b2) % BASE;
    if q < MAX_LIMB then q else MAX_LIMB
  }

  /**
   * `compare_prefix`: scans limbs m down to 0 of a (from pos) and of b for the first position
   * where they differ and reports whether a's limb there is the smaller one; with no
   * difference the answer is false. This is the order of the two (m+1)-limb windows as numbers.
   */
  method ComparePrefix(a: BigInteger, b: BigInteger, pos: nat, m: nat) returns (r: bool)
    ensures r <==> Nat(Window(a.data, a.sign, pos, m + 1)) < Nat(Window(b.data, b.sign, 0, m + 1))
  {
    var j := 0;
    var ok := false;
    var i: int := m;
    while i >= 0
      invariant -1 <= i <= m
      invariant forall k :: i < k <= m ==> a.Get(k + pos) == b.Get(k)
    {
      if a.Get(i + pos) != b.Get(i) {
        j := i;
        ok := true;
        break;
      }
      i := i - 1;
    }
    r := ok && a.Get(j + pos) < b.Get(j);
    ghost var X, Y := Window(a.data, a.sign, pos, m + 1), Window(b.data, b.sign, 0, m + 1);
    forall k | 0 <= k <= m
      ensures X[k] == a.Get(k + pos) && Y[k] == b.Get(k)
    {
      WindowAt(a.data, a.sign, pos, m + 1, k);
      WindowAt(b.data, b.sign, 0, m + 1, k);
    }
    if ok {
      NatLex(X, Y, j);
    } else {
      assert X == Y;
    }
  }

  /**
   * The loop of `difference` on the limb vectors: limbs 0..m of bd, with a borrow, are
   * subtracted from limbs offset..offset+m of O as `operator[]` reads them (zeros past the end);
   * a limb is overwritten when it is stored and pushed otherwise.
   */
  method SubtractShifted(O: seq<Limb>, bd: seq<Limb>, offset: nat, m: nat) returns (d: seq<Limb>)
    ensures |d| >= 1
    ensures Nat(Window(O, false, offset, m + 1)) >= Nat(Window(bd, false, 0, m + 1)) ==>
      Nat(d) == Nat(O) - Nat(Window(bd, false, 0, m + 1)) * Pow(offset)
  {
    d := O;
    ghost var K := if |O| > offset + m + 1 then |O| else offset + m + 1;
    ghost var Wo, Wb := Window(O, false, offset, m + 1), Window(bd, false, 0, m + 1);
    ghost var Dig: seq<Limb> := [];
    var borrow := 0;
    var i := 0;
    while i <= m
      invariant 0 <= i <= m + 1 && |Dig| == i && (borrow == 0 || borrow == 1)
      invariant Nat(Dig) + Nat(Wb[..i]) == Nat(Wo[..i]) + borrow * Pow(i)
      invariant Partial(O, K, d, Dig, offset)
    {
      d, Dig, borrow := SubtractStep(O, bd, offset, m, i, K, d, Dig, borrow);
      i := i + 1;
    }
    assert Wo[..m + 1] == Wo && Wb[..m + 1] == Wb;
    PartialDone(O, K, d, Dig, offset, m);
    DifferenceResult(O, bd, offset, m, Dig, borrow, d);
  }

  /** One pass of the `difference` loop, at i = |Dig|: the new limb is written at offset + i. */
  method SubtractStep(O: seq<Limb>, bd: seq<Limb>, offset: nat, m: nat, i: nat, ghost K: nat, d: seq<Limb>, ghost Dig: seq<Limb>, borrow: int)
    returns (d': seq<Limb>, ghost Dig': seq<Limb>, borrow': int)
    requires K == if |O| > offset + m + 1 then |O| else offset + m + 1
    requires |Dig| == i <= m && (borrow == 0 || borrow == 1)
    requires var i, Wo, Wb := |Dig|, Window(O, false, offset, m + 1), Window(bd, false, 0, m + 1);
      Nat(Dig) + Nat(Wb[..i]) == Nat(Wo[..i]) + borrow * Pow(i)
    requires Partial(O, K, d, Dig, offset)
    ensures |Dig'| == |Dig| + 1 && (borrow' == 0 || borrow' == 1)
    ensures var i, Wo, Wb := |Dig'|, Window(O, false, offset, m + 1), Window(bd, false, 0, m + 1);
      Nat(Dig') + Nat(Wb[..i]) == Nat(Wo[..i]) + borrow' * Pow(i)
    ensures Partial(O, K, d', Dig', offset)
  {
    ghost var Wo, Wb := Window(O, false, offset, m + 1), Window(bd, false, 0, m + 1);
    WindowAt(bd, false, 0, m + 1, i);
    ReadMinuend(O, K, d, Dig, offset, m, i);
    var digit;
    digit, borrow' := SubtractLimb(LimbAt(d, false, i + offset), LimbAt(bd, false, i), borrow);
    PartialStep(O, K, d, Dig, offset, m, digit);
    // overwritten when the limb exists, pushed otherwise
    d' := if offset + i < |d| then d[offset + i := digit] else d + [digit];
    SubLimbStep(Dig, Wo, Wb, i, borrow, digit, borrow');
    Dig' := Dig + [digit];
  }

  /**
   * One limb of `difference`: x - y - borrow is computed in `uint64_t`, so a negative result
   * wraps to 2^64 - ..., and its high half tells the next borrow while its low half is the limb.
   */
  method SubtractLimb(x: Limb, y: Limb, borrow: int) returns (digit: Limb, next: int)
    requires borrow == 0 || borrow == 1
    ensures next == (if x - y - borrow < 0 then 1 else 0)
    ensures digit == x - y - borrow + next * BASE
  {
    var t := x - y - borrow;
    Wrap64(t);
    var cur := t % WORD64;
    next := if cur / BASE != 0 then 1 else 0;
    digit := cur % BASE;
    if t < 0 {
      DivModUnique(t, BASE, -1, t + BASE);
    } else {
      DivModUnique(t, BASE, 0, t);
    }
  }

  /**
   * The nested loop of `*=`: adds a[i] * b[j] into limb i+j of the accumulator c, which
   * starts at zero with at least len(a) + len(b) limbs; the carry of row i runs on past the
   * end of b until it is zero. The accumulator ends holding the product of the magnitudes.
   */
  method MultiplyMagnitudes(ad: seq<Limb>, bd: seq<Limb>, c: seq<Limb>) returns (cd: seq<Limb>)
    requires Nat(c) == 0 && |c| >= |ad| + |bd|
    ensures |cd| == |c| && Nat(cd) == Nat(ad) * Nat(bd)
  {
    cd := c;
    ghost var N := |cd|;
    var i := 0;
    while i < |ad|
      invariant 0 <= i <= |ad| && |cd| == N
      invariant Nat(cd) == Nat(ad[..i]) * Nat(bd)
    {
      var carry := 0;
      var j := 0;
      ghost var T := Nat(ad[..i]) * Nat(bd);
      while j < |bd| || carry != 0
        invariant 0 <= carry < BASE && i + j <= N && |cd| == N
        invariant Nat(cd) + carry * Pow(i + j) == T + ad[i] * LowPart(bd, j) * Pow(i)
        decreases N - (i + j)
      {
        if j >= |bd| {
          CarryColumn(Nat(cd), T, ad[i], ad, bd, i, j, carry);
        }
        var bj := if j < |bd| then bd[j] else 0;
        ProductFits(ad[i], bj, cd[i + j], carry);
        var cur := ad[i] * bj + cd[i + j] + carry;
        assert cur < BASE * BASE;  // the 64-bit accumulator does not wrap
        ghost var prev := cd;
        cd := cd[i + j := cur % BASE];
        MulAccStep(prev, T, ad[i], bd, i, j, carry, cur % BASE, cur / BASE);
        carry := cur / BASE;
        j := j + 1;
      }
      MulRowDone(ad, bd, i, j, Nat(cd));
      i := i + 1;
    }
    assert ad[..|ad|] == ad;
  }

  /**
   * The limbs `/=` divides: the stored limbs of a non-negative operand, and for a negative one
   * the canonical limbs of its magnitude, which is what `a = -a` leaves.
   */
  ghost function MagnitudeOf(s: seq<Limb>, sign: bool): seq<Limb>
  {
    if sign then NatLimbs(Abs(Limbs.Value(s, sign))) else s
  }

  /**
   * The condition under which `/=` is defined, on the magnitudes' limbs a1 and b1: when b1 has
   * at least two limbs and no more than a1, its top limb is neither 0 nor 2^32 - 1. For a top
   * limb of 2^32 - 1 the 32-bit sum top + 1 wraps to zero and the normalizing factor divides
   * by it; for a top limb of 0 the factor 2^32 / 1 is cast to a zero `uint32_t`, both operands
   * become 0 and `calc3to2` divides by zero.
   */
  ghost predicate TopFits(a1: seq<Limb>, b1: seq<Limb>)
  {
    2 <= |b1| <= |a1| ==> 0 < b1[|b1| - 1] < MAX_LIMB
  }

  /** `TopFits` on the operands of `/=` as they are before the signs are removed. */
  ghost predicate DivisorTopFits(a: BigInteger, b: BigInteger)
    reads a, b
  {
    TopFits(MagnitudeOf(a.data, a.sign), MagnitudeOf(b.data, b.sign))
  }

  /**
   * The early exit of `/=`: the divisor's magnitude has at least two stored limbs and more
   * than the dividend's, so the quotient is set to 0 without looking at the limbs' values.
   */
  ghost predicate EarlyZero(a0: seq<Limb>, s0: bool, b0: seq<Limb>, t0: bool)
  {
    var a1, b1 := MagnitudeOf(a0, s0), MagnitudeOf(b0, t0);
    2 <= |b1| && |a1| < |b1|
  }

  /**
   * The early zero is the true quotient whenever the divisor is negative or canonical: then
   * its magnitude's top limb is not 0, so the magnitude is at least 2^32 times every number
   * of fewer limbs.
   */
  lemma EarlyZeroExact(a0: seq<Limb>, s0: bool, b0: seq<Limb>, t0: bool)
    requires Limbs.Value(b0, t0) != 0 && (t0 || Limbs.Canonical(b0, t0))
    requires EarlyZero(a0, s0, b0, t0)
    ensures TruncDiv(Limbs.Value(a0, s0), Limbs.Value(b0, t0)) == 0
  {
    var a1, b1 := MagnitudeOf(a0, s0), MagnitudeOf(b0, t0);
    ValueRange(a0, s0);
    ValueRange(b0, t0);
    NatLimbsSpec(Abs(Limbs.Value(a0, s0)));
    NatLimbsSpec(Abs(Limbs.Value(b0, t0)));
    assert Nat(a1) == Abs(Limbs.Value(a0, s0));
    assert Nat(b1) == Abs(Limbs.Value(b0, t0));
    ShortDividend(a1, b1);
  }

  /** A divisor of three or more limbs with a non-zero top limb is at least 2^64. */
  lemma WideDivisor(Bd: seq<Limb>, v: nat)
    requires |Bd| >= 3 && Bd[|Bd| - 1] != 0 && Nat(Bd) == v
    ensures v >= Pow(2)
  {
    DivisorBounds(Bd);
    PowMonotone(2, |Bd| - 1);
  }

  /**
   * The operands of `/=` after `a = -a` and `b = -b` on the negative ones: both are
   * non-negative, and their limbs are the ones `MagnitudeOf` names.
   */
  lemma {:induction false} Magnitudes(a0: seq<Limb>, s0: bool, b0: seq<Limb>, t0: bool, a1: seq<Limb>, s1: bool, b1: seq<Limb>, t1: bool)
    requires Limbs.Value(b0, t0) != 0
    requires s0 ==> Limbs.Canonical(a1, s1) && Limbs.Value(a1, s1) == -Limbs.Value(a0, s0)
    requires !s0 ==> a1 == a0 && s1 == s0
    requires t0 ==> Limbs.Canonical(b1, t1) && Limbs.Value(b1, t1) == -Limbs.Value(b0, t0)
    requires !t0 ==> b1 == b0 && t1 == t0
    ensures !s1 && !t1 && a1 == MagnitudeOf(a0, s0) && b1 == MagnitudeOf(b0, t0)
    ensures (s0 <==> Limbs.Value(a0, s0) < 0) && (t0 <==> Limbs.Value(b0, t0) < 0)
    ensures Nat(a1) == Abs(Limbs.Value(a0, s0)) && Nat(b1) == Abs(Limbs.Value(b0, t0)) && Nat(b1) != 0
    ensures (t0 || Limbs.Canonical(b0, t0)) ==> Limbs.Canonical(b1, false)
    ensures |a1| == 0 ==> a0 == [] && !s0
  {
    ValueRange(a0, s0);
    ValueRange(b0, t0);
    ValueRange(a1, s1);
    ValueRange(b1, t1);
    if s0 {
      MagnitudeLimbs(a1, Abs(Limbs.Value(a0, s0)));
    }
    if t0 {
      MagnitudeLimbs(b1, Abs(Limbs.Value(b0, t0)));
    }
  }

  /** `operator==`: the signs agree and so do the stored limbs. */
  function Equal(a: BigInteger, b: BigInteger): (r: bool)
    reads a, b
    ensures r ==> a.Value() == b.Value()
  {
    var res := a.sign == b.sign;
    if res then res && a.data == b.data else res
  }

  /** `operator!=`: the signs differ or the stored limbs do. */
  function NotEqual(a: BigInteger, b: BigInteger): (r: bool)
    reads a, b
    ensures r == !Equal(a, b)
  {
    var res := a.sign != b.sign;
    if !res then res || a.data != b.data else res
  }

  /** `(b - (b / 10) * 10).first()` in `to_string`: the last decimal digit of b. */
  method NextDecimalDigit(b: BigInteger) returns (digit: Limb)
    requires b.Value() >= 0
    ensures digit == b.Value() % 10
  {
    var ten := new BigInteger.FromInt(10);
    var c := new BigInteger.Copy(b);
    TenFits(c, ten);
    ghost var w := c.DivAssign(ten);
    TruncDivNonNegative(b.Value(), 10);
    var ten2 := new BigInteger.FromInt(10);
    c.MulAssign(ten2);
    var d := new BigInteger.Copy(b);
    d.SubAssign(c);
    ghost var v := d.Value();
    assert v == b.Value() % 10;
    ValueRange(d.data, d.sign);
    MagnitudeLimbs(d.data, v);
    assert NatLimbs(v) == [v];
    digit := d.data[0];
  }

  /**
   * The two wrapping `uint32_t` multiplications of the `int` constructor leave |a| for every
   * negative 32-bit a, INT32_MIN included.
   */
  lemma NegativeMagnitude(a: int, factor: int, second: int)
    requires -0x8000_0000 <= a < 0
    requires factor == (if a == -0x8000_0000 then 1 else MAX_LIMB)
    requires second == (if a == -0x8000_0000 then MAX_LIMB else 1)
    ensures ((factor * (a % BASE)) % BASE * second) % BASE == -a
  {
    if a == -0x8000_0000 {
      assert (factor * (a % BASE)) % BASE == 0x8000_0000;
      assert (0x8000_0000 * second) % BASE == 0x8000_0000;
    } else {
      DivModUnique(a, BASE, -1, a + BASE);
      DivModUnique(MAX_LIMB * (a + BASE), BASE, a + BASE - 1, -a);
    }
  }

  /** Ten is a divisor `/=` handles exactly. */
  lemma TenFits(a: BigInteger, ten: BigInteger)
    requires ten.Canonical() && ten.Value() == 10
    ensures ten.data == [10] && !ten.sign
    ensures ten.Value() != 0 && DivisorTopFits(a, ten) && Abs(ten.Value()) < Pow(2)
    ensures !EarlyZero(a.data, a.sign, ten.data, ten.sign)
  {
    ValueRange(ten.data, ten.sign);
    MagnitudeLimbs(ten.data, 10);
    assert NatLimbs(10) == [10];
    assert Pow(2) == BASE * BASE;
  }

  /**
   * The early zero of `/=` on a divisor `^=` leaves with a zero top limb: [5, 7] ^= [3, 7]
   * stores [6, 0], of value 6, and then 100 / it is 0 and 100 % it is 100, where truncating
   * division gives 16 and 4.
   */
  method EarlyZeroExample(x: BigInteger, y: BigInteger) returns (z: BigInteger, q: BigInteger, r: BigInteger)
    requires x.data == [5, 7] && !x.sign && y.data == [3, 7] && !y.sign
    ensures z.data == [6, 0] && !z.sign && z.Value() == 6 && !z.Canonical()
    ensures q.Value() == 0 && r.Value() == 100
    ensures TruncDiv(100, 6) == 16 && TruncMod(100, 6) == 4
  {
    z := new BigInteger.Copy(x);
    z.XorAssign(y);
    XorKeepsZeroTop();
    assert Nat([6, 0]) == 6 + BASE * Nat([0]);
    assert Nat([0]) == 0 + BASE * Nat([]);
    q := new BigInteger.FromInt(100);
    assert MagnitudeOf(q.data, q.sign) == [100];
    ghost var wq := q.DivAssign(z);
    r := new BigInteger.FromInt(100);
    ghost var wr := r.ModAssign(z);
  }

  /** The check of the string constructor: every stored limb is 2^32 - 1. */
  method AllLimbsMax(d: seq<Limb>) returns (f: bool)
    ensures f <==> forall k :: 0 <= k < |d| ==> d[k] == MAX_LIMB
  {
    f := true;
    var j := 0;
    while j < |d|
      invariant 0 <= j <= |d| && f
      invariant forall k :: 0 <= k < j ==> d[k] == MAX_LIMB
    {
      if d[j] != MAX_LIMB {
        f := false;
        break;
      }
      j := j + 1;
    }
  }

  /**
   * The value the string constructor gives a well-formed string: its decimal value, except that
   * a negative magnitude m whose limbs are all 2^32 - 1 becomes -m - 2.
   */
  ghost function Constructed(s: string): int
    requires WellFormed(s)
  {
    var m: int := ParseDigits(Digits(s));
    if s[0] == '-' then (if AllOnes(m) then -m - 2 else -m) else m
  }

  /** The constructor reads back what `to_string` writes, except for -(2^(32k) - 1). */
  lemma ConstructedRoundTrip(v: int)
    ensures WellFormed(Render(v))
    ensures Constructed(Render(v)) == v <==> !(v < 0 && AllOnes(-v))
    ensures v < 0 && AllOnes(-v) ==> Constructed(Render(v)) == v - 2
  {
    RenderRoundTrip(v);
  }

  /**
   * A well-formed string without leading zeros or "-0" is written back unchanged by `to_string`
   * after the string constructor, unless it is the negative of an all-ones magnitude.
   */
  lemma RenderConstructed(s: string)
    requires CanonicalSpelling(s) && !(s[0] == '-' && AllOnes(ParseDigits(Digits(s))))
    ensures Render(Constructed(s)) == s
  {
    ParseRoundTrip(s);
  }

  /** `to_string(big_integer(s))`: the canonical spelling of the constructed value. */
  method ParseThenRender(s: string) returns (r: string)
    requires WellFormed(s)
    ensures r == Render(Constructed(s))
    ensures CanonicalSpelling(s) && !(s[0] == '-' && AllOnes(ParseDigits(Digits(s)))) ==> r == s
  {
    var x := new BigInteger.FromString(s);
    r := ToString(x);
    if CanonicalSpelling(s) && !(s[0] == '-' && AllOnes(ParseDigits(Digits(s)))) {
      RenderConstructed(s);
    }
  }

  /** Every limb of the canonical limbs of m is 2^32 - 1. */
  ghost predicate AllOnes(m: nat)
  {
    forall k :: 0 <= k < |NatLimbs(m)| ==> NatLimbs(m)[k] == MAX_LIMB
  }

  /**
   * The magnitudes on which the string constructor departs from the decimal value are exactly
   * the numbers 2^(32k) - 1 with k >= 1 limbs.
   */
  lemma AllOnesIff(m: nat)
    ensures AllOnes(m) <==> m == Pow(|NatLimbs(m)|) - 1
  {
    var k := |NatLimbs(m)|;
    NatLimbsSpec(m);
    var ones := Fills(true, k);
    ValueExtend([], true, k);
    assert [] + ones == ones;
    assert Nat(ones) == Pow(k) - 1;
    if AllOnes(m) {
      assert NatLimbs(m) == ones;
    }
    if m == Pow(k) - 1 {
      assert Canonical(ones, false);
      MagnitudeLimbs(ones, m);
    }
  }

  /** `to_string` of -(2^32 - 1) is "-4294967295", which the string constructor reads as -4294967297. */
  lemma AllOnesExample()
    ensures WellFormed(Render(-MAX_LIMB)) && Constructed(Render(-MAX_LIMB)) == -4294967297
  {
    assert NatLimbs(MAX_LIMB) == [MAX_LIMB];
    ConstructedRoundTrip(-MAX_LIMB);
  }

  /** Canonical objects are `==` exactly when their values are equal. */
  lemma EqualIffSameValue(a: BigInteger, b: BigInteger)
    requires a.Canonical() && b.Canonical()
    ensures Equal(a, b) <==> a.Value() == b.Value()
  {
    if a.Value() == b.Value() {
      CanonicalUnique(a.data, a.sign, b.data, b.sign);
    }
  }

  /** Negating twice gives back a canonical object structurally: -(-a) == a. */
  method DoubleNegation(a: BigInteger) returns (r: BigInteger)
    requires a.Canonical()
    ensures Equal(r, a)
  {
    var t := a.Negate();
    r := t.Negate();
    EqualIffSameValue(r, a);
  }

  /** a + (-a) is the single limb 0 with a clear sign, whatever the form of a. */
  method AddNegation(a: BigInteger) returns (r: BigInteger)
    ensures r.data == [0] && !r.sign
  {
    var n := a.Negate();
    r := new BigInteger.Copy(a);
    r.AddAssign(n);
    ValueRange(r.data, r.sign);
    MagnitudeLimbs(r.data, 0);
    assert NatLimbs(0) == [0];
  }

  /** `operator<`: the sign of a - b. */
  method Less(a: BigInteger, b: BigInteger) returns (r: bool)
    ensures r <==> a.Value() < b.Value()
  {
    var c := new BigInteger.Copy(a);
    c.SubAssign(b);
    ValueRange(c.data, c.sign);
    r := c.sign;
  }

  /** `operator<=`: a - b is negative or is the single limb 0. */
  method LessEq(a: BigInteger, b: BigInteger) returns (r: bool)
    ensures r <==> a.Value() <= b.Value()
  {
    var c := new BigInteger.Copy(a);
    c.SubAssign(b);
    ValueRange(c.data, c.sign);
    r := c.sign || (|c.data| == 1 && c.data[0] == 0);
    if !c.sign && c.Value() == 0 {
      MagnitudeLimbs(c.data, 0);
      assert NatLimbs(0) == [0];
    }
    if |c.data| == 1 && c.data[0] == 0 {
      assert Nat(c.data) == 0 + BASE * Nat([]);
    }
  }

  /** `operator>`: not `<=`. */
  method Greater(a: BigInteger, b: BigInteger) returns (r: bool)
    ensures r <==> a.Value() > b.Value()
  {
    var le := LessEq(a, b);
    r := !le;
  }

  /** `operator>=`: `==` or `>`. */
  method GreaterEq(a: BigInteger, b: BigInteger) returns (r: bool)
    ensures r ==> a.Value() >= b.Value()
    ensures a.Canonical() && b.Canonical() ==> (r <==> a.Value() >= b.Value())
  {
    if a.Canonical() && b.Canonical() {
      EqualIffSameValue(a, b);
    }
    var eq := Equal(a, b);
    if eq {
      r := true;
    } else {
      r := Greater(a, b);
    }
  }

  /**
   * `to_string`: "0" for zero; otherwise the magnitude's digits are produced least significant
   * first as `(b - (b / 10) * 10).first()` while b /= 10 runs down to zero, a '-' is appended
   * for a negative value and the string is reversed.
   */
  method ToString(a: BigInteger) returns (r: string)
    requires a.Canonical()
    ensures r == Render(a.Value())
  {
    var zero := new BigInteger.FromInt(0);
    EqualIffSameValue(a, zero);
    if Equal(a, zero) {
      return "0";
    }
    var b := new BigInteger.Copy(a);
    var resSign := false;
    var neg := Less(b, zero);
    if neg {
      resSign := b.sign;
      var minusOne := new BigInteger.FromInt(-1);
      b.MulAssign(minusOne);
    }
    ValueRange(a.data, a.sign);
    assert resSign <==> a.Value() < 0;
    var res := MagnitudeDigits(b, zero);
    if resSign {
      ReverseAppend(res, '-');
      res := res + "-";
    }
    r := Reverse(res);
  }

  /**
   * The digit loop of `to_string` on a non-negative b: while b != 0, push the last digit and
   * divide by ten. The digits come out least significant first.
   */
  method MagnitudeDigits(b: BigInteger, zero: BigInteger) returns (res: string)
    requires b != zero && zero.Value() == 0 && zero.Canonical()
    requires b.Canonical() && b.Value() >= 0
    modifies b
    ensures Reverse(res) == SignificantDigits(old(b.Value()))
  {
    res := "";
    while NotEqual(b, zero)
      invariant b.Canonical() && b.Value() >= 0
      invariant SignificantDigits(old(b.Value())) == SignificantDigits(b.Value()) + Reverse(res)
      decreases b.Value()
    {
      EqualIffSameValue(b, zero);
      ghost var x := b.Value();
      var digit := PopDigit(b);
      SignificantStep(x);
      ReverseAppend(res, DigitChar(digit));
      res := res + [DigitChar(digit)];
    }
    EqualIffSameValue(b, zero);
  }

  /** One pass of the `to_string` loop: the last decimal digit of b, then `b /= 10`. */
  method PopDigit(b: BigInteger) returns (digit: Limb)
    requires b.Value() >= 0
    modifies b
    ensures digit == old(b.Value()) % 10 && b.Value() == old(b.Value()) / 10
    ensures b.Canonical() || (b.data == [] && !b.sign && old(b.data) == [])
    ensures old(b.data) == [] ==> b.data == [] && !b.sign
  {
    ghost var x := b.Value();
    digit := NextDecimalDigit(b);
    var ten := new BigInteger.FromInt(10);
    TenFits(b, ten);
    ghost var w := b.DivAssign(ten);
    TruncDivNonNegative(x, 10);
  }

  /**
   * One pass of the `to_string` loop on the empty vector that `>>=` leaves when it shifts a
   * non-negative value past all of its limbs: the guard b != 0 holds, because the empty
   * vector is not the vector [0], the digit pushed is 0, and `b /= 10` leaves b empty. The
   * state after the pass is the state before it, so the loop never ends.
   */
  method EmptyDigitPass(b: BigInteger) returns (more: bool, digit: Limb)
    requires b.data == [] && !b.sign
    modifies b
    ensures more && digit == 0 && DigitChar(digit) == '0'
    ensures b.data == [] && !b.sign
  {
    var zero := new BigInteger.FromInt(0);
    more := NotEqual(b, zero);
    digit := PopDigit(b);
  }

  /**
   * `>>=` on negative receivers: -4 >> 1 leaves -3, one below the floor -2 of -4 / 2, while
   * -5 >> 1 leaves -3, the floor of -5 / 2.
   */
  method ShiftRightExamples() returns (x: BigInteger, y: BigInteger)
    ensures x.Value() == -3 && -4 / Pow2(1) == -2
    ensures y.Value() == -3 && -5 / Pow2(1) == -3
  {
    assert Pow2(1) == 2;
    x := new BigInteger.FromInt(-4);
    x.ShrAssign(1);
    y := new BigInteger.FromInt(-5);
    y.ShrAssign(1);
  }

  /**
   * `operator[]` reads the infinite two's-complement limbs of the value: at every position,
   * stored or past the end, it returns digit `index` of Value() in base 2^32.
   */
  lemma GetIsDigit(x: BigInteger, index: nat)
    ensures x.Get(index) == (x.Value() / Pow(index)) % BASE
  {
    DigitOfValue(x.data, x.sign, index);
  }
}
