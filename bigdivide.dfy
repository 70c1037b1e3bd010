/**
 * Division and powers of asg2/bigint.cpp: halving and doubling, the
 * binary long division of bigint::divide, operator/, operator% and pow.
 * C++ division truncates toward zero; Quot and Rem below state that
 * reading on unbounded integers, and the operations are proved against it.
 */
module BigDivide {
  import opened Outcomes
  import opened Digits
  import opened BigInts

  function Abs(x: int): nat
  {
    if x < 0 then -x else x
  }

  /** The quotient of C++ integer division: |x| / |y|, negated when the signs differ. */
  function Quot(x: int, y: int): int
    requires y != 0
  {
    var q := Abs(x) / Abs(y);
    if (x < 0) != (y < 0) then -q else q
  }

  /** The remainder of C++ integer division: |x| % |y|, with the sign of x. */
  function Rem(x: int, y: int): int
    requires y != 0
  {
    var m := Abs(x) % Abs(y);
    if x < 0 then -m else m
  }

  /**
   * Truncating division splits x into a multiple of y and a remainder that
   * is smaller than y in size and never of the opposite sign to x.
   */
  lemma QuotRem(x: int, y: int)
    requires y != 0
    ensures x == Quot(x, y) * y + Rem(x, y)
    ensures Abs(Rem(x, y)) < Abs(y)
    ensures x >= 0 ==> Rem(x, y) >= 0
    ensures x <= 0 ==> Rem(x, y) <= 0
    ensures Abs(Quot(x, y)) == Abs(x) / Abs(y)
  {
    var a, b := Abs(x), Abs(y);
    var q, m := a / b, a % b;
    assert a == q * b + m && 0 <= m < b;
    assert Rem(x, y) == if x < 0 then -m else m;
    assert Quot(x, y) == if (x < 0) != (y < 0) then -q else q;
    if x < 0 && y < 0 {
      assert x == q * y + -m;
    } else if x < 0 {
      assert x == (-q) * y + -m;
    } else if y < 0 {
      assert x == (-q) * y + m;
    }
  }

  // ---------------------------------------------------------------------
  // div_by_2 and mul_by_2 (bigint.cpp:199-242)
  // ---------------------------------------------------------------------

  /**
   * One digit of decimal halving: half of lo, plus 5 when the digit above
   * it is odd.
   */
  function HalfDigit(hi: int, lo: int): (r: int)
    requires 0 <= hi <= 9 && 0 <= lo <= 9
    ensures r == 5 * (hi % 2) + lo / 2
    ensures 0 <= r <= 9
  {
    if hi % 2 == 0 then
      if lo < 2 then 0
      else if lo < 4 then 1
      else if lo < 6 then 2
      else if lo < 8 then 3
      else 4
    else
      if lo < 2 then 5
      else if lo < 4 then 6
      else if lo < 6 then 7
      else if lo < 8 then 8
      else 9
  }

  /**
   * div_by_2: a zero is pushed on top, then each digit of the result is
   * HalfDigit of a digit and the one above it, from the top down; the
   * result is trimmed and the sign flag left alone.
   */
  method Halve(b: BigInt) returns (r: BigInt)
    requires IsDigits(b.digits)
    ensures r.negative == b.negative && IsDigits(r.digits) && IsTrimmed(r.digits)
    ensures ValueOf(r.digits) == ValueOf(b.digits) / 2
  {
    var n := |b.digits|;
    var d := b.digits + [0];
    // The source collects the digits most significant first and then
    // reverses them; here each new digit is put below the earlier ones.
    var result: seq<int> := [];
    var j := n;
    while j > 0
      invariant 0 <= j <= n
      invariant IsDigits(result)
      invariant ValueOf(result) == ValueOf(b.digits[j..]) / 2
    {
      j := j - 1;
      var h := HalfDigit(d[j + 1], d[j]);
      HalveStep(b.digits, j);
      ValueCons(h, result);
      result := [h] + result;
    }
    assert b.digits[0..] == b.digits;
    result := Trim(result);
    r := BigInt(b.negative, result);
  }

  /** Halving a vector from place j: the digit at j and the parity of the part above it decide. */
  lemma HalveStep(s: seq<int>, j: nat)
    requires IsDigits(s) && j < |s|
    ensures var hi := if j + 1 < |s| then s[j + 1] else 0;
      ValueOf(s[j..]) / 2 == 5 * (hi % 2) + s[j] / 2 + 10 * (ValueOf(s[j + 1..]) / 2)
  {
    var t := s[j + 1..];
    assert s[j..] == [s[j]] + t;
    ValueCons(s[j], t);
    ValueBounds(t);
    var hi := if j + 1 < |s| then s[j + 1] else 0;
    if j + 1 < |s| {
      assert t == [s[j + 1]] + t[1..];
      ValueCons(s[j + 1], t[1..]);
      SameParity(s[j + 1], ValueOf(t[1..]));
    } else {
      assert t == [];
    }
    HalfArith(s[j], ValueOf(t));
  }

  lemma SameParity(x: int, y: int)
    ensures (x + 10 * y) % 2 == x % 2
  {
    assert x + 10 * y == x + 2 * (5 * y);
  }

  lemma HalfArith(lo: int, h: int)
    requires 0 <= lo <= 9 && h >= 0
    ensures (lo + 10 * h) / 2 == 5 * (h % 2) + lo / 2 + 10 * (h / 2)
  {
    var k, p := h / 2, h % 2;
    var a, e := lo / 2, lo % 2;
    assert lo + 10 * h == 2 * (10 * k + 5 * p + a) + e;
  }

  /** mul_by_2: multiplies by the bigint 2. */
  method Double(b: BigInt) returns (r: BigInt)
    requires Wf(b)
    ensures Wf(r) && Val(r) == 2 * Val(b)
  {
    var two := FromLong(2);
    r := Mul(b, two);
  }

  // ---------------------------------------------------------------------
  // bigint::divide (bigint.cpp:245-274)
  // ---------------------------------------------------------------------

  /** A positive power of two. */
  predicate IsPow2(n: int)
    decreases if n < 0 then 0 else n
  {
    n == 1 || (n >= 2 && n % 2 == 0 && IsPow2(n / 2))
  }

  /**
   * The loops of divide on magnitudes: the divisor is doubled past the
   * dividend, then halved back down, subtracting it whenever it fits.
   */
  method LongDivision(left: BigInt, that: BigInt) returns (quotient: BigInt, remainder: BigInt)
    requires Wf(left) && Wf(that) && Val(that) != 0
    ensures Wf(quotient) && Wf(remainder) && !quotient.negative && !remainder.negative
    ensures Val(quotient) == Abs(Val(left)) / Abs(Val(that))
    ensures Val(remainder) == Abs(Val(left)) % Abs(Val(that))
  {
    SignOfVal(left);
    SignOfVal(that);
    var divisor := BigInt(false, that.digits);
    quotient := FromLong(0);
    remainder := BigInt(false, left.digits);
    var power := FromLong(1);
    ghost var A := Val(remainder);
    ghost var B := Val(divisor);
    var grow := BigLess(divisor.digits, remainder.digits);
    while grow
      invariant Wf(divisor) && Val(divisor) >= 1 && Wf(power) && IsPow2(Val(power))
      invariant Val(divisor) == B * Val(power)
      invariant grow <==> Val(divisor) < A
      decreases A - Val(divisor)
    {
      DoubleBoth(B, Val(power));
      divisor := Double(divisor);
      power := Double(power);
      SignOfVal(divisor);
      grow := BigLess(divisor.digits, remainder.digits);
    }
    var zero := FromLong(0);
    SignOfVal(power);
    var more := BigLess(zero.digits, power.digits);
    while more
      invariant Split(A, B, quotient, remainder, divisor, power)
      invariant more <==> Val(power) > 0
      decreases Val(power)
    {
      quotient, remainder, divisor, power := DivideRound(quotient, remainder, divisor, power, A, B);
      SignOfVal(power);
      more := BigLess(zero.digits, power.digits);
    }
    DivisionUnique(A, B, Val(quotient), Val(remainder));
    SignOfVal(quotient);
    SignOfVal(remainder);
  }

  /**
   * The state of the second loop of divide: the dividend A is split into
   * quotient times B plus remainder, and while the power of two is above
   * zero the divisor is B times it and the remainder below twice the divisor.
   */
  predicate Split(A: int, B: int, quotient: BigInt, remainder: BigInt, divisor: BigInt, power: BigInt)
  {
    B >= 1 && Wf(quotient) && Wf(remainder) && Wf(divisor) && Wf(power) &&
    Val(quotient) >= 0 && Val(remainder) >= 0 && Val(divisor) >= 0 && Val(power) >= 0 &&
    A == Val(quotient) * B + Val(remainder) &&
    (Val(power) > 0 ==> IsPow2(Val(power)) && Val(divisor) == B * Val(power) && Val(remainder) < 2 * Val(divisor)) &&
    (Val(power) == 0 ==> Val(remainder) < B)
  }

  /**
   * One round of the second loop of divide: the divisor is subtracted when
   * the remainder is not below it, its power of two added to the quotient,
   * and both are halved.
   */
  method DivideRound(quotient: BigInt, remainder: BigInt, divisor: BigInt, power: BigInt, ghost A: int, ghost B: int)
    returns (quotient': BigInt, remainder': BigInt, divisor': BigInt, power': BigInt)
    requires Split(A, B, quotient, remainder, divisor, power) && Val(power) > 0
    ensures Split(A, B, quotient', remainder', divisor', power') && Val(power') < Val(power)
  {
    SignOfVal(remainder);
    SignOfVal(divisor);
    SignOfVal(power);
    quotient', remainder' := quotient, remainder;
    var smaller := BigLess(remainder.digits, divisor.digits);
    if !smaller {
      TakeMultiple(A, Val(quotient), Val(remainder), B, Val(power));
      remainder' := Sub(remainder, divisor);
      quotient' := Add(quotient, power);
    }
    HalvingStep(B, Val(power), Val(divisor), Val(remainder'));
    divisor' := Halve(divisor);
    power' := Halve(power);
  }

  lemma DoubleBoth(B: int, P: int)
    requires P >= 1 && IsPow2(P)
    ensures 2 * (B * P) == B * (2 * P) && IsPow2(2 * P)
  {
    assert (2 * P) / 2 == P;
  }

  lemma Twice(B: int, h: int)
    ensures B * (2 * h) == 2 * (B * h)
  {
  }

  /** Subtracting B * P from the remainder and adding P to the quotient keeps the dividend. */
  lemma TakeMultiple(A: int, q: int, r: int, B: int, P: int)
    requires A == q * B + r
    ensures A == (q + P) * B + (r - B * P)
  {
  }

  /**
   * Halving the power of two and the divisor it scales, once the remainder
   * is below the divisor: either the halves still scale exactly and the
   * remainder is below twice the new divisor, or the power has run out and
   * the remainder is below the original divisor.
   */
  lemma HalvingStep(B: int, P: int, D: int, r: int)
    requires B >= 1 && IsPow2(P) && D == B * P && r < D
    ensures P / 2 > 0 ==> IsPow2(P / 2) && D / 2 == B * (P / 2) && r < 2 * (D / 2)
    ensures P / 2 == 0 ==> r < B
  {
    if P >= 2 {
      var h := P / 2;
      assert P == 2 * h;
      Twice(B, h);
    } else {
      assert P == 1;
    }
  }

  /** A split A == q * B + r with 0 <= r < B is the one Euclidean division gives. */
  lemma DivisionUnique(A: int, B: int, q: int, r: int)
    requires B > 0 && A == q * B + r && 0 <= r < B
    ensures q == A / B && r == A % B
  {
    var q0, r0 := A / B, A % B;
    var k := q - q0;
    assert k * B == r0 - r by {
      assert k * B == q * B - q0 * B;
    }
    if k > 0 {
      MulAtLeast(k, B);
    }
    if k < 0 {
      MulAtLeast(-k, B);
    }
  }

  /** Setting a flag on a magnitude, cleared again when the magnitude is zero, as divide does. */
  lemma WithSign(d: seq<int>, flag: bool, m: int)
    requires IsDigits(d) && IsTrimmed(d) && ValueOf(d) == m
    ensures Wf(BigInt(flag && d != [], d))
    ensures Val(BigInt(flag && d != [], d)) == if flag then -m else m
  {
  }

  /** The quotient and remainder divide hands back. */
  datatype QuotRemPair = QuotRemPair(quotient: BigInt, remainder: BigInt)

  /**
   * divide as written: after the loops both results take the sign of the
   * dividend, because the divisor's flag they are compared with was cleared
   * before the loops (bigint.cpp:252), so the sign of the divisor is lost.
   */
  method DivideAsWritten(left: BigInt, that: BigInt) returns (r: Result<QuotRemPair, string>)
    requires Wf(left) && Wf(that)
    ensures r.Failure? <==> Val(that) == 0
    ensures r.Success? ==>
      Wf(r.value.quotient) && Wf(r.value.remainder) &&
      Val(r.value.quotient) == Quot(Val(left), Abs(Val(that))) &&
      Val(r.value.remainder) == Rem(Val(left), Abs(Val(that)))
  {
    var zero := FromLong(0);
    var isZero := Equal(that, zero);
    if isZero {
      return Failure("divide by 0");
    }
    var quotient, remainder := LongDivision(left, that);
    SignOfVal(left);
    SignOfVal(that);
    var divisorNegative := false;
    WithSign(quotient.digits, left.negative != divisorNegative, ValueOf(quotient.digits));
    WithSign(remainder.digits, left.negative != divisorNegative, ValueOf(remainder.digits));
    ghost var q, m := Val(quotient), Val(remainder);
    quotient := BigInt(left.negative != divisorNegative, quotient.digits);
    remainder := BigInt(left.negative != divisorNegative, remainder.digits);
    if |quotient.digits| == 0 {
      quotient := BigInt(false, quotient.digits);
    }
    if |remainder.digits| == 0 {
      remainder := BigInt(false, remainder.digits);
    }
    assert Val(quotient) == (if left.negative then -q else q);
    assert Val(remainder) == (if left.negative then -m else m);
    assert Abs(Abs(Val(that))) == Abs(Val(that));
    return Success(QuotRemPair(quotient, remainder));
  }

  /**
   * With the divisor's sign lost, a positive dividend and a negative
   * divisor of at most its size break the division identity.
   */
  lemma DivisorSignLost(x: int, y: int)
    requires x > 0 && y < 0 && -y <= x
    ensures Quot(x, Abs(y)) * y + Rem(x, Abs(y)) != x
  {
    var q, m := x / -y, x % -y;
    assert x == q * -y + m;
    assert q * -y > 0;
    assert q * y == -(q * -y);
  }

  /**
   * divide with the quotient negative when the signs of dividend and
   * divisor differ, and the remainder taking the dividend's sign: C++
   * truncating division; the corrected `/` is built on it.
   */
  method Divide(left: BigInt, that: BigInt) returns (r: Result<QuotRemPair, string>)
    requires Wf(left) && Wf(that)
    ensures r.Failure? <==> Val(that) == 0
    ensures r.Success? ==>
      Wf(r.value.quotient) && Wf(r.value.remainder) &&
      Val(r.value.quotient) == Quot(Val(left), Val(that)) &&
      Val(r.value.remainder) == Rem(Val(left), Val(that))
  {
    var zero := FromLong(0);
    var isZero := Equal(that, zero);
    if isZero {
      return Failure("divide by 0");
    }
    var quotient, remainder := LongDivision(left, that);
    SignOfVal(left);
    SignOfVal(that);
    WithSign(quotient.digits, left.negative != that.negative, ValueOf(quotient.digits));
    WithSign(remainder.digits, left.negative, ValueOf(remainder.digits));
    ghost var q, m := Val(quotient), Val(remainder);
    quotient := BigInt(left.negative != that.negative, quotient.digits);
    remainder := BigInt(left.negative, remainder.digits);
    if |quotient.digits| == 0 {
      quotient := BigInt(false, quotient.digits);
    }
    if |remainder.digits| == 0 {
      remainder := BigInt(false, remainder.digits);
    }
    assert Val(quotient) == (if left.negative != that.negative then -q else q);
    assert Val(remainder) == (if left.negative then -m else m);
    return Success(QuotRemPair(quotient, remainder));
  }

  /**
   * operator/ as written: the quotient of divide as written, so the
   * divisor's sign never reaches the result (7 / -2 is 3).
   */
  method Quotient(left: BigInt, that: BigInt) returns (r: Result<BigInt, string>)
    requires Wf(left) && Wf(that)
    ensures r.Failure? <==> Val(that) == 0
    ensures r.Success? ==> Wf(r.value) && Val(r.value) == Quot(Val(left), Abs(Val(that)))
  {
    var qr := DivideAsWritten(left, that);
    if qr.Failure? {
      return Failure(qr.error);
    }
    return Success(qr.value.quotient);
  }

  /** operator/ on the corrected divide: the truncating quotient of the signed operands. */
  method QuotientCorrected(left: BigInt, that: BigInt) returns (r: Result<BigInt, string>)
    requires Wf(left) && Wf(that)
    ensures r.Failure? <==> Val(that) == 0
    ensures r.Success? ==> Wf(r.value) && Val(r.value) == Quot(Val(left), Val(that))
  {
    var qr := Divide(left, that);
    if qr.Failure? {
      return Failure(qr.error);
    }
    return Success(qr.value.quotient);
  }

  /**
   * operator%: the remainder of divide as written. The remainder takes the
   * dividend's sign in both readings, so here the lost sign does no harm.
   */
  method Remainder(left: BigInt, that: BigInt) returns (r: Result<BigInt, string>)
    requires Wf(left) && Wf(that)
    ensures r.Failure? <==> Val(that) == 0
    ensures r.Success? ==> Wf(r.value) && Val(r.value) == Rem(Val(left), Val(that))
  {
    var qr := DivideAsWritten(left, that);
    if qr.Failure? {
      return Failure(qr.error);
    }
    return Success(qr.value.remainder);
  }

  // ---------------------------------------------------------------------
  // pow (bigint.cpp:463-485)
  // ---------------------------------------------------------------------

  function IntPow(x: int, n: nat): int
  {
    if n == 0 then 1 else x * IntPow(x, n - 1)
  }

  lemma {:induction false} PowSquare(x: int, n: nat)
    ensures IntPow(x * x, n) == IntPow(x, 2 * n)
  {
    if n > 0 {
      PowSquare(x, n - 1);
      assert IntPow(x, 2 * n) == x * (x * IntPow(x, 2 * n - 2));
    }
  }

  /**
   * pow: 0 for a zero base (whatever the exponent); otherwise a negative
   * exponent inverts the base with operator/ first (as written, so the
   * inverse of -1 is 1 and pow(-1, -1) is 1), and the power
   * is taken by squaring the base on even exponents and multiplying it in
   * on odd ones.
   */
  method Pow(base: BigInt, exponent: BigInt) returns (r: BigInt)
    requires Wf(base) && Wf(exponent)
    ensures Wf(r)
    ensures Val(base) == 0 ==> Val(r) == 0
    ensures Val(base) != 0 && Val(exponent) >= 0 ==> Val(r) == IntPow(Val(base), Val(exponent))
    ensures Val(base) != 0 && Val(exponent) < 0 ==>
      Val(r) == IntPow(Quot(1, Abs(Val(base))), -Val(exponent))
  {
    var zero := FromLong(0);
    var isZero := Equal(base, zero);
    if isZero {
      return zero;
    }
    var baseCopy := base;
    var expt := Val(exponent);
    r := FromLong(1);
    if expt < 0 {
      var one := FromLong(1);
      var inverse := Quotient(one, baseCopy);
      baseCopy := inverse.value;
      expt := -expt;
    }
    ghost var b0 := Val(baseCopy);
    ghost var e0: nat := expt;
    while expt > 0
      invariant Wf(r) && Wf(baseCopy) && expt >= 0
      invariant Val(r) * IntPow(Val(baseCopy), expt) == IntPow(b0, e0)
      decreases expt
    {
      if expt % 2 == 1 {
        MulInto(Val(r), Val(baseCopy), IntPow(Val(baseCopy), expt - 1));
        r := Mul(r, baseCopy);
        expt := expt - 1;
      } else {
        PowSquare(Val(baseCopy), expt / 2);
        baseCopy := Mul(baseCopy, baseCopy);
        expt := expt / 2;
      }
    }
  }

  lemma MulInto(v: int, x: int, p: int)
    ensures v * (x * p) == (v * x) * p
  {
  }
}
