/**
 * Digit vectors of the arbitrary-precision integers in asg2/bigint.cpp:
 * a magnitude is a little-endian sequence of decimal digits (index 0 holds
 * the units). This module holds the abstraction ValueOf from digits to the
 * number they stand for, and the schoolbook helpers trim, do_bigless,
 * do_bigadd, do_bigsub and do_bigmul, each proved against ValueOf.
 */
module Digits {

  function Pow10(n: nat): (r: nat)
    ensures r >= 1
  {
    if n == 0 then 1 else 10 * Pow10(n - 1)
  }

  function Max(a: nat, b: nat): nat { if a < b then b else a }

  function Min(a: nat, b: nat): nat { if a < b then a else b }

  /** Every entry is a decimal digit. */
  predicate IsDigits(d: seq<int>)
  {
    forall i :: 0 <= i < |d| ==> 0 <= d[i] <= 9
  }

  lemma DigitsAppend(d: seq<int>, x: int)
    requires IsDigits(d) && 0 <= x <= 9
    ensures IsDigits(d + [x])
  {
  }

  /** No most-significant zero digit: the form `trim` leaves behind. */
  predicate IsTrimmed(d: seq<int>)
  {
    d == [] || d[|d| - 1] != 0
  }

  /** The number a little-endian digit vector stands for. */
  function ValueOf(d: seq<int>): int
  {
    if d == [] then 0 else ValueOf(d[..|d| - 1]) + d[|d| - 1] * Pow10(|d| - 1)
  }

  // ---------------------------------------------------------------------
  // Facts about ValueOf
  // ---------------------------------------------------------------------

  lemma Pow10Mono(m: nat, n: nat)
    requires m <= n
    ensures Pow10(m) <= Pow10(n)
  {
    if m < n { Pow10Mono(m, n - 1); }
  }

  /** Taking one more digit of a vector adds that digit at its place value. */
  lemma ValueStep(d: seq<int>, i: nat)
    requires i < |d|
    ensures ValueOf(d[..i + 1]) == ValueOf(d[..i]) + d[i] * Pow10(i)
  {
    assert d[..i + 1][..i] == d[..i];
  }

  /** Pushing a digit on the most significant end adds it at place |s|. */
  lemma ValueAppend(s: seq<int>, x: int)
    ensures ValueOf(s + [x]) == ValueOf(s) + x * Pow10(|s|)
  {
    assert (s + [x])[..|s|] == s;
  }

  /** A digit vector of length n stands for a number in [0, 10^n). */
  lemma {:induction false} ValueBounds(d: seq<int>)
    requires IsDigits(d)
    ensures 0 <= ValueOf(d) < Pow10(|d|)
  {
    if d != [] {
      var p := d[..|d| - 1];
      ValueBounds(p);
      var x, P := d[|d| - 1], Pow10(|d| - 1);
      assert 0 <= x * P <= 9 * P;
    }
  }

  /** A trimmed, non-empty vector of length n stands for at least 10^(n-1). */
  lemma ValueLower(d: seq<int>)
    requires IsDigits(d) && IsTrimmed(d) && d != []
    ensures Pow10(|d| - 1) <= ValueOf(d)
  {
    var p := d[..|d| - 1];
    ValueBounds(p);
    var x, P := d[|d| - 1], Pow10(|d| - 1);
    assert ValueOf(d) == ValueOf(p) + x * P;
    AtLeastOnce(x, P);
  }

  lemma AtLeastOnce(x: int, P: nat)
    requires 1 <= x
    ensures P <= x * P
  {
    assert x * P == P + (x - 1) * P;
  }

  /** Prepending a units digit shifts the rest up one place. */
  lemma {:induction false} ValueCons(x: int, s: seq<int>)
    ensures ValueOf([x] + s) == x + 10 * ValueOf(s)
  {
    if s == [] {
      assert [x] + s == [x];
      assert [x][..0] == [];
    } else {
      var n := |s|;
      assert ([x] + s)[..n] == [x] + s[..n - 1];
      ValueCons(x, s[..n - 1]);
      assert Pow10(n) == 10 * Pow10(n - 1);
      calc {
        ValueOf([x] + s);
        ValueOf([x] + s[..n - 1]) + s[n - 1] * Pow10(n);
        x + 10 * ValueOf(s[..n - 1]) + 10 * (s[n - 1] * Pow10(n - 1));
        x + 10 * ValueOf(s);
      }
    }
  }

  /** Overwriting the digit at place k changes the value by the difference at that place. */
  lemma {:induction false} ValueUpdate(s: seq<int>, k: nat, v: int)
    requires k < |s|
    ensures ValueOf(s[k := v]) == ValueOf(s) + (v - s[k]) * Pow10(k)
  {
    var n := |s|;
    var t := s[k := v];
    if k == n - 1 {
      assert t[..n - 1] == s[..n - 1];
    } else {
      assert t[..n - 1] == s[..n - 1][k := v];
      ValueUpdate(s[..n - 1], k, v);
    }
  }

  /** A vector of zeros stands for 0. */
  lemma {:induction false} ValueZeros(d: seq<int>)
    requires forall i :: 0 <= i < |d| ==> d[i] == 0
    ensures ValueOf(d) == 0
  {
    if d != [] { ValueZeros(d[..|d| - 1]); }
  }

  // ---------------------------------------------------------------------
  // trim (bigint.cpp:426-432)
  // ---------------------------------------------------------------------

  /**
   * The vector with every most-significant zero removed: a prefix of d,
   * trimmed, followed in d only by zeros, and standing for the same number.
   */
  function Strip(d: seq<int>): (r: seq<int>)
    ensures |r| <= |d| && IsTrimmed(r) && r == d[..|r|]
    ensures forall k :: |r| <= k < |d| ==> d[k] == 0
    ensures ValueOf(r) == ValueOf(d)
    ensures IsDigits(d) ==> IsDigits(r)
  {
    if d != [] && d[|d| - 1] == 0 then Strip(d[..|d| - 1]) else d
  }

  /** A trimmed vector has nothing to strip. */
  lemma StripTrimmed(d: seq<int>)
    requires IsTrimmed(d)
    ensures Strip(d) == d
  {
  }

  /** bigint::trim: pops zero digits off the most significant end. */
  method Trim(d: seq<int>) returns (r: seq<int>)
    ensures r == Strip(d)
  {
    r := d;
    while |r| > 0 && r[|r| - 1] == 0
      invariant Strip(r) == Strip(d)
      decreases |r|
    {
      r := r[..|r| - 1];
    }
  }

  // ---------------------------------------------------------------------
  // do_bigless (bigint.cpp:84-94) and the scan of operator< (bigint.cpp:297-333)
  // ---------------------------------------------------------------------

  /** How the number of one vector compares with the number of another. */
  datatype Ordering = Below | Same | Above

  /**
   * The scan shared by do_bigless and bigint::operator<: two vectors of
   * equal length are compared digit by digit from the most significant end,
   * and the first differing digit decides.
   */
  method CompareFromTop(l: seq<int>, r: seq<int>) returns (o: Ordering)
    requires |l| == |r| && IsDigits(l) && IsDigits(r)
    ensures o == Below <==> ValueOf(l) < ValueOf(r)
    ensures o == Same <==> ValueOf(l) == ValueOf(r)
    ensures o == Above <==> ValueOf(l) > ValueOf(r)
  {
    var k := |l|;
    while k > 0
      invariant 0 <= k <= |l|
      invariant l[k..] == r[k..]
    {
      k := k - 1;
      if l[k] < r[k] {
        TopDigitDecides(l, r, k);
        return Below;
      }
      if l[k] > r[k] {
        TopDigitDecides(r, l, k);
        return Above;
      }
      assert l[k..] == [l[k]] + l[k + 1..] && r[k..] == [r[k]] + r[k + 1..];
    }
    assert l == l[0..] && r == r[0..];
    return Same;
  }

  /**
   * do_bigless: a shorter vector is the smaller one; vectors of equal length
   * compare by the numbers they stand for. On trimmed vectors this is exactly
   * "stands for a smaller number".
   */
  method BigLess(left: seq<int>, right: seq<int>) returns (less: bool)
    requires IsDigits(left) && IsDigits(right)
    ensures |left| != |right| ==> (less <==> |left| < |right|)
    ensures |left| == |right| ==> (less <==> ValueOf(left) < ValueOf(right))
    ensures IsTrimmed(left) && IsTrimmed(right) ==> (less <==> ValueOf(left) < ValueOf(right))
  {
    if |left| < |right| {
      if IsTrimmed(right) { ShorterIsSmaller(left, right); }
      return true;
    }
    if |left| > |right| {
      if IsTrimmed(left) { ShorterIsSmaller(right, left); }
      return false;
    }
    var o := CompareFromTop(left, right);
    less := o == Below;
  }

  /** Below the first differing digit from the top, the rest cannot change the outcome. */
  lemma TopDigitDecides(l: seq<int>, r: seq<int>, k: nat)
    requires |l| == |r| && IsDigits(l) && IsDigits(r) && k < |l|
    requires l[k + 1..] == r[k + 1..] && l[k] < r[k]
    ensures ValueOf(l) < ValueOf(r)
  {
    ValueSplit(l, k + 1);
    ValueSplit(r, k + 1);
    ValueStep(l, k);
    ValueStep(r, k);
    ValueBounds(l[..k]);
    ValueBounds(r[..k]);
    PlaceCompare(ValueOf(l[..k]), ValueOf(r[..k]), l[k], r[k], Pow10(k));
  }

  /** A trimmed vector that is longer than another stands for a larger number. */
  lemma ShorterIsSmaller(l: seq<int>, r: seq<int>)
    requires IsDigits(l) && IsDigits(r) && IsTrimmed(r) && |l| < |r|
    ensures ValueOf(l) < ValueOf(r)
  {
    ValueBounds(l);
    ValueLower(r);
    Pow10Mono(|l|, |r| - 1);
  }

  /** The low k digits and the high digits of a vector, each at its place. */
  lemma {:induction false} ValueSplit(d: seq<int>, k: nat)
    requires k <= |d|
    ensures ValueOf(d) == ValueOf(d[..k]) + Pow10(k) * ValueOf(d[k..])
    decreases |d|
  {
    var n := |d|;
    if k == n {
      assert d[..k] == d && d[k..] == [];
    } else {
      var init := d[..n - 1];
      ValueSplit(init, k);
      assert init[..k] == d[..k] && init[k..] == d[k..n - 1];
      assert d[k..][..n - 1 - k] == d[k..n - 1];
      PowAdd(k, n - 1 - k);
      ShiftPlace(ValueOf(d[k..n - 1]), d[n - 1], Pow10(k), Pow10(n - 1 - k));
    }
  }

  lemma ShiftPlace(h: int, x: int, S: int, Q: int)
    ensures S * (h + x * Q) == S * h + x * (Q * S)
  {
  }

  /**
   * Comparing two numbers u + a*P and v + b*P whose low parts are below P
   * comes down to comparing a and b, and then u and v.
   */
  lemma PlaceCompare(u: int, v: int, a: int, b: int, P: int)
    requires 0 <= u < P && 0 <= v < P
    ensures a < b ==> u + a * P < v + b * P
    ensures a > b ==> u + a * P > v + b * P
    ensures a == b ==> (u + a * P < v + b * P <==> u < v)
    ensures u + a * P == v + b * P ==> a == b && u == v
  {
    if a < b {
      MulAtLeast(b - a, P);
      assert b * P == a * P + (b - a) * P;
    } else if a > b {
      MulAtLeast(a - b, P);
      assert a * P == b * P + (a - b) * P;
    }
  }

  lemma {:induction false} MulAtLeast(k: int, P: int)
    requires k >= 1 && P >= 0
    ensures k * P >= P
    decreases k
  {
    if k > 1 {
      MulAtLeast(k - 1, P);
      assert k * P == (k - 1) * P + P;
    }
  }

  /** Two trimmed digit vectors that stand for the same number are the same vector. */
  lemma ValueInjective(l: seq<int>, r: seq<int>)
    requires IsDigits(l) && IsDigits(r) && IsTrimmed(l) && IsTrimmed(r)
    requires ValueOf(l) == ValueOf(r)
    ensures l == r
  {
    if |l| < |r| {
      ShorterIsSmaller(l, r);
    } else if |r| < |l| {
      ShorterIsSmaller(r, l);
    } else {
      SameLengthSameValue(l, r);
    }
  }

  lemma {:induction false} SameLengthSameValue(l: seq<int>, r: seq<int>)
    requires |l| == |r| && IsDigits(l) && IsDigits(r)
    requires ValueOf(l) == ValueOf(r)
    ensures l == r
  {
    if l != [] {
      var n := |l|;
      var lp, rp := l[..n - 1], r[..n - 1];
      assert IsDigits(lp) && IsDigits(rp);
      assert ValueOf(l) == ValueOf(lp) + l[n - 1] * Pow10(n - 1);
      assert ValueOf(r) == ValueOf(rp) + r[n - 1] * Pow10(n - 1);
      ValueBounds(lp);
      ValueBounds(rp);
      PlaceCompare(ValueOf(lp), ValueOf(rp), l[n - 1], r[n - 1], Pow10(n - 1));
      SameLengthSameValue(lp, rp);
      assert l == lp + [l[n - 1]] && r == rp + [r[n - 1]];
    }
  }

  // ---------------------------------------------------------------------
  // do_bigadd (bigint.cpp:335-370)
  // ---------------------------------------------------------------------

  /**
   * Schoolbook addition. The result has one digit per place of the longer
   * operand, plus a final 1 exactly when the sum reaches the next power of ten.
   */
  method BigAdd(left: seq<int>, right: seq<int>) returns (result: seq<int>)
    requires IsDigits(left) && IsDigits(right)
    ensures IsDigits(result)
    ensures ValueOf(result) == ValueOf(left) + ValueOf(right)
    ensures |result| == if ValueOf(left) + ValueOf(right) < Pow10(Max(|left|, |right|))
                        then Max(|left|, |right|) else Max(|left|, |right|) + 1
  {
    result := [];
    var i := 0;
    var carry := 0;
    while i < |left| || i < |right|
      invariant i <= Max(|left|, |right|)
      invariant |result| == i && IsDigits(result)
      invariant 0 <= carry <= 1
      invariant ValueOf(result) + carry * Pow10(i)
                == ValueOf(left[..Min(i, |left|)]) + ValueOf(right[..Min(i, |right|)])
      decreases Max(|left|, |right|) - i
    {
      ghost var c0 := carry;
      var ldig := 0;
      var rdig := 0;
      if i < |left| {
        ldig := left[i];
      }
      if i < |right| {
        rdig := right[i];
      }
      var dig := ldig + rdig + carry;
      if dig >= 10 {
        carry := 1;
        dig := dig - 10;
      } else {
        carry := 0;
      }
      AddColumn(left, right, result, i, c0, dig, carry);
      DigitsAppend(result, dig);
      result := result + [dig];
      i := i + 1;
    }
    assert left[..Min(i, |left|)] == left && right[..Min(i, |right|)] == right;
    ghost var sum := ValueOf(left) + ValueOf(right);
    assert i == Max(|left|, |right|) && ValueOf(result) + carry * Pow10(i) == sum;
    ValueBounds(result);
    if carry == 1 {
      assert sum >= Pow10(i);
      ValueAppend(result, carry);
      result := result + [carry];
    } else {
      assert sum < Pow10(i);
    }
  }

  /** The digit a vector contributes at place i: 0 once the vector has run out. */
  function Column(d: seq<int>, i: nat): int
  {
    if i < |d| then d[i] else 0
  }

  /** The first Min(i, |d|) digits of d stand for the columns of d below place i. */
  lemma PrefixStep(d: seq<int>, i: nat)
    ensures ValueOf(d[..Min(i + 1, |d|)]) == ValueOf(d[..Min(i, |d|)]) + Column(d, i) * Pow10(i)
  {
    if i < |d| { ValueStep(d, i); }
  }

  /** One column of the carry chain of do_bigadd keeps the running total. */
  lemma AddColumn(left: seq<int>, right: seq<int>, result: seq<int>, i: nat, c0: int, dig: int, c1: int)
    requires |result| == i
    requires ValueOf(result) + c0 * Pow10(i)
             == ValueOf(left[..Min(i, |left|)]) + ValueOf(right[..Min(i, |right|)])
    requires dig + 10 * c1 == Column(left, i) + Column(right, i) + c0
    ensures ValueOf(result + [dig]) + c1 * Pow10(i + 1)
            == ValueOf(left[..Min(i + 1, |left|)]) + ValueOf(right[..Min(i + 1, |right|)])
  {
    var P, a, b := Pow10(i), Column(left, i), Column(right, i);
    ValueAppend(result, dig);
    PrefixStep(left, i);
    PrefixStep(right, i);
    assert Pow10(i + 1) == 10 * P;
    CarryStep(ValueOf(result), ValueOf(result + [dig]), c0, c1, P, dig,
              ValueOf(left[..Min(i, |left|)]), ValueOf(left[..Min(i + 1, |left|)]), a,
              ValueOf(right[..Min(i, |right|)]), ValueOf(right[..Min(i + 1, |right|)]), b);
  }

  /** One column of the borrow chain of do_bigsub keeps the running difference. */
  lemma SubColumn(left: seq<int>, right: seq<int>, result: seq<int>, i: nat, c0: int, dig: int, c1: int)
    requires |result| == i
    requires ValueOf(result) + c0 * Pow10(i)
             == ValueOf(left[..Min(i, |left|)]) - ValueOf(right[..Min(i, |right|)])
    requires dig + 10 * c1 == Column(left, i) - Column(right, i) + c0
    ensures ValueOf(result + [dig]) + c1 * Pow10(i + 1)
            == ValueOf(left[..Min(i + 1, |left|)]) - ValueOf(right[..Min(i + 1, |right|)])
  {
    var P, a, b := Pow10(i), Column(left, i), Column(right, i);
    ValueAppend(result, dig);
    PrefixStep(left, i);
    PrefixStep(right, i);
    assert Pow10(i + 1) == 10 * P;
    BorrowStep(ValueOf(result), ValueOf(result + [dig]), c0, c1, P, dig,
              ValueOf(left[..Min(i, |left|)]), ValueOf(left[..Min(i + 1, |left|)]), a,
              ValueOf(right[..Min(i, |right|)]), ValueOf(right[..Min(i + 1, |right|)]), b);
  }

  /**
   * Writing dig at place P and passing c1 on to place 10 * P keeps a running
   * total, V before the digit and W after, equal to L + R as both operands
   * gain their digit a and b at place P.
   */
  lemma CarryStep(V: int, W: int, c0: int, c1: int, P: int, dig: int,
                  L0: int, L1: int, a: int, R0: int, R1: int, b: int)
    requires W == V + dig * P && L1 == L0 + a * P && R1 == R0 + b * P
    requires V + c0 * P == L0 + R0 && dig + 10 * c1 == a + b + c0
    ensures W + c1 * (10 * P) == L1 + R1
  {
    calc {
      W + c1 * (10 * P);
      V + (dig + 10 * c1) * P;
      V + (a + b + c0) * P;
      V + c0 * P + a * P + b * P;
    }
  }

  /** The same for a running difference L - R, the borrow c1 taken from place 10 * P. */
  lemma BorrowStep(V: int, W: int, c0: int, c1: int, P: int, dig: int,
                   L0: int, L1: int, a: int, R0: int, R1: int, b: int)
    requires W == V + dig * P && L1 == L0 + a * P && R1 == R0 + b * P
    requires V + c0 * P == L0 - R0 && dig + 10 * c1 == a - b + c0
    ensures W + c1 * (10 * P) == L1 - R1
  {
    calc {
      W + c1 * (10 * P);
      V + (dig + 10 * c1) * P;
      V + (a - b + c0) * P;
      V + c0 * P + a * P - b * P;
    }
  }

  // ---------------------------------------------------------------------
  // do_bigsub (bigint.cpp:372-406)
  // ---------------------------------------------------------------------

  /**
   * Schoolbook subtraction with borrow. When left is at least right the
   * result stands for their difference; otherwise the final borrow is lost
   * and the result is the difference plus 10^|result|.
   */
  method BigSub(left: seq<int>, right: seq<int>) returns (result: seq<int>)
    requires IsDigits(left) && IsDigits(right)
    ensures IsDigits(result) && |result| == Max(|left|, |right|)
    ensures ValueOf(right) <= ValueOf(left) ==> ValueOf(result) == ValueOf(left) - ValueOf(right)
    ensures ValueOf(left) < ValueOf(right) ==>
              ValueOf(result) == ValueOf(left) - ValueOf(right) + Pow10(|result|)
  {
    result := [];
    var i := 0;
    var carry := 0;
    while i < |left| || i < |right|
      invariant i <= Max(|left|, |right|)
      invariant |result| == i && IsDigits(result)
      invariant -1 <= carry <= 0
      invariant ValueOf(result) + carry * Pow10(i)
                == ValueOf(left[..Min(i, |left|)]) - ValueOf(right[..Min(i, |right|)])
      decreases Max(|left|, |right|) - i
    {
      ghost var c0 := carry;
      var ldig := 0;
      var rdig := 0;
      if i < |left| {
        ldig := left[i];
      }
      if i < |right| {
        rdig := right[i];
      }
      var dig := ldig - rdig + carry;
      if dig < 0 {
        carry := -1;
        dig := dig + 10;
      } else {
        carry := 0;
      }
      SubColumn(left, right, result, i, c0, dig, carry);
      DigitsAppend(result, dig);
      result := result + [dig];
      i := i + 1;
    }
    assert left[..Min(i, |left|)] == left && right[..Min(i, |right|)] == right;
    ValueBounds(result);
  }

  // ---------------------------------------------------------------------
  // do_bigmul (bigint.cpp:408-424)
  // ---------------------------------------------------------------------

  /**
   * Schoolbook multiplication into a zero-filled buffer of |left| + |right|
   * digits; row litor adds left[litor] * right at place litor.
   */
  method BigMul(left: seq<int>, right: seq<int>) returns (result: seq<int>)
    requires IsDigits(left) && IsDigits(right)
    ensures |result| == |left| + |right| && IsDigits(result)
    ensures ValueOf(result) == ValueOf(left) * ValueOf(right)
  {
    var R := |right|;
    var buf := new int[|left| + R](_ => 0);
    ghost var cur := buf[..];
    ValueZeros(cur);
    var li := 0;
    while li < |left|
      invariant li <= |left| && buf[..] == cur && |cur| == |left| + R
      invariant IsDigits(cur) && forall k :: li + R <= k < |cur| ==> cur[k] == 0
      invariant ValueOf(cur) == ValueOf(left[..li]) * ValueOf(right)
    {
      var c := MulRow(buf, left, right, li);
      ghost var row := buf[..];
      ValueStep(left, li);
      MulRowDone(row, li, R, c, ValueOf(left[..li]), left[li], ValueOf(right));
      buf[li + R] := c;
      cur := row[li + R := c];
      li := li + 1;
    }
    assert left[..li] == left;
    result := buf[..];
  }

  /**
   * The inner loop of do_bigmul: adds left[li] * right into buf at place li,
   * leaving the last carry to the caller.
   */
  method MulRow(buf: array<int>, left: seq<int>, right: seq<int>, li: nat) returns (c: int)
    requires IsDigits(left) && IsDigits(right)
    requires li < |left| && buf.Length == |left| + |right|
    requires IsDigits(buf[..])
    requires forall k :: li + |right| <= k < buf.Length ==> buf[k] == 0
    modifies buf
    ensures 0 <= c <= 9 && IsDigits(buf[..])
    ensures forall k :: li + |right| <= k < buf.Length ==> buf[k] == 0
    ensures ValueOf(buf[..]) + c * Pow10(li + |right|)
            == ValueOf(old(buf[..])) + left[li] * ValueOf(right) * Pow10(li)
  {
    var R := |right|;
    ghost var base := ValueOf(buf[..]);
    ghost var cur := buf[..];
    c := 0;
    var ri := 0;
    while ri < R
      invariant ri <= R && buf[..] == cur && |cur| == buf.Length
      invariant 0 <= c <= 9 && IsDigits(cur)
      invariant forall k :: li + R <= k < |cur| ==> cur[k] == 0
      invariant ValueOf(cur) + c * Pow10(li + ri) == base + left[li] * ValueOf(right[..ri]) * Pow10(li)
    {
      MulCell(cur, right, li, ri, left[li], c, base);
      var d := buf[ri + li] + left[li] * right[ri] + c;
      buf[ri + li] := d % 10;
      cur := cur[li + ri := d % 10];
      c := d / 10;
      ri := ri + 1;
    }
    assert right[..R] == right;
  }

  /**
   * One inner step of do_bigmul: adding x * y and the carry c into the cell
   * at place li + ri keeps a digit there, passes a digit carry on, and adds
   * x * y at that place to the running total.
   */
  lemma MulCell(s: seq<int>, right: seq<int>, li: nat, ri: nat, x: int, c: int, base: int)
    requires ri < |right| && li + |right| <= |s| && IsDigits(s) && IsDigits(right)
    requires 0 <= x <= 9 && 0 <= c <= 9
    requires ValueOf(s) + c * Pow10(li + ri) == base + x * ValueOf(right[..ri]) * Pow10(li)
    ensures var d := s[li + ri] + x * right[ri] + c;
      IsDigits(s[li + ri := d % 10]) && 0 <= d / 10 <= 9 &&
      (forall k :: li + |right| <= k < |s| ==> s[li + ri := d % 10][k] == s[k]) &&
      ValueOf(s[li + ri := d % 10]) + d / 10 * Pow10(li + (ri + 1))
      == base + x * ValueOf(right[..ri + 1]) * Pow10(li)
  {
    var k := li + ri;
    var y := right[ri];
    var vr := ValueOf(right[..ri]);
    var d := s[k] + x * y + c;
    DigitProduct(x, y);
    ValueUpdate(s, k, d % 10);
    PowAdd(li, ri);
    ValueStep(right, ri);
    var S, Q := Pow10(li), Pow10(ri);
    assert Pow10(k + 1) == 10 * (Q * S);
    MulStep(ValueOf(s), s[k], x, y, c, base, vr, Q, S);
  }

  /** Closing a row of do_bigmul: the final carry lands in a cell that was still zero. */
  lemma MulRowDone(s: seq<int>, li: nat, R: nat, c: int, vl: int, x: int, vr: int)
    requires li + R < |s| && IsDigits(s) && 0 <= c <= 9
    requires forall k :: li + R <= k < |s| ==> s[k] == 0
    requires ValueOf(s) + c * Pow10(li + R) == vl * vr + x * vr * Pow10(li)
    ensures IsDigits(s[li + R := c])
    ensures ValueOf(s[li + R := c]) == (vl + x * Pow10(li)) * vr
  {
    ValueUpdate(s, li + R, c);
    var P := Pow10(li);
    assert (vl + x * P) * vr == vl * vr + x * vr * P by {
      assert (vl + x * P) * vr == vl * vr + (x * P) * vr;
      assert (x * P) * vr == x * vr * P;
    }
  }

  /** A digit times a digit is at most 81. */
  lemma DigitProduct(x: int, y: int)
    requires 0 <= x <= 9 && 0 <= y <= 9
    ensures 0 <= x * y <= 81
  {
    assert x * y <= 9 * y by {
      assert (9 - x) * y >= 0;
    }
  }

  /** The arithmetic of one inner step of do_bigmul, with P = Q * S the place of the digit written. */
  lemma MulStep(V: int, sk: int, x: int, y: int, c: int, base: int, vr: int, Q: int, S: int)
    requires V + c * (Q * S) == base + x * vr * S
    ensures var d := sk + x * y + c;
      V + (d % 10 - sk) * (Q * S) + d / 10 * (10 * (Q * S)) == base + x * (vr + y * Q) * S
  {
    var d := sk + x * y + c;
    var P := Q * S;
    assert d % 10 + 10 * (d / 10) == d;
    calc {
      V + (d % 10 - sk) * P + d / 10 * (10 * P);
      V + (d % 10 + 10 * (d / 10) - sk) * P;
      V + (x * y + c) * P;
      V + c * P + x * y * P;
      base + x * vr * S + x * y * (Q * S);
      base + x * (vr + y * Q) * S;
    }
  }

  lemma {:induction false} PowAdd(m: nat, n: nat)
    ensures Pow10(m + n) == Pow10(n) * Pow10(m)
  {
    if n > 0 {
      PowAdd(m, n - 1);
      assert Pow10(m + n) == 10 * Pow10(m + n - 1);
    }
  }
}
