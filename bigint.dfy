/**
 * The signed arbitrary-precision integers of asg2/bigint.cpp: a sign flag
 * and a trimmed little-endian digit vector. Construction from a long and
 * from dc's numeral text, printing, the arithmetic operators and the
 * comparisons are each proved against the integer the value stands for.
 */
module BigInts {
  import opened Digits

  /** A bigint: `negative` and `big_value` of the source. */
  datatype BigInt = BigInt(negative: bool, digits: seq<int>)

  /** The representation every operation keeps: trimmed decimal digits, and no negative zero. */
  predicate Wf(b: BigInt)
  {
    IsDigits(b.digits) && IsTrimmed(b.digits) && (b.digits == [] ==> !b.negative)
  }

  /** The integer a bigint stands for. */
  function Val(b: BigInt): int
  {
    if b.negative then -ValueOf(b.digits) else ValueOf(b.digits)
  }

  /** The flag of a well-formed bigint is set exactly when its value is below zero. */
  lemma SignOfVal(b: BigInt)
    requires Wf(b)
    ensures b.negative <==> Val(b) < 0
    ensures ValueOf(b.digits) == if Val(b) < 0 then -Val(b) else Val(b)
    ensures b.digits == [] <==> Val(b) == 0
  {
    ValueBounds(b.digits);
    if b.digits != [] {
      ValueLower(b.digits);
    }
  }

  /** Two well-formed bigints are equal exactly when they stand for the same integer. */
  lemma ValEqual(a: BigInt, b: BigInt)
    requires Wf(a) && Wf(b)
    ensures a == b <==> Val(a) == Val(b)
  {
    if Val(a) == Val(b) {
      SignOfVal(a);
      SignOfVal(b);
      ValueInjective(a.digits, b.digits);
    }
  }

  // ---------------------------------------------------------------------
  // bigint (long) (bigint.cpp:45-56)
  // ---------------------------------------------------------------------

  /** C++ `x % 10` on a long: truncates toward zero, so it takes the sign of x. */
  function TruncRem10(x: int): (r: int)
    ensures x >= 0 ==> 0 <= r <= 9
    ensures x < 0 ==> -9 <= r <= 0
    ensures x == 10 * TruncQuot10(x) + r
  {
    if x >= 0 then x % 10 else -((-x) % 10)
  }

  /** C++ `x / 10` on a long: truncates toward zero. */
  function TruncQuot10(x: int): (r: int)
    ensures x >= 0 ==> 0 <= r && (x > 0 ==> r < x)
    ensures x < 0 ==> r <= 0 && r > x
  {
    if x >= 0 then x / 10 else -((-x) / 10)
  }

  /**
   * The long constructor as written: the flag records the sign, and the
   * digits are the truncated remainders of the argument. For a negative
   * argument those remainders are at most zero, so the stored vector
   * holds a negative top digit instead of the magnitude's digits.
   */
  method FromLongAsWritten(that: int) returns (r: BigInt)
    ensures that >= 0 ==> Wf(r) && Val(r) == that
    ensures that < 0 ==> r.negative && ValueOf(r.digits) == that && !IsDigits(r.digits)
  {
    var negative := that < 0;
    var digits: seq<int> := [];
    var rest := that;
    while rest != 0
      invariant that >= 0 ==> rest >= 0 && IsDigits(digits)
      invariant that < 0 ==> rest <= 0 && forall k :: 0 <= k < |digits| ==> -9 <= digits[k] <= 0
      invariant ValueOf(digits) + rest * Pow10(|digits|) == that
      decreases if rest < 0 then -rest else rest
    {
      var d := TruncRem10(rest);
      LongDigit(digits, rest, TruncQuot10(rest), d, that);
      if that >= 0 {
        DigitsAppend(digits, d);
      } else {
        assert forall k :: 0 <= k < |digits + [d]| ==> (digits + [d])[k] == if k < |digits| then digits[k] else d;
      }
      digits := digits + [d];
      rest := TruncQuot10(rest);
    }
    digits := Trim(digits);
    r := BigInt(negative, digits);
    if that < 0 {
      assert digits != [] && digits == Strip(digits);
      assert digits[|digits| - 1] < 0;
    }
  }

  /**
   * The long constructor with the sign kept apart from the digits: the
   * digits are those of the magnitude, so every long becomes the bigint
   * standing for it.
   */
  method FromLong(that: int) returns (r: BigInt)
    ensures Wf(r) && Val(r) == that
  {
    var negative := that < 0;
    var digits: seq<int> := [];
    var rest := if that < 0 then -that else that;
    while rest != 0
      invariant rest >= 0 && IsDigits(digits)
      invariant ValueOf(digits) + rest * Pow10(|digits|) == (if that < 0 then -that else that)
      decreases rest
    {
      LongDigit(digits, rest, rest / 10, rest % 10, if that < 0 then -that else that);
      digits := digits + [rest % 10];
      rest := rest / 10;
    }
    digits := Trim(digits);
    r := BigInt(negative, digits);
    if that != 0 {
      ValueBounds(digits);
    }
  }

  /** Moving the low digit d of the rest x = 10 * q + d of a long into the vector keeps the total. */
  lemma LongDigit(digits: seq<int>, x: int, q: int, d: int, total: int)
    requires x == 10 * q + d
    requires ValueOf(digits) + x * Pow10(|digits|) == total
    ensures ValueOf(digits + [d]) + q * Pow10(|digits + [d]|) == total
  {
    ValueAppend(digits, d);
    LongStep(ValueOf(digits), x, q, d, Pow10(|digits|));
  }

  lemma LongStep(v: int, x: int, q: int, d: int, P: int)
    requires x == 10 * q + d
    ensures v + d * P + q * (10 * P) == v + x * P
  {
  }

  // ---------------------------------------------------------------------
  // bigint (const string&) (bigint.cpp:58-80)
  // ---------------------------------------------------------------------

  /** The value a character contributes: its distance from '0'. */
  function Code(c: char): int
  {
    c as int - '0' as int
  }

  predicate IsDecimalChar(c: char)
  {
    '0' <= c <= '9'
  }

  /**
   * The digit vector the string constructor collects: the codes of the
   * characters other than '_', last character first.
   */
  function DigitCodes(s: string): (r: seq<int>)
    ensures |r| <= |s|
    ensures (forall i :: 0 <= i < |s| ==> IsDecimalChar(s[i]) || s[i] == '_') ==> IsDigits(r)
  {
    if s == [] then []
    else DigitCodes(s[1..]) + (if s[0] == '_' then [] else [Code(s[0])])
  }

  /** What the string constructor builds from a string. */
  function Parsed(s: string): BigInt
  {
    var digits := Strip(DigitCodes(s));
    BigInt('_' in s && digits != [], digits)
  }

  /**
   * bigint (const string&): reads the characters from the last to the
   * first; '_' (dc's minus sign) anywhere makes the number negative.
   */
  method FromString(that: string) returns (r: BigInt)
    requires |that| > 0
    ensures r == Parsed(that)
  {
    var negative := false;
    var digits: seq<int> := [];
    var i := |that|;
    while i > 0
      invariant 0 <= i <= |that|
      invariant digits == DigitCodes(that[i..])
      invariant negative <==> '_' in that[i..]
    {
      i := i - 1;
      assert that[i..] == [that[i]] + that[i + 1..];
      if that[i] == '_' {
        negative := true;
      } else {
        digits := digits + [Code(that[i])];
      }
    }
    assert that[0..] == that;
    digits := Trim(digits);
    if |digits| == 0 {
      negative := false;
    }
    r := BigInt(negative, digits);
  }

  /** The usual left-to-right reading of the decimal digits of s, skipping '_'. */
  function NumeralValue(s: string): int
  {
    if s == [] then 0
    else if s[|s| - 1] == '_' then NumeralValue(s[..|s| - 1])
    else 10 * NumeralValue(s[..|s| - 1]) + Code(s[|s| - 1])
  }

  lemma {:induction false} DigitCodesAppend(s: string, t: string)
    ensures DigitCodes(s + t) == DigitCodes(t) + DigitCodes(s)
  {
    if s == [] {
      assert s + t == t;
    } else {
      assert (s + t)[1..] == s[1..] + t;
      DigitCodesAppend(s[1..], t);
    }
  }

  lemma {:induction false} DigitCodesValue(s: string)
    ensures ValueOf(DigitCodes(s)) == NumeralValue(s)
  {
    if s != [] {
      var n := |s|;
      var init := s[..n - 1];
      assert s == init + [s[n - 1]];
      DigitCodesAppend(init, [s[n - 1]]);
      assert DigitCodes([s[n - 1]]) == (if s[n - 1] == '_' then [] else [Code(s[n - 1])]) by {
        assert [s[n - 1]][1..] == [];
      }
      DigitCodesValue(init);
      if s[n - 1] != '_' {
        ValueCons(Code(s[n - 1]), DigitCodes(init));
      } else {
        assert DigitCodes(s) == DigitCodes(init);
      }
    }
  }

  /**
   * A string of decimal digits and '_' becomes a well-formed bigint that
   * stands for its decimal reading, negated when a '_' appears in it.
   */
  lemma ParsedValue(s: string)
    requires forall i :: 0 <= i < |s| ==> IsDecimalChar(s[i]) || s[i] == '_'
    ensures Wf(Parsed(s))
    ensures Val(Parsed(s)) == if '_' in s then -NumeralValue(s) else NumeralValue(s)
  {
    DigitCodesValue(s);
    var digits := Strip(DigitCodes(s));
    if digits == [] {
      assert ValueOf(digits) == 0;
    }
  }

  // ---------------------------------------------------------------------
  // operator<< (bigint.cpp:434-460)
  // ---------------------------------------------------------------------

  /** The character for a digit. */
  function DigitChar(x: int): char
    requires 0 <= x <= 9
  {
    (x + '0' as int) as char
  }

  /** The digits of a little-endian vector as text, most significant first. */
  function Numeral(d: seq<int>): string
    requires IsDigits(d)
  {
    if d == [] then "" else Numeral(d[1..]) + [DigitChar(d[0])]
  }

  /** The digits of a magnitude as text, "0" for the empty vector. */
  function Magnitude(d: seq<int>): string
    requires IsDigits(d)
  {
    if d == [] then "0" else Numeral(d)
  }

  /** How operator<< shows a bigint: "-" for a negative one, then its magnitude. */
  function Rendered(b: BigInt): string
    requires IsDigits(b.digits)
  {
    (if b.negative then "-" else "") + Magnitude(b.digits)
  }

  /** operator<<: writes the sign, then the digits from the most significant one down. */
  method Print(that: BigInt) returns (out: string)
    requires IsDigits(that.digits)
    ensures out == Rendered(that)
  {
    var sign := if that.negative then "-" else "";
    out := sign;
    var i := |that.digits|;
    while i > 0
      invariant 0 <= i <= |that.digits|
      invariant out == sign + Numeral(that.digits[i..])
    {
      i := i - 1;
      assert that.digits[i..][1..] == that.digits[i + 1..];
      out := out + [DigitChar(that.digits[i])];
    }
    assert that.digits[0..] == that.digits;
    if |that.digits| == 0 {
      out := out + "0";
    }
  }

  lemma {:induction false} NumeralCodes(d: seq<int>)
    requires IsDigits(d)
    ensures DigitCodes(Numeral(d)) == d
    ensures '_' !in Numeral(d)
  {
    if d != [] {
      NumeralCodes(d[1..]);
      DigitCodesAppend(Numeral(d[1..]), [DigitChar(d[0])]);
      assert [DigitChar(d[0])][1..] == [];
      assert d == [d[0]] + d[1..];
    }
  }

  /**
   * What operator<< prints reads back as the same bigint once its minus
   * sign is written the way dc expects it, as '_'.
   */
  lemma PrintedReadsBack(b: BigInt)
    requires Wf(b)
    ensures Parsed((if b.negative then "_" else "") + Magnitude(b.digits)) == b
  {
    if b.digits == [] {
      assert "" + Magnitude(b.digits) == "0" && "0"[1..] == [];
      assert DigitCodes("0") == [0];
      assert Strip([0]) == [];
    } else {
      NumeralCodes(b.digits);
      SignedParsed(if b.negative then "_" else "", Numeral(b.digits), b.digits);
    }
  }

  /** A string of decimal digits is the numeral of the codes it is read as. */
  lemma {:induction false} CodesNumeral(body: string)
    requires forall i :: 0 <= i < |body| ==> IsDecimalChar(body[i])
    ensures IsDigits(DigitCodes(body)) && Numeral(DigitCodes(body)) == body
  {
    if body != [] {
      var init, c := body[..|body| - 1], body[|body| - 1];
      assert body == init + [c];
      CodesNumeral(init);
      DigitCodesAppend(init, [c]);
      assert [c][1..] == [];
      var d := DigitCodes(body);
      assert d == [Code(c)] + DigitCodes(init);
      assert d[1..] == DigitCodes(init);
    }
  }

  /**
   * The other way round: a numeral without leading zeros, after an
   * optional '_', reads in as a bigint that operator<< prints back as the
   * same digits, with '-' for the '_'.
   */
  lemma ParsedPrints(sign: string, body: string)
    requires sign == "_" || sign == ""
    requires body != [] && body[0] != '0' && forall i :: 0 <= i < |body| ==> IsDecimalChar(body[i])
    ensures Wf(Parsed(sign + body))
    ensures Rendered(Parsed(sign + body)) == (if sign == "_" then "-" else "") + body
  {
    CodesNumeral(body);
    var d := DigitCodes(body);
    DigitCodesAppend([body[0]], body[1..]);
    assert [body[0]] + body[1..] == body;
    assert [body[0]][1..] == [];
    assert d[|d| - 1] == Code(body[0]);
    assert '_' !in body by {
      forall i | 0 <= i < |body| ensures body[i] != '_' {
        assert IsDecimalChar(body[i]);
      }
    }
    SignedParsed(sign, body, d);
  }

  /** A numeral with no '_' and no leading zero, after an optional '_', reads back with that sign. */
  lemma SignedParsed(sign: string, body: string, d: seq<int>)
    requires sign == "_" || sign == ""
    requires DigitCodes(body) == d && d != [] && IsTrimmed(d) && '_' !in body
    ensures Parsed(sign + body) == BigInt(sign == "_", d)
  {
    var s := sign + body;
    DigitCodesAppend(sign, body);
    assert DigitCodes(sign) == [] by { assert "_"[1..] == []; }
    StripTrimmed(d);
    assert '_' in s <==> sign == "_" by {
      if sign == "_" { assert s[0] == '_'; } else { assert s == body; }
    }
  }

  // ---------------------------------------------------------------------
  // operator+, operator-, unary operator-, operator* (bigint.cpp:96-193)
  // ---------------------------------------------------------------------

  /** operator+: adds magnitudes of like sign, otherwise subtracts the smaller from the larger. */
  method Add(left: BigInt, that: BigInt) returns (r: BigInt)
    requires Wf(left) && Wf(that)
    ensures Wf(r) && Val(r) == Val(left) + Val(that)
  {
    var negative: bool;
    var digits: seq<int>;
    if left.negative == that.negative {
      digits := BigAdd(left.digits, that.digits);
      negative := left.negative;
    } else {
      var less := BigLess(left.digits, that.digits);
      if less {
        digits := BigSub(that.digits, left.digits);
        negative := that.negative;
      } else {
        digits := BigSub(left.digits, that.digits);
        negative := left.negative;
      }
    }
    digits := Trim(digits);
    if |digits| == 0 {
      negative := false;
    }
    r := BigInt(negative, digits);
  }

  /** operator-: subtracts magnitudes of like sign, otherwise adds them. */
  method Sub(left: BigInt, that: BigInt) returns (r: BigInt)
    requires Wf(left) && Wf(that)
    ensures Wf(r) && Val(r) == Val(left) - Val(that)
  {
    var negative: bool;
    var digits: seq<int>;
    if left.negative != that.negative {
      digits := BigAdd(left.digits, that.digits);
      negative := left.negative;
    } else {
      var less := BigLess(left.digits, that.digits);
      if less {
        digits := BigSub(that.digits, left.digits);
        negative := !left.negative;
      } else {
        digits := BigSub(left.digits, that.digits);
        negative := left.negative;
      }
    }
    digits := Trim(digits);
    if |digits| == 0 {
      negative := false;
    }
    r := BigInt(negative, digits);
  }

  /** Unary operator-: flips the sign, except on zero. */
  function Negate(b: BigInt): (r: BigInt)
    ensures Wf(b) ==> Wf(r) && Val(r) == -Val(b)
    ensures r.digits == b.digits
  {
    BigInt(!b.negative && b.digits != [], b.digits)
  }

  /** operator*: multiplies the magnitudes; the result is negative when the signs differ. */
  method Mul(left: BigInt, that: BigInt) returns (r: BigInt)
    requires Wf(left) && Wf(that)
    ensures Wf(r) && Val(r) == Val(left) * Val(that)
  {
    var digits := BigMul(left.digits, that.digits);
    digits := Trim(digits);
    var negative := left.negative != that.negative;
    if |digits| == 0 {
      negative := false;
    }
    r := BigInt(negative, digits);
    SignedProduct(ValueOf(left.digits), ValueOf(that.digits), left.negative, that.negative);
  }

  lemma SignedProduct(x: int, y: int, p: bool, q: bool)
    ensures (if p then -x else x) * (if q then -y else y) == (if p != q then -(x * y) else x * y)
  {
  }

  // ---------------------------------------------------------------------
  // operator== and operator< (bigint.cpp:286-333)
  // ---------------------------------------------------------------------

  /** operator==: same sign and the same digits, compared position by position. */
  method Equal(left: BigInt, that: BigInt) returns (r: bool)
    ensures r <==> left == that
    ensures Wf(left) && Wf(that) ==> (r <==> Val(left) == Val(that))
  {
    if Wf(left) && Wf(that) {
      ValEqual(left, that);
    }
    if that.negative != left.negative {
      return false;
    }
    if |that.digits| != |left.digits| {
      return false;
    }
    var i := 0;
    while i < |left.digits|
      invariant 0 <= i <= |left.digits|
      invariant left.digits[..i] == that.digits[..i]
    {
      if that.digits[i] != left.digits[i] {
        return false;
      }
      assert left.digits[..i + 1] == left.digits[..i] + [left.digits[i]];
      assert that.digits[..i + 1] == that.digits[..i] + [that.digits[i]];
      i := i + 1;
    }
    assert left.digits[..i] == left.digits && that.digits[..i] == that.digits;
    return true;
  }

  /**
   * operator< as written: the scans return on the first differing digit,
   * and when every digit agrees the final `return true` is reached, so the
   * result is "at most" rather than "below".
   */
  method LessAsWritten(left: BigInt, that: BigInt) returns (r: bool)
    requires Wf(left) && Wf(that)
    ensures r <==> Val(left) <= Val(that)
  {
    SignOfVal(left);
    SignOfVal(that);
    if left.negative && !that.negative {
      return true;
    }
    if !left.negative && that.negative {
      return false;
    }
    if left.negative {
      if |left.digits| > |that.digits| {
        ShorterIsSmaller(that.digits, left.digits);
        return true;
      }
      if |left.digits| < |that.digits| {
        ShorterIsSmaller(left.digits, that.digits);
        return false;
      }
      var o := CompareFromTop(left.digits, that.digits);
      if o == Above {
        return true;
      }
      if o == Below {
        return false;
      }
    } else {
      if |left.digits| < |that.digits| {
        ShorterIsSmaller(left.digits, that.digits);
        return true;
      }
      if |left.digits| > |that.digits| {
        ShorterIsSmaller(that.digits, left.digits);
        return false;
      }
      var o := CompareFromTop(left.digits, that.digits);
      if o == Below {
        return true;
      }
      if o == Above {
        return false;
      }
    }
    return true;
  }

  /** operator< with the fall-through after equal digits answering false. */
  method Less(left: BigInt, that: BigInt) returns (r: bool)
    requires Wf(left) && Wf(that)
    ensures r <==> Val(left) < Val(that)
  {
    SignOfVal(left);
    SignOfVal(that);
    if left.negative && !that.negative {
      return true;
    }
    if !left.negative && that.negative {
      return false;
    }
    if left.negative {
      if |left.digits| > |that.digits| {
        ShorterIsSmaller(that.digits, left.digits);
        return true;
      }
      if |left.digits| < |that.digits| {
        ShorterIsSmaller(left.digits, that.digits);
        return false;
      }
      var o := CompareFromTop(left.digits, that.digits);
      if o == Above {
        return true;
      }
      if o == Below {
        return false;
      }
    } else {
      if |left.digits| < |that.digits| {
        ShorterIsSmaller(left.digits, that.digits);
        return true;
      }
      if |left.digits| > |that.digits| {
        ShorterIsSmaller(that.digits, left.digits);
        return false;
      }
      var o := CompareFromTop(left.digits, that.digits);
      if o == Below {
        return true;
      }
      if o == Above {
        return false;
      }
    }
    return false;
  }
}
