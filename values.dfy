/**
 * Metric values: the 4th token of a line is stored as a number when `float()` accepts it
 * and as the original string otherwise; the table later converts catalogue values with
 * `int()`, which truncates toward zero. `float()` is modelled for plain decimal notation.
 */
module Values {
  import opened Results

  /** A stored metric value: the tagged form of Python's `float | str`. */
  datatype Value = Num(x: real) | Text(s: string)

  predicate IsDigit(c: char) { '0' <= c <= '9' }

  predicate AllDigits(s: string)
  {
    forall k :: 0 <= k < |s| ==> IsDigit(s[k])
  }

  /** The value of a string of decimal digits, most significant first. */
  function DigitsValue(s: string): nat
    requires AllDigits(s)
  {
    if s == [] then 0 else 10 * DigitsValue(s[..|s| - 1]) + (s[|s| - 1] as int - '0' as int)
  }

  /** Appending a digit multiplies the value by ten and adds the digit. */
  lemma DigitsValueAppend(s: string, d: char)
    requires AllDigits(s) && IsDigit(d)
    ensures AllDigits(s + [d])
    ensures DigitsValue(s + [d]) == 10 * DigitsValue(s) + (d as int - '0' as int)
  {
    assert (s + [d])[..|s|] == s;
  }

  function Pow10(n: nat): (r: nat)
    ensures r > 0
  {
    if n == 0 then 1 else 10 * Pow10(n - 1)
  }

  /** The value of the decimal `whole.frac`. */
  function PointValue(whole: string, frac: string): real
    requires AllDigits(whole) && AllDigits(frac)
  {
    DigitsValue(whole) as real + DigitsValue(frac) as real / Pow10(|frac|) as real
  }

  /** An unsigned decimal: digits, optionally with one `.` and more digits; at least one digit. */
  function ParseUnsigned(s: string): Option<real>
  {
    if '.' in s then
      var i := FirstDot(s);
      var whole, frac := s[..i], s[i + 1..];
      if AllDigits(whole) && AllDigits(frac) && |whole| + |frac| > 0 then
        Some(PointValue(whole, frac))
      else None
    else if AllDigits(s) && |s| > 0 then Some(DigitsValue(s) as real)
    else None
  }

  function FirstDot(s: string): (i: nat)
    requires '.' in s
    ensures i < |s| && s[i] == '.'
  {
    if s[0] == '.' then 0 else 1 + FirstDot(s[1..])
  }

  /** `float(s)` on plain decimal notation with an optional sign; `None` where it raises. */
  function ParseNumber(s: string): Option<real>
  {
    if |s| > 0 && (s[0] == '+' || s[0] == '-') then
      match ParseUnsigned(s[1..])
      case Some(x) => Some(if s[0] == '-' then -x else x)
      case None => None
    else ParseUnsigned(s)
  }

  /** Lines 94-98: `float(stat)`, falling back to the string itself. */
  function Coerce(stat: string): (v: Value)
    ensures v.Text? ==> v.s == stat && ParseNumber(stat) == None
    ensures v.Num? <==> ParseNumber(stat).Some?
    ensures v.Num? ==> v.x == ParseNumber(stat).value
  {
    match ParseNumber(stat)
    case Some(x) => Num(x)
    case None => Text(stat)
  }

  /** `int(x)` on a float: truncation toward zero. */
  function Trunc(x: real): (r: int)
    ensures r as real <= x < r as real + 1.0 || r as real - 1.0 < x <= r as real
    ensures x >= 0.0 ==> 0 <= r && r as real <= x < r as real + 1.0
    ensures x < 0.0 ==> r <= 0 && r as real - 1.0 < x <= r as real
  {
    if x >= 0.0 then x.Floor else -((-x).Floor)
  }

  /** `int(stat)` on a stored value: a number is truncated, and a string is rejected. */
  function ToInt(v: Value): (r: Result<int>)
    ensures r.Ok? <==> v.Num?
    ensures v.Num? ==> r.value == Trunc(v.x)
  {
    match v
    case Num(x) => Ok(Trunc(x))
    case Text(_) => Err(NonNumericStat)
  }

  /** The decimal spelling of a natural number, as DRAGEN writes counts. */
  function Decimal(n: nat): (s: string)
    ensures |s| > 0 && AllDigits(s)
  {
    if n < 10 then [('0' as int + n) as char] else Decimal(n / 10) + [('0' as int + n % 10) as char]
  }

  /** A count written in decimal is read back as that number. */
  lemma {:induction false} DecimalValue(n: nat)
    ensures DigitsValue(Decimal(n)) == n
  {
    var s := Decimal(n);
    if n >= 10 {
      DecimalValue(n / 10);
      assert s[..|s| - 1] == Decimal(n / 10);
    }
  }

  /** Every decimal count is stored as a number with exactly its value. */
  lemma CoerceDecimal(n: nat)
    ensures Coerce(Decimal(n)) == Num(n as real)
  {
    var s := Decimal(n);
    DecimalValue(n);
  }

  /** A string of decimal digits is stored as the number it spells. */
  lemma CoerceDigits(s: string)
    requires |s| > 0 && AllDigits(s)
    ensures Coerce(s) == Num(DigitsValue(s) as real)
  {
  }

  /** The first `.` of `whole + "." + frac`, where `whole` has no dot, is the one after `whole`. */
  lemma {:induction false} FirstDotAfter(whole: string, frac: string)
    requires AllDigits(whole)
    ensures '.' in whole + "." + frac && FirstDot(whole + "." + frac) == |whole|
  {
    var t := whole + "." + frac;
    assert t[|whole|] == '.';
    if whole != [] {
      assert t[1..] == whole[1..] + "." + frac;
      assert whole[0] != '.';
      FirstDotAfter(whole[1..], frac);
    }
  }

  /** A decimal with a fractional part is stored as its exact value: `float("12.5")` is 12.5. */
  lemma CoerceFraction(whole: string, frac: string)
    requires AllDigits(whole) && AllDigits(frac) && |whole| + |frac| > 0
    ensures Coerce(whole + "." + frac) == Num(PointValue(whole, frac))
  {
    var t := whole + "." + frac;
    var x := PointValue(whole, frac);
    assert ParseUnsigned(t) == Some(x) by {
      FirstDotAfter(whole, frac);
      assert t[..|whole|] == whole && t[|whole| + 1..] == frac;
    }
    assert t[0] != '+' && t[0] != '-' by {
      if |whole| > 0 {
        assert t[0] == whole[0];
      } else {
        assert t[0] == '.';
      }
    }
  }

  /** A leading `-` negates the number the rest denotes. */
  lemma CoerceNegative(s: string)
    requires ParseUnsigned(s).Some?
    ensures Coerce("-" + s) == Num(-ParseUnsigned(s).value)
  {
    assert ("-" + s)[1..] == s;
  }

  /** A median such as `2.5` is stored as 2.5 and shown as 2 in the table. */
  lemma FractionExample(stat: string)
    requires stat == "2.5"
    ensures Coerce(stat) == Num(2.5) && ToInt(Coerce(stat)) == Ok(2)
  {
    var whole, frac := ['2'], ['5'];
    assert DigitsValue(whole) == 2 && DigitsValue(frac) == 5;
    assert Pow10(|frac|) == 10 * Pow10(0) == 10;
    assert PointValue(whole, frac) == 2.0 + 5.0 / 10.0 == 2.5;
    assert stat == whole + "." + frac;
    CoerceFraction(whole, frac);
  }

  /** A token containing a character outside digits, signs and `.` is kept as text. */
  lemma CoerceNonNumeric(stat: string, k: nat)
    requires k < |stat|
    requires !IsDigit(stat[k]) && stat[k] != '.' && stat[k] != '+' && stat[k] != '-'
    ensures Coerce(stat) == Text(stat)
  {
    if |stat| > 0 && (stat[0] == '+' || stat[0] == '-') {
      UnsignedNeedsDigitsAndDot(stat[1..], k - 1);
    } else {
      UnsignedNeedsDigitsAndDot(stat, k);
    }
  }

  lemma UnsignedNeedsDigitsAndDot(s: string, k: nat)
    requires k < |s|
    requires !IsDigit(s[k]) && s[k] != '.'
    ensures ParseUnsigned(s) == None
  {
    if '.' in s {
      var i := FirstDot(s);
      if k < i {
        assert s[..i][k] == s[k];
      } else {
        assert s[i + 1..][k - i - 1] == s[k];
      }
    }
  }
}
