/**
 * Java's 32-bit `int` as the integer list codec reads and writes it:
 * `String.valueOf(int)` and `Integer.parseInt(String)` over ASCII digits.
 */
module JavaInteger {
  import opened Wrappers
  import JavaText

  const MinInt: int := -0x8000_0000
  const MaxInt: int := 0x7FFF_FFFF

  /** A Java `int` (the element type of a `List<Integer>` without null elements). */
  type Int32 = x: int | -0x8000_0000 <= x <= 0x7FFF_FFFF

  predicate IsDigit(c: char)
  {
    '0' <= c <= '9'
  }

  predicate AllDigits(s: string)
  {
    forall i :: 0 <= i < |s| ==> IsDigit(s[i])
  }

  /** The value of a string of decimal digits, most significant first. */
  function DigitsValue(s: string): nat
    requires AllDigits(s)
  {
    if s == [] then 0 else DigitsValue(s[..|s| - 1]) * 10 + (s[|s| - 1] as int - '0' as int)
  }

  function DigitChar(d: nat): (c: char)
    requires d < 10
    ensures IsDigit(c) && c as int - '0' as int == d
  {
    ('0' as int + d) as char
  }

  /** The shortest decimal text of `n`: digits only, no leading zero, and it denotes `n`. */
  function NatToString(n: nat): (r: string)
    ensures |r| >= 1 && AllDigits(r)
    ensures DigitsValue(r) == n
    ensures r[0] == '0' ==> n == 0 && r == "0"
  {
    if n < 10 then [DigitChar(n)] else NatToString(n / 10) + [DigitChar(n % 10)]
  }

  /** `String.valueOf(int)`: a minus sign for negative values, then the shortest digits. */
  function ValueOf(i: Int32): (r: string)
    ensures |r| >= 1 && JavaText.Comma !in r
    ensures r[0] == '-' <==> i < 0
  {
    if i < 0 then "-" + NatToString(-(i as int)) else NatToString(i)
  }

  /**
   * `Integer.parseInt(String)`: an optional `+` or `-`, then one or more ASCII
   * digits, whose value must fit in 32 bits; anything else (the empty string, a
   * lone sign, a space, a letter, an out-of-range value) is a NumberFormatException,
   * here `None`.
   */
  function ParseInt(s: string): (r: Option<Int32>)
    ensures r.Some? ==> |s| >= 1 && (IsDigit(s[0]) || s[0] == '-' || s[0] == '+')
    ensures r.Some? ==> forall i :: 1 <= i < |s| ==> IsDigit(s[i])
    ensures r.Some? && (s[0] == '-' || s[0] == '+') ==> |s| >= 2
  {
    if |s| == 0 then None
    else
      var digits := if s[0] == '-' || s[0] == '+' then s[1..] else s;
      if |digits| == 0 || !AllDigits(digits) then None
      else
        var v: int := if s[0] == '-' then -(DigitsValue(digits) as int) else DigitsValue(digits);
        if MinInt <= v <= MaxInt then Some(v) else None
  }

  /** Parsing what `String.valueOf` wrote gives back the same `int`. */
  lemma ParseIntValueOf(i: Int32)
    ensures ParseInt(ValueOf(i)) == Some(i)
  {
    var s := ValueOf(i);
    if i < 0 {
      assert s[1..] == NatToString(-(i as int));
    } else {
      assert s == NatToString(i);
      assert IsDigit(s[0]);
    }
  }

  /** A piece with a character that is neither a digit nor a leading sign never parses. */
  lemma ParseIntRejectsStrayCharacter(s: string, k: nat)
    requires k < |s| && !IsDigit(s[k]) && !(k == 0 && (s[0] == '-' || s[0] == '+'))
    ensures ParseInt(s) == None
  {
  }

  function Pow10(k: nat): (r: nat)
    ensures r >= 1
  {
    if k == 0 then 1 else 10 * Pow10(k - 1)
  }

  /** Digits with a non-zero lead denote at least ten to the power of their count less one. */
  lemma {:induction false} DigitsValueLowerBound(s: string)
    requires |s| >= 1 && AllDigits(s) && s[0] != '0'
    ensures DigitsValue(s) >= Pow10(|s| - 1)
    decreases |s|
  {
    if |s| > 1 {
      var init := s[..|s| - 1];
      assert init[0] == s[0];
      DigitsValueLowerBound(init);
    }
  }

  /**
   * Eleven or more digits with a non-zero lead exceed every 32-bit value, with or
   * without a sign, so `parseInt` rejects them.
   */
  lemma ParseIntRejectsLongDigits(sign: string, digits: string)
    requires sign == "" || sign == "-" || sign == "+"
    requires |digits| >= 11 && AllDigits(digits) && digits[0] != '0'
    ensures ParseInt(sign + digits) == None
  {
    DigitsValueLowerBound(digits);
    var k := |digits| - 1;
    assert Pow10(k) >= Pow10(10) by { Pow10Monotone(10, k); }
    assert Pow10(10) == 10000000000;
    assert (sign + digits)[|sign|..] == digits;
  }

  lemma {:induction false} Pow10Monotone(j: nat, k: nat)
    requires j <= k
    ensures Pow10(j) <= Pow10(k)
    decreases k - j
  {
    if j < k {
      Pow10Monotone(j, k - 1);
    }
  }

  /** A few inputs as `parseInt` treats them. */
  lemma ParseIntExamples()
    ensures ParseInt("+7") == Some(7) && ParseInt("-7") == Some(-7) && ParseInt("007") == Some(7)
    ensures ParseInt("-") == None && ParseInt("+") == None && ParseInt("") == None && ParseInt(" 2") == None
  {
    assert DigitsValue("7") == 7;
    assert "007"[..2] == "00" && "00"[..1] == "0";
    ParseIntRejectsStrayCharacter(" 2", 0);
  }
}
