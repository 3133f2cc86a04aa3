/** `Integer.parseInt(s)` in radix 10, as a total function: `None` stands for
    the NumberFormatException the Java method throws. */
module JavaInt {
  import opened Options

  const MinInt: int := -0x8000_0000
  const MaxInt: int := 0x7fff_ffff

  predicate IsInt32(n: int) {
    MinInt <= n <= MaxInt
  }

  predicate IsDigit(c: char) {
    '0' <= c <= '9'
  }

  predicate AllDigits(s: string) {
    forall k :: 0 <= k < |s| ==> IsDigit(s[k])
  }

  predicate IsSign(c: char) {
    c == '-' || c == '+'
  }

  /** Decimal value of a digit string, most significant digit first. */
  function DigitsValue(ds: string): nat
    requires AllDigits(ds)
    decreases |ds|
  {
    if |ds| == 0 then 0
    else DigitsValue(ds[..|ds| - 1]) * 10 + (ds[|ds| - 1] as int - '0' as int)
  }

  /** The text after an optional leading sign. */
  function Magnitude(s: string): string {
    if |s| > 0 && IsSign(s[0]) then s[1..] else s
  }

  /** An optional '-' or '+', then one or more decimal digits, and a value
      that fits in 32 bits; anything else is rejected. */
  function ParseInt(s: string): (r: Option<int>)
    ensures r.Some? ==> IsInt32(r.value)
    ensures r.Some? ==> |s| > 0 && (IsDigit(s[0]) || (IsSign(s[0]) && |s| >= 2))
    ensures r.Some? ==> forall k :: 1 <= k < |s| ==> IsDigit(s[k])
    ensures r.Some? && |s| > 0 && s[0] == '-' ==> r.value <= 0
    ensures r.Some? && |s| > 0 && s[0] != '-' ==> r.value >= 0
  {
    var digits := Magnitude(s);
    if |s| == 0 || |digits| == 0 || !AllDigits(digits) then None
    else
      var v: int := if s[0] == '-' then 0 - DigitsValue(digits) as int else DigitsValue(digits);
      if IsInt32(v) then Some(v) else None
  }

  function DigitChar(d: nat): (c: char)
    requires d < 10
    ensures IsDigit(c) && c as int - '0' as int == d
  {
    ('0' as int + d) as char
  }

  /** Decimal digits of `n` without leading zeros. */
  function NatDigits(n: nat): (ds: string)
    ensures |ds| >= 1 && AllDigits(ds)
    ensures |ds| > 1 ==> ds[0] != '0'
    decreases n
  {
    if n < 10 then [DigitChar(n)] else NatDigits(n / 10) + [DigitChar(n % 10)]
  }

  /** `Integer.toString(n)`, without the 32-bit restriction. */
  function FormatInt(n: int): string {
    if n < 0 then "-" + NatDigits(-n) else NatDigits(n)
  }

  lemma {:induction false} NatDigitsValue(n: nat)
    ensures DigitsValue(NatDigits(n)) == n
    decreases n
  {
    var ds := NatDigits(n);
    if n >= 10 {
      assert ds[..|ds| - 1] == NatDigits(n / 10);
      NatDigitsValue(n / 10);
    }
  }

  /** Every 32-bit integer printed in decimal parses back to itself. */
  lemma ParseFormat(n: int)
    requires IsInt32(n)
    ensures ParseInt(FormatInt(n)) == Some(n)
  {
    var m: nat := if n < 0 then -n else n;
    var sign := if n < 0 then "-" else "";
    var ds := NatDigits(m);
    assert FormatInt(n) == sign + ds;
    assert NumeralValue(sign, ds) == n by {
      NatDigitsValue(m);
    }
    ParseNumeral(sign, ds);
  }

  /** An explicit plus sign is accepted. */
  lemma ParsePlusSign(n: nat)
    requires n <= MaxInt
    ensures ParseInt("+" + FormatInt(n)) == Some(n)
  {
    assert Magnitude("+" + FormatInt(n)) == NatDigits(n);
    NatDigitsValue(n);
  }

  /** The value a sign and a digit string denote. */
  function NumeralValue(sign: string, ds: string): int
    requires AllDigits(ds)
  {
    if sign == "-" then 0 - DigitsValue(ds) else DigitsValue(ds)
  }

  /** Every numeral, an optional sign followed by one or more digits, is
      accepted exactly when its value fits in 32 bits, and it then reads as
      that value. */
  lemma ParseNumeral(sign: string, ds: string)
    requires sign == "" || sign == "+" || sign == "-"
    requires |ds| > 0 && AllDigits(ds)
    ensures IsInt32(NumeralValue(sign, ds)) ==> ParseInt(sign + ds) == Some(NumeralValue(sign, ds))
    ensures !IsInt32(NumeralValue(sign, ds)) ==> ParseInt(sign + ds) == None
  {
    var s := sign + ds;
    assert IsDigit(ds[0]);
    if sign == "" {
      assert s == ds;
      assert !IsSign(s[0]);
    } else {
      assert s[0] == sign[0] && s[1..] == ds;
      assert Magnitude(s) == ds;
    }
  }

  /** A leading zero does not change the value of the digits after it. */
  lemma {:induction false} DigitsValueLeadingZero(ds: string)
    requires AllDigits(ds)
    ensures AllDigits("0" + ds) && DigitsValue("0" + ds) == DigitsValue(ds)
    decreases |ds|
  {
    var zs := "0" + ds;
    assert AllDigits(zs) by {
      forall k | 0 <= k < |zs| ensures IsDigit(zs[k]) {
        if k > 0 { assert zs[k] == ds[k - 1]; }
      }
    }
    if |ds| == 0 {
      assert zs[..0] == "";
    } else {
      var init := ds[..|ds| - 1];
      assert zs[..|zs| - 1] == "0" + init;
      assert zs[|zs| - 1] == ds[|ds| - 1];
      DigitsValueLeadingZero(init);
    }
  }

  /** Leading zeros are accepted and ignored, after any sign: "07" and "-007"
      read as 7 and -7, and "0" + digits is accepted exactly when the digits
      alone are. */
  lemma ParseLeadingZero(sign: string, ds: string)
    requires sign == "" || sign == "+" || sign == "-"
    requires |ds| > 0 && AllDigits(ds)
    ensures ParseInt(sign + "0" + ds) == ParseInt(sign + ds)
  {
    DigitsValueLeadingZero(ds);
    var a, b := sign + "0" + ds, sign + ds;
    assert IsDigit(ds[0]);
    assert Magnitude(a) == "0" + ds by {
      if sign == "" { assert a == "0" + ds; } else { assert a[1..] == "0" + ds; }
    }
    assert Magnitude(b) == ds by {
      if sign == "" { assert b == ds; } else { assert b[1..] == ds; }
    }
  }

  /** A negative zero is zero. */
  lemma ParseMinusZero()
    ensures ParseInt("-0") == Some(0)
  {
    assert Magnitude("-0") == "0";
    assert "0"[..0] == "";
    assert DigitsValue("0") == 0;
  }

  /** A decimal numeral outside the 32-bit range is rejected, not wrapped. */
  lemma ParseOverflow(n: int)
    requires !IsInt32(n)
    ensures ParseInt(FormatInt(n)) == None
  {
    if n < 0 {
      assert Magnitude(FormatInt(n)) == NatDigits(-n);
      NatDigitsValue(-n);
    } else {
      assert Magnitude(FormatInt(n)) == NatDigits(n);
      NatDigitsValue(n);
    }
  }
}
