/** Decimal text <-> integer conversions used by the connector: Java's
    `Integer.parseInt` (ports, database indexes, the key-list limit) and the
    strict signed 64-bit form Redis accepts and produces for INCR/INCRBY. */
module Decimal {
  import opened Common

  predicate IsDigit(c: char) {
    '0' <= c <= '9'
  }

  predicate AllDigits(s: string) {
    forall i :: 0 <= i < |s| ==> IsDigit(s[i])
  }

  function DigitValue(c: char): (d: nat)
    requires IsDigit(c)
    ensures d < 10
  {
    (c as int) - ('0' as int)
  }

  function DigitChar(d: nat): (c: char)
    requires d < 10
    ensures IsDigit(c) && DigitValue(c) == d
  {
    (('0' as int) + d) as char
  }

  /** The value of a string of decimal digits, most significant first. */
  function DigitsValue(s: string): nat
    requires AllDigits(s)
  {
    if s == [] then 0 else DigitsValue(s[..|s| - 1]) * 10 + DigitValue(s[|s| - 1])
  }

  /** The shortest decimal text of `n`: digits only, no leading zero. */
  function FormatNat(n: nat): (s: string)
    ensures |s| > 0 && AllDigits(s)
    ensures s[0] == '0' <==> n == 0
    ensures n == 0 ==> s == "0"
  {
    if n < 10 then [DigitChar(n)] else FormatNat(n / 10) + [DigitChar(n % 10)]
  }

  /** The decimal text of a signed integer, as Java's `Long.toString` and Redis write it. */
  function FormatInt(n: int): string {
    if n < 0 then "-" + FormatNat(-n) else FormatNat(n)
  }

  /** Java `Integer.parseInt(s)`: an optional sign, at least one digit, and a
      value inside the range of `int`; `None` stands for NumberFormatException. */
  function ParseJavaInt(s: string): (r: Option<int>)
    ensures r.Some? ==> MinInt <= r.value <= MaxInt
    ensures r.Some? ==> |s| > 0
  {
    if |s| == 0 then None
    else
      var signed := s[0] == '-' || s[0] == '+';
      var body := if signed then s[1..] else s;
      if |body| == 0 || !AllDigits(body) then None
      else
        var v: int := if s[0] == '-' then -(DigitsValue(body) as int) else DigitsValue(body);
        if MinInt <= v <= MaxInt then Some(v) else None
  }

  /** Redis's strict signed 64-bit parse (used by INCR/INCRBY on a stored
      string): "0", or an optional '-', a non-zero leading digit and further
      digits, within the signed 64-bit range; no '+', no "-0", no leading zero. */
  function ParseRedisInt(s: string): (r: Option<int>)
    ensures r.Some? ==> MinLong <= r.value <= MaxLong
  {
    if s == "0" then Some(0)
    else
      var negative := |s| > 0 && s[0] == '-';
      var body := if negative then s[1..] else s;
      if |body| == 0 || !AllDigits(body) || body[0] == '0' then None
      else
        var v: int := if negative then -(DigitsValue(body) as int) else DigitsValue(body);
        if MinLong <= v <= MaxLong then Some(v) else None
  }

  /** Reading back the formatted text of `n` gives `n`. */
  lemma {:induction false} DigitsValueOfFormat(n: nat)
    ensures DigitsValue(FormatNat(n)) == n
  {
    var s := FormatNat(n);
    if n >= 10 {
      assert s[..|s| - 1] == FormatNat(n / 10);
      DigitsValueOfFormat(n / 10);
    }
  }

  /** A digit string without leading zero has a positive value. */
  lemma {:induction false} DigitsValuePositive(s: string)
    requires |s| > 0 && AllDigits(s) && s[0] != '0'
    ensures DigitsValue(s) > 0
  {
    if |s| > 1 {
      assert s[..|s| - 1][0] == s[0];
      DigitsValuePositive(s[..|s| - 1]);
    }
  }

  /** Formatting the value of a canonical digit string gives the string back. */
  lemma {:induction false} FormatOfDigitsValue(s: string)
    requires |s| > 0 && AllDigits(s) && s[0] != '0'
    ensures FormatNat(DigitsValue(s)) == s
  {
    var init, last := s[..|s| - 1], s[|s| - 1];
    var n := DigitsValue(s);
    assert DigitChar(DigitValue(last)) == last;
    if |s| > 1 {
      assert init[0] == s[0];
      DigitsValuePositive(init);
      FormatOfDigitsValue(init);
      assert n / 10 == DigitsValue(init) && n % 10 == DigitValue(last);
      assert s == init + [last];
    }
  }

  /** Round trip: Redis parses back every signed 64-bit value it formatted. */
  lemma RedisIntRoundTrip(n: int)
    requires MinLong <= n <= MaxLong
    ensures ParseRedisInt(FormatInt(n)) == Some(n)
  {
    var body := FormatNat(if n < 0 then -n else n);
    DigitsValueOfFormat(if n < 0 then -n else n);
    if n < 0 {
      assert FormatInt(n)[1..] == body;
    }
  }

  /** Round trip the other way: a string Redis accepts is already in the
      canonical form, so formatting its value reproduces it exactly. */
  lemma RedisIntCanonical(s: string)
    requires ParseRedisInt(s).Some?
    ensures FormatInt(ParseRedisInt(s).value) == s
  {
    if s != "0" {
      var negative := |s| > 0 && s[0] == '-';
      var body := if negative then s[1..] else s;
      FormatOfDigitsValue(body);
      DigitsValuePositive(body);
      if negative {
        assert s == "-" + body;
      }
    }
  }

  /** Java's `Integer.parseInt` reads back every `int` written in decimal. */
  lemma JavaIntRoundTrip(n: int)
    requires MinInt <= n <= MaxInt
    ensures ParseJavaInt(FormatInt(n)) == Some(n)
  {
    var body := FormatNat(if n < 0 then -n else n);
    DigitsValueOfFormat(if n < 0 then -n else n);
    if n < 0 {
      assert FormatInt(n)[1..] == body;
    }
  }
}
