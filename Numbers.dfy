/**
 * Java's `Integer.parseInt(s)` (radix 10): the check `processOpts` applies to the recursion
 * limit. `None` stands for the `NumberFormatException` it throws.
 */
module Numbers {
  import opened Results
  import opened Bytes

  predicate IsDigit(c: char) {
    '0' <= c <= '9'
  }

  predicate AllDigits(s: string) {
    forall i :: 0 <= i < |s| ==> IsDigit(s[i])
  }

  /** The value of a run of decimal digits, most significant first. */
  function DigitsValue(s: string): nat
    requires AllDigits(s)
    decreases |s|
  {
    if s == [] then 0 else DigitsValue(s[..|s| - 1]) * 10 + (s[|s| - 1] as int - '0' as int)
  }

  /**
   * `Integer.parseInt(s)`: an optional '-' or '+', then one or more decimal digits, whose
   * value must lie in the 32-bit range; anything else is refused.
   */
  function ParseInt(s: string): Option<int32> {
    if |s| == 0 then None
    else
      var digits := if s[0] == '-' || s[0] == '+' then s[1..] else s;
      if |digits| == 0 || !AllDigits(digits) then None
      else
        var v: int := if s[0] == '-' then -(DigitsValue(digits) as int) else DigitsValue(digits);
        if -0x8000_0000 <= v < 0x8000_0000 then Some(v as int32) else None
  }

  /** The decimal digits of `n`, without leading zeros. */
  function NatToString(n: nat): (r: string)
    ensures |r| > 0 && AllDigits(r)
    ensures r[0] == '0' ==> n == 0
  {
    var d := ['0' + (n % 10) as char];
    if n < 10 then d else NatToString(n / 10) + d
  }

  /** `Integer.toString(v)`: a '-' for negative values, then the digits of the magnitude. */
  function IntToString(v: int): string {
    if v < 0 then "-" + NatToString(-v) else NatToString(v)
  }

  lemma {:induction false} NatToStringValue(n: nat)
    ensures DigitsValue(NatToString(n)) == n
  {
    var r := NatToString(n);
    if n >= 10 {
      NatToStringValue(n / 10);
      assert r[..|r| - 1] == NatToString(n / 10);
    }
  }

  /** Every 32-bit integer, written out in decimal, reads back as itself. */
  lemma ParseIntRoundTrip(v: int32)
    ensures ParseInt(IntToString(v as int)) == Some(v)
  {
    var s := IntToString(v as int);
    if v < 0 {
      NatToStringValue(-(v as int));
      assert s[1..] == NatToString(-(v as int));
    } else {
      NatToStringValue(v as int);
    }
  }

  /** A numeral as `Integer.toString` writes it: no '+', no leading zeros, no "-0". */
  predicate Canonical(s: string) {
    var digits := if |s| > 0 && s[0] == '-' then s[1..] else s;
    |digits| > 0 && AllDigits(digits) && (digits[0] == '0' ==> s == "0")
  }

  /** Conversely, a canonical numeral `parseInt` accepts is exactly how its value is written. */
  lemma ParseIntCanonical(s: string)
    requires Canonical(s) && ParseInt(s).Some?
    ensures IntToString(ParseInt(s).value as int) == s
  {
    if s[0] == '-' {
      DigitsCanonical(s[1..]);
      DigitsPositive(s[1..]);
      assert s == "-" + s[1..];
    } else {
      DigitsCanonical(s);
    }
  }

  /** Writing the value back out gives the canonical form of any numeral `parseInt` accepts. */
  lemma {:induction false} DigitsCanonical(s: string)
    requires |s| > 0 && AllDigits(s) && (s[0] == '0' ==> |s| == 1)
    ensures NatToString(DigitsValue(s)) == s
    decreases |s|
  {
    var init := s[..|s| - 1];
    var last := s[|s| - 1];
    if |s| > 1 {
      DigitsCanonical(init);
      DigitsPositive(init);
      assert DigitsValue(s) / 10 == DigitsValue(init);
      assert DigitsValue(s) % 10 == last as int - '0' as int;
      assert s == init + [last];
    }
  }

  lemma {:induction false} DigitsPositive(s: string)
    requires |s| > 0 && AllDigits(s) && s[0] != '0'
    ensures DigitsValue(s) >= 1
    decreases |s|
  {
    if |s| > 1 {
      DigitsPositive(s[..|s| - 1]);
    }
  }
}
