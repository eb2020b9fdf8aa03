/**
  The decimal text of a non-negative integer, as JavaScript produces it when
  a number is converted to a string (`"" + n`), and the reverse reading of a
  canonical array-index key (`"0"`, `"1"`, ..., never `"01"`).
*/
module JsText {
  import opened Wrappers

  predicate IsDigit(c: char)
  {
    '0' as int <= c as int <= '9' as int
  }

  function DigitChar(d: nat): (c: char)
    requires d < 10
    ensures IsDigit(c) && c as int - '0' as int == d
  {
    ('0' as int + d) as char
  }

  /** The decimal digits of `n`, most significant first, without leading zeros. */
  function Decimal(n: nat): (s: string)
    decreases n
  {
    if n < 10 then [DigitChar(n)] else Decimal(n / 10) + [DigitChar(n % 10)]
  }

  /** The value of a run of decimal digits. */
  function DigitsValue(s: string): nat
    requires forall i :: 0 <= i < |s| ==> IsDigit(s[i])
  {
    if s == [] then 0
    else
      assert forall i :: 0 <= i < |s| - 1 ==> s[..|s| - 1][i] == s[i];
      assert IsDigit(s[|s| - 1]);
      10 * DigitsValue(s[..|s| - 1]) + (s[|s| - 1] as int - '0' as int)
  }

  /** A canonical array index: a non-empty run of digits with no leading zero
      other than the single digit `"0"`. */
  predicate IsIndexKey(s: string)
  {
    && |s| > 0
    && (forall i :: 0 <= i < |s| ==> IsDigit(s[i]))
    && (s[0] == '0' ==> |s| == 1)
  }

  function ParseIndex(s: string): (r: Option<nat>)
    ensures r.Some? <==> IsIndexKey(s)
  {
    if IsIndexKey(s) then Some(DigitsValue(s)) else None
  }

  /** `Decimal` produces canonical index keys and `ParseIndex` reads them back. */
  lemma {:induction false} DecimalRoundTrip(n: nat)
    ensures IsIndexKey(Decimal(n))
    ensures ParseIndex(Decimal(n)) == Some(n)
    decreases n
  {
    if n >= 10 {
      DecimalRoundTrip(n / 10);
      var s := Decimal(n);
      var hi := Decimal(n / 10);
      assert s == hi + [DigitChar(n % 10)];
      assert s[..|s| - 1] == hi;
      assert s[0] == hi[0];
      assert DigitsValue(hi) == n / 10;
      assert DigitsValue(s) == 10 * (n / 10) + n % 10;
    } else {
      var s := Decimal(n);
      assert s == [DigitChar(n)] && s[..0] == [];
      assert DigitsValue(s) == n;
    }
  }

  /** Different numbers have different decimal texts. */
  lemma DecimalInjective(m: nat, n: nat)
    requires Decimal(m) == Decimal(n)
    ensures m == n
  {
    DecimalRoundTrip(m);
    DecimalRoundTrip(n);
  }
}
