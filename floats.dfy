/**
 * The part of Python's `float(text)` the score extraction relies on: an
 * optional sign, decimal digits and an optional decimal point. Anything
 * else is a parse failure (`None`, Python's `ValueError`).
 */
module Floats {
  import opened Wrappers
  import opened Strings

  predicate IsDigit(c: char) { '0' <= c <= '9' }

  predicate AllDigits(s: string) {
    forall k :: 0 <= k < |s| ==> IsDigit(s[k])
  }

  /** The value of a string of decimal digits, most significant first. */
  function DigitsValue(s: string): nat
    requires AllDigits(s)
    decreases |s|
  {
    if s == [] then 0 else DigitsValue(s[..|s| - 1]) * 10 + (s[|s| - 1] as int - '0' as int)
  }

  function Pow10(n: nat): (r: nat)
    ensures r > 0
  {
    if n == 0 then 1 else 10 * Pow10(n - 1)
  }

  /** Digits with at most one decimal point and at least one digit, e.g. `7`, `7.5`, `.5`, `5.`. */
  function ParseUnsigned(s: string): (r: Option<real>)
    ensures r.Some? ==> |s| > 0 && r.value >= 0.0
    ensures r.Some? ==> forall k :: 0 <= k < |s| ==> IsDigit(s[k]) || s[k] == '.'
  {
    match IndexOf(s, ".")
    case None =>
      if |s| > 0 && AllDigits(s) then Some(DigitsValue(s) as real) else None
    case Some(i) =>
      var whole := s[..i];
      var frac := s[i + 1..];
      if AllDigits(whole) && AllDigits(frac) && |whole| + |frac| > 0 then
        Some(DigitsValue(whole) as real + DigitsValue(frac) as real / Pow10(|frac|) as real)
      else
        None
  }

  /**
   * `float(s)` on an already stripped string: only a sign, digits and a
   * point are accepted, and a leading `-` gives a value of at most 0.
   */
  function ParseFloat(s: string): (r: Option<real>)
    ensures r.Some? ==> |s| > 0
    ensures r.Some? ==> forall k :: 0 <= k < |s| ==> IsDigit(s[k]) || s[k] == '.' || (k == 0 && (s[k] == '-' || s[k] == '+'))
    ensures r.Some? && s[0] == '-' ==> r.value <= 0.0
  {
    if |s| > 0 && (s[0] == '-' || s[0] == '+') then
      match ParseUnsigned(s[1..])
      case None => None
      case Some(v) => Some(if s[0] == '-' then -v else v)
    else
      ParseUnsigned(s)
  }

  /** `str(n)` for a natural number. */
  function DecimalString(n: nat): (r: string)
    ensures |r| > 0 && AllDigits(r)
    decreases n
  {
    if n < 10 then ["0123456789"[n]] else DecimalString(n / 10) + ["0123456789"[n % 10]]
  }

  lemma {:induction false} DecimalStringValue(n: nat)
    ensures DigitsValue(DecimalString(n)) == n
    decreases n
  {
    var s := DecimalString(n);
    if n < 10 {
      assert s[..0] == [];
    } else {
      DecimalStringValue(n / 10);
      assert s[..|s| - 1] == DecimalString(n / 10);
    }
  }

  /** A string of digits holds no decimal point. */
  lemma DigitsHaveNoPoint(s: string)
    requires AllDigits(s)
    ensures !Contains(s, ".")
  {
    forall j: nat
      ensures !OccursAt(s, ".", j)
    {
      if j + 1 <= |s| {
        assert s[j..j + 1][0] == s[j];
      }
    }
  }

  /** `float(str(n)) == n` and `float("-" + str(n)) == -n`: the parser reads back what Python prints for an integer. */
  lemma ParseFloatReadsIntegers(n: nat)
    ensures ParseFloat(DecimalString(n)) == Some(n as real)
    ensures ParseFloat("-" + DecimalString(n)) == Some(-(n as real))
  {
    var s := DecimalString(n);
    DigitsHaveNoPoint(s);
    DecimalStringValue(n);
    assert ParseUnsigned(s) == Some(n as real);
    assert ("-" + s)[1..] == s;
  }

  /** Examples of what is read and what is refused. */
  lemma ParseFloatExamples()
    ensures ParseFloat("7.5") == Some(7.5)
    ensures ParseFloat("9") == Some(9.0)
    ensures ParseFloat("-2") == Some(-2.0)
    ensures ParseFloat("") == None
    ensures ParseFloat(".") == None
  {
    SevenPointFive();
    WholeNumbers();
    BarePointRefused();
  }

  lemma SevenPointFive()
    ensures ParseFloat("7.5") == Some(7.5)
  {
    assert "7.5"[1..] == ".5";
    assert IndexOf(".5", ".") == Some(0);
    assert "7.5"[0] == '7';
    assert IndexOf("7.5", ".") == Some(1);
    assert "7.5"[..1] == "7" && "7.5"[2..] == "5";
    assert "7"[..0] == "" && "5"[..0] == "";
  }

  lemma WholeNumbers()
    ensures ParseFloat("9") == Some(9.0)
    ensures ParseFloat("-2") == Some(-2.0)
  {
    assert AllDigits("9") && AllDigits("2");
    DigitsHaveNoPoint("9");
    DigitsHaveNoPoint("2");
    assert "9"[..0] == "";
    assert "-2"[1..] == "2";
    assert "2"[..0] == "";
  }

  lemma BarePointRefused()
    ensures ParseFloat("") == None
    ensures ParseFloat(".") == None
  {
    assert IndexOf(".", ".") == Some(0);
    assert "."[..0] == "" && "."[1..] == "";
  }
}
