/**
 * Decimal text of integers, as the JSON serialiser writes an integer-valued number
 * of magnitude below 10^21: an optional '-', then digits with no leading zero
 * (and never "-0"). Larger magnitudes, which the serialiser writes in exponent
 * form, are not covered.
 */
module NumberText {
  import opened Wrappers

  predicate IsDigit(c: char) {
    '0' <= c <= '9'
  }

  function DigitValue(c: char): (d: nat)
    requires IsDigit(c)
    ensures d < 10
  {
    (c as int) - ('0' as int)
  }

  function DigitChar(d: nat): (c: char)
    requires d < 10
    ensures IsDigit(c) && DigitValue(c) == d
  {
    (('0' as int) + d) as char
  }

  predicate AllDigits(s: string) {
    forall i :: 0 <= i < |s| ==> IsDigit(s[i])
  }

  /** A digit run as the serialiser writes it: non-empty, and no leading zero unless it is "0". */
  predicate Canonical(ds: string) {
    |ds| > 0 && AllDigits(ds) && (|ds| == 1 || ds[0] != '0')
  }

  /** The value of a run of decimal digits, most significant first. */
  function DigitsValue(ds: string): nat
    requires AllDigits(ds)
    decreases |ds|
  {
    if ds == [] then 0 else 10 * DigitsValue(ds[..|ds| - 1]) + DigitValue(ds[|ds| - 1])
  }

  /** The decimal text of a natural number. */
  function NatToText(n: nat): (s: string)
    ensures Canonical(s) && DigitsValue(s) == n
  {
    if n < 10 then [DigitChar(n)]
    else
      var t := NatToText(n / 10);
      var s := t + [DigitChar(n % 10)];
      assert s[..|s| - 1] == t;
      assert t[0] != '0' by {
        if |t| == 1 { assert DigitValue(t[0]) == n / 10 > 0; }
      }
      s
  }

  /** The decimal text of an integer. */
  function IntToText(i: int): (s: string)
    ensures |s| > 0 && (i < 0 <==> s[0] == '-')
  {
    if i < 0 then "-" + NatToText(-i) else NatToText(i)
  }

  /** The length of the longest run of digits at the front of s. */
  function DigitRun(s: string): (k: nat)
    ensures k <= |s| && AllDigits(s[..k])
    ensures k == |s| || !IsDigit(s[k])
  {
    if s == [] || !IsDigit(s[0]) then 0
    else
      var k := 1 + DigitRun(s[1..]);
      assert s[..k] == [s[0]] + s[1..][..k - 1];
      k
  }

  /** Reads a natural number written as NatToText writes it at the front of s; gives its value and the rest of s. */
  function ParseNat(s: string): Option<(nat, string)>
  {
    var k := DigitRun(s);
    if Canonical(s[..k]) then Some((DigitsValue(s[..k]), s[k..])) else None
  }

  /** Reads an integer written as IntToText writes it at the front of s; gives its value and the rest of s. */
  function ParseInt(s: string): Option<(int, string)>
  {
    if |s| > 0 && s[0] == '-' then
      match ParseNat(s[1..])
      case None => None
      case Some(p) => if p.0 == 0 then None else Some((-(p.0 as int), p.1))
    else
      match ParseNat(s)
      case None => None
      case Some(p) => Some((p.0, p.1))
  }

  /** A canonical digit run whose first digit is not zero stands for a positive number. */
  lemma {:induction false} LeadingDigitPositive(ds: string)
    requires |ds| > 0 && AllDigits(ds) && ds[0] != '0'
    ensures DigitsValue(ds) > 0
  {
    if |ds| > 1 {
      LeadingDigitPositive(ds[..|ds| - 1]);
    }
  }

  /** Appending digit d to the decimal text of a positive x gives the text of 10 * x + d. */
  lemma NatToTextStep(x: nat, d: nat)
    requires x > 0 && d < 10
    ensures NatToText(10 * x + d) == NatToText(x) + [DigitChar(d)]
  {
  }

  /** Every canonical digit run is the text of its own value: NatToText is onto the canonical runs. */
  lemma {:induction false} TextOfValue(ds: string)
    requires Canonical(ds)
    ensures NatToText(DigitsValue(ds)) == ds
  {
    var n := |ds|;
    var p := ds[..n - 1];
    var last := ds[n - 1];
    assert DigitChar(DigitValue(last)) == last;
    if n == 1 {
      assert p == [];
      assert [last] == ds;
    } else {
      assert p[0] == ds[0];
      LeadingDigitPositive(p);
      TextOfValue(p);
      assert DigitsValue(ds) == 10 * DigitsValue(p) + DigitValue(last);
      NatToTextStep(DigitsValue(p), DigitValue(last));
      assert p + [last] == ds;
    }
  }

  /** A digit run followed by text that does not start with a digit is read up to its end. */
  lemma {:induction false} DigitRunStopsAtText(ds: string, rest: string)
    requires AllDigits(ds)
    requires rest == [] || !IsDigit(rest[0])
    ensures DigitRun(ds + rest) == |ds|
  {
    if ds != [] {
      assert (ds + rest)[1..] == ds[1..] + rest;
      DigitRunStopsAtText(ds[1..], rest);
    }
  }

  /** Reading back the text of a natural number gives the number and the text that follows it. */
  lemma {:induction false} ParseNatOfText(n: nat, rest: string)
    requires rest == [] || !IsDigit(rest[0])
    ensures ParseNat(NatToText(n) + rest) == Some((n, rest))
  {
    var t := NatToText(n);
    DigitRunStopsAtText(t, rest);
    assert (t + rest)[..|t|] == t && (t + rest)[|t|..] == rest;
  }

  /** Reading back the text of an integer gives the integer and the text that follows it. */
  lemma {:induction false} ParseIntOfText(i: int, rest: string)
    requires rest == [] || !IsDigit(rest[0])
    ensures ParseInt(IntToText(i) + rest) == Some((i, rest))
  {
    if i < 0 {
      ParseNegativeText(i, rest);
    } else {
      ParseNonNegativeText(i, rest);
    }
  }

  lemma {:induction false} ParseNegativeText(i: int, rest: string)
    requires i < 0
    requires rest == [] || !IsDigit(rest[0])
    ensures ParseInt(IntToText(i) + rest) == Some((i, rest))
  {
    ParseNatOfText(-i, rest);
    SignThenNat(NatToText(-i), -i, rest);
  }

  /** A '-' in front of the text of a positive number is read as its negation. */
  lemma SignThenNat(t: string, n: nat, rest: string)
    requires n > 0 && ParseNat(t + rest) == Some((n, rest))
    ensures ParseInt(("-" + t) + rest) == Some((-(n as int), rest))
  {
    var s := ("-" + t) + rest;
    assert s[0] == '-' && s[1..] == t + rest;
  }

  lemma {:induction false} ParseNonNegativeText(i: int, rest: string)
    requires i >= 0
    requires rest == [] || !IsDigit(rest[0])
    ensures ParseInt(IntToText(i) + rest) == Some((i, rest))
  {
    var t := NatToText(i);
    assert IntToText(i) + rest == t + rest;
    assert (t + rest)[0] == t[0] && IsDigit(t[0]);
    ParseNatOfText(i, rest);
  }

  /** What ParseNat accepts is exactly a number's text followed by text that does not start with a digit. */
  lemma {:induction false} ParseNatIsInverse(s: string)
    requires ParseNat(s).Some?
    ensures s == NatToText(ParseNat(s).value.0) + ParseNat(s).value.1
    ensures ParseNat(s).value.1 == [] || !IsDigit(ParseNat(s).value.1[0])
  {
    var k := DigitRun(s);
    TextOfValue(s[..k]);
    assert s == s[..k] + s[k..];
  }

  /** What ParseInt accepts is exactly an integer's text followed by text that does not start with a digit. */
  lemma {:induction false} ParseIntIsInverse(s: string)
    requires ParseInt(s).Some?
    ensures s == IntToText(ParseInt(s).value.0) + ParseInt(s).value.1
    ensures ParseInt(s).value.1 == [] || !IsDigit(ParseInt(s).value.1[0])
  {
    if |s| > 0 && s[0] == '-' {
      ParseNatIsInverse(s[1..]);
      assert s == "-" + s[1..];
    } else {
      ParseNatIsInverse(s);
    }
  }
}
