/** A small decimal-number grammar standing in for Python's `float(...)` and
    pandas' `pd.to_numeric(...)` on the strings the cafe export holds:
    an optional sign, then digits with at most one decimal point, at least one digit. */
module Decimal {
  import opened Wrappers
  import opened Text

  predicate IsDigit(c: char) { '0' <= c <= '9' }

  predicate AllDigits(s: string) { forall k | 0 <= k < |s| :: IsDigit(s[k]) }

  function DigitValue(c: char): nat
    requires IsDigit(c)
  {
    (c as int - '0' as int) as nat
  }

  function DigitChar(d: nat): (c: char)
    requires d < 10
    ensures IsDigit(c) && DigitValue(c) == d
  {
    ('0' as int + d) as char
  }

  /** The natural number a string of decimal digits denotes (most significant first). */
  function DigitsValue(s: string): nat
    requires AllDigits(s)
  {
    if s == [] then 0 else DigitsValue(s[..|s| - 1]) * 10 + DigitValue(s[|s| - 1])
  }

  function Pow10(k: nat): (p: nat)
    ensures p >= 1
  {
    if k == 0 then 1 else 10 * Pow10(k - 1)
  }

  /** The number of digits `s` starts with. */
  function LeadingDigits(s: string): (n: nat)
    ensures n <= |s|
    ensures AllDigits(s[..n])
    ensures n == |s| || !IsDigit(s[n])
  {
    if s != [] && IsDigit(s[0]) then 1 + LeadingDigits(s[1..]) else 0
  }

  /** An unsigned decimal: `ddd`, `ddd.`, `ddd.ddd` or `.ddd`. */
  function ParseUnsigned(s: string): (r: Option<real>)
    ensures r.Some? ==> r.value >= 0.0
    ensures r.Some? ==> forall k | 0 <= k < |s| :: IsDigit(s[k]) || s[k] == '.'
  {
    var k := LeadingDigits(s);
    if k == |s| then
      if k == 0 then None else Some(DigitsValue(s) as real)
    else if s[k] != '.' then None
    else
      var frac := s[k + 1..];
      if !AllDigits(frac) || (k == 0 && frac == []) then None
      else Some(DecimalValue(s[..k], frac))
  }

  /** The value of `units.frac` written in decimal digits. */
  function DecimalValue(units: string, frac: string): (x: real)
    requires AllDigits(units) && AllDigits(frac)
    ensures x >= 0.0
  {
    DigitsValue(units) as real + DigitsValue(frac) as real / Pow10(|frac|) as real
  }

  /** A decimal with an optional leading `+` or `-`; `None` when the string is not one.
      In particular a parsed string holds no currency symbol and no thousands separator. */
  function ParseNumber(s: string): (r: Option<real>)
    ensures r.Some? ==> forall k | 0 <= k < |s| :: IsDigit(s[k]) || s[k] == '.' || s[k] == '+' || s[k] == '-'
  {
    if s != [] && (s[0] == '+' || s[0] == '-') then
      match ParseUnsigned(s[1..])
      case None => None
      case Some(x) => Some(if s[0] == '-' then -x else x)
    else ParseUnsigned(s)
  }

  /** The unsigned strings `float()` accepts among those the export holds: digits with at
      most one decimal point, and at least one digit. */
  predicate UnsignedShaped(b: string) {
    (forall k | 0 <= k < |b| :: IsDigit(b[k]) || b[k] == '.')
    && Count(b, '.') <= 1
    && (exists k | 0 <= k < |b| :: IsDigit(b[k]))
  }

  /** An optional `+` or `-`, then an unsigned number. */
  predicate NumberShaped(s: string) {
    if s != [] && (s[0] == '+' || s[0] == '-') then UnsignedShaped(s[1..]) else UnsignedShaped(s)
  }

  /** `ParseNumber` accepts exactly the number-shaped strings: `"1.2.3"`, `"+"`, `"."`,
      `"1-2"` and the empty string are refused. */
  lemma ParseNumberAccepts(s: string)
    ensures ParseNumber(s).Some? <==> NumberShaped(s)
  {
    if s != [] && (s[0] == '+' || s[0] == '-') {
      UnsignedAccepts(s[1..]);
    } else {
      UnsignedAccepts(s);
    }
  }

  lemma UnsignedAccepts(b: string)
    ensures ParseUnsigned(b).Some? <==> UnsignedShaped(b)
  {
    var k := LeadingDigits(b);
    var units := b[..k];
    assert b == units + b[k..];
    assert '.' !in units by {
      forall i | 0 <= i < |units| ensures units[i] != '.' { assert IsDigit(units[i]); }
    }
    CountAbsent(units, '.');
    CountConcat(units, b[k..], '.');
    if k == |b| {
      if k > 0 {
        assert IsDigit(b[0]);
      }
    } else if b[k] != '.' {
      assert !(IsDigit(b[k]) || b[k] == '.');
    } else {
      var frac := b[k + 1..];
      assert b[k..] == [b[k]] + frac;
      CountConcat([b[k]], frac, '.');
      CountAbsent(frac, '.');
      assert Count(b, '.') == 1 + Count(frac, '.');
      if ParseUnsigned(b).Some? {
        assert AllDigits(frac);
        assert '.' !in frac by {
          forall i | 0 <= i < |frac| ensures frac[i] != '.' { assert IsDigit(frac[i]); }
        }
        forall i | 0 <= i < |b| ensures IsDigit(b[i]) || b[i] == '.' {
          if i > k {
            assert b[i] == frac[i - k - 1];
          }
        }
        if k > 0 {
          assert IsDigit(b[0]);
        } else {
          assert IsDigit(b[k + 1]);
        }
      }
      if UnsignedShaped(b) {
        forall i | 0 <= i < |frac| ensures IsDigit(frac[i]) {
          assert frac[i] == b[k + 1 + i];
          assert frac[i] in frac;
        }
      }
    }
  }

  /** A string that parses contains neither `,` nor `$`. */
  lemma ParsedHasNoSeparators(s: string)
    requires ParseNumber(s).Some?
    ensures ',' !in s && '$' !in s
  {
    forall k | 0 <= k < |s|
      ensures s[k] != ',' && s[k] != '$'
    {
    }
  }

  /** The decimal digits of `n`, without leading zeros (`"0"` for zero). */
  function NatToDigits(n: nat): (s: string)
    ensures |s| >= 1 && AllDigits(s)
    decreases n
  {
    if n < 10 then [DigitChar(n)] else NatToDigits(n / 10) + [DigitChar(n % 10)]
  }

  /** Digits denote the number they were printed from. */
  lemma {:induction false} DigitsOfNat(n: nat)
    ensures DigitsValue(NatToDigits(n)) == n
    decreases n
  {
    var s := NatToDigits(n);
    if n >= 10 {
      DigitsOfNat(n / 10);
      assert s[..|s| - 1] == NatToDigits(n / 10);
    } else {
      assert s[..0] == [];
    }
  }

  /** The two decimal digits of a number below 100, with a leading zero. */
  function TwoDigits(m: nat): (s: string)
    requires m < 100
    ensures |s| == 2 && AllDigits(s)
  {
    [DigitChar(m / 10), DigitChar(m % 10)]
  }

  /** An amount in cents printed as `units.cc`, the way the export writes prices. */
  function FormatCents(c: nat): (s: string)
    ensures |s| >= 4 && s[|s| - 3] == '.'
  {
    NatToDigits(c / 100) + "." + TwoDigits(c % 100)
  }

  /** Printing a natural number and parsing it back gives the number. */
  lemma NatRoundTrip(n: nat)
    ensures ParseNumber(NatToDigits(n)) == Some(n as real)
  {
    var s := NatToDigits(n);
    assert LeadingDigits(s) == |s| by { LeadingDigitsAll(s); }
    DigitsOfNat(n);
  }

  /** Printing an amount of cents and parsing it back gives the amount in units. */
  lemma CentsRoundTrip(c: nat)
    ensures ParseNumber(FormatCents(c)) == Some(c as real / 100.0)
  {
    var q, m := c / 100, c % 100;
    assert FormatCents(c) == NatToDigits(q) + "." + TwoDigits(m);
    assert IsDigit(FormatCents(c)[0]);
    PointSplit(NatToDigits(q), TwoDigits(m));
    CentsValue(q, m);
    assert 100 * q + m == c;
  }

  /** The integer part and the two fraction digits of an amount add up to it. */
  lemma CentsValue(q: nat, m: nat)
    requires m < 100
    ensures DecimalValue(NatToDigits(q), TwoDigits(m)) == (100 * q + m) as real / 100.0
  {
    DigitsOfNat(q);
    TwoDigitsValue(m);
  }

  /** `ddd.ddd`, `ddd.` and `.ddd` parse to the integer part plus the fraction. */
  lemma PointSplit(units: string, frac: string)
    requires AllDigits(units) && AllDigits(frac) && (units != [] || frac != [])
    ensures ParseUnsigned(units + "." + frac) == Some(DecimalValue(units, frac))
  {
    var s := units + "." + frac;
    LeadingDigitsPrefix(units, "." + frac);
    assert units + ("." + frac) == s;
    var k := LeadingDigits(s);
    assert k == |units| && k < |s|;
    assert s[k] == '.';
    assert s[..k] == units;
    assert s[k + 1..] == frac;
  }

  /** `x`, or `-x` after a minus sign. */
  function Signed(sign: string, x: real): real {
    if sign == "-" then -x else x
  }

  /** What `ParseNumber` accepts, and the value it gives: an optional sign, then either
      digits alone or digits with one decimal point and a digit on at least one side. */
  lemma ParseNumberForms(sign: string, units: string, frac: string)
    requires sign == "" || sign == "+" || sign == "-"
    requires AllDigits(units) && AllDigits(frac)
    ensures units != [] ==> ParseNumber(sign + units) == Some(Signed(sign, DigitsValue(units) as real))
    ensures units != [] || frac != [] ==>
      ParseNumber(sign + units + "." + frac) == Some(Signed(sign, DecimalValue(units, frac)))
  {
    if units != [] {
      SignedDigits(sign, units);
    }
    if units != [] || frac != [] {
      SignedPoint(sign, units, frac);
    }
  }

  lemma SignedDigits(sign: string, units: string)
    requires sign == "" || sign == "+" || sign == "-"
    requires AllDigits(units) && units != []
    ensures ParseNumber(sign + units) == Some(Signed(sign, DigitsValue(units) as real))
  {
    LeadingDigitsAll(units);
    SignThenBody(sign, units);
  }

  lemma SignedPoint(sign: string, units: string, frac: string)
    requires sign == "" || sign == "+" || sign == "-"
    requires AllDigits(units) && AllDigits(frac) && (units != [] || frac != [])
    ensures ParseNumber(sign + units + "." + frac) == Some(Signed(sign, DecimalValue(units, frac)))
  {
    var body := units + "." + frac;
    PointSplit(units, frac);
    assert body[0] == if units != [] then units[0] else '.';
    SignThenBody(sign, body);
    assert sign + units + "." + frac == sign + body;
  }

  /** A sign in front of an unsigned body negates or keeps the body's value. */
  lemma SignThenBody(sign: string, body: string)
    requires sign == "" || sign == "+" || sign == "-"
    requires body != [] && body[0] != '+' && body[0] != '-'
    ensures ParseNumber(sign + body) ==
      match ParseUnsigned(body)
      case None => None
      case Some(x) => Some(Signed(sign, x))
  {
    if sign == "" {
      assert sign + body == body;
    } else {
      assert (sign + body)[1..] == body;
    }
  }

  /** Two digits denote the number below 100 they were printed from. */
  lemma TwoDigitsValue(m: nat)
    requires m < 100
    ensures DigitsValue(TwoDigits(m)) == m && Pow10(|TwoDigits(m)|) == 100
  {
    var hi, lo := DigitChar(m / 10), DigitChar(m % 10);
    var frac := TwoDigits(m);
    assert frac[..|frac| - 1] == [hi] && [hi][..0] == [];
    assert DigitsValue([hi]) == m / 10;
    assert DigitsValue(frac) == DigitsValue([hi]) * 10 + DigitValue(lo);
  }

  lemma {:induction false} LeadingDigitsAll(s: string)
    requires AllDigits(s)
    ensures LeadingDigits(s) == |s|
  {
    if s != [] {
      LeadingDigitsAll(s[1..]);
    }
  }

  lemma {:induction false} LeadingDigitsPrefix(a: string, b: string)
    requires AllDigits(a)
    requires b != [] && !IsDigit(b[0])
    ensures LeadingDigits(a + b) == |a|
  {
    if a == [] {
      assert a + b == b;
    } else {
      assert (a + b)[1..] == a[1..] + b;
      LeadingDigitsPrefix(a[1..], b);
    }
  }
}
