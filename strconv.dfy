/**
  Decimal conversions as Go's `strconv.Atoi` and `strconv.Itoa` perform them
  on a 64-bit platform.

  `Atoi` accepts an optional `+` or `-` sign followed by one or more ASCII
  digits and fails on anything else (no spaces, no underscores, no empty
  digit string) and on values outside the 64-bit signed range. `Itoa`
  renders the canonical form: no sign for non-negative values, no leading
  zeros. The two are inverse only on canonical strings: `"07"` parses to 7,
  which renders as `"7"`.
*/
module Strconv {
  import opened Wrappers

  const MinInt64: int := -0x8000_0000_0000_0000
  const MaxInt64: int := 0x7FFF_FFFF_FFFF_FFFF

  predicate IsDigit(c: char)
  {
    '0' <= c <= '9'
  }

  predicate AllDigits(s: string)
  {
    forall i :: 0 <= i < |s| ==> IsDigit(s[i])
  }

  /** The value of a string of decimal digits, most significant first. */
  function DecimalValue(s: string): nat
    requires AllDigits(s)
  {
    if s == [] then 0
    else DecimalValue(s[..|s| - 1]) * 10 + (s[|s| - 1] as int - '0' as int)
  }

  /** `strconv.Atoi`: `None` stands for the syntax and range errors. */
  function Atoi(s: string): (r: Option<int>)
    ensures r.Some? ==> MinInt64 <= r.value <= MaxInt64
    ensures r.Some? ==> s != [] && (IsDigit(s[0]) || s[0] == '-' || s[0] == '+')
  {
    var digits := if |s| > 0 && (s[0] == '-' || s[0] == '+') then s[1..] else s;
    if digits == [] || !AllDigits(digits) then None
    else
      var v: int := DecimalValue(digits);
      var n := if s[0] == '-' then -v else v;
      if MinInt64 <= n <= MaxInt64 then Some(n) else None
  }

  function DigitChar(d: nat): (c: char)
    requires d < 10
    ensures IsDigit(c) && c as int - '0' as int == d
  {
    ('0' as int + d) as char
  }

  /** The decimal digits of `n`, without leading zeros. */
  function NatDigits(n: nat): (s: string)
    ensures s != [] && AllDigits(s)
  {
    if n < 10 then [DigitChar(n)] else NatDigits(n / 10) + [DigitChar(n % 10)]
  }

  /** `strconv.Itoa`. */
  function Itoa(n: int): string
  {
    if n < 0 then "-" + NatDigits(-n) else NatDigits(n)
  }

  lemma {:induction false} NatDigitsValue(n: nat)
    ensures DecimalValue(NatDigits(n)) == n
  {
    var s := NatDigits(n);
    if n >= 10 {
      NatDigitsValue(n / 10);
      assert s[..|s| - 1] == NatDigits(n / 10);
    }
  }

  /** Rendering a 64-bit integer and parsing it back gives the integer. */
  lemma AtoiItoa(n: int)
    requires MinInt64 <= n <= MaxInt64
    ensures Atoi(Itoa(n)) == Some(n)
  {
    var s := Itoa(n);
    if n < 0 {
      NatDigitsValue(-n);
      assert s[0] == '-' && s[1..] == NatDigits(-n);
    } else {
      NatDigitsValue(n);
      assert IsDigit(s[0]);
    }
  }

  /** Distinct integers render as distinct keys. */
  lemma ItoaInjective(a: int, b: int)
    requires MinInt64 <= a <= MaxInt64 && MinInt64 <= b <= MaxInt64
    requires Itoa(a) == Itoa(b)
    ensures a == b
  {
    AtoiItoa(a);
    AtoiItoa(b);
  }

  /**
    Parsing is not inverted by rendering: a key with a leading zero or a plus
    sign parses, but renders back as a different string.
  */
  lemma NonCanonicalKeys()
    ensures Atoi("07") == Some(7) && Itoa(7) == "7"
    ensures Atoi("+7") == Some(7)
    ensures Atoi("-0") == Some(0) && Itoa(0) == "0"
  {
    assert DecimalValue("7") == 7 by { assert "7"[..0] == ""; }
    assert DecimalValue("0") == 0 by { assert "0"[..0] == ""; }
    assert DecimalValue("07") == 7 by { assert "07"[..1] == "0"; }
    assert "+7"[1..] == "7";
    assert "-0"[1..] == "0";
  }

  /** `k` zero digits. */
  function Zeros(k: nat): (s: string)
    ensures |s| == k && AllDigits(s)
  {
    seq(k, _ => '0')
  }

  function Abs(n: int): nat
  {
    if n < 0 then -n else n
  }

  /**
    `s` spells the 64-bit integer `n` as `Atoi` reads it: an optional sign
    (a minus only for a non-positive value), any number of leading zeros,
    then the canonical digits of the magnitude.
  */
  ghost predicate Spells(s: string, n: int)
  {
    && MinInt64 <= n <= MaxInt64
    && (|| (n >= 0 && exists k: nat :: s == Zeros(k) + NatDigits(Abs(n)))
        || (n >= 0 && exists k: nat :: s == "+" + (Zeros(k) + NatDigits(Abs(n))))
        || (n <= 0 && exists k: nat :: s == "-" + (Zeros(k) + NatDigits(Abs(n)))))
  }

  lemma {:induction false} ZerosValue(k: nat)
    ensures DecimalValue(Zeros(k)) == 0
  {
    if k > 0 {
      assert Zeros(k)[..k - 1] == Zeros(k - 1);
      ZerosValue(k - 1);
    }
  }

  /** Leading zeros do not change a digit string's value. */
  lemma {:induction false} LeadingZerosValue(k: nat, t: string)
    requires AllDigits(t)
    ensures AllDigits(Zeros(k) + t) && DecimalValue(Zeros(k) + t) == DecimalValue(t)
    decreases |t|
  {
    var u := Zeros(k) + t;
    if t == [] {
      assert u == Zeros(k);
      ZerosValue(k);
    } else {
      assert u[..|u| - 1] == Zeros(k) + t[..|t| - 1];
      LeadingZerosValue(k, t[..|t| - 1]);
    }
  }

  /** Appending a digit to the canonical digits of a positive `v`. */
  lemma NatDigitsAppend(v: nat, digit: nat)
    requires v > 0 && digit < 10
    ensures NatDigits(v * 10 + digit) == NatDigits(v) + [DigitChar(digit)]
  {
    var w := v * 10 + digit;
    assert w >= 10 && w / 10 == v && w % 10 == digit;
  }

  /** Every non-empty digit string is `k` leading zeros followed by the canonical digits of its value. */
  lemma {:induction false} DigitsCanonical(d: string) returns (k: nat)
    requires d != [] && AllDigits(d)
    ensures d == Zeros(k) + NatDigits(DecimalValue(d))
    decreases |d|
  {
    var init, c := d[..|d| - 1], d[|d| - 1];
    assert d == init + [c];
    var digit := c as int - '0' as int;
    assert DigitChar(digit) == c;
    if init == [] {
      k := 0;
      assert NatDigits(DecimalValue(d)) == [c];
    } else {
      var j := DigitsCanonical(init);
      var v := DecimalValue(init);
      assert DecimalValue(d) == v * 10 + digit;
      if v == 0 {
        k := j + 1;
        assert NatDigits(DecimalValue(d)) == [c];
        assert init == Zeros(j) + "0";
        assert Zeros(j) + "0" == Zeros(k);
      } else {
        k := j;
        NatDigitsAppend(v, digit);
      }
    }
  }

  /** `Atoi` of a digit string with or without a sign. */
  lemma AtoiOfSigned(d: string)
    requires d != [] && AllDigits(d)
    ensures Atoi(d) == (if DecimalValue(d) <= MaxInt64 then Some(DecimalValue(d)) else None)
    ensures Atoi("+" + d) == Atoi(d)
    ensures var v: int := DecimalValue(d);
      Atoi("-" + d) == (if MinInt64 <= -v then Some(-v) else None)
  {
    assert IsDigit(d[0]);
    assert ("+" + d)[1..] == d && ("-" + d)[1..] == d;
  }

  /** A digit string of magnitude `|n|`, with the sign `n` allows, parses to `n`. */
  lemma AtoiOfMagnitude(d: string, n: int)
    requires d != [] && AllDigits(d) && DecimalValue(d) == Abs(n) && MinInt64 <= n <= MaxInt64
    ensures n >= 0 ==> Atoi(d) == Some(n) && Atoi("+" + d) == Some(n)
    ensures n <= 0 ==> Atoi("-" + d) == Some(n)
  {
    AtoiOfSigned(d);
  }

  /** Leading zeros and the canonical digits of `m` form a digit string of value `m`. */
  lemma PaddedDigits(m: nat, k: nat)
    ensures var d := Zeros(k) + NatDigits(m);
      d != [] && AllDigits(d) && DecimalValue(d) == m
  {
    LeadingZerosValue(k, NatDigits(m));
    NatDigitsValue(m);
  }

  /** Spelled strings parse to the integer they spell. */
  lemma SpellsParses(s: string, n: int)
    requires Spells(s, n)
    ensures Atoi(s) == Some(n)
  {
    var k: nat;
    if n >= 0 && exists k: nat :: s == Zeros(k) + NatDigits(Abs(n)) {
      k :| s == Zeros(k) + NatDigits(Abs(n));
    } else if n >= 0 && exists k: nat :: s == "+" + (Zeros(k) + NatDigits(Abs(n))) {
      k :| s == "+" + (Zeros(k) + NatDigits(Abs(n)));
    } else {
      k :| s == "-" + (Zeros(k) + NatDigits(Abs(n)));
    }
    PaddedDigits(Abs(n), k);
    AtoiOfMagnitude(Zeros(k) + NatDigits(Abs(n)), n);
  }

  /** What an accepted string consists of: an optional sign, then digits of the magnitude. */
  lemma AtoiAccepted(s: string)
    requires Atoi(s).Some?
    ensures var d := if s[0] == '-' || s[0] == '+' then s[1..] else s;
      && d != [] && AllDigits(d)
      && Abs(Atoi(s).value) == DecimalValue(d)
      && (s[0] == '-' ==> s == "-" + d && Atoi(s).value <= 0)
      && (s[0] == '+' ==> s == "+" + d && Atoi(s).value >= 0)
      && (s[0] != '-' && s[0] != '+' ==> s == d && Atoi(s).value >= 0)
  {
  }

  /** A string `Atoi` accepts spells the integer it returns. */
  lemma ParsedSpells(s: string)
    requires Atoi(s).Some?
    ensures Spells(s, Atoi(s).value)
  {
    var n := Atoi(s).value;
    AtoiAccepted(s);
    var d := if s[0] == '-' || s[0] == '+' then s[1..] else s;
    var k := DigitsCanonical(d);
    assert d == Zeros(k) + NatDigits(Abs(n));
  }

  /**
    Exactly which keys `Atoi` accepts and what they denote: `Atoi(s)` is `n`
    precisely when `s` spells `n`, and it fails precisely when `s` spells no
    integer.
  */
  lemma AtoiExactly(s: string, n: int)
    ensures Atoi(s) == Some(n) <==> Spells(s, n)
    ensures Atoi(s).None? <==> forall m :: !Spells(s, m)
  {
    if Atoi(s).Some? {
      ParsedSpells(s);
    }
    if Spells(s, n) {
      SpellsParses(s, n);
    }
    forall m | Spells(s, m) ensures Atoi(s) == Some(m) {
      SpellsParses(s, m);
    }
  }

  /** Inputs `Atoi` rejects: a sign without digits, stray characters. */
  lemma AtoiRejects()
    ensures Atoi("") == None && Atoi("-") == None && Atoi("+") == None
    ensures Atoi("7a") == None && Atoi(" 7") == None && Atoi("1_0") == None
  {
    assert !AllDigits("7a") by { assert !IsDigit("7a"[1]); }
    assert !AllDigits("1_0") by { assert !IsDigit("1_0"[1]); }
  }
}
