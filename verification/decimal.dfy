/**
 * Decimal text for 16-bit unsigned numbers: Rust's `str::parse::<u16>` and the
 * zero-padded `format!("{:04}", n)` the version features are written with.
 */
module Decimal {
  import opened Results

  /** Largest value of Rust's `u16`. */
  const U16Max: nat := 65535

  predicate IsDigit(c: char) { '0' <= c <= '9' }

  predicate AllDigits(s: string) {
    forall i :: 0 <= i < |s| ==> IsDigit(s[i])
  }

  function DigitValue(c: char): (d: nat)
    requires IsDigit(c)
    ensures d < 10
  {
    c as int - '0' as int
  }

  function DigitChar(d: nat): (c: char)
    requires d < 10
    ensures IsDigit(c) && DigitValue(c) == d
  {
    ('0' as int + d) as char
  }

  /** The number a run of ASCII digits spells, most significant digit first. */
  function Value(s: string): nat
    requires AllDigits(s)
    decreases |s|
  {
    if |s| == 0 then 0 else Value(s[..|s| - 1]) * 10 + DigitValue(s[|s| - 1])
  }

  /**
   * Rust's `str::parse::<u16>`: an optional leading `+`, then at least one ASCII digit,
   * and a value that fits in 16 bits. Anything else is a parse error (`None`).
   */
  function ParseU16(s: string): (r: Option<nat>)
    ensures r.Some? ==> r.value <= U16Max
    ensures r.Some? ==> |s| > 0
    ensures |s| > 0 && s[0] != '+' && !IsDigit(s[0]) ==> r.None?
    ensures forall i :: 0 < i < |s| && !IsDigit(s[i]) ==> r.None?
    ensures r.Some? && s[0] != '+' ==> AllDigits(s) && r.value == Value(s)
    ensures r.Some? && s[0] == '+' ==> AllDigits(s[1..]) && r.value == Value(s[1..])
    ensures |s| > 0 && AllDigits(s) && Value(s) <= U16Max ==> r == Some(Value(s))
    ensures r.Some? && s[0] == '+' ==> |s| >= 2
    ensures |s| >= 2 && s[0] == '+' && AllDigits(s[1..]) && Value(s[1..]) <= U16Max ==> r == Some(Value(s[1..]))
  {
    var digits := if |s| > 0 && s[0] == '+' then s[1..] else s;
    if |digits| == 0 || !AllDigits(digits) || Value(digits) > U16Max then None
    else Some(Value(digits))
  }

  /** Shortest decimal spelling of `n` (no leading zeros), as Rust's `Display` writes it. */
  function ToDecimal(n: nat): (r: string)
    ensures |r| >= 1 && AllDigits(r)
    ensures Value(r) == n
    ensures |r| > 1 ==> r[0] != '0'
    decreases n
  {
    if n < 10 then [DigitChar(n)]
    else
      var r := ToDecimal(n / 10) + [DigitChar(n % 10)];
      assert r[..|r| - 1] == ToDecimal(n / 10);
      r
  }

  function Zeros(k: nat): (r: string)
    ensures |r| == k && AllDigits(r)
  {
    seq(k, _ => '0')
  }

  /** `format!("{:0w}", ..)` applied to a digit string: zeros prepended up to width `w`. */
  function PadZeros(s: string, width: nat): (r: string)
    ensures |r| == if |s| < width then width else |s|
    ensures r[|r| - |s|..] == s
    ensures forall i :: 0 <= i < |r| - |s| ==> r[i] == '0'
  {
    if |s| < width then Zeros(width - |s|) + s else s
  }

  lemma {:induction false} ValueOfZeros(k: nat)
    ensures Value(Zeros(k)) == 0
    decreases k
  {
    if k > 0 {
      assert Zeros(k)[..k - 1] == Zeros(k - 1);
      ValueOfZeros(k - 1);
    }
  }

  /** Leading zeros do not change the value a digit string spells. */
  lemma {:induction false} ValueIgnoresLeadingZeros(k: nat, s: string)
    requires AllDigits(s)
    ensures AllDigits(Zeros(k) + s)
    ensures Value(Zeros(k) + s) == Value(s)
    decreases |s|
  {
    var z := Zeros(k) + s;
    assert AllDigits(z);
    if |s| == 0 {
      assert z == Zeros(k);
      ValueOfZeros(k);
    } else {
      assert z[..|z| - 1] == Zeros(k) + s[..|s| - 1];
      ValueIgnoresLeadingZeros(k, s[..|s| - 1]);
    }
  }

  /** Parsing the zero-padded decimal text of a 16-bit value gives the value back. */
  lemma PaddedDecimalRoundTrip(v: nat, width: nat)
    requires v <= U16Max
    ensures AllDigits(PadZeros(ToDecimal(v), width))
    ensures ParseU16(PadZeros(ToDecimal(v), width)) == Some(v)
  {
    var d := ToDecimal(v);
    var z := PadZeros(d, width);
    if |d| < width {
      ValueIgnoresLeadingZeros(width - |d|, d);
      assert z == Zeros(width - |d|) + d;
    }
    assert AllDigits(z) && Value(z) == v;
    assert IsDigit(z[0]);
    assert z[0] != '+';
  }

  /** Parsing the decimal text of a 16-bit value gives the value back. */
  lemma DecimalRoundTrip(v: nat)
    requires v <= U16Max
    ensures ParseU16(ToDecimal(v)) == Some(v)
  {
    PaddedDecimalRoundTrip(v, 0);
  }

  lemma DecimalStep(q: nat, d: nat)
    requires q >= 1 && d < 10
    ensures ToDecimal(10 * q + d) == ToDecimal(q) + [DigitChar(d)]
  {
  }

  /** Decimal text of version 15.1, encoded as 1501. */
  lemma Decimal1501()
    ensures ToDecimal(1501) == "1501"
  {
    DecimalStep(150, 1);
    DecimalStep(15, 0);
    DecimalStep(1, 5);
  }

  /** Decimal text of version 1.0, encoded as 100. */
  lemma Decimal100()
    ensures ToDecimal(100) == "100"
  {
    DecimalStep(10, 0);
    DecimalStep(1, 0);
  }
}
