/**
 * One stat bar: a label showing the raw value followed by `%`, and a bar whose
 * width is the value clamped to the range 0..100.
 */
module StatBar {
  import opened Wrappers

  function Min(a: int, b: int): int { if a <= b then a else b }

  function Max(a: int, b: int): int { if a >= b then a else b }

  /** `Math.max(0, Math.min(100, value))`, the bar width in percent. */
  function Width(value: int): (w: int)
    ensures 0 <= w <= 100
    ensures 0 <= value <= 100 ==> w == value
    ensures value < 0 ==> w == 0
    ensures value > 100 ==> w == 100
  {
    Max(0, Min(100, value))
  }

  /** Clamping a width again changes nothing. */
  lemma WidthIdempotent(value: int)
    ensures Width(Width(value)) == Width(value)
  {
  }

  /** A larger value never gives a narrower bar. */
  lemma WidthMonotone(a: int, b: int)
    requires a <= b
    ensures Width(a) <= Width(b)
  {
  }

  // ---------------------------------------------------------------------------
  // The label `${value}%`

  predicate IsDigit(c: char) { '0' <= c <= '9' }

  function DigitChar(d: nat): (c: char)
    requires d < 10
    ensures IsDigit(c)
  {
    ('0' as int + d) as char
  }

  function DigitValue(c: char): (d: nat)
    requires IsDigit(c)
    ensures d < 10 && DigitChar(d) == c
  {
    c as int - '0' as int
  }

  predicate AllDigits(s: string)
  {
    forall k :: 0 <= k < |s| ==> IsDigit(s[k])
  }

  /** The decimal text of a natural number, without leading zeros. */
  function NatText(n: nat): (s: string)
    ensures |s| >= 1 && AllDigits(s)
    ensures |s| > 1 ==> s[0] != '0'
    decreases n
  {
    if n < 10 then [DigitChar(n)] else NatText(n / 10) + [DigitChar(n % 10)]
  }

  /** JavaScript's text for an integer-valued number: `-` then the digits of its magnitude. */
  function IntText(v: int): string
  {
    if v < 0 then "-" + NatText(-v) else NatText(v)
  }

  /** The text of the label, `${value}%`: the raw value, not the clamped width. */
  function Label(value: int): string
  {
    IntText(value) + "%"
  }

  /** The number a string of decimal digits denotes. */
  function ParseNat(s: string): nat
    requires AllDigits(s)
  {
    if s == [] then 0 else ParseNat(s[..|s| - 1]) * 10 + DigitValue(s[|s| - 1])
  }

  /** Reads back the value a label shows, if it is a label at all. */
  function ParseLabel(s: string): Option<int>
  {
    if |s| < 2 || s[|s| - 1] != '%' then None
    else
      var body := s[..|s| - 1];
      if body[0] == '-' then
        (if |body| >= 2 && AllDigits(body[1..]) then Some(0 - ParseNat(body[1..])) else None)
      else if AllDigits(body) then Some(ParseNat(body) as int)
      else None
  }

  lemma {:induction false} ParseNatText(n: nat)
    ensures ParseNat(NatText(n)) == n
    decreases n
  {
    if n >= 10 {
      var s := NatText(n);
      assert s[..|s| - 1] == NatText(n / 10);
      ParseNatText(n / 10);
    }
  }

  /** The label shows the raw value: it reads back as exactly that value. */
  lemma LabelShowsRawValue(value: int)
    ensures ParseLabel(Label(value)) == Some(value)
  {
    var s := Label(value);
    var body := IntText(value);
    assert s[..|s| - 1] == body;
    if value < 0 {
      var digits := NatText(-value);
      assert body == "-" + digits && body[1..] == digits;
      ParseNatText(-value);
    } else {
      assert body[0] != '-' by { assert IsDigit(body[0]); }
      ParseNatText(value);
    }
  }

  /** Out-of-range values are labelled differently from the width their bar is drawn at. */
  lemma LabelIsUnclamped(value: int)
    requires value < 0 || value > 100
    ensures Label(value) != Label(Width(value))
  {
    LabelShowsRawValue(value);
    LabelShowsRawValue(Width(value));
  }
}
