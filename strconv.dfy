/**
 * The parts of Go's `strconv` package the address discovery uses: signed
 * integer parsing in base 10 and 16, and the decimal and hexadecimal
 * renderings that parsing inverts.
 */
module Strconv {
  import opened Wrappers
  import opened Ints

  /** The value strconv gives a digit character: 0-9, then letters of either case from 10; 36 for anything else. */
  function DigitValue(c: char): (d: nat)
    ensures d <= 36
    ensures d < 10 <==> '0' <= c <= '9'
  {
    if '0' <= c <= '9' then c as int - '0' as int
    else if 'a' <= c <= 'z' then c as int - 'a' as int + 10
    else if 'A' <= c <= 'Z' then c as int - 'A' as int + 10
    else 36
  }

  predicate AllDigits(ds: string, base: nat)
  {
    forall c :: c in ds ==> DigitValue(c) < base
  }

  /** The value of a digit string, most significant digit first. */
  function Magnitude(ds: string, base: nat): nat
    decreases |ds|
  {
    if ds == [] then 0 else Magnitude(ds[..|ds| - 1], base) * base + DigitValue(ds[|ds| - 1])
  }

  lemma MagnitudeSnoc(ds: string, c: char, base: nat)
    ensures Magnitude(ds + [c], base) == Magnitude(ds, base) * base + DigitValue(c)
  {
    assert (ds + [c])[..|ds|] == ds;
  }

  /**
   * The digit loop of strconv: the magnitude of `ds`, read most significant
   * digit first, or None at the first character that is not a digit of `base`.
   */
  function Digits(ds: string, base: nat): Option<nat>
    decreases |ds|
  {
    if ds == [] then Some(0)
    else match Digits(ds[..|ds| - 1], base)
      case None => None
      case Some(m) =>
        var d := DigitValue(ds[|ds| - 1]);
        if d < base then Some(m * base + d) else None
  }

  /** The digit loop accepts exactly the digit strings, and gives their magnitude. */
  lemma {:induction false} DigitsValue(ds: string, base: nat)
    ensures Digits(ds, base) == if AllDigits(ds, base) then Some(Magnitude(ds, base)) else None
    decreases |ds|
  {
    if ds != [] {
      var init, last := ds[..|ds| - 1], ds[|ds| - 1];
      DigitsValue(init, base);
      assert ds == init + [last];
      assert AllDigits(ds, base) <==> AllDigits(init, base) && DigitValue(last) < base;
    }
  }

  /**
   * Go's strconv.ParseInt(s, base, 64): an optional sign, then at least one
   * digit below `base`, with a magnitude that fits a signed 64-bit integer.
   * The error (syntax or range) is collapsed to None.
   */
  function ParseInt(s: string, base: nat): (r: Option<int>)
    requires base == 10 || base == 16
    ensures r.Some? ==> -TWO63 <= r.value < TWO63
  {
    if s == [] then None
    else
      var neg := s[0] == '-';
      var ds := if s[0] == '+' || s[0] == '-' then s[1..] else s;
      if ds == [] then None
      else match Digits(ds, base)
        case None => None
        case Some(m) =>
          if (!neg && m >= TWO63) || (neg && m > TWO63) then None
          else
            var mi: int := m;
            var v: int := if neg then -mi else mi;
            Some(v)
  }

  /** What ParseInt accepts: an optional sign followed by one or more digits of the base. */
  lemma ParseIntAccepts(s: string, base: nat)
    requires base == 10 || base == 16
    ensures ParseInt(s, base).Some? ==>
      s != [] && var ds := if s[0] == '+' || s[0] == '-' then s[1..] else s;
        ds != [] && AllDigits(ds, base)
  {
    if s != [] {
      DigitsValue(if s[0] == '+' || s[0] == '-' then s[1..] else s, base);
    }
  }

  /** Go's strconv.Atoi on a 64-bit platform, which is ParseInt(s, 10, 64). */
  function Atoi(s: string): Option<int>
  {
    ParseInt(s, 10)
  }

  function DecimalDigit(d: nat): (c: char)
    requires d < 10
    ensures DigitValue(c) == d
  {
    ('0' as int + d) as char
  }

  /** strconv.Itoa of a non-negative number: its decimal digits, no sign, no leading zeros. */
  function FormatDecimal(n: nat): (s: string)
    ensures s != [] && AllDigits(s, 10)
  {
    if n < 10 then [DecimalDigit(n)] else FormatDecimal(n / 10) + [DecimalDigit(n % 10)]
  }

  lemma {:induction false} FormatDecimalMagnitude(n: nat)
    ensures Magnitude(FormatDecimal(n), 10) == n
  {
    if n >= 10 {
      FormatDecimalMagnitude(n / 10);
      MagnitudeSnoc(FormatDecimal(n / 10), DecimalDigit(n % 10), 10);
    }
  }

  /** Digits alone, with no sign, parse to their magnitude when it fits. */
  lemma ParseIntOfDigits(ds: string, base: nat)
    requires base == 10 || base == 16
    requires ds != [] && AllDigits(ds, base) && Magnitude(ds, base) < TWO63
    ensures ParseInt(ds, base) == Some(Magnitude(ds, base))
  {
    assert DigitValue(ds[0]) < base;
    DigitsValue(ds, base);
  }

  /** Atoi reads back every decimal rendering that fits a signed 64-bit integer. */
  lemma AtoiFormatDecimal(n: nat)
    requires n < TWO63
    ensures Atoi(FormatDecimal(n)) == Some(n)
  {
    FormatDecimalMagnitude(n);
    ParseIntOfDigits(FormatDecimal(n), 10);
  }

  /** An upper-case hexadecimal digit, as the kernel prints them. */
  function HexDigit(d: nat): (c: char)
    requires d < 16
    ensures DigitValue(c) == d
  {
    if d < 10 then DecimalDigit(d) else ('A' as int + d - 10) as char
  }

  /** The two-digit hexadecimal rendering of a byte (Go's "%02X"). */
  function Hex2(b: uint8): (s: string)
    ensures |s| == 2 && AllDigits(s, 16)
  {
    [HexDigit(b / 16), HexDigit(b % 16)]
  }

  lemma MagnitudeHex2(ds: string, b: uint8)
    ensures Magnitude(ds + Hex2(b), 16) == Magnitude(ds, 16) * 256 + b
  {
    var h := Hex2(b);
    assert ds + h == (ds + [h[0]]) + [h[1]];
    MagnitudeSnoc(ds + [h[0]], h[1], 16);
    MagnitudeSnoc(ds, h[0], 16);
  }
}
