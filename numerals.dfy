/** The numerals the printer of detail/codegen/c0/runtime.c writes with
   `printf`: `%zx` (lower-case hexadecimal, no leading zeros) and `%ld`
   (signed decimal).  Each comes with the reading that inverts it. */
module Numerals {

  const HexDigits: string := "0123456789abcdef"

  /** The digit character for `d`. */
  function DigitChar(d: nat): char
    requires d < 16
  {
    HexDigits[d]
  }

  /** The value of a digit character, or -1 for any other character. */
  function DigitValue(c: char): int {
    if '0' <= c <= '9' then c as int - '0' as int
    else if 'a' <= c <= 'f' then c as int - 'a' as int + 10
    else -1
  }

  /** The digits of `v` in base `base`, most significant first.  The
      numeral is canonical: it has no leading zero unless it is `0`. */
  function Digits(v: nat, base: nat): (s: string)
    requires 2 <= base <= 16
    ensures |s| >= 1 && (v < base <==> |s| == 1)
    ensures s[0] == '0' ==> v == 0
    ensures forall i :: 0 <= i < |s| ==> 0 <= DigitValue(s[i]) < base
    decreases v
  {
    DigitRoundTrip(v % base);
    if v < base then [DigitChar(v)]
    else
      DivLess(v, base);
      Digits(v / base, base) + [DigitChar(v % base)]
  }

  /** Reads a numeral in base `base`. */
  function Value(s: string, base: nat): int
    decreases |s|
  {
    if |s| == 0 then 0 else Value(s[..|s| - 1], base) * base + DigitValue(s[|s| - 1])
  }

  /** `%zx` of an unsigned word. */
  function Hex(v: nat): string {
    Digits(v, 16)
  }

  /** `%ld` of a signed integer. */
  function Decimal(v: int): (s: string)
    ensures |s| >= 1 && (s[0] == '-' <==> v < 0)
  {
    if v < 0 then "-" + Digits(-v, 10) else Digits(v, 10)
  }

  /** Reads a signed decimal numeral. */
  function ParseDecimal(s: string): int {
    if |s| > 0 && s[0] == '-' then -Value(s[1..], 10) else Value(s, 10)
  }

  // ----- lemmas --------------------------------------------------------------

  /** Every digit character reads back as its value. */
  lemma DigitRoundTrip(d: nat)
    requires d < 16
    ensures DigitValue(DigitChar(d)) == d
  {
    if d < 10 {
      assert HexDigits[..10] == "0123456789";
      assert DigitChar(d) == HexDigits[..10][d];
    } else {
      assert HexDigits[10..] == "abcdef";
      assert DigitChar(d) == HexDigits[10..][d - 10];
    }
  }

  /** Reading the digits of `v` gives back `v`. */
  lemma {:induction false} ValueDigits(v: nat, base: nat)
    requires 2 <= base <= 16
    ensures Value(Digits(v, base), base) == v
    decreases v
  {
    var s := Digits(v, base);
    if v < base {
      DigitRoundTrip(v);
      assert s == [DigitChar(v)];
      assert s[..0] == [];
      assert Value(s, base) == Value([], base) * base + DigitValue(DigitChar(v));
    } else {
      var q, m := v / base, v % base;
      DivLess(v, base);
      DigitRoundTrip(m);
      ValueDigits(q, base);
      var t := Digits(q, base);
      assert s == t + [DigitChar(m)];
      assert s[..|s| - 1] == t;
      assert Value(s, base) == Value(t, base) * base + DigitValue(DigitChar(m));
      DivMod(v, base);
    }
  }

  lemma DivMod(v: nat, base: nat)
    requires base > 0
    ensures (v / base) * base + v % base == v
  {
  }

  /** Dropping the last digit of a number of two digits or more makes it
      smaller. */
  lemma DivLess(v: nat, base: nat)
    requires base >= 2 && v >= base
    ensures 1 <= v / base < v
  {
    DivMod(v, base);
    var q := v / base;
    assert q * base >= q * 2;
  }

  /** `%zx` is read back by `Value(_, 16)`. */
  lemma HexRoundTrip(v: nat)
    ensures Value(Hex(v), 16) == v
  {
    ValueDigits(v, 16);
  }

  /** `%ld` is read back by `ParseDecimal`. */
  lemma DecimalRoundTrip(v: int)
    ensures ParseDecimal(Decimal(v)) == v
  {
    if v < 0 {
      NegativeRoundTrip(v);
    } else {
      var d := Digits(v, 10);
      ValueDigits(v, 10);
      assert 0 <= DigitValue(d[0]);
    }
  }

  lemma NegativeRoundTrip(v: int)
    requires v < 0
    ensures ParseDecimal(Decimal(v)) == v
  {
    var d := Digits(-v, 10);
    var s := "-" + d;
    assert s[1..] == d;
    assert ParseDecimal(s) == -Value(d, 10);
    ValueDigits(-v, 10);
  }

  /** Different numbers print differently. */
  lemma DecimalInjective(v: int, w: int)
    requires Decimal(v) == Decimal(w)
    ensures v == w
  {
    DecimalRoundTrip(v);
    DecimalRoundTrip(w);
  }
}
