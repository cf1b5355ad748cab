/** Number-to-text conversions the disassembler relies on: Java's
    `Integer.toString` (decimal, used for register and CSR names and for the
    section index of a symbol) and the `LOC_%05x` synthetic label. */
module Text {

  const DigitChars: string := "0123456789abcdef"

  function DigitChar(d: nat): (c: char)
    requires d < 16
  {
    DigitChars[d]
  }

  /** The value of a digit character; characters that are no digit read as 0. */
  function DigitValue(c: char): (d: nat)
    ensures d < 16
  {
    if '0' <= c <= '9' then (c - '0') as nat
    else if 'a' <= c <= 'f' then (c - 'a') as nat + 10
    else 0
  }

  lemma DigitCharValue(d: nat)
    requires d < 16
    ensures DigitValue(DigitChar(d)) == d
  {}

  /** `n` written in `base` with no leading zeros ("0" for zero). */
  function ToBase(n: nat, base: nat): string
    requires 2 <= base <= 16
    decreases n
  {
    if n < base then [DigitChar(n)] else ToBase(n / base, base) + [DigitChar(n % base)]
  }

  /** Every numeral has a digit, and only digits of its base. */
  lemma {:induction false} ToBaseDigits(n: nat, base: nat)
    requires 2 <= base <= 16
    ensures |ToBase(n, base)| > 0
    ensures forall i :: 0 <= i < |ToBase(n, base)| ==> ToBase(n, base)[i] in DigitChars[..base]
    decreases n
  {
    assert DigitChars[..base][n % base] == DigitChar(n % base);
    if n >= base {
      ToBaseDigits(n / base, base);
    }
  }

  /** A numeral starts with '0' only when it is "0": no leading zeros. */
  lemma ToBaseCanonical(n: nat, base: nat)
    requires 2 <= base <= 16
    ensures n > 0 ==> ToBase(n, base)[0] != '0'
    ensures |ToBase(n, base)| == 1 || ToBase(n, base)[0] != '0'
  {
    if n > 0 {
      ToBaseLeading(n, base);
    }
  }

  lemma {:induction false} ToBaseLeading(n: nat, base: nat)
    requires 2 <= base <= 16 && n > 0
    ensures ToBase(n, base)[0] != '0'
    decreases n
  {
    if n >= base {
      ToBaseFirst(n, base);
      ToBaseLeading(n / base, base);
    } else {
      DigitCharValue(n);
    }
  }

  /** A numeral of two digits or more starts with the numeral of `n / base`. */
  lemma ToBaseFirst(n: nat, base: nat)
    requires 2 <= base <= 16 && n >= base
    ensures 0 < n / base < n
    ensures |ToBase(n, base)| >= 2 && ToBase(n, base)[0] == ToBase(n / base, base)[0]
  {
    QuotientSmaller(n, base);
    ToBaseDigits(n / base, base);
  }

  /** Dividing by a base of two or more leaves a smaller, positive quotient. */
  lemma QuotientSmaller(n: nat, base: nat)
    requires 2 <= base && n >= base
    ensures 0 < n / base < n
  {
    var q, r := n / base, n % base;
    DivMod(n, base);
    MulBounds(q, base);
  }

  lemma MulBounds(q: nat, b: nat)
    requires b >= 2
    ensures q * b >= 2 * q
    ensures q * b > 0 ==> q > 0
  {
    if q > 0 {
      assert q * b == q * 2 + q * (b - 2);
    }
  }

  /** The number the digit string `s` denotes in `base` (most significant digit first). */
  function FromBase(s: string, base: nat): nat
  {
    if s == [] then 0 else FromBase(s[..|s| - 1], base) * base + DigitValue(s[|s| - 1])
  }

  /** Reading back what `ToBase` wrote gives the number. */
  lemma {:induction false} FromToBase(n: nat, base: nat)
    requires 2 <= base <= 16
    ensures FromBase(ToBase(n, base), base) == n
    decreases n
  {
    if n < base {
      DigitCharValue(n);
      FromBaseSnoc([], DigitChar(n), base);
      assert [] + [DigitChar(n)] == ToBase(n, base);
    } else {
      FromToBase(n / base, base);
      FromToBaseStep(n, base);
    }
  }

  lemma FromToBaseStep(n: nat, base: nat)
    requires 2 <= base <= 16 && n >= base
    requires FromBase(ToBase(n / base, base), base) == n / base
    ensures FromBase(ToBase(n, base), base) == n
  {
    var q, r := n / base, n % base;
    DigitCharValue(r);
    FromBaseSnoc(ToBase(q, base), DigitChar(r), base);
    DivMod(n, base);
  }

  lemma FromBaseSnoc(s: string, c: char, base: nat)
    ensures FromBase(s + [c], base) == FromBase(s, base) * base + DigitValue(c)
  {
    assert (s + [c])[..|s|] == s;
  }

  lemma DivMod(n: nat, base: nat)
    requires base > 0
    ensures n == (n / base) * base + n % base
  {}

  /** Leading zero digits do not change the value. */
  lemma {:induction false} FromBaseLeadingZero(s: string, base: nat)
    ensures FromBase(['0'] + s, base) == FromBase(s, base)
    decreases |s|
  {
    if s == [] {
      assert (['0'] + s)[..0] == [];
    } else {
      var t := ['0'] + s;
      assert t[..|t| - 1] == ['0'] + s[..|s| - 1];
      FromBaseLeadingZero(s[..|s| - 1], base);
    }
  }

  /** Java's `Integer.toString` for a non-negative value. */
  function Decimal(n: nat): string
  {
    ToBase(n, 10)
  }

  /** Java's `Integer.toString` for any value: a minus sign before the magnitude. */
  function IntToString(i: int): string
  {
    if i < 0 then "-" + Decimal(-i) else Decimal(i)
  }

  /** The decimal numeral reads back as the number; a minus sign marks exactly the
      negative values. */
  lemma IntToStringReadsBack(i: int)
    ensures |IntToString(i)| > 0
    ensures (IntToString(i)[0] == '-') <==> i < 0
    ensures i >= 0 ==> FromBase(IntToString(i), 10) == i
    ensures i >= 0 ==> forall k :: 0 <= k < |IntToString(i)| ==> IntToString(i)[k] in DigitChars[..10]
    ensures i < 0 ==> FromBase(IntToString(i)[1..], 10) == -i
    ensures i < 0 ==> forall k :: 1 <= k < |IntToString(i)| ==> IntToString(i)[k] in DigitChars[..10]
    ensures i >= 0 ==> |IntToString(i)| == 1 || IntToString(i)[0] != '0'
    ensures i < 0 ==> |IntToString(i)| >= 2 && IntToString(i)[1] != '0'
  {
    var n := if i < 0 then -i else i;
    ToBaseDigits(n, 10);
    ToBaseCanonical(n, 10);
    FromToBase(n, 10);
    if i < 0 {
      assert IntToString(i)[1..] == Decimal(n);
    }
  }

  /** `s` with '0' characters in front until it has at least `width` characters. */
  function PadZeros(s: string, width: nat): (r: string)
    ensures |r| >= width && |r| >= |s|
    ensures r[|r| - |s|..] == s && forall i :: 0 <= i < |r| - |s| ==> r[i] == '0'
    ensures FromBase(r, 16) == FromBase(s, 16)
    decreases width - |s|
  {
    if |s| >= width then s
    else
      FromBaseLeadingZero(s, 16);
      PadZeros(['0'] + s, width)
  }

  /** `%05x`: lower-case hexadecimal, zero-padded to at least five digits. */
  function Hex5(n: nat): (s: string)
    ensures |s| >= 5 && FromBase(s, 16) == n
    ensures forall i :: 0 <= i < |s| ==> s[i] in DigitChars
    ensures |s| == 5 || s[0] != '0'
  {
    FromToBase(n, 16);
    ToBaseDigits(n, 16);
    ToBaseCanonical(n, 16);
    assert DigitChars[..16] == DigitChars;
    var digits := ToBase(n, 16);
    if |digits| <= 5 then
      PadExactly(digits, 5);
      PadZeros(digits, 5)
    else
      PadZeros(digits, 5)
  }

  /** The name `String.format("LOC_%05x", n)` of the synthetic label numbered `n`. */
  function LocLabel(n: nat): (s: string)
    ensures |s| >= 9 && s[..4] == "LOC_"
  {
    "LOC_" + Hex5(n)
  }

  /** After "LOC_" a label holds only hexadecimal digits, and they read back
      as the counter. */
  lemma LocLabelDigits(n: nat)
    ensures FromBase(LocLabel(n)[4..], 16) == n
    ensures forall i :: 4 <= i < |LocLabel(n)| ==> LocLabel(n)[i] in DigitChars
  {
    assert LocLabel(n)[4..] == Hex5(n);
  }

  /** Distinct counters give distinct labels. */
  lemma LocLabelInjective(m: nat, n: nat)
    requires LocLabel(m) == LocLabel(n)
    ensures m == n
  {
    assert LocLabel(m)[4..] == Hex5(m);
    assert LocLabel(n)[4..] == Hex5(n);
  }

  /** Below 16^5 the label has exactly nine characters. */
  lemma {:induction false} ToBaseLength(n: nat, base: nat, k: nat)
    requires 2 <= base <= 16
    requires n < Power(base, k) && k > 0
    ensures |ToBase(n, base)| <= k
    decreases k
  {
    if n >= base {
      assert Power(base, 1) == base;
      DivBelowPower(n, base, k);
      ToBaseLength(n / base, base, k - 1);
    }
  }

  function Power(b: nat, k: nat): nat
  {
    if k == 0 then 1 else b * Power(b, k - 1)
  }

  lemma DivBelowPower(n: nat, base: nat, k: nat)
    requires 2 <= base && k > 0 && n < Power(base, k)
    ensures n / base < Power(base, k - 1)
  {
    assert Power(base, k) == base * Power(base, k - 1);
  }

  lemma LocLabelLength(n: nat)
    requires n < 0x10_0000
    ensures |LocLabel(n)| == 9
  {
    assert Power(16, 5) == 0x10_0000;
    ToBaseLength(n, 16, 5);
    PadExactly(ToBase(n, 16), 5);
  }

  lemma {:induction false} PadExactly(s: string, width: nat)
    requires |s| <= width
    ensures |PadZeros(s, width)| == width
    decreases width - |s|
  {
    if |s| < width {
      PadExactly(['0'] + s, width);
    }
  }
}
