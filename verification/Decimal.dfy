/** Decimal numerals: `str(n)` and the zero-padded `f"{n:010d}"`. */
module Decimal {
  import opened Common

  type Digit = d: int | 0 <= d < 10

  function Digits(n: nat): (ds: seq<Digit>)
    ensures ds != []
  {
    if n < 10 then [n] else Digits(n / 10) + [n % 10]
  }

  function ValueOf(ds: seq<Digit>): nat {
    if ds == [] then 0 else ValueOf(ds[..|ds| - 1]) * 10 + ds[|ds| - 1]
  }

  function Text(ds: seq<Digit>): string {
    seq(|ds|, i requires 0 <= i < |ds| => ('0' as int + ds[i]) as char)
  }

  function Ascii(ds: seq<Digit>): Bytes {
    seq(|ds|, i requires 0 <= i < |ds| => 48 + ds[i] as int)
  }

  predicate IsDigit(b: Byte) {
    48 <= b < 58
  }

  /** The number an ASCII numeral denotes; None when it is empty or holds anything but digits. */
  function ParseAscii(s: Bytes): Option<nat> {
    if s != [] && forall i :: 0 <= i < |s| ==> IsDigit(s[i])
    then Some(ValueOf(seq(|s|, i requires 0 <= i < |s| => if IsDigit(s[i]) then s[i] as int - 48 else 0)))
    else None
  }

  /** `f"{n:010d}"`: ten digits, or more when ten are too few. */
  function Padded(n: nat): seq<Digit> {
    var ds := Digits(n);
    seq(if |ds| < 10 then 10 - |ds| else 0, _ => 0) + ds
  }

  function Pow10(k: nat): (p: nat)
    ensures p > 0
  {
    if k == 0 then 1 else 10 * Pow10(k - 1)
  }

  lemma {:induction false} ValueOfDigits(n: nat)
    ensures ValueOf(Digits(n)) == n
  {
    if n >= 10 {
      ValueOfDigits(n / 10);
      assert Digits(n)[..|Digits(n)| - 1] == Digits(n / 10);
    } else {
      assert Digits(n)[..0] == [];
    }
  }

  lemma {:induction false} LeadingZeros(zeros: nat, ds: seq<Digit>)
    ensures ValueOf(seq<Digit>(zeros, _ => 0) + ds) == ValueOf(ds)
  {
    var padded := seq<Digit>(zeros, _ => 0) + ds;
    if ds != [] {
      LeadingZeros(zeros, ds[..|ds| - 1]);
      assert padded[..|padded| - 1] == seq<Digit>(zeros, _ => 0) + ds[..|ds| - 1];
    } else if zeros > 0 {
      LeadingZeros(zeros - 1, []);
      assert padded[..zeros - 1] == seq<Digit>(zeros - 1, _ => 0) + [];
    }
  }

  lemma {:induction false} DigitCount(n: nat, k: nat)
    requires k >= 1
    ensures |Digits(n)| <= k <==> n < Pow10(k)
  {
    if n >= 10 && k > 1 {
      DigitCount(n / 10, k - 1);
    } else if n < 10 {
      assert Pow10(k) >= 10;
    } else {
      assert Pow10(1) == 10;
    }
  }

  lemma ParseOfAscii(ds: seq<Digit>)
    requires ds != []
    ensures ParseAscii(Ascii(ds)) == Some(ValueOf(ds))
  {
    var s := Ascii(ds);
    assert forall i :: 0 <= i < |s| ==> IsDigit(s[i]);
    assert ds == seq(|s|, i requires 0 <= i < |s| => if IsDigit(s[i]) then s[i] as int - 48 else 0);
  }

  lemma {:induction false} ValueBound(ds: seq<Digit>)
    ensures ValueOf(ds) < Pow10(|ds|)
  {
    if ds != [] { ValueBound(ds[..|ds| - 1]); }
  }

  // Ten digits denote a number below ten to the tenth.
  lemma TenDigitsAreSmall(s: Bytes)
    requires |s| == 10
    ensures ParseAscii(s).Some? ==> ParseAscii(s).value < 10_000_000_000
  {
    var ds: seq<Digit> := seq(|s|, i requires 0 <= i < |s| => if IsDigit(s[i]) then s[i] as int - 48 else 0);
    ValueBound(ds);
    assert Pow10(5) == 100_000;
    if ParseAscii(s).Some? {
      assert ParseAscii(s).value == ValueOf(ds);
    }
  }

  /** Text and bytes of a numeral are the same ASCII digits. */
  lemma TextIsAscii(ds: seq<Digit>)
    ensures |Text(ds)| == |Ascii(ds)|
    ensures forall i :: 0 <= i < |ds| ==> Text(ds)[i] as int == Ascii(ds)[i] as int && '0' <= Text(ds)[i] <= '9'
  {
  }

  /** Printing a number, plainly or padded, and parsing it gives the number back. */
  lemma ParsePrint(n: nat)
    ensures ParseAscii(Ascii(Digits(n))) == Some(n)
    ensures ParseAscii(Ascii(Padded(n))) == Some(n)
  {
    ParseOfAscii(Digits(n));
    ParseOfAscii(Padded(n));
    ValueOfDigits(n);
    LeadingZeros(if |Digits(n)| < 10 then 10 - |Digits(n)| else 0, Digits(n));
  }

  /** The padded numeral is ten characters long exactly when the number is below ten to the tenth. */
  lemma PaddedWidth(n: nat)
    ensures |Padded(n)| >= 10
    ensures |Padded(n)| == 10 <==> n < 10_000_000_000
  {
    DigitCount(n, 10);
    assert Pow10(10) == 10_000_000_000 by {
      assert Pow10(5) == 100_000;
    }
  }
}
