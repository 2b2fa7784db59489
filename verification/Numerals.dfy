/** Printing and parsing of unsigned integers in decimal and hexadecimal. */
module Numerals {
  import opened Wrappers

  type Radix = r: nat | 2 <= r <= 16 witness 10

  function DigitChar(d: nat): char
    requires d < 16
  {
    if d < 10 then '0' + d as char else 'a' + (d - 10) as char
  }

  /** The value of a digit; upper- and lower-case hexadecimal digits are accepted. */
  function DigitOf(c: char): (d: nat)
    ensures d <= 16
  {
    if '0' <= c <= '9' then (c - '0') as nat
    else if 'a' <= c <= 'f' then (c - 'a') as nat + 10
    else if 'A' <= c <= 'F' then (c - 'A') as nat + 10
    else 16
  }

  predicate AllDigits(s: string, radix: Radix) {
    forall i :: 0 <= i < |s| ==> DigitOf(s[i]) < radix
  }

  function Digits(n: nat, radix: Radix): (s: string)
    ensures s != []
  {
    if n < radix then [DigitChar(n)] else Digits(n / radix, radix) + [DigitChar(n % radix)]
  }

  function Decimal(n: nat): string {
    Digits(n, 10)
  }

  function Zeros(k: nat): (s: string)
    ensures |s| == k
    ensures forall i :: 0 <= i < k ==> s[i] == '0'
  {
    seq(k, _ => '0')
  }

  /** Zero padding to a minimum width. */
  function Pad(s: string, width: nat): string {
    if |s| < width then Zeros(width - |s|) + s else s
  }

  function ValueOf(s: string, radix: Radix): nat
    requires AllDigits(s, radix)
  {
    if s == [] then 0
    else ValueOf(s[..|s| - 1], radix) * radix + DigitOf(s[|s| - 1])
  }

  /** Parsing of an unsigned integer no greater than `max`: digits, with an optional plus sign. */
  function Parse(s: string, radix: Radix, max: nat): Option<nat> {
    var body := if s != [] && s[0] == '+' then s[1..] else s;
    if body == [] || !AllDigits(body, radix) then None
    else
      var v := ValueOf(body, radix);
      if v <= max then Some(v) else None
  }

  function ParseU64(s: string): Option<nat> {
    Parse(s, 10, U64 - 1)
  }

  function ParseU32(s: string): Option<nat> {
    Parse(s, 10, U32 - 1)
  }

  /** Printing splits off the last digit. */
  lemma DigitsStep(n: nat, radix: Radix) returns (front: nat, last: nat)
    requires n >= radix
    ensures front < n && last < radix && n == front * radix + last
    ensures Digits(n, radix) == Digits(front, radix) + [DigitChar(last)]
  {
    front, last := n / radix, n % radix;
  }

  lemma DigitCharValue(d: nat)
    requires d < 16
    ensures DigitOf(DigitChar(d)) == d
    ensures '0' <= DigitChar(d) <= '9' || 'a' <= DigitChar(d) <= 'f'
    ensures d < 10 ==> '0' <= DigitChar(d) <= '9'
  {
  }

  lemma ValueOfSnoc(s: string, c: char, radix: Radix)
    requires AllDigits(s, radix) && DigitOf(c) < radix
    ensures AllDigits(s + [c], radix)
    ensures ValueOf(s + [c], radix) == ValueOf(s, radix) * radix + DigitOf(c)
  {
    assert (s + [c])[..|s|] == s;
  }

  lemma {:induction false} DigitsValue(n: nat, radix: Radix)
    ensures AllDigits(Digits(n, radix), radix)
    ensures ValueOf(Digits(n, radix), radix) == n
    decreases n
  {
    if n < radix {
      DigitCharValue(n);
      ValueOfSnoc("", DigitChar(n), radix);
      assert "" + [DigitChar(n)] == Digits(n, radix);
    } else {
      var front, last := DigitsStep(n, radix);
      DigitsValue(front, radix);
      OneMoreDigit(Digits(front, radix), front, last, radix);
    }
  }

  lemma OneMoreDigit(s: string, front: nat, last: nat, radix: Radix)
    requires AllDigits(s, radix) && ValueOf(s, radix) == front && last < radix
    ensures AllDigits(s + [DigitChar(last)], radix)
    ensures ValueOf(s + [DigitChar(last)], radix) == front * radix + last
  {
    DigitCharValue(last);
    ValueOfSnoc(s, DigitChar(last), radix);
  }

  predicate LowerDigit(c: char, radix: Radix) {
    '0' <= c <= '9' || (radix > 10 && 'a' <= c <= 'f')
  }

  /** Printed digits are lower-case digits, never a sign, a separator or white space. */
  lemma {:induction false} DigitsAreDigits(n: nat, radix: Radix)
    ensures forall i :: 0 <= i < |Digits(n, radix)| ==> LowerDigit(Digits(n, radix)[i], radix)
    decreases n
  {
    if n < radix {
      DigitCharValue(n);
    } else {
      var front, last := DigitsStep(n, radix);
      DigitCharValue(last);
      DigitsAreDigits(front, radix);
    }
  }

  lemma {:induction false} ValueOfZeros(k: nat, s: string, radix: Radix)
    requires AllDigits(s, radix)
    ensures AllDigits(Zeros(k) + s, radix)
    ensures ValueOf(Zeros(k) + s, radix) == ValueOf(s, radix)
    decreases k + |s|
  {
    var t := Zeros(k) + s;
    if s != [] {
      assert t[..|t| - 1] == Zeros(k) + s[..|s| - 1];
      ValueOfZeros(k, s[..|s| - 1], radix);
    } else if k > 0 {
      assert t[..|t| - 1] == Zeros(k - 1) + s;
      ValueOfZeros(k - 1, s, radix);
    }
  }

  /** Parsing a printed number, padded or not, gives the number back when it fits. */
  lemma ParsePrinted(n: nat, width: nat, radix: Radix, max: nat)
    ensures Parse(Pad(Digits(n, radix), width), radix, max) == if n <= max then Some(n) else None
  {
    var s := Digits(n, radix);
    DigitsValue(n, radix);
    if |s| < width {
      ValueOfZeros(width - |s|, s, radix);
    }
    assert DigitOf('+') == 16;
  }

  /** A leading plus sign is skipped, once. */
  lemma PlusIsSkipped(s: string, radix: Radix, max: nat)
    ensures Parse("+" + s, radix, max) == if s != [] && s[0] == '+' then None else Parse(s, radix, max)
  {
    assert ("+" + s)[1..] == s;
    assert DigitOf('+') == 16;
  }

  function Upper(c: char): char {
    if 'a' <= c <= 'f' then 'A' + (c - 'a') else c
  }

  function Uppercase(s: string): (r: string)
    ensures |r| == |s|
  {
    seq(|s|, i requires 0 <= i < |s| => Upper(s[i]))
  }

  /** Hexadecimal digits mean the same in either case. */
  lemma {:induction false} CaseIsIgnored(s: string, radix: Radix)
    requires AllDigits(s, radix)
    ensures AllDigits(Uppercase(s), radix) && ValueOf(Uppercase(s), radix) == ValueOf(s, radix)
  {
    if s != [] {
      CaseIsIgnored(s[..|s| - 1], radix);
      assert Uppercase(s)[..|s| - 1] == Uppercase(s[..|s| - 1]);
    }
  }

  lemma DecimalParses(n: nat, max: nat)
    ensures Parse(Decimal(n), 10, max) == if n <= max then Some(n) else None
  {
    ParsePrinted(n, 0, 10, max);
  }

  /** Numbers below 10^k print in at most k decimal digits. */
  lemma {:induction false} DecimalLength(n: nat, k: nat)
    requires k > 0 && n < Power10(k)
    ensures |Decimal(n)| <= k
    decreases k
  {
    if n >= 10 {
      assert Power10(1) == 10 * Power10(0);
      DecimalLength(n / 10, k - 1);
    }
  }

  function Power10(k: nat): nat {
    if k == 0 then 1 else 10 * Power10(k - 1)
  }
}
