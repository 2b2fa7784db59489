/** Timestamps of the form of section 5.6 of RFC 3339, always in UTC. */
module Timestamps {
  import opened Wrappers
  import opened Ordering
  import opened Numerals
  import opened Calendar

  /** A decimal field padded to a width. */
  function Field(n: nat, width: nat): string {
    Pad(Decimal(n), width)
  }

  /** Padding of a signed value counts the sign. */
  function SignedField(n: int, width: nat): string
    requires width > 0
  {
    if n >= 0 then Field(n, width) else "-" + Field(-n, width - 1)
  }

  function FormatUnixSeconds(secs: nat): string
    requires secs < U64
  {
    AtTime(DaysToCivil(secs / 86400), secs)
  }

  /** A date with the time of day of a count of seconds. */
  function AtTime(d: Date, secs: nat): string {
    var s := secs % 60;
    var m := secs / 60 % 60;
    var h := secs / 3600 % 24;
    Stamp(d, h, m, s)
  }

  function Stamp(d: Date, h: nat, m: nat, s: nat): string {
    Layout(SignedField(d.year, 4), Field(d.month, 2), Field(d.day, 2), Field(h, 2), Field(m, 2), Field(s, 2))
  }

  function Layout(y: string, mo: string, d: string, h: string, m: string, s: string): string {
    y + ("-" + (mo + ("-" + (d + ("T" + (h + (":" + (m + (":" + (s + "Z"))))))))))
  }

  // ---- reading a timestamp back ----

  function FieldAt(t: string, i: nat, j: nat): nat
    requires i <= j <= |t|
  {
    if AllDigits(t[i..j], 10) then ValueOf(t[i..j], 10) else 0
  }

  /** Digits where digits belong and separators between them, with a four-digit year. */
  predicate Shaped(t: string) {
    && |t| == 20 && t[4] == '-' && t[7] == '-' && t[10] == 'T' && t[13] == ':' && t[16] == ':' && t[19] == 'Z'
    && AllDigits(t[0..4], 10) && AllDigits(t[5..7], 10) && AllDigits(t[8..10], 10)
    && AllDigits(t[11..13], 10) && AllDigits(t[14..16], 10) && AllDigits(t[17..19], 10)
  }

  function Seconds(d: Date, h: nat, m: nat, s: nat): int {
    DayNumber(d) * 86400 + h * 3600 + m * 60 + s
  }

  predicate ValidTime(h: nat, m: nat, s: nat) {
    h < 24 && m < 60 && s < 60
  }

  /** Seconds since the epoch of a timestamp, if it is one. */
  function ReadStamp(t: string): Option<int> {
    if !Shaped(t) then None
    else
      var d := Date(FieldAt(t, 0, 4), FieldAt(t, 5, 7), FieldAt(t, 8, 10));
      var h, m, s := FieldAt(t, 11, 13), FieldAt(t, 14, 16), FieldAt(t, 17, 19);
      if Valid(d) && ValidTime(h, m, s) then Some(Seconds(d, h, m, s)) else None
  }

  /** The first second of the year 10000. */
  const BEYOND := 253402300800

  // ---- fields ----

  lemma FieldFits(n: nat, width: nat)
    requires width > 0 && n < Power10(width)
    ensures |Field(n, width)| == width && AllDigits(Field(n, width), 10) && ValueOf(Field(n, width), 10) == n
  {
    DecimalLength(n, width);
    DigitsValue(n, 10);
    ValueOfZeros(width - |Decimal(n)|, Decimal(n), 10);
  }

  lemma {:induction false} DecimalIsLong(n: nat, k: nat)
    requires n >= Power10(k)
    ensures |Decimal(n)| > k
    decreases k
  {
    if k > 0 {
      assert Power10(k) == 10 * Power10(k - 1) && Power10(k - 1) > 0 by { PowerIsPositive(k - 1); }
      assert n >= 10;
      DecimalIsLong(n / 10, k - 1);
    }
  }

  lemma {:induction false} PowerIsPositive(k: nat)
    ensures Power10(k) > 0
  {
    if k > 0 {
      PowerIsPositive(k - 1);
    }
  }

  /** A padded field never loses digits, and is as wide as asked for exactly when its number fits. */
  lemma FieldWidth(n: nat, width: nat)
    requires width > 0
    ensures AllDigits(Field(n, width), 10) && ValueOf(Field(n, width), 10) == n
    ensures |Field(n, width)| >= width && (|Field(n, width)| == width <==> n < Power10(width))
  {
    DigitsValue(n, 10);
    if n < Power10(width) {
      FieldFits(n, width);
    } else {
      DecimalIsLong(n, width);
    }
  }

  /** Years print with their sign, at least four characters wide. */
  lemma YearPrints(y: int)
    ensures
      var s := SignedField(y, 4);
      && |s| >= 4 && (|s| == 4 <==> -1000 < y < 10000)
      && (if y >= 0 then AllDigits(s, 10) && ValueOf(s, 10) == y
          else s[0] == '-' && AllDigits(s[1..], 10) && ValueOf(s[1..], 10) == -y)
  {
    assert Power10(4) == 10 * (10 * Power10(2)) && Power10(2) == 10 * (10 * Power10(0));
    assert Power10(3) == 10 * Power10(2);
    if y >= 0 {
      FieldWidth(y, 4);
    } else {
      FieldWidth(-y, 3);
      assert ("-" + Field(-y, 3))[1..] == Field(-y, 3);
    }
  }

  lemma SmallFieldFits(n: nat)
    requires n < 100
    ensures |Field(n, 2)| == 2 && AllDigits(Field(n, 2), 10) && ValueOf(Field(n, 2), 10) == n
  {
    assert Power10(2) == 10 * Power10(1) == 10 * (10 * Power10(0));
    FieldFits(n, 2);
  }

  lemma YearFieldFits(n: nat)
    requires n < 10000
    ensures |Field(n, 4)| == 4 && AllDigits(Field(n, 4), 10) && ValueOf(Field(n, 4), 10) == n
  {
    assert Power10(2) == 10 * Power10(1) == 10 * (10 * Power10(0));
    assert Power10(4) == 10 * Power10(3) == 10 * (10 * Power10(2));
    FieldFits(n, 4);
  }

  lemma DigitOrder(x: char, y: char)
    requires DigitOf(x) < 10 && DigitOf(y) < 10
    ensures DigitOf(x) < DigitOf(y) ==> Below([x], [y])
    ensures DigitOf(x) == DigitOf(y) ==> x == y
  {
  }

  /** Digit strings of one length compare as their values. */
  lemma {:induction false} ValueOrder(a: string, b: string)
    requires |a| == |b| && AllDigits(a, 10) && AllDigits(b, 10)
    ensures ValueOf(a, 10) < ValueOf(b, 10) ==> Below(a, b)
    ensures ValueOf(a, 10) == ValueOf(b, 10) ==> a == b
  {
    if a != [] {
      var n := |a| - 1;
      var x, y := a[..n], b[..n];
      ValueOrder(x, y);
      DigitOrder(a[n], b[n]);
      ValueOrderLast(x, a[n], y, b[n]);
      assert a == x + [a[n]] && b == y + [b[n]];
    }
  }

  lemma ValueOrderLast(x: string, c: char, y: string, d: char)
    requires |x| == |y| && AllDigits(x, 10) && AllDigits(y, 10) && DigitOf(c) < 10 && DigitOf(d) < 10
    requires ValueOf(x, 10) < ValueOf(y, 10) ==> Below(x, y)
    requires ValueOf(x, 10) == ValueOf(y, 10) ==> x == y
    ensures ValueOf(x + [c], 10) < ValueOf(y + [d], 10) ==> Below(x + [c], y + [d])
    ensures ValueOf(x + [c], 10) == ValueOf(y + [d], 10) ==> x + [c] == y + [d]
  {
    ValueOfSnoc(x, c, 10);
    ValueOfSnoc(y, d, 10);
    DigitOrder(c, d);
    var u, v := ValueOf(x, 10), ValueOf(y, 10);
    if u < v {
      BelowExtends(x, y, [c], [d]);
      assert u * 10 + DigitOf(c) < v * 10 + DigitOf(d);
    } else if u == v {
      BelowAfterPrefix(x, [c], [d]);
    } else {
      assert u * 10 + DigitOf(c) > v * 10 + DigitOf(d);
    }
  }

  lemma LayoutSlices(y: string, mo: string, d: string, h: string, m: string, s: string)
    requires |y| == 4 && |mo| == |d| == |h| == |m| == |s| == 2
    ensures
      var t := Layout(y, mo, d, h, m, s);
      && |t| == 20 && t[4] == t[7] == '-' && t[10] == 'T' && t[13] == t[16] == ':' && t[19] == 'Z'
      && t[0..4] == y && t[5..7] == mo && t[8..10] == d && t[11..13] == h && t[14..16] == m && t[17..19] == s
  {
    var t := Layout(y, mo, d, h, m, s);
    assert t[17..] == s + "Z";
    assert t[14..] == m + (":" + (s + "Z"));
    assert t[11..] == h + (":" + (m + (":" + (s + "Z"))));
    assert t[8..] == d + ("T" + (h + (":" + (m + (":" + (s + "Z"))))));
    assert t[5..] == mo + ("-" + (d + ("T" + (h + (":" + (m + (":" + (s + "Z"))))))));
    assert t[5..7] == t[5..][..2] && t[8..10] == t[8..][..2] && t[11..13] == t[11..][..2];
    assert t[14..16] == t[14..][..2] && t[17..19] == t[17..][..2];
  }

  /** Reading a layout yields the values of its fields. */
  lemma LayoutReads(y: string, mo: string, d: string, h: string, m: string, s: string)
    requires |y| == 4 && |mo| == |d| == |h| == |m| == |s| == 2
    requires AllDigits(y, 10) && AllDigits(mo, 10) && AllDigits(d, 10)
    requires AllDigits(h, 10) && AllDigits(m, 10) && AllDigits(s, 10)
    ensures
      var date := Date(ValueOf(y, 10), ValueOf(mo, 10), ValueOf(d, 10));
      ReadStamp(Layout(y, mo, d, h, m, s)) ==
        if Valid(date) && ValidTime(ValueOf(h, 10), ValueOf(m, 10), ValueOf(s, 10))
        then Some(Seconds(date, ValueOf(h, 10), ValueOf(m, 10), ValueOf(s, 10))) else None
  {
    LayoutSlices(y, mo, d, h, m, s);
  }

  /** A stamp whose fields fit is read back. */
  lemma ReadsBack(d: Date, h: nat, m: nat, s: nat)
    requires Valid(d) && 0 <= d.year < 10000 && ValidTime(h, m, s)
    ensures |Stamp(d, h, m, s)| == 20
    ensures ReadStamp(Stamp(d, h, m, s)) == Some(Seconds(d, h, m, s))
  {
    YearFieldFits(d.year);
    SmallFieldFits(d.month);
    SmallFieldFits(d.day);
    SmallFieldFits(h);
    SmallFieldFits(m);
    SmallFieldFits(s);
    LayoutSlices(Field(d.year, 4), Field(d.month, 2), Field(d.day, 2), Field(h, 2), Field(m, 2), Field(s, 2));
    LayoutReads(Field(d.year, 4), Field(d.month, 2), Field(d.day, 2), Field(h, 2), Field(m, 2), Field(s, 2));
  }

  lemma SplitSeconds(secs: nat)
    ensures secs == secs / 86400 * 86400 + secs / 3600 % 24 * 3600 + secs / 60 % 60 * 60 + secs % 60
  {
    assert secs / 3600 == secs / 60 / 60;
    assert secs / 86400 == secs / 3600 / 24;
  }

  /** Seconds before the year 10000 have a valid date with a four-digit year. */
  lemma DateOfSeconds(secs: nat)
    requires secs < BEYOND
    ensures
      var d := DaysToCivil(secs / 86400);
      Valid(d) && 0 <= d.year < 10000 && DayNumber(d) == secs / 86400
  {
    CivilCountsDays();
    DaysToCivilExact(secs / 86400);
    YearsBetween(Civil, secs / 86400);
  }

  lemma YearsBetween(f: int -> Date, z: int)
    requires CountsDays(f)
    ensures 1970 <= f(z).year < 10000 <==> 0 <= z < 2932897
  {
    var first, beyond :| first == 1970 && beyond == 10000;
    NewYearsDay(first);
    NewYearsDay(beyond);
    FitsBetween(f, z, Date(first, 1, 1), Date(beyond, 1, 1));
  }

  lemma AtTimeReadsBack(d: Date, secs: nat)
    requires Valid(d) && 0 <= d.year < 10000 && DayNumber(d) == secs / 86400
    ensures |AtTime(d, secs)| == 20 && ReadStamp(AtTime(d, secs)) == Some(secs)
  {
    SplitSeconds(secs);
    TimeReadsBack(d, secs / 86400, secs / 3600 % 24, secs / 60 % 60, secs % 60, secs);
  }

  lemma TimeReadsBack(d: Date, day: nat, h: nat, m: nat, s: nat, secs: nat)
    requires Valid(d) && 0 <= d.year < 10000 && DayNumber(d) == day && ValidTime(h, m, s)
    requires secs == day * 86400 + h * 3600 + m * 60 + s
    ensures |Stamp(d, h, m, s)| == 20 && ReadStamp(Stamp(d, h, m, s)) == Some(secs)
  {
    ReadsBack(d, h, m, s);
    SecondsAre(d, day, h, m, s, secs);
  }

  lemma SecondsAre(d: Date, day: nat, h: nat, m: nat, s: nat, secs: nat)
    requires DayNumber(d) == day && secs == day * 86400 + h * 3600 + m * 60 + s
    ensures Seconds(d, h, m, s) == secs
  {
  }

  /** Until the year 10000 a timestamp has twenty characters and reads back as the seconds it was made from. */
  lemma FormatReadsBack(secs: nat)
    requires secs < BEYOND
    ensures |FormatUnixSeconds(secs)| == 20
    ensures ReadStamp(FormatUnixSeconds(secs)) == Some(secs)
  {
    DateOfSeconds(secs);
    AtTimeReadsBack(DaysToCivil(secs / 86400), secs);
  }

  lemma ReadStampBounded(t: string)
    ensures ReadStamp(t).Some? ==> ReadStamp(t).value < BEYOND
  {
    if ReadStamp(t).Some? {
      ValueBelow10000(t[0..4]);
      DateBounded(Date(FieldAt(t, 0, 4), FieldAt(t, 5, 7), FieldAt(t, 8, 10)));
    }
  }

  lemma DateBounded(d: Date)
    requires Valid(d) && d.year < 10000
    ensures DayNumber(d) < 2932897
  {
    var beyond :| beyond == 10000;
    NewYearsDay(beyond);
    CountIsMonotone(d, Date(beyond, 1, 1));
  }

  lemma ValueBelow10000(s: string)
    requires |s| == 4 && AllDigits(s, 10)
    ensures ValueOf(s, 10) < 10000
  {
    var a, b, c := s[..1], s[..2], s[..3];
    assert b[..1] == a && c[..2] == b && s[..3] == c;
    assert ValueOf(a[..0], 10) == 0;
    assert ValueOf(a, 10) < 10;
    assert ValueOf(b, 10) < 100;
    assert ValueOf(c, 10) < 1000;
  }

  /** Of all 64-bit values, exactly the seconds before the year 10000 read back. */
  lemma ReadsBackIff(secs: nat)
    requires secs < U64
    ensures ReadStamp(FormatUnixSeconds(secs)) == Some(secs) <==> secs < BEYOND
  {
    if secs < BEYOND {
      FormatReadsBack(secs);
    } else {
      ReadStampBounded(FormatUnixSeconds(secs));
    }
  }

  // ---- chronological order is lexicographic order ----

  /** Two fields of one width, each followed by further text. */
  lemma FieldOrder(x: nat, y: nat, width: nat, p: string, q: string)
    requires width > 0 && x < Power10(width) && y < Power10(width)
    ensures x < y || (x == y && Below(p, q)) ==> Below(Field(x, width) + p, Field(y, width) + q)
  {
    FieldFits(x, width);
    FieldFits(y, width);
    ValueOrder(Field(x, width), Field(y, width));
    if x < y {
      BelowExtends(Field(x, width), Field(y, width), p, q);
    } else {
      BelowAfterPrefix(Field(x, width), p, q);
    }
  }

  lemma SmallFieldOrder(sep: string, x: nat, y: nat, p: string, q: string)
    requires x < 100 && y < 100
    ensures x < y || (x == y && Below(p, q)) ==> Below(sep + (Field(x, 2) + p), sep + (Field(y, 2) + q))
  {
    assert Power10(2) == 10 * Power10(1) == 10 * (10 * Power10(0));
    FieldOrder(x, y, 2, p, q);
    BelowAfterPrefix(sep, Field(x, 2) + p, Field(y, 2) + q);
  }

  /** The time of day, then the date, decide the order of two stamps. */
  lemma StampOrder(a: Date, h: nat, m: nat, s: nat, b: Date, h': nat, m': nat, s': nat)
    requires Valid(a) && Valid(b) && 0 <= a.year < 10000 && 0 <= b.year < 10000
    requires ValidTime(h, m, s) && ValidTime(h', m', s')
    requires Earlier(a, b) || (a == b && h * 3600 + m * 60 + s < h' * 3600 + m' * 60 + s')
    ensures Below(Stamp(a, h, m, s), Stamp(b, h', m', s'))
  {
    var p1, q1 := "Z", "Z";
    SmallFieldOrder(":", s, s', p1, q1);
    var p2, q2 := ":" + (Field(s, 2) + p1), ":" + (Field(s', 2) + q1);
    SmallFieldOrder(":", m, m', p2, q2);
    var p3, q3 := ":" + (Field(m, 2) + p2), ":" + (Field(m', 2) + q2);
    SmallFieldOrder("T", h, h', p3, q3);
    var p4, q4 := "T" + (Field(h, 2) + p3), "T" + (Field(h', 2) + q3);
    SmallFieldOrder("-", a.day, b.day, p4, q4);
    var p5, q5 := "-" + (Field(a.day, 2) + p4), "-" + (Field(b.day, 2) + q4);
    SmallFieldOrder("-", a.month, b.month, p5, q5);
    var p6, q6 := "-" + (Field(a.month, 2) + p5), "-" + (Field(b.month, 2) + q5);
    assert Power10(2) == 10 * Power10(1) == 10 * (10 * Power10(0));
    assert Power10(4) == 10 * Power10(3) == 10 * (10 * Power10(2));
    FieldOrder(a.year, b.year, 4, p6, q6);
    assert Stamp(a, h, m, s) == Field(a.year, 4) + p6;
    assert Stamp(b, h', m', s') == Field(b.year, 4) + q6;
  }

  lemma AtTimeOrder(d: Date, a: nat, e: Date, b: nat)
    requires Valid(d) && Valid(e) && 0 <= d.year < 10000 && 0 <= e.year < 10000
    requires DayNumber(d) == a / 86400 && DayNumber(e) == b / 86400 && a < b
    ensures Below(AtTime(d, a), AtTime(e, b))
  {
    SplitSeconds(a);
    SplitSeconds(b);
    if Earlier(e, d) { CountIsMonotone(e, d); }
    StampOrder(d, a / 3600 % 24, a / 60 % 60, a % 60, e, b / 3600 % 24, b / 60 % 60, b % 60);
  }

  /** Later seconds have lexicographically later timestamps, until the year 10000. */
  lemma FormatIsMonotone(a: nat, b: nat)
    requires a < b < BEYOND
    ensures Below(FormatUnixSeconds(a), FormatUnixSeconds(b))
  {
    DateOfSeconds(a);
    DateOfSeconds(b);
    AtTimeOrder(DaysToCivil(a / 86400), a, DaysToCivil(b / 86400), b);
  }
}
