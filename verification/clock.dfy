/** The clock values the tool reads (`datetime.utcnow()`) and the three
    renderings it makes of them: `isoformat()`, the file-name stamp
    `strftime('%Y%m%d-%H%M%S')`, and, on the reading side, the subset of
    `datetime.fromisoformat` this model commits to. */
module Clock {
  import opened Results
  import opened Strings

  /** A naive UTC `datetime`, field by field. */
  datatype DateTime = DateTime(
    year: nat, month: nat, day: nat,
    hour: nat, minute: nat, second: nat, microsecond: nat)

  predicate IsLeapYear(y: nat) {
    y % 4 == 0 && (y % 100 != 0 || y % 400 == 0)
  }

  function DaysInMonth(y: nat, m: nat): nat {
    if m == 2 then (if IsLeapYear(y) then 29 else 28)
    else if m == 4 || m == 6 || m == 9 || m == 11 then 30
    else 31
  }

  /** The ranges `datetime` itself enforces (MINYEAR 1 to MAXYEAR 9999). */
  predicate ValidDate(y: nat, m: nat, d: nat) {
    1 <= y <= 9999 && 1 <= m <= 12 && 1 <= d <= DaysInMonth(y, m)
  }

  predicate ValidClock(h: nat, mi: nat, s: nat, us: nat) {
    h < 24 && mi < 60 && s < 60 && us < 1000000
  }

  predicate Valid(t: DateTime) {
    ValidDate(t.year, t.month, t.day)
    && ValidClock(t.hour, t.minute, t.second, t.microsecond)
  }

  function Pow10(k: nat): (p: nat)
    ensures p >= 1
  {
    if k == 0 then 1 else 10 * Pow10(k - 1)
  }

  predicate IsDigit(c: char) {
    '0' <= c <= '9'
  }

  predicate AllDigits(s: string) {
    forall i :: 0 <= i < |s| ==> IsDigit(s[i])
  }

  /** `'%0*d' % (width, n)`: the last `width` decimal digits of `n`,
      zero-padded on the left. */
  function Pad(n: nat, width: nat): (s: string)
    ensures |s| == width
    ensures AllDigits(s)
  {
    if width == 0 then ""
    else Pad(n / 10, width - 1) + [('0' as int + n % 10) as char]
  }

  /** The number a string of decimal digits spells. */
  function DigitsValue(s: string): nat
    requires AllDigits(s)
  {
    if |s| == 0 then 0
    else DigitsValue(s[..|s| - 1]) * 10 + (s[|s| - 1] as int - '0' as int)
  }

  /** Padding loses nothing for numbers that fit the width. */
  lemma {:induction false} PadRoundTrip(n: nat, width: nat)
    requires n < Pow10(width)
    ensures DigitsValue(Pad(n, width)) == n
  {
    if width > 0 {
      var q, d := n / 10, n % 10;
      DivideBound(n, Pow10(width - 1));
      PadRoundTrip(q, width - 1);
      var p := Pad(q, width - 1);
      var c := ('0' as int + d) as char;
      var s := Pad(n, width);
      assert s == p + [c];
      assert s[..|s| - 1] == p && s[|s| - 1] == c;
      assert DigitsValue(s) == DigitsValue(p) * 10 + d;
    }
  }

  lemma DivideBound(n: nat, p: nat)
    requires n < 10 * p
    ensures n / 10 < p
  {
  }

  lemma PadInjective(n: nat, m: nat, width: nat)
    requires n < Pow10(width) && m < Pow10(width)
    ensures Pad(n, width) == Pad(m, width) <==> n == m
  {
    PadRoundTrip(n, width);
    PadRoundTrip(m, width);
  }

  /** Zero-padded numbers of one width sort as strings exactly as they sort
      as numbers. */
  lemma {:induction false} PadOrder(n: nat, m: nat, width: nat)
    requires n < Pow10(width) && m < Pow10(width)
    ensures Less(Pad(n, width), Pad(m, width)) <==> n < m
  {
    if width == 0 {
      LessIrreflexive("");
    } else {
      var dn := ('0' as int + n % 10) as char;
      var dm := ('0' as int + m % 10) as char;
      assert n / 10 < Pow10(width - 1) && m / 10 < Pow10(width - 1);
      PadOrder(n / 10, m / 10, width - 1);
      PadInjective(n / 10, m / 10, width - 1);
      LessConcat(Pad(n / 10, width - 1), [dn], Pad(m / 10, width - 1), [dm]);
      assert Less([dn], [dm]) <==> n % 10 < m % 10 by {
        assert [dn][1..] == [] && [dm][1..] == [];
        LessIrreflexive([]);
      }
      assert n == 10 * (n / 10) + n % 10 && m == 10 * (m / 10) + m % 10;
    }
  }

  /** One zero-padded field followed by the rest of a rendering. */
  lemma FieldOrder(n: nat, m: nat, width: nat, q1: string, q2: string)
    requires n < Pow10(width) && m < Pow10(width)
    ensures Less(Pad(n, width) + q1, Pad(m, width) + q2) <==> n < m || (n == m && Less(q1, q2))
  {
    LessConcat(Pad(n, width), q1, Pad(m, width), q2);
    PadOrder(n, m, width);
    PadInjective(n, m, width);
  }

  /** `d.isoformat()` of the date: `YYYY-MM-DD`. */
  function DatePart(t: DateTime): string {
    Pad(t.year, 4) + "-" + Pad(t.month, 2) + "-" + Pad(t.day, 2)
  }

  /** The time of day as `isoformat()` renders it: `HH:MM:SS`, followed by
      `.ffffff` only when the microseconds are not zero. */
  function ClockPart(t: DateTime): string {
    Pad(t.hour, 2) + ":" + Pad(t.minute, 2) + ":" + Pad(t.second, 2)
    + (if t.microsecond != 0 then "." + Pad(t.microsecond, 6) else "")
  }

  /** `t.isoformat()` of a naive datetime. It never holds a `Z`, has 19
      characters when the microseconds are zero and 26 otherwise. */
  function IsoFormat(t: DateTime): (s: string)
    ensures |s| == (if t.microsecond == 0 then 19 else 26)
    ensures 'Z' !in s
  {
    var s := DatePart(t) + "T" + ClockPart(t);
    assert forall i :: 0 <= i < |s| ==> IsDigit(s[i]) || s[i] in "-T:." by {
      var c := ClockPart(t);
      assert forall i :: 0 <= i < |c| ==> IsDigit(c[i]) || c[i] in ":.";
    }
    s
  }

  /** `t.strftime('%Y%m%d-%H%M%S')`: the fifteen-character stamp that starts
      every log file name. */
  function Stamp(t: DateTime): (s: string)
    ensures |s| == 15
    ensures AllDigits(s[..8]) && s[8] == '-' && AllDigits(s[9..])
  {
    var ymd := Pad(t.year, 4) + (Pad(t.month, 2) + Pad(t.day, 2));
    var hms := Pad(t.hour, 2) + (Pad(t.minute, 2) + Pad(t.second, 2));
    var s := Pad(t.year, 4) + (Pad(t.month, 2) + (Pad(t.day, 2) + ("-" + hms)));
    assert s == ymd + ("-" + hms);
    assert s[..8] == ymd && s[9..] == hms;
    s
  }

  /** Strictly earlier, at the one-second resolution of a stamp. */
  predicate EarlierSecond(a: DateTime, b: DateTime) {
    || a.year < b.year
    || (a.year == b.year && a.month < b.month)
    || (a.year == b.year && a.month == b.month && a.day < b.day)
    || (a.year == b.year && a.month == b.month && a.day == b.day && a.hour < b.hour)
    || (a.year == b.year && a.month == b.month && a.day == b.day && a.hour == b.hour
        && a.minute < b.minute)
    || (a.year == b.year && a.month == b.month && a.day == b.day && a.hour == b.hour
        && a.minute == b.minute && a.second < b.second)
  }

  predicate SameSecond(a: DateTime, b: DateTime) {
    a.year == b.year && a.month == b.month && a.day == b.day
    && a.hour == b.hour && a.minute == b.minute && a.second == b.second
  }

  /** Stamps sort as strings exactly as the clock values they render sort in
      time: this is what makes a name-ordered listing newest-first. */
  lemma StampOrder(a: DateTime, b: DateTime)
    requires Valid(a) && Valid(b)
    ensures Less(Stamp(a), Stamp(b)) <==> EarlierSecond(a, b)
  {
    var hmsA := Pad(a.hour, 2) + (Pad(a.minute, 2) + Pad(a.second, 2));
    var hmsB := Pad(b.hour, 2) + (Pad(b.minute, 2) + Pad(b.second, 2));
    FieldOrder(a.year, b.year, 4, Pad(a.month, 2) + (Pad(a.day, 2) + ("-" + hmsA)),
      Pad(b.month, 2) + (Pad(b.day, 2) + ("-" + hmsB)));
    FieldOrder(a.month, b.month, 2, Pad(a.day, 2) + ("-" + hmsA), Pad(b.day, 2) + ("-" + hmsB));
    FieldOrder(a.day, b.day, 2, "-" + hmsA, "-" + hmsB);
    LessConcat("-", hmsA, "-", hmsB);
    FieldOrder(a.hour, b.hour, 2, Pad(a.minute, 2) + Pad(a.second, 2),
      Pad(b.minute, 2) + Pad(b.second, 2));
    FieldOrder(a.minute, b.minute, 2, Pad(a.second, 2), Pad(b.second, 2));
    PadOrder(a.second, b.second, 2);
    LessIrreflexive("-");
  }

  /** Reads back a stamp; the inverse of `Stamp` at one-second resolution. */
  function ParseStamp(s: string): Option<DateTime> {
    if |s| == 15 && s[8] == '-' && AllDigits(s[..8]) && AllDigits(s[9..]) then
      var t := DateTime(DigitsValue(s[..4]), DigitsValue(s[4..6]), DigitsValue(s[6..8]),
        DigitsValue(s[9..11]), DigitsValue(s[11..13]), DigitsValue(s[13..15]), 0);
      if Valid(t) then Some(t) else None
    else None
  }

  lemma StampRoundTrip(t: DateTime)
    requires Valid(t)
    ensures ParseStamp(Stamp(t)) == Some(t.(microsecond := 0))
  {
    StampFields(t);
    PadRoundTrip(t.year, 4);
    PadRoundTrip(t.month, 2);
    PadRoundTrip(t.day, 2);
    PadRoundTrip(t.hour, 2);
    PadRoundTrip(t.minute, 2);
    PadRoundTrip(t.second, 2);
  }

  /** Where each field sits in a stamp. */
  lemma StampFields(t: DateTime)
    ensures var s := Stamp(t);
      && s[..4] == Pad(t.year, 4) && s[4..6] == Pad(t.month, 2) && s[6..8] == Pad(t.day, 2)
      && s[8] == '-'
      && s[9..11] == Pad(t.hour, 2) && s[11..13] == Pad(t.minute, 2) && s[13..15] == Pad(t.second, 2)
      && AllDigits(s[..8]) && AllDigits(s[9..])
  {
    var hms := Pad(t.hour, 2) + (Pad(t.minute, 2) + Pad(t.second, 2));
    assert hms[..2] == Pad(t.hour, 2) && hms[2..4] == Pad(t.minute, 2) && hms[4..] == Pad(t.second, 2);
    var s := Stamp(t);
    assert s[9..] == hms;
    var ymd := Pad(t.year, 4) + (Pad(t.month, 2) + Pad(t.day, 2));
    assert s[..8] == ymd;
  }

  /** Equal stamps mean the same second. */
  lemma StampInjective(a: DateTime, b: DateTime)
    requires Valid(a) && Valid(b)
    ensures Stamp(a) == Stamp(b) <==> SameSecond(a, b)
  {
    StampRoundTrip(a);
    StampRoundTrip(b);
  }

  /** `YYYY-MM-DD` with a real calendar date. */
  function ParseDate(s: string): Option<DateTime> {
    if |s| == 10 && s[4] == '-' && s[7] == '-'
       && AllDigits(s[..4]) && AllDigits(s[5..7]) && AllDigits(s[8..]) then
      var t := DateTime(DigitsValue(s[..4]), DigitsValue(s[5..7]), DigitsValue(s[8..]), 0, 0, 0, 0);
      if Valid(t) then Some(t) else None
    else None
  }

  /** `HH:MM:SS` or `HH:MM:SS.ffffff` with in-range fields, onto a date. */
  function ParseClock(d: DateTime, s: string): Option<DateTime> {
    if (|s| == 8 || (|s| == 15 && s[8] == '.' && AllDigits(s[9..])))
       && s[2] == ':' && s[5] == ':'
       && AllDigits(s[..2]) && AllDigits(s[3..5]) && AllDigits(s[6..8]) then
      var us := if |s| == 15 then DigitsValue(s[9..]) else 0;
      var t := d.(hour := DigitsValue(s[..2]), minute := DigitsValue(s[3..5]),
                  second := DigitsValue(s[6..8]), microsecond := us);
      if Valid(t) then Some(t) else None
    else None
  }

  /** The part of `datetime.fromisoformat`'s grammar this model accepts:
      `YYYY-MM-DD`, or that date, `T`, and `HH:MM:SS[.ffffff]`, optionally
      followed by the UTC offset `+00:00`. Every string accepted here is
      accepted by CPython's parser; the converse does not hold. */
  function ParseIso(s: string): Option<DateTime> {
    if |s| == 10 then ParseDate(s)
    else if |s| > 11 && s[10] == 'T' then
      var rest := s[11..];
      var clock := if |rest| >= 6 && rest[|rest| - 6..] == "+00:00" then rest[..|rest| - 6] else rest;
      match ParseDate(s[..10])
      case None => None
      case Some(d) => ParseClock(d, clock)
    else None
  }

  predicate IsoParses(s: string) {
    ParseIso(s).Some?
  }

  lemma DateRoundTrip(t: DateTime)
    requires Valid(t)
    ensures ParseDate(DatePart(t)) == Some(t.(hour := 0, minute := 0, second := 0, microsecond := 0))
  {
    var s := DatePart(t);
    assert s[..4] == Pad(t.year, 4) && s[5..7] == Pad(t.month, 2) && s[8..] == Pad(t.day, 2);
    PadRoundTrip(t.year, 4);
    PadRoundTrip(t.month, 2);
    PadRoundTrip(t.day, 2);
  }

  lemma ClockRoundTrip(d: DateTime, t: DateTime)
    requires Valid(t) && d == t.(hour := 0, minute := 0, second := 0, microsecond := 0)
    ensures ParseClock(d, ClockPart(t)) == Some(t)
  {
    ClockFields(t);
    PadRoundTrip(t.hour, 2);
    PadRoundTrip(t.minute, 2);
    PadRoundTrip(t.second, 2);
    if t.microsecond != 0 {
      PadRoundTrip(t.microsecond, 6);
    }
  }

  /** Where each field sits in the time of day. */
  lemma ClockFields(t: DateTime)
    ensures var s := ClockPart(t);
      && |s| == (if t.microsecond != 0 then 15 else 8)
      && s[..2] == Pad(t.hour, 2) && s[2] == ':' && s[3..5] == Pad(t.minute, 2)
      && s[5] == ':' && s[6..8] == Pad(t.second, 2)
      && (t.microsecond != 0 ==> s[8] == '.' && s[9..] == Pad(t.microsecond, 6))
  {
  }

  /** `fromisoformat` reads back what `isoformat` wrote, with or without a
      `+00:00` offset appended. */
  lemma IsoRoundTrip(t: DateTime)
    requires Valid(t)
    ensures ParseIso(IsoFormat(t)) == Some(t)
    ensures ParseIso(IsoFormat(t) + "+00:00") == Some(t)
  {
    IsoPlainRoundTrip(t);
    IsoOffsetRoundTrip(t);
  }

  lemma IsoPlainRoundTrip(t: DateTime)
    requires Valid(t)
    ensures ParseIso(IsoFormat(t)) == Some(t)
  {
    IsoFields(t);
    DateRoundTrip(t);
    ClockRoundTrip(t.(hour := 0, minute := 0, second := 0, microsecond := 0), t);
    var c := ClockPart(t);
    assert c[|c| - 6] != '+';
  }

  lemma IsoOffsetRoundTrip(t: DateTime)
    requires Valid(t)
    ensures ParseIso(IsoFormat(t) + "+00:00") == Some(t)
  {
    var iso := IsoFormat(t);
    var z := iso + "+00:00";
    IsoFields(t);
    DateRoundTrip(t);
    ClockRoundTrip(t.(hour := 0, minute := 0, second := 0, microsecond := 0), t);
    assert z[..10] == iso[..10] && z[10] == iso[10];
    var rest := z[11..];
    assert rest == ClockPart(t) + "+00:00";
    assert rest[..|rest| - 6] == ClockPart(t);
  }

  /** Where the date, the `T` and the time of day sit in `isoformat()`. */
  lemma IsoFields(t: DateTime)
    ensures var s := IsoFormat(t);
      s[..10] == DatePart(t) && s[10] == 'T' && s[11..] == ClockPart(t)
  {
  }
}
