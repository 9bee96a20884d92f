/**
 * Calendar dates as Python's `datetime` sees them: the proleptic Gregorian
 * calendar over years 1 to 9999, `toordinal`, `weekday`, the step back by one
 * day (`- timedelta(days=1)`), `strftime('%Y-%m-%d')`, and the two `strptime`
 * formats the configuration accepts.
 */
module Dates {
  import opened Wrappers
  import opened Strings

  datatype Date = Date(year: int, month: int, day: int)

  /** A date with a time of day to the minute. */
  datatype DateTime = DateTime(date: Date, hour: int, minute: int)

  predicate IsLeap(y: int) {
    y % 4 == 0 && (y % 100 != 0 || y % 400 == 0)
  }

  function DaysInMonth(y: int, m: int): int
    requires 1 <= m <= 12
  {
    if m == 2 then (if IsLeap(y) then 29 else 28)
    else if m == 4 || m == 6 || m == 9 || m == 11 then 30
    else 31
  }

  /** The dates `datetime.date` can represent. */
  predicate ValidDate(d: Date) {
    1 <= d.year <= 9999 && 1 <= d.month <= 12 && 1 <= d.day <= DaysInMonth(d.year, d.month)
  }

  predicate ValidDateTime(t: DateTime) {
    ValidDate(t.date) && 0 <= t.hour <= 23 && 0 <= t.minute <= 59
  }

  function DaysBeforeYear(y: int): int {
    var p := y - 1;
    p * 365 + p / 4 - p / 100 + p / 400
  }

  function DaysBeforeMonth(y: int, m: int): int
    requires 1 <= m <= 12
  {
    var table := [0, 31, 59, 90, 120, 151, 181, 212, 243, 273, 304, 334];
    table[m - 1] + if m > 2 && IsLeap(y) then 1 else 0
  }

  /** `date.toordinal()`: 0001-01-01 is day 1. */
  function Ordinal(d: Date): int
    requires ValidDate(d)
  {
    DaysBeforeYear(d.year) + DaysBeforeMonth(d.year, d.month) + d.day
  }

  /** `date.weekday()`: Monday is 0, Friday 4, Saturday 5, Sunday 6. */
  function Weekday(d: Date): (w: int)
    requires ValidDate(d)
    ensures 0 <= w < 7
  {
    (Ordinal(d) + 6) % 7
  }

  const FirstDate := Date(1, 1, 1)

  /** A full year separates the ordinals of consecutive New Year's Days. */
  lemma YearLength(y: int)
    requires 2 <= y
    ensures DaysBeforeYear(y) - DaysBeforeYear(y - 1) == if IsLeap(y - 1) then 366 else 365
  {
    var q := y - 1;
    QuotientStep(q, 4);
    QuotientStep(q, 100);
    QuotientStep(q, 400);
    LeapDivisors(q);
    var s4, s100, s400 := q / 4 - (q - 1) / 4, q / 100 - (q - 1) / 100, q / 400 - (q - 1) / 400;
    assert DaysBeforeYear(y) - DaysBeforeYear(y - 1) == 365 + s4 - s100 + s400;
  }

  /** A multiple of 400 is one of 100, and a multiple of 100 is one of 4. */
  lemma LeapDivisors(q: int)
    ensures q % 100 == 0 ==> q % 4 == 0
    ensures q % 400 == 0 ==> q % 100 == 0
  {
    if q % 100 == 0 {
      assert q == 4 * (25 * (q / 100));
    }
    if q % 400 == 0 {
      assert q == 100 * (4 * (q / 400));
    }
  }

  /** Counting up to `q` rather than `q - 1` adds one multiple of `k` exactly when `q` is one (the leap-year divisors). */
  lemma QuotientStep(q: int, k: int)
    requires 1 <= q && (k == 4 || k == 100 || k == 400)
    ensures q / k - (q - 1) / k == if q % k == 0 then 1 else 0
  {
    if k == 4 {
      assert q / 4 - (q - 1) / 4 == if q % 4 == 0 then 1 else 0;
    } else if k == 100 {
      assert q / 100 - (q - 1) / 100 == if q % 100 == 0 then 1 else 0;
    } else {
      assert q / 400 - (q - 1) / 400 == if q % 400 == 0 then 1 else 0;
    }
  }

  /** `d - timedelta(days=1)`: the calendar day before `d`. */
  function PrevDay(d: Date): (r: Date)
    requires ValidDate(d) && d != FirstDate
    ensures ValidDate(r)
    ensures Ordinal(r) == Ordinal(d) - 1
  {
    if d.day > 1 then Date(d.year, d.month, d.day - 1)
    else if d.month > 1 then Date(d.year, d.month - 1, DaysInMonth(d.year, d.month - 1))
    else
      YearLength(d.year);
      Date(d.year - 1, 12, 31)
  }

  /** Stepping back one day steps the weekday back by one, cyclically. */
  lemma PrevDayWeekday(d: Date)
    requires ValidDate(d) && d != FirstDate
    ensures Weekday(PrevDay(d)) == (Weekday(d) + 6) % 7
  {
    var o := Ordinal(d);
    assert Ordinal(PrevDay(d)) == o - 1;
    StepBackMod7(o + 6);
  }

  lemma StepBackMod7(k: int)
    ensures (k - 1) % 7 == (k % 7 + 6) % 7
  {
    var q, r := k / 7, k % 7;
    assert k == 7 * q + r;
    if r == 0 {
      assert k - 1 == 7 * (q - 1) + 6;
    } else {
      assert k - 1 == 7 * q + (r - 1);
    }
  }

  /** `strftime('%Y-%m-%d')`. */
  function FormatYmd(d: Date): (r: string)
    requires ValidDate(d)
    ensures |r| == 10 && r[4] == '-' && r[7] == '-'
  {
    PadNat(d.year, 4) + "-" + PadNat(d.month, 2) + "-" + PadNat(d.day, 2)
  }

  /** `strftime('%Y-%m-%d %H:%M')`. */
  function FormatYmdHm(t: DateTime): (r: string)
    requires ValidDateTime(t)
    ensures |r| == 16 && r[..10] == FormatYmd(t.date) && r[10] == ' ' && r[13] == ':'
  {
    FormatYmd(t.date) + " " + PadNat(t.hour, 2) + ":" + PadNat(t.minute, 2)
  }

  /** Length of the run of ASCII digits at the start of `s`. */
  function DigitRun(s: string): (n: nat)
    ensures n <= |s| && AllDigits(s[..n])
    ensures n < |s| ==> !IsDigit(s[n])
  {
    if |s| > 0 && IsDigit(s[0]) then
      var n := 1 + DigitRun(s[1..]);
      assert s[..n] == [s[0]] + s[1..][..n - 1];
      n
    else 0
  }

  /**
   * A `%m`, `%H` or `%M` field: one or two digits.  Each field is followed by a
   * non-digit or by the end, so the field is the whole digit run.
   */
  function ShortNumber(s: string): Option<(nat, string)> {
    var n := DigitRun(s);
    if 1 <= n <= 2 then Some((DigitsValue(s[..n]), s[n..])) else None
  }

  /** A `%d` field: one or two digits, or a space and one non-zero digit. */
  function DayField(s: string): Option<(nat, string)> {
    if |s| >= 2 && s[0] == ' ' && '1' <= s[1] <= '9' then Some((s[1] as int - '0' as int, s[2..]))
    else ShortNumber(s)
  }

  /** `%Y-%m-%d` at the start of `s`: the fields read and what follows them. */
  function YmdPrefix(s: string): Option<(Date, string)> {
    if |s| < 5 || !AllDigits(s[..4]) || s[4] != '-' then None
    else match ShortNumber(s[5..])
      case None => None
      case Some((month, t)) =>
        if |t| == 0 || t[0] != '-' || !(1 <= month <= 12) then None
        else match DayField(t[1..])
          case None => None
          case Some((day, rest)) =>
            if 1 <= day <= 31 then Some((Date(DigitsValue(s[..4]), month, day), rest)) else None
  }

  /** `datetime.strptime(s, '%Y-%m-%d')`; `None` where Python raises `ValueError`. */
  function ParseYmd(s: string): (r: Option<Date>)
    ensures r.Some? ==> ValidDate(r.value)
  {
    match YmdPrefix(s)
    case None => None
    case Some((d, rest)) => if rest == [] && ValidDate(d) then Some(d) else None
  }

  /** `\s+%H:%M` making up all of `s`: the hour and the minute. */
  function ClockSuffix(s: string): Option<(nat, nat)> {
    var w := LeadingSpaces(s);
    if w == 0 then None
    else match ShortNumber(s[w..])
      case None => None
      case Some((hour, u)) =>
        if |u| == 0 || u[0] != ':' || hour > 23 then None
        else match ShortNumber(u[1..])
          case None => None
          case Some((minute, v)) => if v == [] && minute <= 59 then Some((hour, minute)) else None
  }

  /**
   * `datetime.strptime(s, '%Y-%m-%d %H:%M')`: the space of the format matches
   * one or more whitespace characters.
   */
  function ParseYmdHm(s: string): (r: Option<DateTime>)
    ensures r.Some? ==> ValidDateTime(r.value)
  {
    match YmdPrefix(s)
    case None => None
    case Some((d, rest)) =>
      if !ValidDate(d) then None
      else match ClockSuffix(rest)
        case None => None
        case Some((hour, minute)) => Some(DateTime(d, hour, minute))
  }

  /** A digit run followed by a non-digit is read as exactly that run. */
  lemma DigitRunOf(a: string, b: string)
    requires AllDigits(a)
    requires b != [] ==> !IsDigit(b[0])
    ensures DigitRun(a + b) == |a| && (a + b)[..|a|] == a && (a + b)[|a|..] == b
  {
    var s := a + b;
    if |a| > 0 {
      DigitRunOf(a[1..], b);
      assert s[1..] == a[1..] + b;
      assert IsDigit(s[0]);
      assert DigitRun(s) == 1 + DigitRun(s[1..]);
    }
    assert s[..|a|] == a;
  }

  /** Reading a zero-padded two-digit field gives its number back. */
  lemma ShortNumberOf(n: nat, b: string)
    requires n < 100
    requires b != [] ==> !IsDigit(b[0])
    ensures ShortNumber(PadNat(n, 2) + b) == Some((n, b))
  {
    DigitRunOf(PadNat(n, 2), b);
  }

  /** `strptime('%Y-%m-%d')` reads back what `strftime('%Y-%m-%d')` wrote. */
  lemma ParseFormatYmd(d: Date)
    requires ValidDate(d)
    ensures YmdPrefix(FormatYmd(d) + "") == Some((d, ""))
    ensures ParseYmd(FormatYmd(d)) == Some(d)
  {
    YmdPrefixOf(d, "");
    assert FormatYmd(d) + "" == FormatYmd(d);
  }

  lemma YmdPrefixOf(d: Date, b: string)
    requires ValidDate(d)
    requires b != [] ==> !IsDigit(b[0])
    ensures YmdPrefix(FormatYmd(d) + b) == Some((d, b))
  {
    var y, m, dd := PadNat(d.year, 4), PadNat(d.month, 2), PadNat(d.day, 2);
    var s := FormatYmd(d) + b;
    var t := "-" + (dd + b);
    YmdLayout(d, b);
    ShortNumberOf(d.month, t);
    DayFieldOf(d.day, b);
  }

  /** Where the fields of `FormatYmd(d) + b` sit. */
  lemma YmdLayout(d: Date, b: string)
    requires ValidDate(d)
    ensures var s := FormatYmd(d) + b;
      |s| >= 5 && s[..4] == PadNat(d.year, 4) && s[4] == '-'
      && s[5..] == PadNat(d.month, 2) + ("-" + (PadNat(d.day, 2) + b))
  {
    var y, m, dd := PadNat(d.year, 4), PadNat(d.month, 2), PadNat(d.day, 2);
    var s := FormatYmd(d) + b;
    assert |y| == 4;
    assert s == y + ("-" + (m + ("-" + (dd + b))));
  }

  /** The day field reads back as written. */
  lemma DayFieldOf(day: nat, b: string)
    requires 1 <= day <= 31
    requires b != [] ==> !IsDigit(b[0])
    ensures DayField(("-" + (PadNat(day, 2) + b))[1..]) == Some((day, b))
  {
    var dd := PadNat(day, 2);
    assert ("-" + (dd + b))[1..] == dd + b;
    if dd[0] == ' ' { assert false; }
    ShortNumberOf(day, b);
  }

  /** The clock part reads back as written. */
  lemma ClockSuffixOf(hour: nat, minute: nat)
    requires hour <= 23 && minute <= 59
    ensures ClockSuffix(" " + PadNat(hour, 2) + ":" + PadNat(minute, 2)) == Some((hour, minute))
  {
    var h, mi := PadNat(hour, 2), PadNat(minute, 2);
    var clock := h + (":" + mi);
    var tail := " " + h + ":" + mi;
    assert tail == " " + clock;
    assert tail[1..] == clock;
    assert LeadingSpaces(tail) == 1 by {
      assert IsDigit(clock[0]);
    }
    ShortNumberOf(hour, ":" + mi);
    assert (":" + mi)[1..] == mi + "";
    ShortNumberOf(minute, "");
    assert mi + "" == mi;
  }

  /** `strptime('%Y-%m-%d %H:%M')` reads back what the matching `strftime` wrote. */
  lemma ParseFormatYmdHm(t: DateTime)
    requires ValidDateTime(t)
    ensures ParseYmdHm(FormatYmdHm(t)) == Some(t)
  {
    var tail := " " + PadNat(t.hour, 2) + ":" + PadNat(t.minute, 2);
    assert FormatYmdHm(t) == FormatYmd(t.date) + tail;
    assert tail[0] == ' ';
    YmdPrefixOf(t.date, tail);
    ClockSuffixOf(t.hour, t.minute);
  }

  // What `strptime` accepts: every string it reads, not only the ones
  // `strftime` writes.

  /** A `%Y` field: exactly four digits. */
  predicate YearText(t: string, n: int) {
    |t| == 4 && AllDigits(t) && DigitsValue(t) == n
  }

  /** A `%m`, `%H` or `%M` field: one or two digits, the leading zero optional. */
  predicate NumberText(t: string, n: int) {
    1 <= |t| <= 2 && AllDigits(t) && DigitsValue(t) == n
  }

  /** A `%d` field: one or two digits, or a space and one non-zero digit. */
  predicate DayText(t: string, n: int) {
    NumberText(t, n) || (|t| == 2 && t[0] == ' ' && '1' <= t[1] <= '9' && n == t[1] as int - '0' as int)
  }

  /** `p` spells the date `d` as year, month and day fields separated by `-`. */
  ghost predicate YmdText(p: string, d: Date) {
    exists yt, mt, dt :: p == yt + "-" + mt + "-" + dt && YearText(yt, d.year) && NumberText(mt, d.month) && DayText(dt, d.day)
  }

  /**
   * `%Y-%m-%d` parses exactly the strings made of a four-digit year, a month
   * of one or two digits and a day of one or two digits (or a space and a
   * digit), separated by `-`, that name a valid date.
   */
  lemma ParseYmdShape(s: string, d: Date)
    ensures ParseYmd(s) == Some(d) <==> ValidDate(d) && YmdText(s, d)
  {
    if ParseYmd(s) == Some(d) {
      ParseYmdSplit(s);
    }
    if ValidDate(d) && YmdText(s, d) {
      var yt, mt, dt :| s == yt + "-" + mt + "-" + dt && YearText(yt, d.year) && NumberText(mt, d.month) && DayText(dt, d.day);
      ParseYmdJoin(yt, mt, dt, d);
    }
  }

  /** The fields of a valid date, joined by `-`, read back as that date. */
  lemma ParseYmdJoin(yt: string, mt: string, dt: string, d: Date)
    requires ValidDate(d) && YearText(yt, d.year) && NumberText(mt, d.month) && DayText(dt, d.day)
    ensures ParseYmd(yt + "-" + mt + "-" + dt) == Some(d)
  {
    var s := yt + "-" + mt + "-" + dt;
    YmdPrefixJoin(yt, mt, dt, d, "");
    assert s + "" == s;
  }

  /** Whatever `ParseYmd` reads is the text of the date it returns. */
  lemma ParseYmdSplit(s: string)
    requires ParseYmd(s).Some?
    ensures YmdText(s, ParseYmd(s).value)
  {
    var r := YmdPrefix(s).value;
    YmdPrefixSplit(s);
    var p :| s == p + r.1 && YmdText(p, r.0);
    assert p == s;
  }

  /**
   * `%Y-%m-%d %H:%M` parses exactly a `%Y-%m-%d` date, a run of one or more
   * whitespace characters, and an hour and a minute of one or two digits each
   * separated by `:`, in range.
   */
  lemma ParseYmdHmShape(s: string, t: DateTime)
    ensures ParseYmdHm(s) == Some(t) <==>
      ValidDateTime(t) && exists p, ws, ht, mi ::
        s == p + ws + ht + ":" + mi && ParseYmd(p) == Some(t.date) && SpaceRun(ws)
        && NumberText(ht, t.hour) && NumberText(mi, t.minute)
  {
    if ParseYmdHm(s) == Some(t) {
      ParseYmdHmSplit(s);
    }
    if ValidDateTime(t) && exists p, ws, ht, mi ::
        s == p + ws + ht + ":" + mi && ParseYmd(p) == Some(t.date) && SpaceRun(ws)
        && NumberText(ht, t.hour) && NumberText(mi, t.minute) {
      var p, ws, ht, mi :| s == p + ws + ht + ":" + mi && ParseYmd(p) == Some(t.date) && SpaceRun(ws)
        && NumberText(ht, t.hour) && NumberText(mi, t.minute);
      ParseYmdHmJoin(p, ws, ht, mi, t);
    }
  }

  /** Whatever `ParseYmdHm` reads is a date, whitespace, an hour, `:` and a minute. */
  lemma ParseYmdHmSplit(s: string)
    requires ParseYmdHm(s).Some?
    ensures var t := ParseYmdHm(s).value; exists p, ws, ht, mi ::
      s == p + ws + ht + ":" + mi && ParseYmd(p) == Some(t.date) && SpaceRun(ws)
      && NumberText(ht, t.hour) && NumberText(mi, t.minute)
  {
    var t := ParseYmdHm(s).value;
    var r := YmdPrefix(s).value;
    assert r.0 == t.date && ValidDate(r.0);
    YmdPrefixSplit(s);
    var p :| s == p + r.1 && YmdText(p, r.0);
    ParseYmdShape(p, t.date);
    var c := ClockSuffix(r.1).value;
    assert c == (t.hour, t.minute);
    ClockSuffixSplit(r.1);
    var ws, ht, mi :| r.1 == ws + ht + ":" + mi && SpaceRun(ws) && NumberText(ht, c.0) && NumberText(mi, c.1);
    Regroup(p, ws, ht, mi);
  }

  /** A date, whitespace, an hour, `:` and a minute in range read as that date and time. */
  lemma ParseYmdHmJoin(p: string, ws: string, ht: string, mi: string, t: DateTime)
    requires ValidDateTime(t) && ParseYmd(p) == Some(t.date) && SpaceRun(ws)
    requires NumberText(ht, t.hour) && NumberText(mi, t.minute)
    ensures ParseYmdHm(p + ws + ht + ":" + mi) == Some(t)
  {
    ParseYmdShape(p, t.date);
    var yt, mt, dt :| p == yt + "-" + mt + "-" + dt && YearText(yt, t.date.year) && NumberText(mt, t.date.month) && DayText(dt, t.date.day);
    var b := ws + ht + ":" + mi;
    assert b[0] == ws[0];
    YmdPrefixJoin(yt, mt, dt, t.date, b);
    Regroup(p, ws, ht, mi);
    ClockSuffixJoin(ws, ht, mi, t.hour, t.minute);
  }

  lemma Regroup(p: string, ws: string, ht: string, mi: string)
    ensures p + ws + ht + ":" + mi == p + (ws + ht + ":" + mi)
  {
  }

  /** A non-empty run of whitespace. */
  predicate SpaceRun(ws: string) {
    ws != [] && forall i :: 0 <= i < |ws| ==> IsSpace(ws[i])
  }

  /** Reading a field back from its text. */
  lemma ShortNumberJoin(a: string, n: int, b: string)
    requires NumberText(a, n)
    requires b != [] ==> !IsDigit(b[0])
    ensures ShortNumber(a + b) == Some((n, b))
  {
    DigitRunOf(a, b);
  }

  lemma DayFieldJoin(a: string, n: int, b: string)
    requires DayText(a, n)
    requires b != [] ==> !IsDigit(b[0])
    ensures DayField(a + b) == Some((n, b))
  {
    if NumberText(a, n) {
      assert (a + b)[0] == a[0];
      ShortNumberJoin(a, n, b);
    } else {
      assert (a + b)[2..] == b;
    }
  }

  /** What `ShortNumber` reads is the text of its number. */
  lemma ShortNumberSplit(s: string)
    requires ShortNumber(s).Some?
    ensures var r := ShortNumber(s).value;
      |r.1| <= |s| && s == s[..|s| - |r.1|] + r.1 && NumberText(s[..|s| - |r.1|], r.0)
  {
    var n := DigitRun(s);
    assert s[n..] == ShortNumber(s).value.1;
  }

  lemma DayFieldSplit(s: string)
    requires DayField(s).Some?
    ensures var r := DayField(s).value;
      |r.1| <= |s| && s == s[..|s| - |r.1|] + r.1 && DayText(s[..|s| - |r.1|], r.0)
  {
    if |s| >= 2 && s[0] == ' ' && '1' <= s[1] <= '9' {
      assert s[..|s| - |s[2..]|] == s[..2];
    } else {
      ShortNumberSplit(s);
    }
  }

  /** Joining the fields of a date, then any text not starting with a digit. */
  lemma YmdPrefixJoin(yt: string, mt: string, dt: string, d: Date, b: string)
    requires YearText(yt, d.year) && NumberText(mt, d.month) && DayText(dt, d.day)
    requires 1 <= d.month <= 12 && 1 <= d.day <= 31
    requires b != [] ==> !IsDigit(b[0])
    ensures YmdPrefix(yt + "-" + mt + "-" + dt + b) == Some((d, b))
  {
    var s := yt + "-" + mt + "-" + dt + b;
    var t := "-" + dt + b;
    YmdLayoutOf(yt, mt, dt, b);
    ShortNumberJoin(mt, d.month, t);
    DayFieldJoin(dt, d.day, b);
    YmdPrefixFromParts(s, d.month, t, d.day, b);
  }

  /** Where the fields of `yt + "-" + mt + "-" + dt + b` sit. */
  lemma YmdLayoutOf(yt: string, mt: string, dt: string, b: string)
    requires |yt| == 4
    ensures var s := yt + "-" + mt + "-" + dt + b; var t := "-" + dt + b;
      |s| >= 5 && s[..4] == yt && s[4] == '-' && s[5..] == mt + t && t[1..] == dt + b
  {
    var s := yt + "-" + mt + "-" + dt + b;
    var t := "-" + dt + b;
    assert s == yt + ("-" + (mt + t));
  }

  /** `YmdPrefix` assembled from the fields it reads. */
  lemma YmdPrefixFromParts(s: string, month: int, t: string, day: int, rest: string)
    requires |s| >= 5 && AllDigits(s[..4]) && s[4] == '-' && ShortNumber(s[5..]) == Some((month, t))
    requires t != [] && t[0] == '-' && 1 <= month <= 12
    requires DayField(t[1..]) == Some((day, rest)) && 1 <= day <= 31
    ensures YmdPrefix(s) == Some((Date(DigitsValue(s[..4]), month, day), rest))
  {
  }

  /** Whatever `YmdPrefix` reads is the text of a date followed by the rest. */
  lemma YmdPrefixSplit(s: string)
    requires YmdPrefix(s).Some?
    ensures var r := YmdPrefix(s).value; exists p :: s == p + r.1 && YmdText(p, r.0)
  {
    var r := YmdPrefix(s).value;
    YmdPrefixParts(s);
    var u := s[5..];
    var t := ShortNumber(u).value.1;
    var v := t[1..];
    var rest := DayField(v).value.1;
    ShortNumberSplit(u);
    DayFieldSplit(v);
    var yt, mt, dt := s[..4], u[..|u| - |t|], v[..|v| - |rest|];
    YmdCut(s, mt, t, dt, rest);
    YmdTextOf(yt, mt, dt, r.0);
  }

  /** `s` cut at its two `-` separators. */
  lemma YmdCut(s: string, mt: string, t: string, dt: string, rest: string)
    requires |s| >= 5 && s[4] == '-' && s[5..] == mt + t
    requires t != [] && t[0] == '-' && t[1..] == dt + rest
    ensures s == (s[..4] + "-" + mt + "-" + dt) + rest
  {
    assert t == "-" + (dt + rest);
    assert s == s[..4] + ("-" + s[5..]);
  }

  lemma YmdTextOf(yt: string, mt: string, dt: string, d: Date)
    requires YearText(yt, d.year) && NumberText(mt, d.month) && DayText(dt, d.day)
    ensures YmdText(yt + "-" + mt + "-" + dt, d)
  {
  }

  /** The fields `YmdPrefix` reads, one by one. */
  lemma YmdPrefixParts(s: string)
    requires YmdPrefix(s).Some?
    ensures |s| >= 5 && YearText(s[..4], YmdPrefix(s).value.0.year) && s[4] == '-'
    ensures ShortNumber(s[5..]).Some? && var t := ShortNumber(s[5..]).value.1;
      t != [] && t[0] == '-' && ShortNumber(s[5..]).value.0 == YmdPrefix(s).value.0.month
      && DayField(t[1..]).Some? && DayField(t[1..]).value.0 == YmdPrefix(s).value.0.day
      && DayField(t[1..]).value.1 == YmdPrefix(s).value.1
  {
  }

  /** Whatever `ClockSuffix` reads is whitespace, an hour, `:` and a minute. */
  lemma ClockSuffixSplit(s: string)
    requires ClockSuffix(s).Some?
    ensures var r := ClockSuffix(s).value;
      exists ws, ht, mi :: s == ws + ht + ":" + mi && SpaceRun(ws) && NumberText(ht, r.0) && NumberText(mi, r.1)
  {
    ClockSuffixParts(s);
    var r := ClockSuffix(s).value;
    var w := LeadingSpaces(s);
    var x := s[w..];
    var u := ShortNumber(x).value.1;
    var v := u[1..];
    var ws, ht := s[..w], x[..|x| - |u|];
    ShortNumberSplit(x);
    WholeNumberText(v, r.1);
    ClockRegroup(s, w, ht, u);
    ClockTextOf(s, ws, ht, v, r);
  }

  /** A field that is all of `v` is the text of its number. */
  lemma WholeNumberText(v: string, n: nat)
    requires ShortNumber(v) == Some((n, []))
    ensures NumberText(v, n)
  {
    ShortNumberSplit(v);
    assert v[..|v| - 0] == v;
  }

  /** `s` regrouped around the `:` that starts `u`. */
  lemma ClockRegroup(s: string, w: nat, ht: string, u: string)
    requires w <= |s| && s[w..] == ht + u && u != [] && u[0] == ':'
    ensures s == s[..w] + ht + ":" + u[1..]
  {
    assert u == ":" + u[1..];
    assert s == s[..w] + s[w..];
  }

  lemma ClockTextOf(s: string, ws: string, ht: string, mi: string, r: (nat, nat))
    requires s == ws + ht + ":" + mi && SpaceRun(ws) && NumberText(ht, r.0) && NumberText(mi, r.1)
    ensures exists ws, ht, mi :: s == ws + ht + ":" + mi && SpaceRun(ws) && NumberText(ht, r.0) && NumberText(mi, r.1)
  {
  }

  /** The fields `ClockSuffix` reads, one by one. */
  lemma ClockSuffixParts(s: string)
    requires ClockSuffix(s).Some?
    ensures var w := LeadingSpaces(s);
      w > 0 && SpaceRun(s[..w]) && ShortNumber(s[w..]).Some?
      && var u := ShortNumber(s[w..]).value.1;
      u != [] && u[0] == ':' && ShortNumber(s[w..]).value.0 == ClockSuffix(s).value.0
      && ShortNumber(u[1..]).Some? && ShortNumber(u[1..]).value.1 == []
      && ShortNumber(u[1..]).value.0 == ClockSuffix(s).value.1
  {
  }

  /** Reading the clock part back from its text. */
  lemma ClockSuffixJoin(ws: string, ht: string, mi: string, hour: int, minute: int)
    requires SpaceRun(ws) && NumberText(ht, hour) && NumberText(mi, minute)
    requires hour <= 23 && minute <= 59
    ensures ClockSuffix(ws + ht + ":" + mi) == Some((hour, minute))
  {
    var c := ":" + mi;
    var s := ws + ht + ":" + mi;
    ClockLayoutOf(ws, ht, mi);
    LeadingSpacesOf(ws, ht + c);
    ShortNumberJoin(ht, hour, c);
    ShortNumberJoin(mi, minute, "");
    ClockSuffixFromParts(s, |ws|, hour, c, minute);
  }

  /** Where the fields of `ws + ht + ":" + mi` sit. */
  lemma ClockLayoutOf(ws: string, ht: string, mi: string)
    requires ht != []
    ensures var s := ws + ht + ":" + mi; var c := ":" + mi;
      s == ws + (ht + c) && (ht + c)[0] == ht[0] && s[|ws|..] == ht + c && c[1..] == mi + ""
  {
  }

  /** `ClockSuffix` assembled from the fields it reads. */
  lemma ClockSuffixFromParts(s: string, w: nat, hour: int, u: string, minute: int)
    requires w == LeadingSpaces(s) && w > 0
    requires ShortNumber(s[w..]) == Some((hour, u)) && u != [] && u[0] == ':' && hour <= 23
    requires ShortNumber(u[1..]) == Some((minute, [])) && minute <= 59
    ensures ClockSuffix(s) == Some((hour, minute))
  {
  }

  /** The leading whitespace of `ws + b` is `ws` when `b` starts with a digit. */
  lemma {:induction false} LeadingSpacesOf(ws: string, b: string)
    requires forall i :: 0 <= i < |ws| ==> IsSpace(ws[i])
    requires b != [] && IsDigit(b[0])
    ensures LeadingSpaces(ws + b) == |ws|
  {
    if ws != [] {
      assert (ws + b)[1..] == ws[1..] + b;
      LeadingSpacesOf(ws[1..], b);
    } else {
      assert ws + b == b;
    }
  }

  /** Strings `strptime('%Y-%m-%d')` refuses although they hold the same digits. */
  lemma ParseYmdRefusals()
    ensures ParseYmd("20240614") == None
    ensures ParseYmd("2024/06/14") == None
    ensures ParseYmd("2024-6-4") == Some(Date(2024, 6, 4))
  {
    assert "20240614"[4] != '-';
    assert "2024/06/14"[4] != '-';
    assert DigitsValue("2024") == 2024 by {
      assert "2024"[..3] == "202" && "202"[..2] == "20" && "20"[..1] == "2" && "2"[..0] == "";
    }
    YmdPrefixJoin("2024", "6", "4", Date(2024, 6, 4), "");
    assert "2024" + "-" + "6" + "-" + "4" + "" == "2024-6-4";
  }
}
