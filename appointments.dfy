/**
 * A single appointment (`Appt` in meetings/Model/Agenda.py): a date, a start and an end
 * time on that date at minute precision, and a description. Instants are compared
 * chronologically through `Stamp`, an integer that orders (date, time-of-day) pairs the way
 * Python orders `datetime` values.
 */
module Appointments {
  import opened Results
  import opened Text

  // ---------------------------------------------------------------- dates and instants

  datatype Date = Date(year: int, month: int, day: int)

  predicate IsLeapYear(y: int) {
    y % 4 == 0 && (y % 100 != 0 || y % 400 == 0)
  }

  function DaysInMonth(y: int, m: int): (n: int)
    requires 1 <= m <= 12
    ensures 28 <= n <= 31
  {
    if m == 2 then (if IsLeapYear(y) then 29 else 28)
    else if m == 4 || m == 6 || m == 9 || m == 11 then 30
    else 31
  }

  /** The dates `datetime.date(year, month, day)` accepts (years 1 to 9999). */
  predicate ValidDate(d: Date) {
    1 <= d.year <= 9999 && 1 <= d.month <= 12 && 1 <= d.day <= DaysInMonth(d.year, d.month)
  }

  /** A `datetime.date` value. */
  type CalDate = d: Date | ValidDate(d) witness Date(2000, 1, 1)

  /** A `datetime.time` value at minute precision: minutes since midnight. */
  type Minute = m: int | 0 <= m < 1440

  /** Calendar order of dates: by year, then month, then day. */
  predicate DateBefore(d1: Date, d2: Date) {
    d1.year < d2.year
    || (d1.year == d2.year && (d1.month < d2.month || (d1.month == d2.month && d1.day < d2.day)))
  }

  /** An order-preserving numbering of dates (not consecutive: every month is given 31 slots). */
  function DayNumber(d: CalDate): nat {
    ((d.year - 1) * 12 + d.month - 1) * 31 + d.day - 1
  }

  /** The instant `datetime.combine(d, m)`, as a number that grows with time. */
  function Stamp(d: CalDate, m: Minute): int {
    DayNumber(d) * 1440 + m
  }

  lemma DayNumberOrder(d1: CalDate, d2: CalDate)
    ensures DayNumber(d1) < DayNumber(d2) <==> DateBefore(d1, d2)
    ensures DayNumber(d1) == DayNumber(d2) <==> d1 == d2
  {
    var k1, k2 := (d1.year - 1) * 12 + d1.month - 1, (d2.year - 1) * 12 + d2.month - 1;
    assert k1 < k2 <==> d1.year < d2.year || (d1.year == d2.year && d1.month < d2.month);
  }

  /** Comparing stamps is comparing (date, time of day) chronologically, as `datetime` does. */
  lemma StampChronological(d1: CalDate, m1: Minute, d2: CalDate, m2: Minute)
    ensures Stamp(d1, m1) < Stamp(d2, m2) <==> DateBefore(d1, d2) || (d1 == d2 && m1 < m2)
    ensures Stamp(d1, m1) == Stamp(d2, m2) <==> d1 == d2 && m1 == m2
  {
    DayNumberOrder(d1, d2);
  }

  // ---------------------------------------------------------------- appointments

  /** The fields of an appointment; `Appt` adds the construction check `begin < end`. */
  datatype Slot = Slot(day: CalDate, begin: Minute, end: Minute, desc: string)

  /** An appointment that ends after it begins (the only kind `Appt.__init__` builds). */
  type Appt = a: Slot | a.begin < a.end witness Slot(Date(2000, 1, 1), 0, 1, "")

  function Begin(a: Slot): int {
    Stamp(a.day, a.begin)
  }

  function End(a: Slot): int {
    Stamp(a.day, a.end)
  }

  /** The instant `t` falls inside the appointment (the end is excluded). */
  predicate Contains(a: Slot, t: int) {
    Begin(a) <= t < End(a)
  }

  /** Every failure of building or parsing an appointment. All are Python `ValueError`s except `DateOverflow`. */
  datatype ApptError =
    | EndNotAfterBegin  // "Appointment end must be after begin"
    | BarCount          // "Appt literal requires exactly one '|' before description"
    | TimeSpecShape     // "Appt literal must start with date, time, time, separated by blanks"
    | DateFields        // "Date in Appt literal should be 9999.99.99 (Year.Month.Day)"
    | DateOutOfRange    // `datetime.date` rejects the year, the month or the day
    | DateOverflow      // a date field does not fit a C int: `datetime.date` raises OverflowError
    | ClockFormat       // `strptime(..., "%H:%M")` does not match

  predicate IsValueError(e: ApptError) {
    !e.DateOverflow?
  }

  /** `Appt(day, begin, end, desc)`: fails exactly when the end is not after the begin. */
  function NewAppt(day: CalDate, begin: Minute, end: Minute, desc: string): (r: Result<Appt, ApptError>)
    ensures r.Err? <==> begin >= end
    ensures r.Err? ==> r.error == EndNotAfterBegin
    ensures r.Ok? ==> r.value.day == day && Begin(r.value) == Stamp(day, begin) && End(r.value) == Stamp(day, end)
    ensures r.Ok? ==> r.value.desc == desc
  {
    if begin >= end then Err(EndNotAfterBegin) else Ok(Slot(day, begin, end, desc))
  }

  // ---------------------------------------------------------------- comparisons

  /** Python's `a < b`: `a` is done by the time `b` begins. */
  predicate Before(a: Slot, b: Slot) {
    End(a) <= Begin(b)
  }

  /** Python's `a > b`: `b` is done by the time `a` begins. */
  predicate After(a: Slot, b: Slot) {
    Before(b, a)
  }

  /** Python's `a.overlaps(b)`. */
  predicate Overlaps(a: Slot, b: Slot) {
    !(Before(a, b) || Before(b, a))
  }

  /** "A non-zero overlap": two appointments overlap exactly when some instant lies in both. */
  lemma OverlapsShared(a: Appt, b: Appt)
    ensures Overlaps(a, b) <==> exists t :: Contains(a, t) && Contains(b, t)
  {
    if Overlaps(a, b) {
      var t := if Begin(a) < Begin(b) then Begin(b) else Begin(a);
      assert Contains(a, t) && Contains(b, t);
    }
  }

  /** Of `a < b`, `b < a` and `a.overlaps(b)`, exactly one holds; overlapping is symmetric. */
  lemma Trichotomy(a: Appt, b: Appt)
    ensures Before(a, b) || Before(b, a) || Overlaps(a, b)
    ensures !(Before(a, b) && Before(b, a))
    ensures !(Overlaps(a, b) && (Before(a, b) || Before(b, a)))
    ensures Overlaps(a, b) == Overlaps(b, a)
    ensures After(a, b) == Before(b, a)
  {
  }

  /** Appointments lie within one day, so two that overlap are on the same day. */
  lemma OverlapsSameDay(a: Appt, b: Appt)
    requires Overlaps(a, b)
    ensures a.day == b.day
  {
    DayNumberOrder(a.day, b.day);
  }

  // ---------------------------------------------------------------- intersect and union

  /**
   * `a.intersect(b, desc)`: the time `a` and `b` have in common, on `a`'s day; the
   * description is `a`'s unless a non-empty `desc` is given.
   */
  function Intersect(a: Appt, b: Appt, desc: string): (r: Appt)
    requires Overlaps(a, b)
    ensures r.day == a.day
    ensures forall t :: Contains(r, t) <==> Contains(a, t) && Contains(b, t)
    ensures Begin(a) <= Begin(r) && Begin(b) <= Begin(r) && End(r) <= End(a) && End(r) <= End(b)
    ensures (Begin(r) == Begin(a) || Begin(r) == Begin(b)) && (End(r) == End(a) || End(r) == End(b))
    ensures r.desc == if desc == "" then a.desc else desc
  {
    OverlapsSameDay(a, b);
    var d := if desc == "" then a.desc else desc;
    Slot(a.day, if a.begin < b.begin then b.begin else a.begin, if b.end < a.end then b.end else a.end, d)
  }

  /**
   * `a.union(b, desc)`: the span that covers both, on `a`'s day; since they overlap it
   * covers exactly their instants. The description is `a.desc + " " + b.desc` unless a
   * non-empty `desc` is given.
   */
  function Union(a: Appt, b: Appt, desc: string): (r: Appt)
    requires Overlaps(a, b)
    ensures r.day == a.day
    ensures forall t :: Contains(r, t) <==> Contains(a, t) || Contains(b, t)
    ensures Begin(r) <= Begin(a) && Begin(r) <= Begin(b) && End(a) <= End(r) && End(b) <= End(r)
    ensures (Begin(r) == Begin(a) || Begin(r) == Begin(b)) && (End(r) == End(a) || End(r) == End(b))
    ensures r.desc == if desc == "" then a.desc + " " + b.desc else desc
  {
    OverlapsSameDay(a, b);
    var d := if desc == "" then a.desc + " " + b.desc else desc;
    Slot(a.day, if b.begin < a.begin then b.begin else a.begin, if a.end < b.end then b.end else a.end, d)
  }

  // ---------------------------------------------------------------- text form

  /** `strftime("%Y.%m.%d")`. */
  function FormatDate(d: CalDate): string {
    Pad4(d.year) + "." + Pad2(d.month) + "." + Pad2(d.day)
  }

  /** `strftime("%H:%M")`. */
  function FormatClock(m: Minute): string {
    Pad2(m / 60) + ":" + Pad2(m % 60)
  }

  /** `str(a)`: `YYYY.MM.DD HH:MM HH:MM | desc`. */
  function ToString(a: Appt): string {
    FormatDate(a.day) + " " + FormatClock(a.begin) + " " + FormatClock(a.end) + " " + "| " + a.desc
  }

  /** One or two ASCII digits. */
  predicate IsClockField(f: string) {
    1 <= |f| <= 2 && forall i :: 0 <= i < |f| ==> IsDigit(f[i])
  }

  /** `datetime.strptime(s, "%H:%M").time()`: hours 0-23 and minutes 0-59, each one or two digits. */
  function ParseClock(s: string): Option<Minute> {
    var parts := Split(s, ':');
    if |parts| == 2 && IsClockField(parts[0]) && IsClockField(parts[1]) then
      var h, m := DigitsValue(parts[0]), DigitsValue(parts[1]);
      if h < 24 && m < 60 then Some(h * 60 + m) else None
    else None
  }

  /** A C `int`, the range `datetime.date` converts its arguments to before checking them. */
  predicate FitsCInt(n: int) {
    -0x8000_0000 <= n < 0x8000_0000
  }

  /** `int(f.strip())` of the first three `.`-separated fields of the date token. */
  function ParseDateFields(token: string): Option<(int, int, int)> {
    DateOfFields(Split(token, '.'))
  }

  /** `int(f.strip())` of the first three fields; missing fields fail like bad ones. */
  function DateOfFields(f: seq<string>): Option<(int, int, int)> {
    if |f| < 3 then None
    else match (ParseInt(Strip(f[0])), ParseInt(Strip(f[1])), ParseInt(Strip(f[2])))
      case (Some(y), Some(m), Some(d)) => Some((y, m, d))
      case _ => None
  }

  /**
   * `Appt.from_string(txt)`. The checks come in the source's order: exactly one `|`; a
   * time-spec of exactly three blank-separated tokens; three integer date fields; a date
   * `datetime.date` accepts (first the C `int` conversion, then the calendar); two clock
   * times; and finally `begin < end`. The description is the stripped text after the `|`.
   */
  function FromString(txt: string): (r: Result<Appt, ApptError>)
    ensures r == Err(BarCount) <==> multiset(txt)['|'] != 1
    ensures r.Ok? ==> |Split(txt, '|')| == 2 && r.value.desc == Strip(Split(txt, '|')[1])
    ensures r.Ok? ==> '|' !in r.value.desc && Trimmed(r.value.desc)
  {
    var fields := Split(txt, '|');
    SplitCount(txt, '|');
    if |fields| != 2 then Err(BarCount)
    else
      StripKeepsOut(fields[1], '|');
      FromFields(Strip(fields[0]), Strip(fields[1]))
  }

  /** The part of `from_string` after splitting at the `|`: the time-spec must be three tokens. */
  function FromFields(timespec: string, desc: string): (r: Result<Appt, ApptError>)
    ensures r == Err(TimeSpecShape) <==> |SplitWs(timespec)| != 3
    ensures r != Err(BarCount)
    ensures r.Ok? ==> r.value.desc == desc
  {
    var tokens := SplitWs(timespec);
    if |tokens| != 3 then Err(TimeSpecShape)
    else FromTokens(tokens[0], tokens[1], tokens[2], desc)
  }

  /** Three integer date fields that fit a C `int` and name a calendar date. */
  predicate DateAccepted(dateText: string) {
    match ParseDateFields(dateText)
    case None => false
    case Some((y, m, d)) => FitsCInt(y) && FitsCInt(m) && FitsCInt(d) && ValidDate(Date(y, m, d))
  }

  /** The part of `from_string` that reads the date and the two times and builds the `Appt`. */
  function FromTokens(dateText: string, beginText: string, endText: string, desc: string): (r: Result<Appt, ApptError>)
    ensures r.Err? ==> r.error != BarCount && r.error != TimeSpecShape
    ensures r == Err(DateFields) <==> ParseDateFields(dateText).None?
    ensures r.Ok? ==> r.value.desc == desc
    ensures r.Ok? ==> ParseClock(beginText) == Some(r.value.begin) && ParseClock(endText) == Some(r.value.end)
    ensures r.Ok? ==> ParseDateFields(dateText) == Some((r.value.day.year, r.value.day.month, r.value.day.day))
  {
    match ParseDateFields(dateText)
    case None => Err(DateFields)
    case Some((y, m, d)) =>
      if !(FitsCInt(y) && FitsCInt(m) && FitsCInt(d)) then Err(DateOverflow)
      else if !ValidDate(Date(y, m, d)) then Err(DateOutOfRange)
      else match (ParseClock(beginText), ParseClock(endText))
        case (Some(b), Some(e)) => NewAppt(Date(y, m, d), b, e, desc)
        case _ => Err(ClockFormat)
  }

  /** The three date fields, when they are integers, all fit a C `int`. */
  predicate FieldsFitCInt(dateText: string) {
    match ParseDateFields(dateText)
    case None => false
    case Some((y, m, d)) => FitsCInt(y) && FitsCInt(m) && FitsCInt(d)
  }

  /**
   * Which error `from_string`'s date and time tokens give, case by case. A date field beyond
   * a C `int` gives `OverflowError`. An invalid date, or a time that is not `%H:%M`, gives a
   * `ValueError`. Parsed times with `begin >= end` give the "end must be after begin" error.
   */
  lemma FromTokensErrors(dateText: string, beginText: string, endText: string, desc: string)
    ensures var r := FromTokens(dateText, beginText, endText, desc);
      && (r == Err(DateOverflow) <==> (ParseDateFields(dateText).Some? && !FieldsFitCInt(dateText)))
      && (r == Err(DateOutOfRange) <==> (FieldsFitCInt(dateText) && !DateAccepted(dateText)))
      && (r == Err(ClockFormat) <==> (DateAccepted(dateText) && (ParseClock(beginText).None? || ParseClock(endText).None?)))
      && (r == Err(EndNotAfterBegin) <==>
           (DateAccepted(dateText) && ParseClock(beginText).Some? && ParseClock(endText).Some?
            && ParseClock(beginText).value >= ParseClock(endText).value))
      && (r.Ok? <==>
           (DateAccepted(dateText) && ParseClock(beginText).Some? && ParseClock(endText).Some?
            && ParseClock(beginText).value < ParseClock(endText).value))
  {
  }

  // ---------------------------------------------------------------- round trip

  lemma ParseClockOf(h: string, mm: string)
    requires |h| == 2 && |mm| == 2 && AllDigits(h) && AllDigits(mm)
    requires DigitsValue(h) < 24 && DigitsValue(mm) < 60
    ensures ParseClock(h + [':'] + mm) == Some(DigitsValue(h) * 60 + DigitsValue(mm))
  {
    DigitsPlain(h);
    DigitsPlain(mm);
    SplitCons(h, ':', mm);
    SplitNone(mm, ':');
    assert Split(h + [':'] + mm, ':') == [h, mm];
  }

  lemma ParseClockPrinted(m: Minute)
    ensures ParseClock(FormatClock(m)) == Some(m)
    ensures FormatClock(m) != [] && NoSpace(FormatClock(m)) && '|' !in FormatClock(m)
  {
    var q, r := m / 60, m % 60;
    assert q * 60 + r == m;
    var h, mm := Pad2(q), Pad2(r);
    DigitsPlain(h);
    DigitsPlain(mm);
    ParseClockOf(h, mm);
    assert FormatClock(m) == h + [':'] + mm;
  }

  lemma SplitDateOf(y: string, m: string, dd: string)
    requires '.' !in y && '.' !in m && '.' !in dd
    ensures Split(y + ['.'] + m + ['.'] + dd, '.') == [y, m, dd]
  {
    var tail := m + ['.'] + dd;
    assert y + ['.'] + m + ['.'] + dd == y + ['.'] + tail;
    SplitNone(dd, '.');
    SplitCons(m, '.', dd);
    SplitCons(y, '.', tail);
  }

  lemma ParseDateOf(y: string, m: string, dd: string)
    requires y != [] && m != [] && dd != [] && AllDigits(y) && AllDigits(m) && AllDigits(dd)
    ensures ParseDateFields(y + ['.'] + m + ['.'] + dd) == Some((DigitsValue(y), DigitsValue(m), DigitsValue(dd)))
  {
    DigitsPlain(y);
    DigitsPlain(m);
    DigitsPlain(dd);
    SplitDateOf(y, m, dd);
    DateOfDigitFields(y, m, dd);
  }

  lemma DateOfDigitFields(y: string, m: string, dd: string)
    requires y != [] && m != [] && dd != [] && AllDigits(y) && AllDigits(m) && AllDigits(dd)
    ensures DateOfFields([y, m, dd]) == Some((DigitsValue(y), DigitsValue(m), DigitsValue(dd)))
  {
    IntFieldOf(y);
    IntFieldOf(m);
    IntFieldOf(dd);
  }

  lemma IntFieldOf(x: string)
    requires x != [] && AllDigits(x)
    ensures ParseInt(Strip(x)) == Some(DigitsValue(x) as int)
  {
    DigitsPlain(x);
    StripSelf(x);
  }

  lemma DateTextPlain(y: string, m: string, dd: string)
    requires y != [] && m != [] && dd != [] && AllDigits(y) && AllDigits(m) && AllDigits(dd)
    ensures NoSpace(y + ['.'] + m + ['.'] + dd) && '|' !in y + ['.'] + m + ['.'] + dd
  {
    DigitsPlain(y);
    DigitsPlain(m);
    DigitsPlain(dd);
    NoSpaceConcat(y, ['.']);
    NoSpaceConcat(y + ['.'], m);
    NoSpaceConcat(y + ['.'] + m, ['.']);
    NoSpaceConcat(y + ['.'] + m + ['.'], dd);
  }

  lemma ParseDatePrinted(d: CalDate)
    ensures ParseDateFields(FormatDate(d)) == Some((d.year, d.month, d.day))
    ensures FormatDate(d) != [] && NoSpace(FormatDate(d)) && '|' !in FormatDate(d)
  {
    var y, m, dd := Pad4(d.year), Pad2(d.month), Pad2(d.day);
    assert FormatDate(d) == y + ['.'] + m + ['.'] + dd;
    ParseDateOf(y, m, dd);
    DateTextPlain(y, m, dd);
  }

  lemma TokensOf(d: string, b: string, e: string)
    requires d != [] && b != [] && e != [] && NoSpace(d) && NoSpace(b) && NoSpace(e)
    ensures SplitWs(d + " " + b + " " + e) == [d, b, e]
  {
    assert d + " " + b + " " + e == d + [' '] + (b + [' '] + e);
    SplitWsCons(d, b + [' '] + e);
    SplitWsCons(b, e);
    SplitWsWord(e);
  }

  lemma TimeSpecPlain(d: string, b: string, e: string)
    requires d != [] && e != [] && NoSpace(d) && NoSpace(e)
    requires '|' !in d && '|' !in b && '|' !in e
    ensures '|' !in d + " " + b + " " + e && Trimmed(d + " " + b + " " + e)
  {
    var spec := d + " " + b + " " + e;
    assert spec[0] == d[0] && spec[|spec| - 1] == e[|e| - 1];
    assert forall i :: 0 <= i < |spec| ==> spec[i] in d || spec[i] == ' ' || spec[i] in b || spec[i] in e;
  }

  lemma BarSplit(x: string, y: string)
    requires '|' !in x && '|' !in y
    ensures Split(x + ['|'] + y, '|') == [x, y]
  {
    SplitCons(x, '|', y);
    SplitNone(y, '|');
  }

  lemma FieldsOf(spec: string, post: string, desc: string)
    requires '|' !in spec && '|' !in post && Trimmed(spec) && Strip(post) == desc
    ensures Split(spec + " " + "|" + post, '|') == [spec + " ", post]
    ensures Strip(spec + " ") == spec
  {
    assert spec + " " + "|" + post == (spec + " ") + ['|'] + post;
    assert '|' !in spec + " ";
    BarSplit(spec + " ", post);
    assert AllSpace(" ");
    StripPadded([], spec, " ");
    assert [] + spec + " " == spec + " ";
  }

  lemma FromTokensOf(dateText: string, beginText: string, endText: string, a: Appt)
    requires ParseDateFields(dateText) == Some((a.day.year, a.day.month, a.day.day))
    requires ParseClock(beginText) == Some(a.begin) && ParseClock(endText) == Some(a.end)
    ensures FromTokens(dateText, beginText, endText, a.desc) == Ok(a)
  {
    var d := a.day;
    assert Date(d.year, d.month, d.day) == d;
    assert FitsCInt(d.year) && FitsCInt(d.month) && FitsCInt(d.day);
    assert NewAppt(d, a.begin, a.end, a.desc) == Ok(a);
  }

  lemma FromTokensPrinted(a: Appt)
    ensures FromTokens(FormatDate(a.day), FormatClock(a.begin), FormatClock(a.end), a.desc) == Ok(a)
  {
    ParseDatePrinted(a.day);
    ParseClockPrinted(a.begin);
    ParseClockPrinted(a.end);
    FromTokensOf(FormatDate(a.day), FormatClock(a.begin), FormatClock(a.end), a);
  }

  /** The text `D HH:MM HH:MM |post` for the fields of `a`, where `post` strips to `a`'s description. */
  lemma ParseLineOf(a: Appt, post: string)
    requires '|' !in post && Strip(post) == a.desc
    ensures FromString(FormatDate(a.day) + " " + FormatClock(a.begin) + " " + FormatClock(a.end) + " " + "|" + post) == Ok(a)
  {
    var d, b, e := FormatDate(a.day), FormatClock(a.begin), FormatClock(a.end);
    ParseDatePrinted(a.day);
    ParseClockPrinted(a.begin);
    ParseClockPrinted(a.end);
    var spec := d + " " + b + " " + e;
    TimeSpecPlain(d, b, e);
    TokensOf(d, b, e);
    FieldsOf(spec, post, a.desc);
    FromTokensPrinted(a);
    assert d + " " + b + " " + e + " " + "|" + post == spec + " " + "|" + post;
  }

  /** The year of the overflow example: ten digits, more than a C `int` holds. */
  lemma ThreeBillion()
    ensures AllDigits("3000000000") && DigitsValue("3000000000") == 3000000000
  {
    var y1 := "3";
    assert DigitsValue(y1) == 3 by {
      assert y1[..0] == [];
    }
    DigitsValueAppendZero(y1);
    var y2 := y1 + "0";
    DigitsValueAppendZero(y2);
    var y3 := y2 + "0";
    DigitsValueAppendZero(y3);
    var y4 := y3 + "0";
    DigitsValueAppendZero(y4);
    var y5 := y4 + "0";
    DigitsValueAppendZero(y5);
    var y6 := y5 + "0";
    DigitsValueAppendZero(y6);
    var y7 := y6 + "0";
    DigitsValueAppendZero(y7);
    var y8 := y7 + "0";
    DigitsValueAppendZero(y8);
    var y9 := y8 + "0";
    DigitsValueAppendZero(y9);
    assert y9 + "0" == "3000000000";
  }

  /** The date `YYYYYYYYYY.01.01` reads as three integers, and is free of blanks and bars. */
  lemma YearFirstDate(y: string)
    requires y != [] && AllDigits(y)
    ensures ParseDateFields(y + ['.'] + "01" + ['.'] + "01") == Some((DigitsValue(y) as int, 1, 1))
    ensures NoSpace(y + ['.'] + "01" + ['.'] + "01") && '|' !in y + ['.'] + "01" + ['.'] + "01"
  {
    DigitsOne();
    ParseDateOf(y, "01", "01");
    DateTextPlain(y, "01", "01");
  }

  /** `"01"` is a digit string that spells 1. */
  lemma DigitsOne()
    ensures "01" != [] && AllDigits("01") && DigitsValue("01") == 1
  {
    assert "01"[..1] == "0";
    assert "0"[..0] == [];
  }

  /** The longest digit string Python's `int()` converts under its default limit (since Python 3.11). */
  const MaxIntDigits := 4300

  /**
   * A line whose year does not fit a C `int` (`YYYYYYYYYY.01.01 HH:MM HH:MM |post`): `from_string`
   * fails with `DateOverflow`, which is not a `ValueError`, before either time is looked at. The year
   * has at most `MaxIntDigits` digits, so `int()` converts it.
   */
  lemma OverflowLine(y: string, b: string, e: string, post: string)
    requires y != [] && |y| <= MaxIntDigits && AllDigits(y) && DigitsValue(y) >= 0x8000_0000
    requires b != [] && e != [] && NoSpace(b) && NoSpace(e) && '|' !in b && '|' !in e && '|' !in post
    ensures FromString(y + ['.'] + "01" + ['.'] + "01" + " " + b + " " + e + " " + "|" + post) == Err(DateOverflow)
  {
    var d := y + ['.'] + "01" + ['.'] + "01";
    OverflowTokens(y, b, e, Strip(post));
    OverflowSpec(d, b, e, Strip(post));
    OverflowBar(d + " " + b + " " + e, post);
    assert d + " " + b + " " + e + " " + "|" + post == (d + " " + b + " " + e) + " " + "|" + post;
  }

  /** A year beyond a C `int` in the date field: `from_string`'s token step fails with `DateOverflow`. */
  lemma OverflowTokens(y: string, b: string, e: string, desc: string)
    requires y != [] && AllDigits(y) && DigitsValue(y) >= 0x8000_0000
    ensures FromTokens(y + ['.'] + "01" + ['.'] + "01", b, e, desc) == Err(DateOverflow)
    ensures NoSpace(y + ['.'] + "01" + ['.'] + "01") && '|' !in y + ['.'] + "01" + ['.'] + "01"
  {
    YearFirstDate(y);
  }

  /** Three blank-separated tokens whose date token overflows: the time-spec step fails the same way. */
  lemma OverflowSpec(d: string, b: string, e: string, desc: string)
    requires FromTokens(d, b, e, desc) == Err(DateOverflow) && d != [] && NoSpace(d) && '|' !in d
    requires b != [] && e != [] && NoSpace(b) && NoSpace(e) && '|' !in b && '|' !in e
    ensures FromFields(d + " " + b + " " + e, desc) == Err(DateOverflow)
    ensures Trimmed(d + " " + b + " " + e) && '|' !in d + " " + b + " " + e
  {
    TimeSpecPlain(d, b, e);
    TokensOf(d, b, e);
  }

  /** A time spec that overflows, a blank and a bar: the whole line fails the same way. */
  lemma OverflowBar(spec: string, post: string)
    requires FromFields(spec, Strip(post)) == Err(DateOverflow) && Trimmed(spec) && '|' !in spec && '|' !in post
    ensures FromString(spec + " " + "|" + post) == Err(DateOverflow)
  {
    FieldsOf(spec, post, Strip(post));
  }

  /**
   * Round trip: parsing the printed form of an appointment whose description has no `|`
   * and no surrounding white space gives the same appointment back.
   */
  lemma ParsePrinted(a: Appt)
    requires '|' !in a.desc && Trimmed(a.desc)
    ensures FromString(ToString(a)) == Ok(a)
  {
    PrintedParts(a);
    StripLeadingBlank(a.desc);
    ParseLineOf(a, " " + a.desc);
  }

  /** The printed line is the head up to the bar, then a blank and the description. */
  lemma PrintedParts(a: Appt)
    ensures ToString(a) == FormatDate(a.day) + " " + FormatClock(a.begin) + " " + FormatClock(a.end) + " " + "|" + (" " + a.desc)
  {
    var d, b, e := FormatDate(a.day), FormatClock(a.begin), FormatClock(a.end);
    assert "| " + a.desc == "|" + (" " + a.desc);
    assert d + " " + b + " " + e + " " + "| " + a.desc == (d + " " + b + " " + e + " ") + ("| " + a.desc);
  }

  /** A blank followed by a trimmed text without a bar strips to that text. */
  lemma StripLeadingBlank(desc: string)
    requires '|' !in desc && Trimmed(desc)
    ensures '|' !in " " + desc && Strip(" " + desc) == desc
  {
    assert AllSpace(" ");
    StripPadded(" ", desc, []);
    assert " " + desc + [] == " " + desc;
  }

  /** The printed line without its description: `D HH:MM HH:MM |`. */
  function Head(a: Appt): string {
    FormatDate(a.day) + " " + FormatClock(a.begin) + " " + FormatClock(a.end) + " " + "|"
  }

  lemma HeadStart(a: Appt)
    ensures Head(a) != [] && IsDigit(Head(a)[0]) && Head(a)[|Head(a)| - 1] == '|'
    ensures ToString(a) == Head(a) + " " + a.desc
  {
    var y := Pad4(a.day.year);
    assert Head(a)[0] == y[0];
  }

  /** Stripping a printed line only drops the blank that ends it when the description is empty. */
  lemma StripPrinted(a: Appt)
    requires Trimmed(a.desc)
    ensures Strip(ToString(a)) == if a.desc == [] then Head(a) else ToString(a)
  {
    HeadStart(a);
    var s := ToString(a);
    assert s[0] == Head(a)[0];
    assert AllSpace(" ") && AllSpace([]);
    TrimLeftPadded([], s);
    assert [] + s == s;
    if a.desc == [] {
      assert s == Head(a) + " ";
      TrimRightPadded(Head(a), " ");
    } else {
      assert s[|s| - 1] == a.desc[|a.desc| - 1];
      TrimRightPadded(s, []);
      assert s + [] == s;
    }
  }

  /**
   * The same round trip through `line.strip()`, as `from_file` reads a printed line: the
   * stripped line starts with the year's first digit and parses back to `a`.
   */
  lemma ParseStripped(a: Appt)
    requires '|' !in a.desc && Trimmed(a.desc)
    ensures Strip(ToString(a)) != [] && IsDigit(Strip(ToString(a))[0])
    ensures FromString(Strip(ToString(a))) == Ok(a)
  {
    HeadStart(a);
    StripPrinted(a);
    if a.desc == [] {
      StripSelf([]);
      ParseLineOf(a, []);
      assert Head(a) + [] == Head(a);
    } else {
      ParsePrinted(a);
    }
  }
}
