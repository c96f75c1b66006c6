/**
 * The `CalendarEvent` class of meetings/Model/CalendarEvent.py: a busy or free block of one
 * day whose start and end are time strings such as "14:30:00-08:00" and whose date is a
 * string such as "2014/01/01". Events are compared by comparing those strings as Python
 * does, lexicographically; ISO date-time strings are assembled as `date + "T" + time`.
 * No method changes an event once it is built, so an event is a value here.
 */
module CalendarEvents {
  import opened Results
  import opened Text

  const BUSY: string := "BUSY"
  const FREE: string := "FREE"

  datatype CalendarEvent = CalendarEvent(
    start: string,
    end: string,
    date: string,
    summary: Option<string>,
    description: Option<string>,
    id: Option<string>,
    status: string)

  /** `CalendarEvent(start_time, end_time, date)` with the defaults: no summary, description or id, and BUSY. */
  function NewEvent(start: string, end: string, date: string): (e: CalendarEvent)
    ensures e.start == start && e.end == end && e.date == date
    ensures e.summary.None? && e.description.None? && e.id.None? && e.status == BUSY
  {
    CalendarEvent(start, end, date, None, None, None, BUSY)
  }

  // ---------------------------------------------------------------- ISO strings

  /** `e.assemble_time(t)`: the ISO date-time string of time `t` on the event's date. */
  function AssembleTime(e: CalendarEvent, t: string): (r: string)
    ensures |r| == |e.date| + 1 + |t| && r[..|e.date|] == e.date && r[|e.date|] == 'T' && r[|e.date| + 1..] == t
  {
    e.date + "T" + t
  }

  /** `e.get_start_time()`: the event's start as an ISO date-time string. */
  function GetStartTime(e: CalendarEvent): string {
    AssembleTime(e, e.start)
  }

  /** `e.get_end_time()`: the event's end as an ISO date-time string. */
  function GetEndTime(e: CalendarEvent): string {
    AssembleTime(e, e.end)
  }

  /** Splitting an assembled string on `T` gives back the date and the time. */
  lemma AssembleSplit(e: CalendarEvent, t: string)
    requires 'T' !in e.date && 'T' !in t
    ensures Split(AssembleTime(e, t), 'T') == [e.date, t]
  {
    SplitCons(e.date, 'T', t);
    SplitNone(t, 'T');
  }

  // ---------------------------------------------------------------- comparisons, as written

  /** `a < b`: `a` ends, as a string, no later than `b` starts. The dates take no part. */
  predicate Lt(a: CalendarEvent, b: CalendarEvent) {
    StrLessEq(a.end, b.start)
  }

  /** `a > b` is `b < a`. */
  predicate Gt(a: CalendarEvent, b: CalendarEvent) {
    Lt(b, a)
  }

  /** `a.overlap(b)`: neither comes before the other. */
  predicate Overlap(a: CalendarEvent, b: CalendarEvent) {
    !(Lt(a, b) || Lt(b, a))
  }

  /** `overlap` is symmetric, and `>` is `<` with the arguments swapped. */
  lemma OverlapSymmetric(a: CalendarEvent, b: CalendarEvent)
    ensures Overlap(a, b) <==> Overlap(b, a)
    ensures Gt(a, b) <==> Lt(b, a)
  {
  }

  /** The comparisons look at the times only: moving either event to another date changes nothing. */
  lemma CompareIgnoresDate(a: CalendarEvent, b: CalendarEvent, d1: string, d2: string)
    ensures Lt(a, b) <==> Lt(a.(date := d1), b.(date := d2))
    ensures Overlap(a, b) <==> Overlap(a.(date := d1), b.(date := d2))
  {
  }

  /** For events whose start is before their end, at most one of `a < b` and `b < a` holds. */
  lemma LtAsymmetric(a: CalendarEvent, b: CalendarEvent)
    requires StrLess(a.start, a.end) && StrLess(b.start, b.end)
    ensures !(Lt(a, b) && Lt(b, a))
  {
    if Lt(a, b) && Lt(b, a) {
      StrLessEqTransitive(a.end, b.start, b.end);
      StrLessEqTransitive(b.end, a.start, a.end);
      StrLessTotal(a.end, b.end);
      if a.end == b.end {
        StrLessEqTransitive(a.start, a.end, b.start);
        StrLessTotal(a.start, a.end);
      }
      assert StrLessEq(a.end, b.end) && StrLessEq(b.end, a.end);
      StrLessEqTotal(a.end, b.end, a.end);
      StrLessEqTotal(a.end, b.start, b.end);
      StrLessTotal(b.start, b.end);
      assert false;
    }
  }

  // ---------------------------------------------------------------- union and pairs

  /**
   * `a.time_union(b)`: from the earlier start to the later end (as strings), on `a`'s date,
   * BUSY and with no summary, description or id. No overlap is required.
   */
  function TimeUnion(a: CalendarEvent, b: CalendarEvent): (r: CalendarEvent)
    ensures (r.start == a.start || r.start == b.start) && StrLessEq(r.start, a.start) && StrLessEq(r.start, b.start)
    ensures (r.end == a.end || r.end == b.end) && StrLessEq(a.end, r.end) && StrLessEq(b.end, r.end)
    ensures r.date == a.date && r.status == BUSY
    ensures r.summary.None? && r.description.None? && r.id.None?
  {
    NewEvent(StrMin(a.start, b.start), StrMax(a.end, b.end), a.date)
  }

  /** `a.time_list(b)`: a new list holding `a`, then `b`. */
  method TimeList(a: CalendarEvent, b: CalendarEvent) returns (timeList: seq<CalendarEvent>)
    ensures |timeList| == 2 && timeList[0] == a && timeList[1] == b
  {
    timeList := [];
    timeList := timeList + [a];
    timeList := timeList + [b];
  }

  /** The values of the event dictionary: a string or Python's `None`. */
  type Value = Option<string>

  /** The keys `translator` fills in. */
  const EventKeys: set<string> := {"id", "start_time", "end_time", "summary", "description", "status"}

  /** `e.translator()`: the event as a dictionary with exactly six keys. */
  method Translator(e: CalendarEvent) returns (event: map<string, Value>)
    ensures event.Keys == EventKeys
    ensures event["id"] == e.id && event["summary"] == e.summary && event["description"] == e.description
    ensures event["start_time"] == Some(GetStartTime(e)) && event["end_time"] == Some(GetEndTime(e))
    ensures event["status"] == Some(e.status)
  {
    event := map[];
    event := event["id" := e.id];
    event := event["start_time" := Some(AssembleTime(e, e.start))];
    event := event["end_time" := Some(AssembleTime(e, e.end))];
    event := event["summary" := e.summary];
    event := event["description" := e.description];
    event := event["status" := Some(e.status)];
  }

  // ---------------------------------------------------------------- the fixtures of meetings/test/test_event.py

  function Event1(): CalendarEvent { NewEvent("14:30:00-08:00", "21:30:00-08:00", "2014/01/01") }
  function Event2(): CalendarEvent { NewEvent("07:30:00-08:00", "14:30:00-08:00", "2014/01/05") }
  function Event3(): CalendarEvent { NewEvent("01:30:00-08:00", "11:30:00-08:00", "2014/01/05") }
  function Event4(): CalendarEvent { NewEvent("14:22:00-08:00", "17:12:00-08:00", "2014/01/05") }
  function Event5(): CalendarEvent { NewEvent("04:11:00-08:00", "18:24:00-08:00", "2014/01/05") }

  /**
   * As written, `event1 > event2` holds: event2 ends at "14:30:00-08:00" on 2014/01/05 and
   * event1 starts at "14:30:00-08:00" on 2014/01/01, and only the times are compared.
   */
  lemma Event1AfterEvent2AsWritten()
    ensures Gt(Event1(), Event2())
  {
  }

  // ---------------------------------------------------------------- comparisons by date and time

  /** `a < b` as the test expects it: on the assembled date-time strings. */
  predicate LtChronological(a: CalendarEvent, b: CalendarEvent) {
    StrLessEq(GetEndTime(a), GetStartTime(b))
  }

  predicate GtChronological(a: CalendarEvent, b: CalendarEvent) {
    LtChronological(b, a)
  }

  predicate OverlapChronological(a: CalendarEvent, b: CalendarEvent) {
    !(LtChronological(a, b) || LtChronological(b, a))
  }

  /** On one date the date-aware order is the order written in the source. */
  lemma ChronologicalSameDate(a: CalendarEvent, b: CalendarEvent)
    requires a.date == b.date
    ensures LtChronological(a, b) <==> Lt(a, b)
    ensures OverlapChronological(a, b) <==> Overlap(a, b)
  {
    StrLessSamePrefix(a.date + "T", a.end, b.start);
    StrLessSamePrefix(a.date + "T", b.end, a.start);
    assert a.date + "T" + a.end == (a.date + "T") + a.end;
  }

  /** Between different dates of the same length, the dates decide. */
  lemma ChronologicalOtherDate(a: CalendarEvent, b: CalendarEvent)
    requires |a.date| == |b.date| && a.date != b.date
    ensures LtChronological(a, b) <==> StrLess(a.date, b.date)
  {
    StrLessPrefixDecides(a.date, "T" + a.end, b.date, "T" + b.start);
    assert GetEndTime(a) == a.date + ("T" + a.end);
    assert GetStartTime(b) == b.date + ("T" + b.start);
  }

  /** "2014/01/01" comes before "2014/01/05": they first differ at the last digit. */
  lemma FixtureDates()
    ensures StrLess("2014/01/01", "2014/01/05")
  {
    var a, b := "2014/01/01", "2014/01/05";
    assert a[..9] == b[..9];
    StrLessAt(a, b, 9);
  }

  /** meetings/test/test_event.py:16, `(event1 > event2) == False`, holds for the date-aware order. */
  lemma TestEvent1NotAfterEvent2()
    ensures !GtChronological(Event1(), Event2())
  {
    FixtureDates();
    StrLessTotal("2014/01/01", "2014/01/05");
    ChronologicalOtherDate(Event2(), Event1());
  }

  /** Line 17, `(event2 < event3) == False`, for the date-aware comparison and as written. */
  lemma TestEvent2NotBeforeEvent3()
    ensures !LtChronological(Event2(), Event3()) && !Lt(Event2(), Event3())
  {
    assert !StrLessEq("14:30:00-08:00", "01:30:00-08:00") by {
      StrLessAt("01:30:00-08:00", "14:30:00-08:00", 0);
    }
    ChronologicalSameDate(Event2(), Event3());
  }

  /** Line 18, `(event3 < event4) == True`, for the date-aware comparison and as written. */
  lemma TestEvent3BeforeEvent4()
    ensures LtChronological(Event3(), Event4()) && Lt(Event3(), Event4())
  {
    assert StrLessEq("11:30:00-08:00", "14:22:00-08:00") by {
      var t1130, t1422 := "11:30:00-08:00", "14:22:00-08:00";
      assert t1130[..1] == t1422[..1];
      StrLessAt(t1130, t1422, 1);
    }
    ChronologicalSameDate(Event3(), Event4());
  }

  /** Line 22, `event2.overlap(event3) == True`, for the date-aware comparison and as written. */
  lemma TestOverlap23()
    ensures OverlapChronological(Event2(), Event3()) && Overlap(Event2(), Event3())
  {
    assert !StrLessEq("14:30:00-08:00", "01:30:00-08:00") by {
      StrLessAt("01:30:00-08:00", "14:30:00-08:00", 0);
    }
    assert !StrLessEq("11:30:00-08:00", "07:30:00-08:00") by {
      StrLessAt("07:30:00-08:00", "11:30:00-08:00", 0);
    }
    ChronologicalSameDate(Event2(), Event3());
  }

  /** Line 23, `event4.overlap(event5) == True`, for the date-aware comparison and as written. */
  lemma TestOverlap45()
    ensures OverlapChronological(Event4(), Event5()) && Overlap(Event4(), Event5())
  {
    assert !StrLessEq("17:12:00-08:00", "04:11:00-08:00") by {
      StrLessAt("04:11:00-08:00", "17:12:00-08:00", 0);
    }
    assert !StrLessEq("18:24:00-08:00", "14:22:00-08:00") by {
      var t1422, t1824 := "14:22:00-08:00", "18:24:00-08:00";
      assert t1422[..1] == t1824[..1];
      StrLessAt(t1422, t1824, 1);
    }
    ChronologicalSameDate(Event4(), Event5());
  }

  /**
   * Line 24, `event3.overlap(event1) == False`, for the date-aware comparison and as written:
   * event3 ends at "11:30:00-08:00", before event1 starts at "14:30:00-08:00".
   */
  lemma TestNoOverlap31()
    ensures !OverlapChronological(Event3(), Event1())
    ensures !Overlap(Event3(), Event1())
  {
    assert !OverlapChronological(Event3(), Event1()) by {
      FixtureDates();
      ChronologicalOtherDate(Event1(), Event3());
    }
    assert StrLessEq(Event3().end, Event1().start) by {
      var t1130, t1430 := "11:30:00-08:00", "14:30:00-08:00";
      assert t1130[..1] == t1430[..1];
      StrLessAt(t1130, t1430, 1);
    }
  }

  /** Lines 28-31, the union of event2 and event3, hold for `time_union`. */
  lemma TestUnion23()
    ensures TimeUnion(Event2(), Event3()).start == "01:30:00-08:00"
    ensures TimeUnion(Event2(), Event3()).end == "14:30:00-08:00"
    ensures TimeUnion(Event2(), Event3()).date == "2014/01/05"
  {
    var t0130, t0730 := "01:30:00-08:00", "07:30:00-08:00";
    assert t0130[..1] == t0730[..1];
    StrLessAt(t0130, t0730, 1);
    var t1130, t1430 := "11:30:00-08:00", "14:30:00-08:00";
    assert t1130[..1] == t1430[..1];
    StrLessAt(t1130, t1430, 1);
  }

  /** Lines 32-35, the union of event4 and event5. */
  lemma TestUnion45()
    ensures TimeUnion(Event4(), Event5()).start == "04:11:00-08:00"
    ensures TimeUnion(Event4(), Event5()).end == "18:24:00-08:00"
    ensures TimeUnion(Event4(), Event5()).date == "2014/01/05"
  {
    StrLessAt("04:11:00-08:00", "14:22:00-08:00", 0);
    var t1712, t1824 := "17:12:00-08:00", "18:24:00-08:00";
    assert t1712[..1] == t1824[..1];
    StrLessAt(t1712, t1824, 1);
  }
}
