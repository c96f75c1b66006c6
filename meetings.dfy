/**
 * The pure helpers of the web front end: splicing a picked date and a picked time into one
 * ISO instant, the date/time window filter applied to fetched events, the sort order of
 * calendars, the shaping of already-fetched calendar and event items, and the order checks
 * on a picked range. Session values and fetched items are parameters.
 */
module Meetings {
  import opened Results
  import opened Text
  import opened Sorting

  // ---------------------------------------------------------------- splice_real_time

  /**
   * `splice_real_time(date, time)`: the part of `date` before its first "T", a "T", and the
   * piece of `time` between its first and second "T". Indexing the second piece fails
   * exactly when `time` has no "T"; the spliced instant always has exactly one "T".
   */
  function SpliceRealTime(date: string, time: string): (r: Option<string>)
    ensures r.None? <==> 'T' !in time
    ensures r.Some? ==> multiset(r.value)['T'] == 1
  {
    var timeParts := Split(time, 'T');
    SplitCount(time, 'T');
    if |timeParts| < 2 then None
    else
      var realDate, realTime := Split(date, 'T')[0], timeParts[1];
      assert multiset(realDate)['T'] == 0 && multiset(realTime)['T'] == 0;
      Some(realDate + "T" + realTime)
  }

  /**
   * The calendar part `d` of an ISO date (anything from its first "T" on is dropped) joined
   * with the clock part `z` of an ISO time whose own date part `y` is discarded.
   */
  lemma SpliceRealTimeOf(d: string, x: string, y: string, z: string, w: string)
    requires 'T' !in d && 'T' !in y && 'T' !in z
    requires x == [] || x[0] == 'T'
    requires w == [] || w[0] == 'T'
    ensures SpliceRealTime(d + x, y + "T" + z + w) == Some(d + "T" + z)
  {
    SplitFirst(d, 'T', x);
    assert y + "T" + z + w == y + ['T'] + (z + w);
    SplitCons(y, 'T', z + w);
    SplitFirst(z, 'T', w);
  }

  // ---------------------------------------------------------------- event_filter

  /** `a, b = s.split("T")`: defined exactly when `s` has one "T", and then `s == a + "T" + b`. */
  function Halves(s: string): (r: Option<(string, string)>)
    ensures r.Some? <==> multiset(s)['T'] == 1
    ensures r.Some? ==> s == r.value.0 + "T" + r.value.1 && 'T' !in r.value.0 && 'T' !in r.value.1
  {
    var parts := Split(s, 'T');
    SplitCount(s, 'T');
    if |parts| == 2 then
      SplitJoin(s, 'T');
      assert Join(parts[1..], 'T') == parts[1];
      Some((parts[0], parts[1]))
    else None
  }

  /** A string with one "T" splits back into the two parts it was built from. */
  lemma HalvesOf(a: string, b: string)
    requires 'T' !in a && 'T' !in b
    ensures Halves(a + "T" + b) == Some((a, b))
  {
    assert a + "T" + b == a + ['T'] + b;
    SplitCons(a, 'T', b);
    SplitNone(b, 'T');
  }

  /** Python's chained `a <= b <= c <= d` on strings. */
  predicate Chain(a: string, b: string, c: string, d: string) {
    StrLessEq(a, b) && StrLessEq(b, c) && StrLessEq(c, d)
  }

  /**
   * `event_filter(event_start, event_end)` with the session's real start and end instants
   * as parameters. Each of the four instants is unpacked into a date and a time, which
   * fails (`None`) unless each has exactly one "T".
   */
  function EventFilter(eventStart: string, eventEnd: string, realStart: string, realEnd: string): (r: Option<bool>)
    ensures r.Some? <==>
      multiset(eventStart)['T'] == 1 && multiset(eventEnd)['T'] == 1
      && multiset(realStart)['T'] == 1 && multiset(realEnd)['T'] == 1
  {
    match (Halves(eventStart), Halves(eventEnd), Halves(realStart), Halves(realEnd))
    case (Some(es), Some(ee), Some(rs), Some(re)) =>
      Some(Chain(rs.0, es.0, ee.0, re.0) && Chain(rs.1, es.1, ee.1, re.1))
    case _ => None
  }

  /**
   * On instants written as date "T" time, the event is accepted exactly when its start and
   * end dates lie in order inside the window's dates, and likewise for the times of day.
   */
  lemma EventFilterOf(esd: string, est: string, eed: string, eet: string,
                      sd: string, st: string, ed: string, et: string)
    requires 'T' !in esd && 'T' !in est && 'T' !in eed && 'T' !in eet
    requires 'T' !in sd && 'T' !in st && 'T' !in ed && 'T' !in et
    ensures EventFilter(esd + "T" + est, eed + "T" + eet, sd + "T" + st, ed + "T" + et)
         == Some(Chain(sd, esd, eed, ed) && Chain(st, est, eet, et))
  {
    HalvesOf(esd, est);
    HalvesOf(eed, eet);
    HalvesOf(sd, st);
    HalvesOf(ed, et);
  }

  /** An event is accepted only inside a window whose dates and times are themselves in order. */
  lemma EventFilterWindowOrdered(eventStart: string, eventEnd: string, realStart: string, realEnd: string)
    requires EventFilter(eventStart, eventEnd, realStart, realEnd) == Some(true)
    ensures StrLessEq(Halves(realStart).value.0, Halves(realEnd).value.0)
    ensures StrLessEq(Halves(realStart).value.1, Halves(realEnd).value.1)
  {
    var es, ee, rs, re := Halves(eventStart).value, Halves(eventEnd).value, Halves(realStart).value, Halves(realEnd).value;
    StrLessEqTransitive(rs.0, es.0, ee.0);
    StrLessEqTransitive(rs.0, ee.0, re.0);
    StrLessEqTransitive(rs.1, es.1, ee.1);
    StrLessEqTransitive(rs.1, ee.1, re.1);
  }

  lemma ChainWiden(w: string, r: string, a: string, b: string, c: string, e: string)
    requires Chain(r, a, b, c) && StrLessEq(w, r) && StrLessEq(c, e)
    ensures Chain(w, a, b, e)
  {
    StrLessEqTransitive(w, r, a);
    StrLessEqTransitive(b, c, e);
  }

  /** Widening the window (earlier start parts, later end parts) keeps every accepted event. */
  lemma EventFilterWiden(eventStart: string, eventEnd: string, realStart: string, realEnd: string,
                         wideStart: string, wideEnd: string)
    requires EventFilter(eventStart, eventEnd, realStart, realEnd) == Some(true)
    requires Halves(wideStart).Some? && Halves(wideEnd).Some?
    requires StrLessEq(Halves(wideStart).value.0, Halves(realStart).value.0)
    requires StrLessEq(Halves(wideStart).value.1, Halves(realStart).value.1)
    requires StrLessEq(Halves(realEnd).value.0, Halves(wideEnd).value.0)
    requires StrLessEq(Halves(realEnd).value.1, Halves(wideEnd).value.1)
    ensures EventFilter(eventStart, eventEnd, wideStart, wideEnd) == Some(true)
  {
    EventFilterParts(eventStart, eventEnd, realStart, realEnd);
    EventFilterParts(eventStart, eventEnd, wideStart, wideEnd);
    var es, ee, rs, re := Halves(eventStart).value, Halves(eventEnd).value, Halves(realStart).value, Halves(realEnd).value;
    var ws, we := Halves(wideStart).value, Halves(wideEnd).value;
    ChainWiden(ws.0, rs.0, es.0, ee.0, re.0, we.0);
    ChainWiden(ws.1, rs.1, es.1, ee.1, re.1, we.1);
  }

  /** `event_filter` in terms of the unpacked halves of its four instants. */
  lemma EventFilterParts(eventStart: string, eventEnd: string, realStart: string, realEnd: string)
    ensures EventFilter(eventStart, eventEnd, realStart, realEnd) ==
      if Halves(eventStart).Some? && Halves(eventEnd).Some? && Halves(realStart).Some? && Halves(realEnd).Some? then
        var es, ee, rs, re := Halves(eventStart).value, Halves(eventEnd).value, Halves(realStart).value, Halves(realEnd).value;
        Some(Chain(rs.0, es.0, ee.0, re.0) && Chain(rs.1, es.1, ee.1, re.1))
      else None
  {
  }

  // ---------------------------------------------------------------- cal_sort_key

  /** One calendar of the shaped list: exactly the six keys kept by `list_calendars`. */
  datatype Calendar = Calendar(
    kind: string, id: string, summary: string, selected: bool, primary: bool, description: string)

  type SortKey = (string, string, string)

  /** A true flag sorts first: " " is below "X". */
  function FlagKey(flag: bool): string {
    if flag then " " else "X"
  }

  /** `cal_sort_key(cal)`: the key (primary flag, selected flag, summary). */
  function CalSortKey(cal: Calendar): SortKey {
    (FlagKey(cal.primary), FlagKey(cal.selected), cal.summary)
  }

  /** Python's `<` on tuples of strings: the first differing component decides. */
  predicate KeyLess(a: SortKey, b: SortKey) {
    StrLess(a.0, b.0) || (a.0 == b.0 && (StrLess(a.1, b.1) || (a.1 == b.1 && StrLess(a.2, b.2))))
  }

  predicate KeyLe(a: SortKey, b: SortKey) {
    a == b || KeyLess(a, b)
  }

  lemma KeyLessTotal(a: SortKey, b: SortKey)
    ensures KeyLe(a, b) || KeyLe(b, a)
  {
    StrLessTotal(a.0, b.0);
    StrLessTotal(a.1, b.1);
    StrLessTotal(a.2, b.2);
  }

  lemma KeyLessTransitive(a: SortKey, b: SortKey, c: SortKey)
    requires KeyLess(a, b) && KeyLess(b, c)
    ensures KeyLess(a, c)
  {
    if StrLess(a.0, b.0) && StrLess(b.0, c.0) {
      StrLessTransitive(a.0, b.0, c.0);
    } else if a.0 == b.0 && b.0 == c.0 {
      if StrLess(a.1, b.1) && StrLess(b.1, c.1) {
        StrLessTransitive(a.1, b.1, c.1);
      } else if a.1 == b.1 && b.1 == c.1 {
        StrLessTransitive(a.2, b.2, c.2);
      }
    }
  }

  /** The tuple order is a total preorder, so the stable sort orders by it. */
  lemma KeyLeTotalPreorder()
    ensures TotalPreorder(KeyLe)
  {
    forall a: SortKey, b: SortKey
      ensures KeyLe(a, b) || KeyLe(b, a)
    {
      KeyLessTotal(a, b);
    }
    forall a: SortKey, b: SortKey, c: SortKey | KeyLe(a, b) && KeyLe(b, c)
      ensures KeyLe(a, c)
    {
      if a != b && b != c {
        KeyLessTransitive(a, b, c);
      }
    }
  }

  /** " " sorts strictly before "X". */
  lemma FlagKeyOrder()
    ensures StrLess(" ", "X") && !StrLess("X", " ")
  {
    StrLessAt(" ", "X", 0);
  }

  /**
   * In a list sorted by `cal_sort_key`: primary calendars come first; among calendars with
   * the same primary flag, selected ones come first; among those with equal flags, the
   * summaries are in order.
   */
  lemma CalendarOrder(cals: seq<Calendar>, i: nat, j: nat)
    requires SortedBy(cals, CalSortKey, KeyLe) && i < j < |cals|
    ensures cals[j].primary ==> cals[i].primary
    ensures cals[i].primary == cals[j].primary && cals[j].selected ==> cals[i].selected
    ensures cals[i].primary == cals[j].primary && cals[i].selected == cals[j].selected
            ==> StrLessEq(cals[i].summary, cals[j].summary)
  {
    FlagKeyOrder();
    StrLessIrreflexive(" ");
    StrLessIrreflexive("X");
    assert KeyLe(CalSortKey(cals[i]), CalSortKey(cals[j]));
  }

  // ---------------------------------------------------------------- list_calendars

  /** A fetched calendar-list item; optional keys are `None` when absent. */
  datatype RawCalendar = RawCalendar(
    kind: string, id: string, summary: string,
    description: Option<string>, selected: Option<bool>, primary: Option<bool>)

  /** One item as `list_calendars` shapes it: the defaults for absent keys, six keys kept. */
  function ShapeCalendar(raw: RawCalendar): Calendar {
    Calendar(raw.kind, raw.id, raw.summary, raw.selected == Some(true), raw.primary == Some(true),
             raw.description.GetOr("(no description)"))
  }

  function ShapedCalendars(items: seq<RawCalendar>): (r: seq<Calendar>)
    ensures |r| == |items| && forall k :: 0 <= k < |items| ==> r[k] == ShapeCalendar(items[k])
  {
    seq(|items|, k requires 0 <= k < |items| => ShapeCalendar(items[k]))
  }

  /**
   * `list_calendars` on the fetched items: each item shaped, then sorted by `cal_sort_key`
   * with the stable sort. The result holds every shaped item once, primary calendars
   * first, then the selected ones, then by summary.
   */
  method ListCalendars(items: seq<RawCalendar>) returns (result: seq<Calendar>)
    ensures result == SortBy(ShapedCalendars(items), CalSortKey, KeyLe)
    ensures multiset(result) == multiset(ShapedCalendars(items))
    ensures forall i, j :: 0 <= i < j < |result| && result[j].primary ==> result[i].primary
    ensures forall i, j | 0 <= i < j < |result| ::
              result[i].primary == result[j].primary && result[j].selected ==> result[i].selected
  {
    var shaped: seq<Calendar> := [];
    var n := 0;
    while n < |items|
      invariant 0 <= n <= |items|
      invariant shaped == ShapedCalendars(items[..n])
    {
      var cal := items[n];
      var desc := if cal.description.Some? then cal.description.value else "(no description)";
      var selected := cal.selected.Some? && cal.selected.value;
      var primary := cal.primary.Some? && cal.primary.value;
      shaped := shaped + [Calendar(cal.kind, cal.id, cal.summary, selected, primary, desc)];
      n := n + 1;
    }
    assert items[..n] == items;
    result := SortBy(shaped, CalSortKey, KeyLe);
    KeyLeTotalPreorder();
    SortedBySorted(shaped, CalSortKey, KeyLe);
    forall i, j | 0 <= i < j < |result|
      ensures result[j].primary ==> result[i].primary
      ensures result[i].primary == result[j].primary && result[j].selected ==> result[i].selected
    {
      CalendarOrder(result, i, j);
    }
  }

  // ---------------------------------------------------------------- list_events

  /**
   * A fetched event item: `startDateTime`/`endDateTime` are `start.dateTime`/`end.dateTime`,
   * `None` when either level is absent; `description` and `summary` are `None` when absent.
   */
  datatype RawEvent = RawEvent(
    id: string, status: string, description: Option<string>,
    startDateTime: Option<string>, endDateTime: Option<string>, summary: Option<string>)

  /** One event of the result of `list_events`. */
  datatype EventRecord = EventRecord(
    id: string, summary: string, description: string, startTime: string, endTime: string)

  /** The record an item becomes, or `None` when it is cancelled or lacks a start, end or summary. */
  function Candidate(e: RawEvent): Option<EventRecord> {
    if e.status == "cancelled" || e.startDateTime.None? || e.endDateTime.None? || e.summary.None? then None
    else Some(EventRecord(e.id, e.summary.value, e.description.GetOr("no description for this event"),
                          e.startDateTime.value, e.endDateTime.value))
  }

  /** The filter an item's start and end instants go through: `None` when it raises. */
  type Filter = (string, string) -> Option<bool>

  /** `event_filter` against the session's real start and end instants. */
  function WindowFilter(realStart: string, realEnd: string): Filter {
    (eventStart, eventEnd) => EventFilter(eventStart, eventEnd, realStart, realEnd)
  }

  /** What one item contributes after `prev`: `None` when the filter raises. */
  function KeepStep(prev: seq<EventRecord>, e: RawEvent, filter: Filter): Option<seq<EventRecord>> {
    match Candidate(e)
    case None => Some(prev)
    case Some(rec) =>
      match filter(rec.startTime, rec.endTime)
      case None => None
      case Some(accepted) => Some(if accepted then prev + [rec] else prev)
  }

  /** The events kept from `items` in fetch order, or `None` once the filter raises. */
  function KeptEvents(items: seq<RawEvent>, filter: Filter): Option<seq<EventRecord>>
    decreases |items|
  {
    if items == [] then Some([])
    else match KeptEvents(items[..|items| - 1], filter)
      case None => None
      case Some(prev) => KeepStep(prev, items[|items| - 1], filter)
  }

  /** `e` is kept as `rec`: a complete, uncancelled item the filter accepts. */
  ghost predicate Yields(e: RawEvent, rec: EventRecord, filter: Filter) {
    Candidate(e) == Some(rec) && filter(rec.startTime, rec.endTime) == Some(true)
  }

  /** `e` is a complete, uncancelled item whose instants make the filter raise. */
  ghost predicate FilterFails(e: RawEvent, filter: Filter) {
    Candidate(e).Some? && filter(Candidate(e).value.startTime, Candidate(e).value.endTime).None?
  }

  lemma KeptStep(items: seq<RawEvent>, i: nat, filter: Filter)
    requires i < |items|
    ensures KeptEvents(items[..i + 1], filter) ==
      match KeptEvents(items[..i], filter)
      case None => None
      case Some(prev) => KeepStep(prev, items[i], filter)
  {
    assert items[..i + 1][..i] == items[..i];
  }

  lemma {:induction false} KeptKeepsNone(items: seq<RawEvent>, k: nat, filter: Filter)
    requires k <= |items| && KeptEvents(items[..k], filter).None?
    ensures KeptEvents(items, filter).None?
    decreases |items|
  {
    if k < |items| {
      var init := items[..|items| - 1];
      assert init[..k] == items[..k];
      KeptKeepsNone(init, k, filter);
    } else {
      assert items[..k] == items;
    }
  }

  /** The filter raising on any one complete item makes the whole listing raise, and only then. */
  lemma {:induction false} KeptEventsFails(items: seq<RawEvent>, filter: Filter)
    ensures KeptEvents(items, filter).None? <==> exists i :: 0 <= i < |items| && FilterFails(items[i], filter)
    decreases |items|
  {
    if items != [] {
      var n := |items| - 1;
      var init := items[..n];
      KeptEventsFails(init, filter);
      if KeptEvents(items, filter).None? {
        if KeptEvents(init, filter).Some? {
          assert FilterFails(items[n], filter);
        } else {
          var i :| 0 <= i < |init| && FilterFails(init[i], filter);
          assert items[i] == init[i];
        }
      }
      if i :| 0 <= i < |items| && FilterFails(items[i], filter) {
        if i < n {
          assert init[i] == items[i];
        }
      }
    }
  }

  /** A record is in the listing exactly when some fetched item yields it. */
  lemma {:induction false} KeptEventsMembers(items: seq<RawEvent>, filter: Filter, rec: EventRecord)
    requires KeptEvents(items, filter).Some?
    ensures rec in KeptEvents(items, filter).value <==>
            exists i :: 0 <= i < |items| && Yields(items[i], rec, filter)
    decreases |items|
  {
    if items != [] {
      var n := |items| - 1;
      var init := items[..n];
      KeptEventsMembers(init, filter, rec);
      var prev := KeptEvents(init, filter).value;
      var kept := KeptEvents(items, filter).value;
      assert forall r :: r in prev ==> r in kept;
      if rec in kept {
        if rec in prev {
          var i :| 0 <= i < |init| && Yields(init[i], rec, filter);
          assert items[i] == init[i];
        } else {
          assert Yields(items[n], rec, filter);
        }
      }
      if i :| 0 <= i < |items| && Yields(items[i], rec, filter) {
        if i < n {
          assert init[i] == items[i];
        }
      }
    }
  }

  function StartKey(e: EventRecord): string {
    e.startTime
  }

  lemma StrLessEqTotalPreorder()
    ensures TotalPreorder(StrLessEq)
  {
    forall a: string, b: string, c: string
      ensures StrLessEq(a, b) || StrLessEq(b, a)
      ensures StrLessEq(a, b) && StrLessEq(b, c) ==> StrLessEq(a, c)
    {
      StrLessEqTotal(a, b, c);
    }
  }

  /**
   * `list_events` on the fetched items of one calendar, with the session's real start and
   * end instants: cancelled and incomplete items are skipped, a missing description gets
   * its default, `event_filter` decides the rest, and the kept events are sorted in place by
   * their start instant with the stable sort. `None` when `event_filter` raises.
   */
  method ListEvents(items: seq<RawEvent>, realStart: string, realEnd: string) returns (r: Option<seq<EventRecord>>)
    ensures r.None? <==> KeptEvents(items, WindowFilter(realStart, realEnd)).None?
    ensures r.Some? ==> r.value == SortBy(KeptEvents(items, WindowFilter(realStart, realEnd)).value, StartKey, StrLessEq)
    ensures r.Some? ==> SortedBy(r.value, StartKey, StrLessEq)
    ensures r.Some? ==> multiset(r.value) == multiset(KeptEvents(items, WindowFilter(realStart, realEnd)).value)
    ensures r.None? <==> exists i :: 0 <= i < |items| && FilterFails(items[i], WindowFilter(realStart, realEnd))
    ensures r.Some? ==> forall rec :: rec in r.value <==>
              exists i :: 0 <= i < |items| && Yields(items[i], rec, WindowFilter(realStart, realEnd))
  {
    ghost var filter := WindowFilter(realStart, realEnd);
    var events: seq<EventRecord> := [];
    var i := 0;
    while i < |items|
      invariant 0 <= i <= |items|
      invariant KeptEvents(items[..i], filter) == Some(events)
    {
      KeptStep(items, i, filter);
      var event := items[i];
      if event.status == "cancelled" {
        i := i + 1;
        continue;
      }
      var desc := if event.description.Some? then event.description.value else "no description for this event";
      if event.startDateTime.None? {
        i := i + 1;
        continue;
      }
      var startTime := event.startDateTime.value;
      if event.endDateTime.None? {
        i := i + 1;
        continue;
      }
      var endTime := event.endDateTime.value;
      if event.summary.None? {
        i := i + 1;
        continue;
      }
      var summary := event.summary.value;
      var accepted := EventFilter(startTime, endTime, realStart, realEnd);
      if accepted.None? {
        KeptKeepsNone(items, i + 1, filter);
        return None;
      }
      if accepted.value {
        events := events + [EventRecord(event.id, summary, desc, startTime, endTime)];
      }
      i := i + 1;
    }
    assert items[..i] == items;
    StrLessEqTotalPreorder();
    SortedBySorted(events, StartKey, StrLessEq);
    r := Some(SortBy(events, StartKey, StrLessEq));
    KeptEventsFails(items, filter);
    forall rec
      ensures rec in r.value <==> exists k :: 0 <= k < |items| && Yields(items[k], rec, filter)
    {
      KeptEventsMembers(items, filter, rec);
      assert rec in r.value <==> rec in multiset(r.value);
    }
  }

  // ---------------------------------------------------------------- setrange

  /** What `setrange` raises: a missing word, a failed interpretation, or an order check. */
  datatype RangeError = MissingPart | BadDate(text: string) | BadTime(text: string)
                      | EndDateBeforeBegin | EndTimeBeforeStart | NoTimePart

  /** The session values `setrange` stores. */
  datatype PickedRange = PickedRange(
    beginDate: string, endDate: string, startTime: string, endTime: string,
    realStart: string, realEnd: string)

  /**
   * `setrange` on the widget's text, e.g. "11/16/2017 5:00 - 12/29/2017 4:30", with the
   * date and time interpreters as parameters (`None` when one raises). Words 0 and 3 are
   * the dates and words 1 and 4 the times, read in the source's order; the dates and then
   * the times must not be out of order, and the real instants are spliced from them.
   */
  function SetRange(daterange: string, interpretDate: string -> Option<string>,
                    interpretTime: string -> Option<string>): (r: Result<PickedRange, RangeError>)
    ensures r.Ok? ==> StrLessEq(r.value.beginDate, r.value.endDate) && StrLessEq(r.value.startTime, r.value.endTime)
    ensures r.Ok? ==> multiset(r.value.realStart)['T'] == 1 && multiset(r.value.realEnd)['T'] == 1
  {
    var parts := SplitWs(daterange);
    if |parts| < 1 then Err(MissingPart)
    else if interpretDate(parts[0]).None? then Err(BadDate(parts[0]))
    else if |parts| < 4 then Err(MissingPart)
    else if interpretDate(parts[3]).None? then Err(BadDate(parts[3]))
    else
      var beginDate, endDate := interpretDate(parts[0]).value, interpretDate(parts[3]).value;
      if StrLess(endDate, beginDate) then Err(EndDateBeforeBegin)
      else if interpretTime(parts[1]).None? then Err(BadTime(parts[1]))
      else if |parts| < 5 then Err(MissingPart)
      else if interpretTime(parts[4]).None? then Err(BadTime(parts[4]))
      else
        StrLessTotal(beginDate, endDate);
        CheckTimes(beginDate, endDate, interpretTime(parts[1]).value, interpretTime(parts[4]).value)
  }

  /** The rest of `setrange` once all four values are interpreted: the time check, then the splices. */
  function CheckTimes(beginDate: string, endDate: string, startTime: string, endTime: string): (r: Result<PickedRange, RangeError>)
    ensures r.Ok? ==> r.value.beginDate == beginDate && r.value.endDate == endDate
    ensures r.Ok? ==> r.value.startTime == startTime && r.value.endTime == endTime
    ensures r.Ok? ==> StrLessEq(startTime, endTime)
    ensures r.Ok? ==> multiset(r.value.realStart)['T'] == 1 && multiset(r.value.realEnd)['T'] == 1
  {
    if StrLess(endTime, startTime) then Err(EndTimeBeforeStart)
    else
      StrLessTotal(startTime, endTime);
      match (SpliceRealTime(beginDate, startTime), SpliceRealTime(endDate, endTime))
      case (Some(realStart), Some(realEnd)) =>
        Ok(PickedRange(beginDate, endDate, startTime, endTime, realStart, realEnd))
      case _ => Err(NoTimePart)
  }

  /** With ISO instants the time check is the only way to fail, and the splices join the parts. */
  lemma CheckTimesOf(bd: string, bx: string, ed: string, ex: string,
                     sy: string, sz: string, sw: string, ey: string, ez: string, ew: string)
    requires 'T' !in bd && 'T' !in ed && 'T' !in sy && 'T' !in sz && 'T' !in ey && 'T' !in ez
    requires (bx == [] || bx[0] == 'T') && (ex == [] || ex[0] == 'T')
    requires (sw == [] || sw[0] == 'T') && (ew == [] || ew[0] == 'T')
    ensures CheckTimes(bd + bx, ed + ex, sy + "T" + sz + sw, ey + "T" + ez + ew)
         == if StrLess(ey + "T" + ez + ew, sy + "T" + sz + sw) then Err(EndTimeBeforeStart)
            else Ok(PickedRange(bd + bx, ed + ex, sy + "T" + sz + sw, ey + "T" + ez + ew, bd + "T" + sz, ed + "T" + ez))
  {
    SpliceRealTimeOf(bd, bx, sy, sz, sw);
    SpliceRealTimeOf(ed, ex, ey, ez, ew);
  }

  /**
   * With five words whose dates and times interpret: out-of-order dates are refused first,
   * then out-of-order times, then times without a "T"; otherwise the picked range holds the
   * four values and the two spliced instants.
   */
  lemma SetRangeOf(daterange: string, interpretDate: string -> Option<string>, interpretTime: string -> Option<string>,
                   beginDate: string, endDate: string, startTime: string, endTime: string)
    requires |SplitWs(daterange)| >= 5
    requires interpretDate(SplitWs(daterange)[0]) == Some(beginDate)
    requires interpretDate(SplitWs(daterange)[3]) == Some(endDate)
    requires interpretTime(SplitWs(daterange)[1]) == Some(startTime)
    requires interpretTime(SplitWs(daterange)[4]) == Some(endTime)
    ensures StrLess(endDate, beginDate) ==> SetRange(daterange, interpretDate, interpretTime) == Err(EndDateBeforeBegin)
    ensures !StrLess(endDate, beginDate) && StrLess(endTime, startTime) ==>
              SetRange(daterange, interpretDate, interpretTime) == Err(EndTimeBeforeStart)
    ensures !StrLess(endDate, beginDate) && !StrLess(endTime, startTime) && ('T' !in startTime || 'T' !in endTime) ==>
              SetRange(daterange, interpretDate, interpretTime) == Err(NoTimePart)
    ensures !StrLess(endDate, beginDate) && !StrLess(endTime, startTime) && 'T' in startTime && 'T' in endTime ==>
              SetRange(daterange, interpretDate, interpretTime)
              == Ok(PickedRange(beginDate, endDate, startTime, endTime,
                                SpliceRealTime(beginDate, startTime).value, SpliceRealTime(endDate, endTime).value))
  {
    assert SetRange(daterange, interpretDate, interpretTime)
        == if StrLess(endDate, beginDate) then Err(EndDateBeforeBegin)
           else CheckTimes(beginDate, endDate, startTime, endTime);
  }

  /** The real instants `setrange` stores never make `event_filter` raise on well-formed events. */
  lemma SetRangeFeedsFilter(daterange: string, interpretDate: string -> Option<string>,
                            interpretTime: string -> Option<string>, eventStart: string, eventEnd: string)
    requires SetRange(daterange, interpretDate, interpretTime).Ok?
    requires multiset(eventStart)['T'] == 1 && multiset(eventEnd)['T'] == 1
    ensures EventFilter(eventStart, eventEnd,
                        SetRange(daterange, interpretDate, interpretTime).value.realStart,
                        SetRange(daterange, interpretDate, interpretTime).value.realEnd).Some?
  {
  }
}
