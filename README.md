# Free-time planner: appointments, agendas, calendar events

This project models the core of a meeting planner that finds free time in Google calendars.

**Appointments and agendas** (meetings/Model/Agenda.py):
- An `Appt` is a labelled span of time on one date, at minute precision.
- An appointment is built with a `begin < end` check and is compared with `<`, `>` and `overlaps`.
- `intersect` and `union` combine two appointments.
- An appointment is printed as `YYYY.MM.DD HH:MM HH:MM | desc` and parsed back from that line form.
- An `Agenda` is a list of appointments. It can be read from the lines of a file, appended to and intersected with another agenda.
- An agenda can be normalized: sorted by begin time, with overlapping appointments merged.
- An agenda can be complemented inside a bounding appointment, which gives its free gaps.
- Two agendas are equal when their begin and end times match; descriptions do not count.

**Calendar events** (meetings/Model/CalendarEvent.py): a `CalendarEvent` is a block of one day. Its start and end are time strings such as `14:30:00-08:00` and its date a string such as `2014/01/01`. Events are compared by comparing those strings.

**Web helpers** (meetings/flask_main.py): these are the pure helpers of the web front end.
- `splice_real_time` joins a picked date and a picked time into one ISO instant.
- `event_filter` is the window filter applied to fetched events.
- `cal_sort_key` is the sort order of calendars.
- The shaping of already-fetched calendar and event items in `list_calendars` and `list_events`.
- The order checks in `setrange`.

Modules:
- `Results`: `Option` and `Result`. `None` and raised exceptions become values.
- `Text`: the Python `str` operations the code relies on, on `seq<char>`.
  - `strip`, `split(sep)` and `split()`;
  - the lexicographic `<` and `<=`, and `min`/`max`;
  - `int()` on a digit string;
  - zero-padded output.
- `Sorting`: a stable sort by key, standing in for Python's `list.sort(key=…)`/`sorted`. It is proved sorted, a permutation and stable.
- `Appointments`:
  - dates (`datetime.date`, years 1 to 9999);
  - instants, as stamps ordered like `datetime`;
  - `Appt` and the errors of `Appt` and `from_string`;
  - the comparisons, `intersect`/`union`, and the line format with its round trip.
- `AgendaSpec`: the agenda operations as functions on sequences, with the docstrings' promises proved as lemmas.
  - `normalize`: sorted, non-overlapping, same booked instants, idempotent, chains fold;
  - `complement`: exactly the free instants of the bounding block;
  - `intersect`: exactly the instants both agendas book, one entry per overlapping pair;
  - reading a file, both as written and best effort.
- `Agendas`: the `Agenda` class and the Python list it holds, `ApptList`.
  - Each method is proved against the functions of `AgendaSpec`.
  - The list is an object of its own because `normalized()` shares it with the receiver. Its in-place sort therefore reorders the receiver's appointments.
  - `Agendas.Agenda.Length` is `__len__`.
  - meetings/Model/CalendarEvent.py:166-315 holds a copy of this class, identical apart from its missing `from_file`. This module models that copy as well.
- `CalendarEvents`: `CalendarEvent` as a value, since no method changes an event after construction.
  - the comparisons as written;
  - `time_union`, `time_list`, the ISO strings and `translator`;
  - the fixtures of meetings/test/test_event.py;
  - date-aware comparisons on the assembled ISO strings (`GetStartTime`/`GetEndTime`), which the test expects.
- `Meetings`: the helpers of meetings/flask_main.py.
  - Session values, fetched items and the date/time interpreters are parameters.

Where docstrings and code differ, the model follows the code:
- The `event_filter` docstring says an event is kept when it "happens or ends during" the window. The code requires start and end both inside the window, for dates and for times of day.
- The `normalize` docstring speaks of merging overlapping appointments. The code also keeps apart two appointments that only touch end-to-start (`NormalizeTouching`).
- The `CalendarEvent.__lt__` docstring says `a < b` holds when `b` is done by the time `a` begins. The code tests the reverse, `self.end <= other.start`: `a` is done by the time `b` begins. Under the docstring's reading meetings/test/test_event.py:18 would fail.
- meetings/test/test_event.py:27-35 calls `union`, `get_start` and `get_end`, which `CalendarEvent` does not have. Its expected values are checked against `time_union` and the `start`/`end` fields.

## Model

| member | source | states |
|---|---|---|
| Text.Strip | meetings/Model/Agenda.py:58-59 | `str.strip()`: the result has no leading or trailing white space |
| Text.StripPadded | meetings/Model/Agenda.py:58-59 | stripping white-space padding off a trimmed string gives exactly that string |
| Text.StripKeepsOut | meetings/Model/Agenda.py:58-59 | stripping never introduces a character, so a stripped description has no bar if the text had none |
| Text.Split | meetings/Model/Agenda.py:55 | `split(sep)` returns at least one piece and no piece contains the separator |
| Text.SplitCount | meetings/Model/Agenda.py:55-57 | `split(sep)` has exactly one more piece than the string has separators |
| Text.SplitJoin | meetings/Model/Agenda.py:55 | joining the pieces of `split(sep)` with `sep` gives the string back |
| Text.SplitWs | meetings/Model/Agenda.py:60 | `split()` yields only non-empty tokens without white space |
| Text.SplitWsCons | meetings/Model/Agenda.py:60-65 | a word followed by a blank is the first token and the rest is tokenized on its own |
| Text.DigitsPlain | meetings/Model/Agenda.py:68-70 | `int()` reads a run of ASCII digits back as the number they spell |
| Text.Pad2 | meetings/Model/Agenda.py:172-174 | `%02d` output: two digits that spell the number |
| Text.Pad4 | meetings/Model/Agenda.py:172 | `%Y` output: four digits that spell the year |
| Text.StrLessTotal | meetings/Model/CalendarEvent.py:81 | Python's string `<` is a strict total order: exactly one of `a < b`, `b < a`, `a == b` |
| Text.StrLessTransitive | meetings/Model/CalendarEvent.py:81 | string `<` is transitive |
| Text.StrLessEqTotal | meetings/flask_main.py:536 | string `<=` is a total preorder and antisymmetric, so a stable sort can sort by it |
| Text.StrMin | meetings/Model/CalendarEvent.py:122 | `min(a, b)` is one of the two and at most both |
| Text.StrMax | meetings/Model/CalendarEvent.py:123 | `max(a, b)` is one of the two and at least both |
| Sorting.SortBy | meetings/Model/Agenda.py:251 | the sorted list is a permutation of the input |
| Sorting.SortedBySorted | meetings/Model/Agenda.py:251 | the result of the sort is ordered by key |
| Sorting.SortByStable | meetings/Model/Agenda.py:251 | stability: elements with equivalent keys keep their relative order |
| Sorting.SortByOfSorted | meetings/Model/Agenda.py:251 | sorting a list already in key order leaves it unchanged |
| Appointments.DayNumberOrder | meetings/Model/Agenda.py:45-46 | the day numbering preserves calendar order and is injective on valid dates |
| Appointments.StampChronological | meetings/Model/Agenda.py:45-46 | comparing instants compares (date, time of day) chronologically, as `datetime` does |
| Appointments.NewAppt | meetings/Model/Agenda.py:45-49 | construction fails with the "end must be after begin" error exactly when `begin >= end`; otherwise the appointment has the given date, instants and description |
| Appointments.OverlapsShared | meetings/Model/Agenda.py:102-111 | `overlaps` holds exactly when some instant lies in both appointments ("a non-zero overlap") |
| Appointments.Trichotomy | meetings/Model/Agenda.py:82-111 | exactly one of `a < b`, `b < a`, `a.overlaps(b)` holds; `overlaps` is symmetric; `a > b` is `b < a` |
| Appointments.OverlapsSameDay | meetings/Model/Agenda.py:130-131 | overlapping appointments are on the same day |
| Appointments.Intersect | meetings/Model/Agenda.py:113-136 | `intersect` books exactly the instants both book, from the later begin to the earlier end, on the left appointment's day; its description is the left one's unless a non-empty `desc` is given |
| Appointments.Union | meetings/Model/Agenda.py:138-161 | `union` books exactly the instants either books, from the earlier begin to the later end; its description is the two joined by a blank unless a non-empty `desc` is given |
| Appointments.FromString | meetings/Model/Agenda.py:53-59 | `from_string` fails with the bar-count error exactly when the line does not contain exactly one bar; on success the description is the stripped text after the bar |
| Appointments.FromFields | meetings/Model/Agenda.py:60-62 | the time-spec error occurs exactly when the time-spec does not split into three tokens |
| Appointments.FromTokens | meetings/Model/Agenda.py:63-79 | the date error occurs exactly when one of the first three dot-fields is missing or not an integer; a result's date and times are the parsed ones |
| Appointments.FromTokensErrors | meetings/Model/Agenda.py:66-79 | each error when the date parses, as an iff. A field beyond a C `int` gives the overflow error. An invalid calendar date gives a `ValueError`. If the date is accepted, a time that is not `%H:%M` gives the clock `ValueError`, and parsed times with `begin >= end` give the end-after-begin error of Agenda.py:47-48. Otherwise the result is an appointment |
| Appointments.ParseClockOf | meetings/Model/Agenda.py:76-77 | `strptime("%H:%M")` reads `HH:MM` as hours times 60 plus minutes |
| Appointments.ParseClockPrinted | meetings/Model/Agenda.py:76-77 | a time printed by `strftime("%H:%M")` parses back to itself |
| Appointments.ParseDatePrinted | meetings/Model/Agenda.py:66-70 | a date printed by `strftime("%Y.%m.%d")` reads back as its year, month and day |
| Appointments.ThreeBillion | meetings/Model/Agenda.py:68 | `int("3000000000")` is three billion, which does not fit a C `int` |
| Appointments.OverflowLine | meetings/Model/Agenda.py:68-75 | a line whose year does not fit a C `int` but has at most 4300 digits, so that `int()` reads it, fails with an overflow error, not a `ValueError` |
| Appointments.ParsePrinted | meetings/Model/Agenda.py:163-175 | round trip: `from_string(str(a)) == a` for a description without a bar and without surrounding white space |
| Appointments.StripPrinted | meetings/Model/Agenda.py:198 | stripping a printed line drops only the trailing blank left by an empty description |
| Appointments.ParseStripped | meetings/Model/Agenda.py:198-204 | the stripped printed line is not skipped as blank or comment and parses back to the same appointment |
| AgendaSpec.CoversPermutation | meetings/Model/Agenda.py:251 | reordering the appointments does not change which instants are booked |
| AgendaSpec.SortByBegin | meetings/Model/Agenda.py:250-251 | sorting with the key `ap.begin` yields a list in order of begin |
| AgendaSpec.Merge | meetings/Model/Agenda.py:255-269 | the merge sweep yields at least one and at most one more appointment than it was given, starting at the running appointment's begin |
| AgendaSpec.NormalizeSeq | meetings/Model/Agenda.py:239-270 | normalizing never lengthens the list, and the result is empty exactly when the input is |
| AgendaSpec.MergeSeparated | meetings/Model/Agenda.py:256-269 | the sweep's output is separated: each appointment ends by the time any later one begins |
| AgendaSpec.MergeCovers | meetings/Model/Agenda.py:256-269 | the sweep's output books exactly the instants of its input |
| AgendaSpec.MergeOfSeparated | meetings/Model/Agenda.py:256-269 | the sweep leaves an already separated list unchanged |
| AgendaSpec.NormalizeSeparated | meetings/Model/Agenda.py:244-245 | after `normalize` the list is in order of begin and no two appointments overlap |
| AgendaSpec.NormalizeCovers | meetings/Model/Agenda.py:239-270 | `normalize` does not change which instants are booked |
| AgendaSpec.NormalizeOfSeparated | meetings/Model/Agenda.py:239-270 | a sorted, non-overlapping agenda is its own normal form |
| AgendaSpec.NormalizeIdempotent | meetings/Model/Agenda.py:239-270 | normalizing twice is normalizing once |
| AgendaSpec.NormalizeTouching | meetings/Model/Agenda.py:257 | two appointments that only touch end-to-start are not merged |
| AgendaSpec.NormalizeInOrder | meetings/Model/Agenda.py:250-256 | on a list already in order the sort changes nothing and only the sweep acts |
| AgendaSpec.NormalizeChain | meetings/Model/Agenda.py:240-243 | a chain of any length in which each appointment begins before the previous one ends folds into one appointment booking exactly the chain's instants |
| AgendaSpec.GapsCovers | meetings/Model/Agenda.py:305-320 | the cursor sweep emits exactly the instants from the cursor to the block's end that no appointment books |
| AgendaSpec.ComplementCovers | meetings/Model/Agenda.py:294-299 | "exactly the times within freeblock and not within appointments": a gap contains an instant if and only if the block does and no appointment does |
| AgendaSpec.ComplementShape | meetings/Model/Agenda.py:298-320 | the gaps are sorted and disjoint, lie inside the block on its day, and carry the block's description |
| AgendaSpec.ComplementDisjoint | meetings/Model/Agenda.py:283-321 | no gap overlaps any appointment of the agenda |
| AgendaSpec.ComplementEmpty | meetings/Model/Agenda.py:318-320 | an empty agenda's complement is the whole block |
| AgendaSpec.Row | meetings/Model/Agenda.py:233-235 | a row has at most one entry per appointment of the other agenda |
| AgendaSpec.RowCovers | meetings/Model/Agenda.py:233-235 | a row books exactly the instants shared by its appointment and the other agenda |
| AgendaSpec.IntersectCovers | meetings/Model/Agenda.py:214-237 | the intersection books exactly the instants both agendas book |
| AgendaSpec.IntersectFrom | meetings/Model/Agenda.py:228-235 | every entry is the overlap of an overlapping pair, described by `desc` or else by its own left appointment |
| AgendaSpec.RowHas | meetings/Model/Agenda.py:233-235 | every appointment of the other agenda that overlaps `x` contributes its overlap to the row |
| AgendaSpec.IntersectHas | meetings/Model/Agenda.py:230-235 | every overlapping pair contributes its overlap, with `desc` or else the left description, to the intersection |
| AgendaSpec.RowLength | meetings/Model/Agenda.py:233-235 | a row has exactly one entry per appointment of the other agenda that `x` overlaps |
| AgendaSpec.IntersectLength | meetings/Model/Agenda.py:230-235 | the intersection has exactly as many entries as there are overlapping pairs |
| AgendaSpec.IntersectEmpty | meetings/Model/Agenda.py:214-237 | the intersection is empty exactly when no pair of appointments overlaps |
| AgendaSpec.Times | meetings/Model/Agenda.py:340-350 | the begin/end pairs of an agenda, in stored order |
| AgendaSpec.SameTimesIsTimes | meetings/Model/Agenda.py:340-350 | agenda equality is equality of the begin/end sequences; descriptions are ignored |
| AgendaSpec.SameTimesCovers | meetings/Model/Agenda.py:340-350 | equal agendas book the same instants |
| AgendaSpec.ReadLine | meetings/Model/Agenda.py:198-201 | a line is skipped exactly when it is blank or a `#` comment once stripped |
| AgendaSpec.CollectAgree | meetings/Model/Agenda.py:203-207 | when no line fails with anything but a `ValueError`, the loop as written is the best-effort loop |
| AgendaSpec.CollectAborts | meetings/Model/Agenda.py:203-207 | a failure other than `ValueError` on any line aborts the loop as written |
| AgendaSpec.CollectKeepsErr | meetings/Model/Agenda.py:197-207 | once the loop as written has failed, later lines change nothing |
| AgendaSpec.CollectBestEffortAppend | meetings/Model/Agenda.py:197-208 | the best-effort reading of two runs of lines is the reading of each in turn |
| AgendaSpec.ReadLinesAgree | meetings/Model/Agenda.py:196-208 | where no line overflows, `from_file` as written equals the best-effort reading |
| AgendaSpec.ReadLinesBestEffortAppend | meetings/Model/Agenda.py:196-208 | reading two files one after the other is reading their concatenation |
| AgendaSpec.SkipFatal | meetings/Model/Agenda.py:203-207 | the best-effort loop skips a failing line and keeps what comes before and after it |
| AgendaSpec.FatalLineAborts | meetings/Model/Agenda.py:203-207 | a line failing with anything but a `ValueError` aborts `from_file` as written, while the best-effort reading drops only that line |
| AgendaSpec.OverflowReadLine | meetings/Model/Agenda.py:198-204 | a line of the overflow shape, with a year of at most 4300 digits, is read, not skipped, and fails with the overflow error |
| AgendaSpec.OverflowAborts | meetings/Model/Agenda.py:203-207 | a file with such a line, e.g. one with the date `3000000000.01.01`, makes `from_file` as written end with an error, while the best-effort reading drops only that line |
| AgendaSpec.PrintLines | meetings/Model/Agenda.py:333-338 | one printed line per appointment, in order |
| AgendaSpec.ReadLinePrinted | meetings/Model/Agenda.py:196-204 | a printed appointment is read back as itself |
| AgendaSpec.ReadPrinted | meetings/Model/Agenda.py:186-208 | reading back the printed lines of an agenda yields the same appointments, both as written and best effort |
| Agendas.ApptList.constructor | meetings/Model/Agenda.py:184 | a new list is empty |
| Agendas.ApptList.Of | meetings/Model/Agenda.py:279 | a list holding the given appointments |
| Agendas.ApptList.Append | meetings/Model/Agenda.py:212 | `list.append` adds the appointment at the end and changes nothing else |
| Agendas.ApptList.SortByBeginTime | meetings/Model/Agenda.py:250-251 | the in-place sort leaves the list the stable sort by begin: in order, and a permutation |
| Agendas.Agenda.constructor | meetings/Model/Agenda.py:182-184 | a new agenda has a fresh, empty list |
| Agendas.Agenda.Of | meetings/Model/Agenda.py:229 | a new agenda with a fresh list holding the given appointments |
| Agendas.Agenda.FromFile | meetings/Model/Agenda.py:186-208 | `from_file` as written: the appointments of the file in order, or the first error that is not a `ValueError` |
| Agendas.Agenda.FromFileBestEffort | meetings/Model/Agenda.py:196-208 | `from_file` as intended: every line that fails is skipped |
| Agendas.Agenda.Append | meetings/Model/Agenda.py:210-212 | the agenda's list grows by the appointment |
| Agendas.Agenda.Intersect | meetings/Model/Agenda.py:214-237 | a new agenda holding the pairwise intersection, this agenda outer and the other inner |
| Agendas.Agenda.Normalize | meetings/Model/Agenda.py:239-270 | the agenda holds the normal form of its old appointments; an empty agenda keeps its list; otherwise the old list is left sorted and replaced by a new one |
| Agendas.Agenda.Normalized | meetings/Model/Agenda.py:272-281 | the copy holds the normal form, and the receiver's shared list is left stable-sorted by begin but not merged; an empty agenda's copy shares the receiver's list, a non-empty one's gets a fresh list |
| Agendas.Agenda.Complement | meetings/Model/Agenda.py:283-321 | a new agenda holding the free gaps inside the block; the receiver's list is left sorted by begin |
| Agendas.Agenda.Equals | meetings/Model/Agenda.py:340-350 | `==` holds exactly when the lengths agree and begin and end agree pairwise |
| Agendas.PairOverlaps | meetings/Model/Agenda.py:228-237 | the outer loop of `intersect` builds the whole intersection |
| Agendas.OverlapsWith | meetings/Model/Agenda.py:233-235 | the inner loop of `intersect` builds one row |
| Agendas.MergeSweep | meetings/Model/Agenda.py:253-269 | the `cur` loop of `normalize` builds the merge of the sorted list |
| Agendas.FreeTimeSweep | meetings/Model/Agenda.py:302-321 | the cursor loop of `complement`, with `continue` and `break`, builds the gaps |
| CalendarEvents.NewEvent | meetings/Model/CalendarEvent.py:12-34 | a new event has the given times and date, status BUSY, and no summary, description or id |
| CalendarEvents.AssembleTime | meetings/Model/CalendarEvent.py:68-73 | the ISO string is the date, a `T`, then the time |
| CalendarEvents.AssembleSplit | meetings/Model/CalendarEvent.py:68-73 | splitting an assembled string on `T` gives back the date and the time |
| CalendarEvents.OverlapSymmetric | meetings/Model/CalendarEvent.py:83-95 | `overlap` is symmetric, and `a > b` is `b < a` |
| CalendarEvents.CompareIgnoresDate | meetings/Model/CalendarEvent.py:75-95 | `<` and `overlap` do not depend on the dates |
| CalendarEvents.LtAsymmetric | meetings/Model/CalendarEvent.py:75-81 | for events whose start is before their end, `a < b` and `b < a` never both hold |
| CalendarEvents.TimeUnion | meetings/Model/CalendarEvent.py:114-124 | `time_union` runs from the earlier start to the later end, on the left event's date, BUSY and without summary, description or id |
| CalendarEvents.TimeList | meetings/Model/CalendarEvent.py:126-137 | `time_list` is the two events in order |
| CalendarEvents.Translator | meetings/Model/CalendarEvent.py:97-112 | `translator` fills exactly the six keys, with the assembled ISO start and end |
| CalendarEvents.Event1AfterEvent2AsWritten | meetings/Model/CalendarEvent.py:75-89 | as written, `event1 > event2` holds for the test fixtures |
| CalendarEvents.ChronologicalSameDate | meetings/Model/CalendarEvent.py:44-54 | on one date, comparing ISO strings is the comparison as written |
| CalendarEvents.ChronologicalOtherDate | meetings/Model/CalendarEvent.py:44-54 | between different dates of the same length, the dates decide |
| CalendarEvents.FixtureDates | meetings/test/test_event.py:8-9 | the first fixture's date comes before the second's |
| CalendarEvents.TestEvent1NotAfterEvent2 | meetings/test/test_event.py:16 | `(event1 > event2) == False` holds for the date-aware comparison |
| CalendarEvents.TestEvent2NotBeforeEvent3 | meetings/test/test_event.py:17 | `(event2 < event3) == False`, both for the date-aware comparison and for `<` as written |
| CalendarEvents.TestEvent3BeforeEvent4 | meetings/test/test_event.py:18 | `(event3 < event4) == True`, both for the date-aware comparison and for `<` as written |
| CalendarEvents.TestOverlap23 | meetings/test/test_event.py:22 | `event2.overlap(event3)`, both for the date-aware comparison and for `overlap` as written |
| CalendarEvents.TestOverlap45 | meetings/test/test_event.py:23 | `event4.overlap(event5)`, both for the date-aware comparison and for `overlap` as written |
| CalendarEvents.TestNoOverlap31 | meetings/test/test_event.py:24 | `event3.overlap(event1) == False`, both for the date-aware comparison and for `overlap` as written |
| CalendarEvents.TestUnion23 | meetings/test/test_event.py:28-31 | the union of event2 and event3 has the expected start, end and date |
| CalendarEvents.TestUnion45 | meetings/test/test_event.py:32-35 | the union of event4 and event5 has the expected start, end and date |
| Meetings.SpliceRealTime | meetings/flask_main.py:364-380 | fails exactly when the time has no `T`; a spliced instant has exactly one `T` |
| Meetings.SpliceRealTimeOf | meetings/flask_main.py:378-380 | the result is the date part before the first `T`, a `T`, and the time's piece between its first and second `T` |
| Meetings.Halves | meetings/flask_main.py:550-553 | two-way unpacking of `split("T")` succeeds exactly when there is one `T`, and the halves rebuild the string |
| Meetings.HalvesOf | meetings/flask_main.py:550-553 | a string built as date `T` time unpacks to that date and time |
| Meetings.EventFilter | meetings/flask_main.py:550-553 | the filter raises exactly when one of the four instants does not have exactly one `T` |
| Meetings.EventFilterOf | meetings/flask_main.py:554-555 | an event is accepted exactly when its dates lie in order inside the window's dates and its times inside the window's times |
| Meetings.EventFilterWindowOrdered | meetings/flask_main.py:554-555 | an event can only be accepted by a window whose dates and times are in order |
| Meetings.EventFilterWiden | meetings/flask_main.py:554-555 | widening the window keeps every accepted event |
| Meetings.KeyLeTotalPreorder | meetings/flask_main.py:580 | tuple order on the sort keys is a total preorder |
| Meetings.FlagKeyOrder | meetings/flask_main.py:580 | `" "` sorts strictly before `"X"` |
| Meetings.CalendarOrder | meetings/flask_main.py:576-590 | in a list sorted by `cal_sort_key`, primary calendars come first, then selected ones, then by summary |
| Meetings.ListCalendars | meetings/flask_main.py:450-483 | the shaped calendars, each once, with primary calendars before the others and selected before unselected among equals |
| Meetings.KeptStep | meetings/flask_main.py:499-535 | one more fetched item extends the kept events by what that item contributes |
| Meetings.KeptEventsFails | meetings/flask_main.py:525-526 | the listing raises exactly when the filter raises on some complete, uncancelled item |
| Meetings.KeptEventsMembers | meetings/flask_main.py:499-535 | a record is in the listing exactly when a fetched item is complete, uncancelled, accepted and yields it |
| Meetings.StrLessEqTotalPreorder | meetings/flask_main.py:536 | string `<=` is a total preorder |
| Meetings.ListEvents | meetings/flask_main.py:486-538 | the kept events sorted stably by start, a permutation of them; it raises exactly when the filter raises; a record is listed exactly when some item yields it |
| Meetings.SetRange | meetings/flask_main.py:206-219 | on success the dates and the times are in order and both real instants have exactly one `T` |
| Meetings.CheckTimes | meetings/flask_main.py:218-223 | the time check and the splices keep the four values and put the times in order |
| Meetings.CheckTimesOf | meetings/flask_main.py:218-223 | with ISO values the time check is the only way to fail, and the real instants join the date parts with the time parts |
| Meetings.SetRangeOf | meetings/flask_main.py:206-223 | out-of-order dates are refused first, then out-of-order times; otherwise the picked range holds the four values and the spliced instants |
| Meetings.SetRangeFeedsFilter | meetings/flask_main.py:220-223 | the stored real instants never make `event_filter` raise on well-formed events |

## Left out

- The Flask routes, templates, `flask.session`, `flask.flash` and logging are web glue. Session values are parameters instead.
- The OAuth flow and the Google Calendar fetches (`valid_credentials`, `get_gcal_service`, `oauth2callback`, the `execute()` calls) are network calls. Only the processing of the fetched items is modelled.
- `interpret_time`, `interpret_date`, `next_day`, `diff_days`, `init_session_values` and the template format filters are thin calls into `arrow`. The interpreters are parameters of `Meetings.SetRange`.
- The `free()` route calls translators that do not exist. `translator_dictToObject` (meetings/flask_main.py:558-573) belongs to that route and is left out with it.
- `CalendarEvent.free_time` is unfinished and has a syntax error. For the same reason meetings/Model/CalendarEvent.py does not import, and its `Agenda` copy lacks the `Appt` class.
- meetings/test/test_gcalAPI.py needs a live account.
- The `print` diagnostics of `from_file` are output only. Only the skip is modelled.
- `CalendarEvent.__repr__`, `get_date`, `get_id`, `Agenda.__iter__` and `Agenda.__str__` return a field or its text; they modify nothing and constrain nothing. `AgendaSpec.PrintLines` gives the lines `__str__` joins.
- `Agendas.Agenda.Length` has no contract beyond its body: `len` of the list.
- `list_events` calls `event_filter` twice, once for a log line. The filter is pure, so the model calls it once.
- Required dictionary keys (`kind`, `id` and `summary` of calendars; `id` and `status` of events) are taken to be present. Their absence raises `KeyError` and is not modelled.
- `Meetings.ShapeCalendar`: `selected`/`primary` are booleans. A truthy non-boolean value would be kept as is by Python's `and`.
- `Appointments.FormatDate`: years below 1000 are printed padded to four digits. `strftime("%Y")` may print them unpadded, depending on the C library.
- `Text.ParseInt`: only ASCII digits are accepted. Python's `int()` also reads other Unicode decimal digits and limits the length of digit strings; neither is modelled. Past 4300 digits `int()` raises, and the bare `except` of `from_string` (meetings/Model/Agenda.py:67-72) turns that into its date-format `ValueError`, which `from_file` skips. So the overflow lemmas (`Appointments.OverflowLine`, `AgendaSpec.OverflowReadLine`, `AgendaSpec.OverflowAborts`) require a year of at most 4300 digits.
- `Appointments.ParseClock`: only ASCII digits are accepted. `strptime` also matches other Unicode decimal digits.
- `Appointments.Stamp`: instants have minute precision and no time zone. `from_string` never produces seconds.
- Fresh result lists in the Python code (`result`, `normalized`, `comp`, `events`) are modelled as sequences built up by appending. Only `Agenda.appts` is a shared list object.

## Findings

| source | as written | input that shows it | evidently intended | confidence | as-written member | corrected member |
|---|---|---|---|---|---|---|
| meetings/Model/Agenda.py:203-207 | `from_file` catches only `ValueError`, but `datetime.date` raises `OverflowError` for a field beyond a C `int` | a file line with the date `3000000000.01.01`, the times `10:00 11:00`, a bar and the description `x` | the line is reported and skipped, as other bad lines are | not executed | AgendaSpec.OverflowAborts | Agendas.Agenda.FromFileBestEffort |
| meetings/Model/CalendarEvent.py:75-81 | `<` compares the time strings only and ignores the date | the fixtures of meetings/test/test_event.py:8-9, where `event1 > event2` holds against line 16 | events compare by date and time, on the assembled ISO strings | not executed | CalendarEvents.Event1AfterEvent2AsWritten | CalendarEvents.TestEvent1NotAfterEvent2 |

The corrected reading of a file is `AgendaSpec.ReadLinesBestEffort`, from `Agendas.Agenda.FromFileBestEffort`. `AgendaSpec.ReadLinesAgree` proves that it agrees with the code wherever no line overflows, and `AgendaSpec.ReadPrinted` that it reads printed agendas back. The corrected comparisons are `CalendarEvents.LtChronological`, `GtChronological` and `OverlapChronological`, on `GetStartTime`/`GetEndTime`. `CalendarEvents.ChronologicalSameDate` proves that they agree with the code on one date, and the `Test…` lemmas that they meet every expectation of meetings/test/test_event.py.
