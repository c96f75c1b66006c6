/**
 * The `Agenda` class of meetings/Model/Agenda.py: an object holding a Python list of
 * appointments, which `append` extends, `normalize` sorts in place and replaces, and the
 * other operations read. The list is its own object (`ApptList`) because `normalized()`
 * shares it between two agendas. Each method is proved against the functions of
 * module AgendaSpec, where the properties of those functions are proved.
 */
module Agendas {
  import opened Results
  import opened Text
  import opened Sorting
  import opened Appointments
  import opened AgendaSpec

  /** A Python list of appointments. */
  class ApptList {
    var items: seq<Appt>

    /** `[ ]` */
    constructor ()
      ensures items == []
    {
      items := [];
    }

    /** A new list holding `s`. */
    constructor Of(s: seq<Appt>)
      ensures items == s
    {
      items := s;
    }

    /** `list.append(a)` */
    method Append(a: Appt)
      modifies this
      ensures items == old(items) + [a]
    {
      items := items + [a];
    }

    /** `list.sort(key=lambda ap: ap.begin)`: Python's stable sort, in place. */
    method SortByBeginTime()
      modifies this
      ensures items == SortBy(old(items), BeginKey, IntLe)
      ensures InOrder(items) && multiset(items) == multiset(old(items))
    {
      SortByBegin(items);
      items := SortBy(items, BeginKey, IntLe);
    }
  }

  class Agenda {
    var appts: ApptList

    /** An empty agenda, with a list of its own. */
    constructor ()
      ensures fresh(appts) && appts.items == []
    {
      appts := new ApptList();
    }

    /** An agenda holding the appointments `s`, in a list of its own. */
    constructor Of(s: seq<Appt>)
      ensures fresh(appts) && appts.items == s
    {
      appts := new ApptList.Of(s);
    }

    /**
     * `Agenda.from_file(f)` as written, on the lines of the file: blank and comment lines
     * and lines failing with a `ValueError` are skipped, every other line is appended in
     * file order, and any other failure of a line aborts the whole read.
     */
    static method FromFile(lines: seq<string>) returns (r: Result<Agenda, ApptError>)
      ensures r.Ok? ==> fresh(r.value) && fresh(r.value.appts) && ReadLines(lines) == Ok(r.value.appts.items)
      ensures r.Err? ==> ReadLines(lines) == Err(r.error)
    {
      ghost var rs := ReadAll(lines);
      var agenda := new Agenda();
      var i := 0;
      while i < |lines|
        invariant 0 <= i <= |lines|
        modifies agenda.appts
        invariant Collect(rs[..i]) == Ok(agenda.appts.items)
      {
        ReadStep(lines, i);
        var line := Strip(lines[i]);
        if line == [] || line[0] == '#' {
        } else {
          var parsed := FromString(line);
          match parsed {
            case Ok(a) =>
              agenda.appts.Append(a);
            case Err(e) =>
              if !IsValueError(e) {
                CollectKeepsErr(rs, i + 1);
                return Err(e);
              }
          }
        }
        i := i + 1;
      }
      assert rs[..i] == rs;
      r := Ok(agenda);
    }

    /** `from_file` as intended: best effort, every line that fails is skipped. */
    static method FromFileBestEffort(lines: seq<string>) returns (agenda: Agenda)
      ensures fresh(agenda) && fresh(agenda.appts)
      ensures agenda.appts.items == ReadLinesBestEffort(lines)
    {
      ghost var rs := ReadAll(lines);
      agenda := new Agenda();
      var i := 0;
      while i < |lines|
        invariant 0 <= i <= |lines|
        modifies agenda.appts
        invariant CollectBestEffort(rs[..i]) == agenda.appts.items
      {
        ReadStep(lines, i);
        var line := Strip(lines[i]);
        if line == [] || line[0] == '#' {
        } else {
          var parsed := FromString(line);
          if parsed.Ok? {
            agenda.appts.Append(parsed.value);
          }
        }
        i := i + 1;
      }
      assert rs[..i] == rs;
    }

    /** `agenda.append(appt)`: the shared list grows by `a`. */
    method Append(a: Appt)
      modifies appts
      ensures appts.items == old(appts.items) + [a]
    {
      appts.Append(a);
    }

    /** `len(agenda)`: the number of appointments. */
    function Length(): nat
      reads this, appts
    {
      |appts.items|
    }

    /**
     * `self.intersect(other, desc)`: a new agenda with the overlap of every overlapping
     * pair, this agenda's appointments outer, the other's inner.
     */
    method Intersect(other: Agenda, desc: string) returns (result: Agenda)
      ensures fresh(result) && fresh(result.appts)
      ensures result.appts.items == IntersectAll(appts.items, other.appts.items, desc)
    {
      var overlaps := PairOverlaps(appts.items, other.appts.items, desc);
      result := new Agenda.Of(overlaps);
    }

    /**
     * `self.normalize()`: on a non-empty agenda, sorts its list in place by begin and then
     * replaces the list by a new one holding the merged appointments; an empty agenda keeps
     * its list.
     */
    method Normalize()
      modifies this, appts
      ensures appts.items == NormalizeSeq(old(appts.items))
      ensures old(appts).items == SortBy(old(appts.items), BeginKey, IntLe)
      ensures old(appts.items) == [] ==> appts == old(appts)
      ensures old(appts.items) != [] ==> fresh(appts)
    {
      if |appts.items| == 0 {
        assert SortBy(appts.items, BeginKey, IntLe) == [];
        return;
      }
      appts.SortByBeginTime();
      var normalized := MergeSweep(appts.items);
      appts := new ApptList.Of(normalized);
    }

    /**
     * `self.normalized()`: a new agenda that shares this agenda's list and is normalized.
     * The copy ends up with the merged appointments, while this agenda's list is left
     * sorted by begin but not merged.
     */
    method Normalized() returns (copy: Agenda)
      modifies appts
      ensures fresh(copy)
      ensures copy.appts.items == NormalizeSeq(old(appts.items))
      ensures appts.items == SortBy(old(appts.items), BeginKey, IntLe)
      ensures old(appts.items) == [] ==> copy.appts == appts
      ensures old(appts.items) != [] ==> fresh(copy.appts)
    {
      copy := new Agenda();
      copy.appts := appts;
      copy.Normalize();
    }

    /**
     * `self.complement(freeblock)`: the free gaps inside `freeblock`, found by a cursor
     * sweep over the normalized copy. Like `normalized()`, it leaves this agenda's list
     * sorted by begin.
     */
    method Complement(freeblock: Appt) returns (comp: Agenda)
      modifies appts
      ensures fresh(comp) && fresh(comp.appts)
      ensures comp.appts.items == ComplementSeq(old(appts.items), freeblock)
      ensures appts.items == SortBy(old(appts.items), BeginKey, IntLe)
    {
      var copy := Normalized();
      var gaps := FreeTimeSweep(copy.appts.items, freeblock);
      comp := new Agenda.Of(gaps);
    }

    /** `self == other`: the same number of appointments with pairwise equal begin and end. */
    method Equals(other: Agenda) returns (eq: bool)
      ensures eq <==> SameTimes(appts.items, other.appts.items)
    {
      if |appts.items| != |other.appts.items| {
        return false;
      }
      var i := 0;
      while i < |appts.items|
        invariant 0 <= i <= |appts.items|
        invariant forall k :: 0 <= k < i ==>
          Begin(appts.items[k]) == Begin(other.appts.items[k]) && End(appts.items[k]) == End(other.appts.items[k])
      {
        var mine, theirs := appts.items[i], other.appts.items[i];
        if !(Begin(mine) == Begin(theirs) && End(mine) == End(theirs)) {
          return false;
        }
        i := i + 1;
      }
      return true;
    }
  }

  /**
   * The outer loop of `intersect`: for each appointment of `xs`, the overlaps with `ys`,
   * described by `desc` or, if that is empty, by the appointment of `xs`.
   */
  method PairOverlaps(xs: seq<Appt>, ys: seq<Appt>, desc: string) returns (result: seq<Appt>)
    ensures result == IntersectAll(xs, ys, desc)
  {
    var defaultDesc := desc == "";
    var d := desc;
    result := [];
    var i := 0;
    while i < |xs|
      invariant 0 <= i <= |xs|
      invariant result == IntersectAll(xs[..i], ys, desc)
      invariant !defaultDesc ==> d == desc
    {
      var thisAppt := xs[i];
      if defaultDesc {
        d := thisAppt.desc;
      }
      assert d == if desc == "" then thisAppt.desc else desc;
      assert IntersectAll(xs[..i + 1], ys, desc) == IntersectAll(xs[..i], ys, desc) + Row(thisAppt, ys, d) by {
        assert xs[..i + 1][..i] == xs[..i] && xs[..i + 1][i] == thisAppt;
      }
      var row := OverlapsWith(thisAppt, ys, d);
      result := result + row;
      i := i + 1;
    }
    assert xs[..i] == xs;
  }

  /** The inner loop of `intersect`: the overlap of `x` with each appointment of `ys` it overlaps. */
  method OverlapsWith(x: Appt, ys: seq<Appt>, desc: string) returns (row: seq<Appt>)
    ensures row == Row(x, ys, desc)
  {
    row := [];
    var j := 0;
    while j < |ys|
      invariant 0 <= j <= |ys|
      invariant row == Row(x, ys[..j], desc)
    {
      var y := ys[j];
      assert ys[..j + 1][..j] == ys[..j];
      if Overlaps(x, y) {
        row := row + [Appointments.Intersect(x, y, desc)];
      }
      j := j + 1;
    }
    assert ys[..j] == ys;
  }

  /**
   * The merge sweep of `normalize` over the sorted list: the running appointment `cur` is
   * emitted when the next one begins after it ends, and merged with it otherwise.
   */
  method MergeSweep(sorted: seq<Appt>) returns (normalized: seq<Appt>)
    requires sorted != [] && InOrder(sorted)
    ensures normalized == Merge(sorted[0], sorted[1..])
  {
    normalized := [];
    var cur := sorted[0];
    var rest := sorted[1..];
    while rest != []
      invariant InOrder(rest)
      invariant forall k :: 0 <= k < |rest| ==> Begin(cur) <= Begin(rest[k])
      invariant normalized + Merge(cur, rest) == Merge(sorted[0], sorted[1..])
      decreases |rest|
    {
      var appt := rest[0];
      MergeAdvance(normalized, cur, rest, Merge(sorted[0], sorted[1..]));
      if After(appt, cur) {
        normalized := normalized + [cur];
        cur := appt;
      } else {
        cur := Union(cur, appt, "");
      }
      rest := rest[1..];
    }
    normalized := normalized + [cur];
  }

  /**
   * The cursor sweep of `complement` over the normalized appointments `norm`: skip what
   * ends before `freeblock`, stop at what begins after it, and emit the gap before each
   * appointment in between.
   */
  method FreeTimeSweep(norm: seq<Appt>, freeblock: Appt) returns (comp: seq<Appt>)
    ensures comp == Gaps(norm, freeblock, freeblock.begin)
  {
    comp := [];
    var day, desc := freeblock.day, freeblock.desc;
    var curTime: Minute := freeblock.begin;
    var i := 0;
    while i < |norm|
      invariant 0 <= i <= |norm|
      invariant comp + Gaps(norm[i..], freeblock, curTime) == Gaps(norm, freeblock, freeblock.begin)
    {
      var appt := norm[i];
      assert norm[i..][0] == appt && norm[i..][1..] == norm[i + 1..];
      if Before(appt, freeblock) {
        i := i + 1;
        continue;
      }
      if After(appt, freeblock) {
        if curTime < freeblock.end {
          comp := comp + [Slot(day, curTime, freeblock.end, desc)];
          curTime := freeblock.end;
        }
        break;
      }
      OverlapsSameDay(appt, freeblock);
      ghost var next: Minute := if curTime > appt.end then curTime else appt.end;
      ghost var rest := Gaps(norm[i + 1..], freeblock, next);
      if curTime < appt.begin {
        assert (comp + [Slot(day, curTime, appt.begin, desc)]) + rest == comp + ([Slot(day, curTime, appt.begin, desc)] + rest);
        comp := comp + [Slot(day, curTime, appt.begin, desc)];
      } else {
        assert [] + rest == rest;
      }
      curTime := if appt.end > curTime then appt.end else curTime;
      i := i + 1;
    }
    if curTime < freeblock.end {
      comp := comp + [Slot(day, curTime, freeblock.end, desc)];
    }
  }
}
