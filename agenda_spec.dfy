/**
 * What the `Agenda` operations of meetings/Model/Agenda.py compute, as functions on
 * sequences of appointments, and the properties the docstrings promise about them:
 * `normalize` gives a sorted, non-overlapping sequence covering the same time;
 * `complement` gives exactly the free time inside a bounding appointment; `intersect`
 * gives exactly the time both agendas book; `==` compares begin and end times only.
 * The class in module Agendas is proved against these functions.
 */
module AgendaSpec {
  import opened Results
  import opened Text
  import opened Sorting
  import opened Appointments

  // ---------------------------------------------------------------- booked time and order

  /** Some appointment of `s` contains the instant `t`. */
  ghost predicate Covers(s: seq<Appt>, t: int) {
    exists i :: 0 <= i < |s| && Contains(s[i], t)
  }

  /** Sorted by begin instant. */
  predicate InOrder(s: seq<Appt>) {
    forall i, j :: 0 <= i < j < |s| ==> Begin(s[i]) <= Begin(s[j])
  }

  /** Every appointment is finished by the time any later one begins: sorted and without overlap. */
  predicate Separated(s: seq<Appt>) {
    forall i, j :: 0 <= i < j < |s| ==> End(s[i]) <= Begin(s[j])
  }

  /** The sort key of `normalize` (`lambda ap: ap.begin`) and the order it is compared by. */
  function BeginKey(a: Appt): int {
    Begin(a)
  }

  predicate IntLe(x: int, y: int) {
    x <= y
  }

  lemma CoversCons(x: Appt, s: seq<Appt>, t: int)
    ensures Covers([x] + s, t) <==> Contains(x, t) || Covers(s, t)
  {
    if Covers(s, t) {
      var i :| 0 <= i < |s| && Contains(s[i], t);
      assert ([x] + s)[i + 1] == s[i];
    }
    if Covers([x] + s, t) && !Contains(x, t) {
      var i :| 0 <= i < |[x] + s| && Contains(([x] + s)[i], t);
      assert s[i - 1] == ([x] + s)[i];
    }
    assert ([x] + s)[0] == x;
  }

  lemma CoversSingle(x: Appt, t: int)
    ensures Covers([x], t) <==> Contains(x, t)
  {
    assert [x][0] == x;
  }

  lemma CoversAppend(a: seq<Appt>, b: seq<Appt>, t: int)
    ensures Covers(a + b, t) <==> Covers(a, t) || Covers(b, t)
  {
    if Covers(a, t) {
      var i :| 0 <= i < |a| && Contains(a[i], t);
      assert (a + b)[i] == a[i];
    }
    if Covers(b, t) {
      var i :| 0 <= i < |b| && Contains(b[i], t);
      assert (a + b)[|a| + i] == b[i];
    }
    if Covers(a + b, t) {
      var i :| 0 <= i < |a + b| && Contains((a + b)[i], t);
      if i < |a| {
        assert a[i] == (a + b)[i];
      } else {
        assert b[i - |a|] == (a + b)[i];
      }
    }
  }

  /** Booked time depends only on which appointments there are, not on their order. */
  lemma CoversPermutation(a: seq<Appt>, b: seq<Appt>, t: int)
    requires multiset(a) == multiset(b)
    ensures Covers(a, t) <==> Covers(b, t)
  {
    if Covers(a, t) {
      var i :| 0 <= i < |a| && Contains(a[i], t);
      assert a[i] in multiset(b);
      var j :| 0 <= j < |b| && b[j] == a[i];
    }
    if Covers(b, t) {
      var j :| 0 <= j < |b| && Contains(b[j], t);
      assert b[j] in multiset(a);
      var i :| 0 <= i < |a| && a[i] == b[j];
    }
  }

  lemma SeparatedInOrder(s: seq<Appt>)
    requires Separated(s)
    ensures InOrder(s)
  {
    forall i, j | 0 <= i < j < |s|
      ensures Begin(s[i]) <= Begin(s[j])
    {
      assert Begin(s[i]) < End(s[i]) <= Begin(s[j]);
    }
  }

  /** `IntLe` is a total preorder and `InOrder` is `SortedBy` for the begin key. */
  lemma SortByBegin(s: seq<Appt>)
    ensures TotalPreorder(IntLe)
    ensures InOrder(s) <==> SortedBy(s, BeginKey, IntLe)
    ensures InOrder(SortBy(s, BeginKey, IntLe))
  {
    assert TotalPreorder(IntLe);
    SortedBySorted(s, BeginKey, IntLe);
  }

  // ---------------------------------------------------------------- normalize

  /**
   * The merge sweep of `normalize` with running appointment `cur` over the sorted `rest`:
   * an appointment that begins once `cur` is over (`appt > cur`) closes `cur`, any other
   * is merged into it with `union`. Touching appointments are therefore kept apart.
   */
  function Merge(cur: Appt, rest: seq<Appt>): (r: seq<Appt>)
    requires InOrder(rest)
    requires forall i :: 0 <= i < |rest| ==> Begin(cur) <= Begin(rest[i])
    ensures r != [] && |r| <= |rest| + 1
    ensures Begin(r[0]) == Begin(cur) && r[0].day == cur.day
    decreases |rest|
  {
    if rest == [] then [cur]
    else
      SweepTail(cur, rest);
      if After(rest[0], cur) then [cur] + Merge(rest[0], rest[1..])
      else Merge(Union(cur, rest[0], ""), rest[1..])
  }

  /** What the sweep may rely on about the rest of the list once its first appointment is taken. */
  lemma SweepTail(cur: Appt, rest: seq<Appt>)
    requires InOrder(rest) && rest != []
    requires forall i :: 0 <= i < |rest| ==> Begin(cur) <= Begin(rest[i])
    ensures InOrder(rest[1..])
    ensures forall i :: 0 <= i < |rest[1..]| ==> Begin(rest[0]) <= Begin(rest[1..][i])
    ensures forall i :: 0 <= i < |rest[1..]| ==> Begin(cur) <= Begin(rest[1..][i])
    ensures !After(rest[0], cur) ==> Overlaps(cur, rest[0])
  {
    assert forall i :: 0 <= i < |rest[1..]| ==> rest[1..][i] == rest[i + 1];
    assert Begin(rest[0]) < End(rest[0]);
  }

  /** One step of the sweep: the first appointment of `rest` either closes `cur` or is merged into it. */
  lemma MergeStep(cur: Appt, rest: seq<Appt>)
    requires InOrder(rest) && rest != []
    requires forall i :: 0 <= i < |rest| ==> Begin(cur) <= Begin(rest[i])
    ensures InOrder(rest[1..])
    ensures After(rest[0], cur) ==>
      && (forall i :: 0 <= i < |rest[1..]| ==> Begin(rest[0]) <= Begin(rest[1..][i]))
      && Merge(cur, rest) == [cur] + Merge(rest[0], rest[1..])
    ensures !After(rest[0], cur) ==>
      && Overlaps(cur, rest[0])
      && (forall i :: 0 <= i < |rest[1..]| ==> Begin(Union(cur, rest[0], "")) <= Begin(rest[1..][i]))
      && Merge(cur, rest) == Merge(Union(cur, rest[0], ""), rest[1..])
  {
    SweepTail(cur, rest);
  }

  /** One step of the sweep keeps `done + Merge(cur, rest)` equal to the whole merge. */
  lemma MergeAdvance(done: seq<Appt>, cur: Appt, rest: seq<Appt>, whole: seq<Appt>)
    requires InOrder(rest) && rest != []
    requires forall i :: 0 <= i < |rest| ==> Begin(cur) <= Begin(rest[i])
    requires done + Merge(cur, rest) == whole
    ensures InOrder(rest[1..])
    ensures After(rest[0], cur) ==>
      && (forall i :: 0 <= i < |rest[1..]| ==> Begin(rest[0]) <= Begin(rest[1..][i]))
      && (done + [cur]) + Merge(rest[0], rest[1..]) == whole
    ensures !After(rest[0], cur) ==>
      && Overlaps(cur, rest[0])
      && (forall i :: 0 <= i < |rest[1..]| ==> Begin(Union(cur, rest[0], "")) <= Begin(rest[1..][i]))
      && done + Merge(Union(cur, rest[0], ""), rest[1..]) == whole
  {
    MergeStep(cur, rest);
    if After(rest[0], cur) {
      var m := Merge(rest[0], rest[1..]);
      assert (done + [cur]) + m == done + ([cur] + m);
    }
  }

  /** `normalize` on a list of appointments: sort by begin (stably), then sweep. */
  function NormalizeSeq(s: seq<Appt>): (r: seq<Appt>)
    ensures |r| <= |s|
    ensures r == [] <==> s == []
  {
    if s == [] then []
    else
      var t := SortBy(s, BeginKey, IntLe);
      SortByBegin(s);
      Merge(t[0], t[1..])
  }

  lemma {:induction false} MergeSeparated(cur: Appt, rest: seq<Appt>)
    requires InOrder(rest)
    requires forall i :: 0 <= i < |rest| ==> Begin(cur) <= Begin(rest[i])
    ensures Separated(Merge(cur, rest))
    decreases |rest|
  {
    if rest != [] {
      if After(rest[0], cur) {
        var m := Merge(rest[0], rest[1..]);
        MergeSeparated(rest[0], rest[1..]);
        var r := [cur] + m;
        forall i, j | 0 <= i < j < |r|
          ensures End(r[i]) <= Begin(r[j])
        {
          assert r[j] == m[j - 1];
          if i > 0 {
            assert r[i] == m[i - 1];
          }
        }
      } else {
        MergeSeparated(Union(cur, rest[0], ""), rest[1..]);
      }
    }
  }

  lemma {:induction false} MergeCovers(cur: Appt, rest: seq<Appt>, t: int)
    requires InOrder(rest)
    requires forall i :: 0 <= i < |rest| ==> Begin(cur) <= Begin(rest[i])
    ensures Covers(Merge(cur, rest), t) <==> Contains(cur, t) || Covers(rest, t)
    decreases |rest|
  {
    if rest == [] {
      CoversSingle(cur, t);
    } else {
      assert rest == [rest[0]] + rest[1..];
      CoversCons(rest[0], rest[1..], t);
      SweepTail(cur, rest);
      if After(rest[0], cur) {
        MergeCovers(rest[0], rest[1..], t);
        CoversCons(cur, Merge(rest[0], rest[1..]), t);
      } else {
        MergeCovers(Union(cur, rest[0], ""), rest[1..], t);
      }
    }
  }

  /** The sweep leaves a sequence that is already separated as it is. */
  lemma {:induction false} MergeOfSeparated(cur: Appt, rest: seq<Appt>)
    requires Separated([cur] + rest)
    ensures InOrder(rest) && forall i :: 0 <= i < |rest| ==> Begin(cur) <= Begin(rest[i])
    ensures Merge(cur, rest) == [cur] + rest
    decreases |rest|
  {
    if rest != [] {
      assert rest == [rest[0]] + rest[1..];
    }
    var s := [cur] + rest;
    assert forall i :: 0 <= i < |rest| ==> rest[i] == s[i + 1];
    assert Separated(rest);
    SeparatedInOrder(rest);
    forall i | 0 <= i < |rest|
      ensures Begin(cur) <= Begin(rest[i])
    {
      assert End(s[0]) <= Begin(s[i + 1]);
    }
    if rest != [] {
      assert After(rest[0], cur) by {
        assert End(s[0]) <= Begin(s[1]);
      }
      MergeOfSeparated(rest[0], rest[1..]);
    }
  }

  /** "After normalize, the agenda is in order by date and time, with no overlapping appointments." */
  lemma NormalizeSeparated(s: seq<Appt>)
    ensures Separated(NormalizeSeq(s)) && InOrder(NormalizeSeq(s))
  {
    if s != [] {
      var t := SortBy(s, BeginKey, IntLe);
      SortByBegin(s);
      MergeSeparated(t[0], t[1..]);
    }
    SeparatedInOrder(NormalizeSeq(s));
  }

  /** Normalizing does not change which instants are booked. */
  lemma NormalizeCovers(s: seq<Appt>, t: int)
    ensures Covers(NormalizeSeq(s), t) <==> Covers(s, t)
  {
    if s != [] {
      var u := SortBy(s, BeginKey, IntLe);
      SortByBegin(s);
      MergeCovers(u[0], u[1..], t);
      assert u == [u[0]] + u[1..];
      CoversCons(u[0], u[1..], t);
      CoversPermutation(u, s, t);
    }
  }

  /** A separated sequence is its own normal form. */
  lemma NormalizeOfSeparated(s: seq<Appt>)
    requires Separated(s)
    ensures NormalizeSeq(s) == s
  {
    if s != [] {
      SeparatedInOrder(s);
      SortByBegin(s);
      SortByOfSorted(s, BeginKey, IntLe);
      assert s == [s[0]] + s[1..];
      MergeOfSeparated(s[0], s[1..]);
    }
  }

  /** `normalize` is idempotent. */
  lemma NormalizeIdempotent(s: seq<Appt>)
    ensures NormalizeSeq(NormalizeSeq(s)) == NormalizeSeq(s)
  {
    NormalizeSeparated(s);
    NormalizeOfSeparated(NormalizeSeq(s));
  }

  /** Two appointments that only touch end-to-start stay two appointments. */
  lemma NormalizeTouching(a: Appt, b: Appt)
    requires End(a) == Begin(b)
    ensures NormalizeSeq([a, b]) == [a, b]
  {
    NormalizeOfSeparated([a, b]);
  }

  /** An already sorted list is only swept. */
  lemma NormalizeInOrder(s: seq<Appt>)
    requires s != [] && InOrder(s)
    ensures NormalizeSeq(s) == Merge(s[0], s[1..])
  {
    SortByBegin(s);
    SortByOfSorted(s, BeginKey, IntLe);
  }

  lemma {:induction false} MergeChain(cur: Appt, rest: seq<Appt>)
    requires InOrder(rest)
    requires forall i :: 0 <= i < |rest| ==> Begin(cur) <= Begin(rest[i])
    requires rest != [] ==> Begin(rest[0]) < End(cur)
    requires forall i :: 0 <= i < |rest| - 1 ==> Begin(rest[i + 1]) < End(rest[i])
    ensures |Merge(cur, rest)| == 1
    decreases |rest|
  {
    if rest != [] {
      var u := Union(cur, rest[0], "");
      if |rest| > 1 {
        assert Begin(rest[1]) < End(rest[0]) <= End(u);
      }
      MergeChain(u, rest[1..]);
    }
  }

  /**
   * Chains fold into one: a sorted sequence in which every appointment begins before the
   * previous one ends, however long, normalizes to a single appointment spanning all of it.
   */
  lemma NormalizeChain(s: seq<Appt>)
    requires s != [] && InOrder(s)
    requires forall i :: 0 <= i < |s| - 1 ==> Begin(s[i + 1]) < End(s[i])
    ensures |NormalizeSeq(s)| == 1
    ensures Begin(NormalizeSeq(s)[0]) == Begin(s[0])
    ensures forall t :: Contains(NormalizeSeq(s)[0], t) <==> Covers(s, t)
  {
    NormalizeInOrder(s);
    MergeChain(s[0], s[1..]);
    var n := NormalizeSeq(s);
    assert n == [n[0]];
    forall t
      ensures Contains(n[0], t) <==> Covers(s, t)
    {
      NormalizeCovers(s, t);
      CoversSingle(n[0], t);
    }
  }

  // ---------------------------------------------------------------- complement

  /** The gap from the cursor to the end of the bounding block, if there is one. */
  function Tail(fb: Appt, cur: Minute): (r: seq<Appt>)
    ensures |r| <= 1
  {
    if cur < fb.end then [Slot(fb.day, cur, fb.end, fb.desc)] else []
  }

  /** The gap from the cursor to `b` on the free block's day, if the cursor is before `b`. */
  function Gap(fb: Appt, cur: Minute, b: Minute): (r: seq<Appt>)
    ensures |r| <= 1
  {
    if cur < b then [Slot(fb.day, cur, b, fb.desc)] else []
  }

  lemma GapCovers(fb: Appt, cur: Minute, b: Minute, t: int)
    ensures Covers(Gap(fb, cur, b), t) <==> Stamp(fb.day, cur) <= t < Stamp(fb.day, b)
  {
    if cur < b {
      CoversCons(Slot(fb.day, cur, b, fb.desc), [], t);
      assert [Slot(fb.day, cur, b, fb.desc)] + [] == Gap(fb, cur, b);
    }
    StampChronological(fb.day, cur, fb.day, b);
  }

  /**
   * The cursor sweep of `complement` over the normalized appointments `norm`, inside the free
   * block `fb`, with the cursor `cur` (a time on `fb`'s day): appointments before `fb` are
   * skipped, one after `fb` ends the sweep with the trailing gap, and any other one emits
   * the gap before it and moves the cursor to its end.
   */
  function Gaps(norm: seq<Appt>, fb: Appt, cur: Minute): seq<Appt>
    decreases |norm|
  {
    if norm == [] then Tail(fb, cur)
    else
      var a := norm[0];
      if Before(a, fb) then Gaps(norm[1..], fb, cur)
      else if After(a, fb) then Tail(fb, cur)
      else
        Gap(fb, cur, a.begin) + Gaps(norm[1..], fb, if cur > a.end then cur else a.end)
  }

  /** `agenda.complement(fb)` on the list of appointments `s`. */
  function ComplementSeq(s: seq<Appt>, fb: Appt): seq<Appt> {
    Gaps(NormalizeSeq(s), fb, fb.begin)
  }

  lemma TailCovers(fb: Appt, cur: Minute, t: int)
    ensures Covers(Tail(fb, cur), t) <==> Stamp(fb.day, cur) <= t < End(fb)
  {
    if cur < fb.end {
      CoversCons(Slot(fb.day, cur, fb.end, fb.desc), [], t);
      assert [Slot(fb.day, cur, fb.end, fb.desc)] + [] == Tail(fb, cur);
    }
    StampChronological(fb.day, cur, fb.day, fb.end);
  }

  /** What a separated list says of its tail: separated, and all of it after the head. */
  lemma SeparatedTail(norm: seq<Appt>)
    requires Separated(norm) && norm != []
    ensures norm == [norm[0]] + norm[1..]
    ensures Separated(norm[1..])
    ensures forall i :: 0 <= i < |norm[1..]| ==> End(norm[0]) <= Begin(norm[1..][i])
  {
    assert forall i :: 0 <= i < |norm[1..]| ==> norm[1..][i] == norm[i + 1];
  }

  /** An instant booked by appointments that all begin after `a` ends is not before that end. */
  lemma CoversAfter(a: Appt, rest: seq<Appt>, t: int)
    requires forall i :: 0 <= i < |rest| ==> End(a) <= Begin(rest[i])
    ensures Covers(rest, t) ==> End(a) <= t
  {
    if Covers(rest, t) {
      var i :| 0 <= i < |rest| && Contains(rest[i], t);
    }
  }

  lemma {:induction false} GapsCovers(norm: seq<Appt>, fb: Appt, cur: Minute, t: int)
    requires Separated(norm) && fb.begin <= cur
    ensures Covers(Gaps(norm, fb, cur), t) <==> Stamp(fb.day, cur) <= t < End(fb) && !Covers(norm, t)
    decreases |norm|
  {
    if norm == [] {
      TailCovers(fb, cur, t);
    } else {
      var a, rest := norm[0], norm[1..];
      SeparatedTail(norm);
      CoversCons(a, rest, t);
      CoversAfter(a, rest, t);
      StampChronological(fb.day, fb.begin, fb.day, cur);
      if Before(a, fb) {
        GapsCovers(rest, fb, cur, t);
      } else if After(a, fb) {
        TailCovers(fb, cur, t);
      } else {
        OverlapsSameDay(a, fb);
        var next: Minute := if cur > a.end then cur else a.end;
        GapsCovers(rest, fb, next, t);
        CoversAppend(Gap(fb, cur, a.begin), Gaps(rest, fb, next), t);
        GapCovers(fb, cur, a.begin, t);
        StampChronological(fb.day, cur, fb.day, a.begin);
        StampChronological(fb.day, cur, fb.day, a.end);
      }
    }
  }

  /**
   * "Exactly the times that are within the period of freeblock and not within appointments
   * in this agenda": the gaps cover an instant if and only if `fb` contains it and no
   * appointment does.
   */
  lemma ComplementCovers(s: seq<Appt>, fb: Appt, t: int)
    ensures Covers(ComplementSeq(s, fb), t) <==> Contains(fb, t) && !Covers(s, t)
  {
    NormalizeSeparated(s);
    GapsCovers(NormalizeSeq(s), fb, fb.begin, t);
    NormalizeCovers(s, t);
  }

  lemma {:induction false} GapsShape(norm: seq<Appt>, fb: Appt, cur: Minute)
    ensures forall i :: 0 <= i < |Gaps(norm, fb, cur)| ==>
      var g := Gaps(norm, fb, cur)[i];
      g.day == fb.day && g.desc == fb.desc && cur <= g.begin && g.end <= fb.end
    decreases |norm|
  {
    if norm != [] {
      var a := norm[0];
      if Before(a, fb) {
        GapsShape(norm[1..], fb, cur);
      } else if !After(a, fb) {
        OverlapsSameDay(a, fb);
        StampChronological(a.day, a.begin, fb.day, fb.end);
        GapsShape(norm[1..], fb, if cur > a.end then cur else a.end);
      }
    }
  }

  lemma {:induction false} GapsSeparated(norm: seq<Appt>, fb: Appt, cur: Minute)
    ensures Separated(Gaps(norm, fb, cur))
    decreases |norm|
  {
    if norm != [] {
      var a := norm[0];
      if Before(a, fb) {
        GapsSeparated(norm[1..], fb, cur);
      } else if !After(a, fb) {
        var next: Minute := if cur > a.end then cur else a.end;
        var rest := Gaps(norm[1..], fb, next);
        GapsSeparated(norm[1..], fb, next);
        GapsShape(norm[1..], fb, next);
        var g := Gap(fb, cur, a.begin);
        var r := g + rest;
        forall i, j | 0 <= i < j < |r|
          ensures End(r[i]) <= Begin(r[j])
        {
          if i < |g| {
            assert r[j] == rest[j - |g|];
            StampChronological(fb.day, a.begin, fb.day, rest[j - |g|].begin);
          } else {
            assert r[i] == rest[i - |g|] && r[j] == rest[j - |g|];
          }
        }
      }
    }
  }

  /**
   * The gaps are sorted and disjoint, lie inside `fb` on its day, and carry `fb`'s
   * description.
   */
  lemma ComplementShape(s: seq<Appt>, fb: Appt)
    ensures Separated(ComplementSeq(s, fb)) && InOrder(ComplementSeq(s, fb))
    ensures forall i :: 0 <= i < |ComplementSeq(s, fb)| ==>
      var g := ComplementSeq(s, fb)[i];
      g.day == fb.day && g.desc == fb.desc && fb.begin <= g.begin && g.end <= fb.end
  {
    GapsSeparated(NormalizeSeq(s), fb, fb.begin);
    SeparatedInOrder(ComplementSeq(s, fb));
    GapsShape(NormalizeSeq(s), fb, fb.begin);
  }

  /** No gap overlaps any appointment of the agenda. */
  lemma ComplementDisjoint(s: seq<Appt>, fb: Appt)
    ensures forall i, j :: 0 <= i < |ComplementSeq(s, fb)| && 0 <= j < |s| ==>
      !Overlaps(ComplementSeq(s, fb)[i], s[j])
  {
    var c := ComplementSeq(s, fb);
    forall i, j | 0 <= i < |c| && 0 <= j < |s|
      ensures !Overlaps(c[i], s[j])
    {
      OverlapsShared(c[i], s[j]);
      if Overlaps(c[i], s[j]) {
        var t :| Contains(c[i], t) && Contains(s[j], t);
        ComplementCovers(s, fb, t);
      }
    }
  }

  /** With nothing booked, the single gap is the whole free block. */
  lemma ComplementEmpty(fb: Appt)
    ensures ComplementSeq([], fb) == [fb]
  {
  }

  // ---------------------------------------------------------------- intersect

  /** The inner loop of `Agenda.intersect` for one appointment `x` of this agenda. */
  function Row(x: Appt, ys: seq<Appt>, desc: string): (r: seq<Appt>)
    ensures |r| <= |ys|
    decreases |ys|
  {
    if ys == [] then []
    else
      var y := ys[|ys| - 1];
      Row(x, ys[..|ys| - 1], desc) + (if Overlaps(x, y) then [Intersect(x, y, desc)] else [])
  }

  /**
   * `this.intersect(other, desc)`: for each appointment of this agenda in turn, the
   * overlap with each appointment of the other agenda it overlaps, in that order. The
   * description is the left appointment's unless `desc` is non-empty.
   */
  function IntersectAll(xs: seq<Appt>, ys: seq<Appt>, desc: string): seq<Appt>
    decreases |xs|
  {
    if xs == [] then []
    else
      var x := xs[|xs| - 1];
      IntersectAll(xs[..|xs| - 1], ys, desc) + Row(x, ys, if desc == "" then x.desc else desc)
  }

  lemma {:induction false} RowCovers(x: Appt, ys: seq<Appt>, desc: string, t: int)
    ensures Covers(Row(x, ys, desc), t) <==> Contains(x, t) && Covers(ys, t)
    decreases |ys|
  {
    if ys != [] {
      var y, init := ys[|ys| - 1], ys[..|ys| - 1];
      assert ys == init + [y];
      RowCovers(x, init, desc, t);
      var last := if Overlaps(x, y) then [Intersect(x, y, desc)] else [];
      CoversAppend(Row(x, init, desc), last, t);
      CoversAppend(init, [y], t);
      CoversCons(y, [], t);
      assert [y] + [] == [y];
      OverlapsShared(x, y);
      if Overlaps(x, y) {
        CoversCons(Intersect(x, y, desc), [], t);
        assert [Intersect(x, y, desc)] + [] == last;
      }
    }
  }

  /** The intersection books exactly the instants both agendas book. */
  lemma {:induction false} IntersectCovers(xs: seq<Appt>, ys: seq<Appt>, desc: string, t: int)
    ensures Covers(IntersectAll(xs, ys, desc), t) <==> Covers(xs, t) && Covers(ys, t)
    decreases |xs|
  {
    if xs != [] {
      var x, init := xs[|xs| - 1], xs[..|xs| - 1];
      assert xs == init + [x];
      IntersectCovers(init, ys, desc, t);
      RowCovers(x, ys, if desc == "" then x.desc else desc, t);
      CoversAppend(IntersectAll(init, ys, desc), Row(x, ys, if desc == "" then x.desc else desc), t);
      CoversAppend(init, [x], t);
      CoversCons(x, [], t);
      assert [x] + [] == [x];
    }
  }

  /** `r` is what `x.intersect(y, desc)` returns for an overlapping pair. */
  predicate OverlapOf(r: Appt, x: Appt, y: Appt, desc: string) {
    Overlaps(x, y) && r == Intersect(x, y, desc)
  }

  /** Every entry of a row is the overlap of `x` with an appointment it overlaps. */
  lemma {:induction false} RowFrom(x: Appt, ys: seq<Appt>, desc: string)
    ensures forall k :: 0 <= k < |Row(x, ys, desc)| ==>
      exists j :: 0 <= j < |ys| && OverlapOf(Row(x, ys, desc)[k], x, ys[j], desc)
    decreases |ys|
  {
    if ys != [] {
      var y, init := ys[|ys| - 1], ys[..|ys| - 1];
      RowFrom(x, init, desc);
      var p := Row(x, init, desc);
      var r := Row(x, ys, desc);
      forall k | 0 <= k < |r|
        ensures exists j :: 0 <= j < |ys| && OverlapOf(r[k], x, ys[j], desc)
      {
        if k < |p| {
          var j :| 0 <= j < |init| && OverlapOf(p[k], x, init[j], desc);
          assert r[k] == p[k] && ys[j] == init[j];
          assert OverlapOf(r[k], x, ys[j], desc);
        } else {
          assert OverlapOf(r[k], x, ys[|ys| - 1], desc);
        }
      }
    } else {
      assert Row(x, ys, desc) == [];
    }
  }

  /**
   * `r` is the overlap of a pair taken from `xs` and `ys`, described by `desc` if that is
   * non-empty and by the pair's left appointment otherwise.
   */
  ghost predicate FromPair(r: Appt, xs: seq<Appt>, ys: seq<Appt>, desc: string) {
    exists i, j :: 0 <= i < |xs| && 0 <= j < |ys| && OverlapOf(r, xs[i], ys[j], if desc == "" then xs[i].desc else desc)
  }

  /** Every entry of the intersection is the overlap of an overlapping pair. */
  lemma {:induction false} IntersectFrom(xs: seq<Appt>, ys: seq<Appt>, desc: string)
    ensures forall k :: 0 <= k < |IntersectAll(xs, ys, desc)| ==> FromPair(IntersectAll(xs, ys, desc)[k], xs, ys, desc)
    decreases |xs|
  {
    if xs != [] {
      var x, init := xs[|xs| - 1], xs[..|xs| - 1];
      var d := if desc == "" then x.desc else desc;
      IntersectFrom(init, ys, desc);
      RowFrom(x, ys, d);
      var r := IntersectAll(xs, ys, desc);
      var p := IntersectAll(init, ys, desc);
      var q := Row(x, ys, d);
      assert r == p + q;
      forall k | 0 <= k < |r|
        ensures FromPair(r[k], xs, ys, desc)
      {
        if k < |p| {
          assert FromPair(p[k], init, ys, desc);
          var i, j :| 0 <= i < |init| && 0 <= j < |ys|
            && OverlapOf(p[k], init[i], ys[j], if desc == "" then init[i].desc else desc);
          assert r[k] == p[k] && xs[i] == init[i];
          assert OverlapOf(r[k], xs[i], ys[j], if desc == "" then xs[i].desc else desc);
        } else {
          assert r[k] == q[k - |p|];
          var j :| 0 <= j < |ys| && OverlapOf(q[k - |p|], x, ys[j], d);
          assert xs[|xs| - 1] == x;
          assert OverlapOf(r[k], xs[|xs| - 1], ys[j], if desc == "" then xs[|xs| - 1].desc else desc);
        }
      }
    } else {
      assert IntersectAll(xs, ys, desc) == [];
    }
  }

  /** Every overlapping appointment of `ys` contributes its overlap with `x` to the row. */
  lemma {:induction false} RowHas(x: Appt, ys: seq<Appt>, desc: string, j: nat)
    requires j < |ys| && Overlaps(x, ys[j])
    ensures Intersect(x, ys[j], desc) in Row(x, ys, desc)
    decreases |ys|
  {
    var init := ys[..|ys| - 1];
    if j < |ys| - 1 {
      assert init[j] == ys[j];
      RowHas(x, init, desc, j);
    }
  }

  /** Every overlapping pair contributes its overlap to the intersection. */
  lemma {:induction false} IntersectHas(xs: seq<Appt>, ys: seq<Appt>, desc: string, i: nat, j: nat)
    requires i < |xs| && j < |ys| && Overlaps(xs[i], ys[j])
    ensures Intersect(xs[i], ys[j], if desc == "" then xs[i].desc else desc) in IntersectAll(xs, ys, desc)
    decreases |xs|
  {
    var init := xs[..|xs| - 1];
    if i < |xs| - 1 {
      assert init[i] == xs[i];
      IntersectHas(init, ys, desc, i, j);
    } else {
      RowHas(xs[i], ys, if desc == "" then xs[i].desc else desc, j);
    }
  }

  /** The positions in `ys` of the appointments `x` overlaps. */
  ghost function OverlapIndices(x: Appt, ys: seq<Appt>): set<int> {
    set j | 0 <= j < |ys| && Overlaps(x, ys[j])
  }

  /** The index pairs of the overlapping pairs of `xs` and `ys`. */
  ghost function OverlapPairs(xs: seq<Appt>, ys: seq<Appt>): set<(int, int)> {
    set i, j | 0 <= i < |xs| && 0 <= j < |ys| && Overlaps(xs[i], ys[j]) :: (i, j)
  }

  /** The positions `x` overlaps grow by the last position exactly when `x` overlaps it. */
  lemma OverlapIndicesSnoc(x: Appt, ys: seq<Appt>)
    requires ys != []
    ensures OverlapIndices(x, ys) == OverlapIndices(x, ys[..|ys| - 1]) + (if Overlaps(x, ys[|ys| - 1]) then {|ys| - 1} else {})
  {
    var init := ys[..|ys| - 1];
    assert forall j :: 0 <= j < |init| ==> init[j] == ys[j];
  }

  /** A row has one entry per appointment of `ys` that `x` overlaps. */
  lemma {:induction false} RowLength(x: Appt, ys: seq<Appt>, desc: string)
    ensures |Row(x, ys, desc)| == |OverlapIndices(x, ys)|
    decreases |ys|
  {
    if ys != [] {
      var init := ys[..|ys| - 1];
      RowLength(x, init, desc);
      OverlapIndicesSnoc(x, ys);
      assert |ys| - 1 !in OverlapIndices(x, init);
    }
  }

  /** Pairing the positions `x` overlaps with `n` keeps their number. */
  lemma {:induction false} PairWithCard(n: int, x: Appt, ys: seq<Appt>)
    ensures |set j | j in OverlapIndices(x, ys) :: (n, j)| == |OverlapIndices(x, ys)|
    decreases |ys|
  {
    if ys != [] {
      var m, init := |ys| - 1, ys[..|ys| - 1];
      PairWithCard(n, x, init);
      OverlapIndicesSnoc(x, ys);
      if Overlaps(x, ys[m]) {
        assert (set j | j in OverlapIndices(x, ys) :: (n, j)) == (set j | j in OverlapIndices(x, init) :: (n, j)) + {(n, m)};
        assert m !in OverlapIndices(x, init);
      } else {
        assert OverlapIndices(x, ys) == OverlapIndices(x, init);
      }
    }
  }

  /** The intersection has one entry per overlapping pair of appointments. */
  lemma {:induction false} IntersectLength(xs: seq<Appt>, ys: seq<Appt>, desc: string)
    ensures |IntersectAll(xs, ys, desc)| == |OverlapPairs(xs, ys)|
    decreases |xs|
  {
    if xs != [] {
      var n, init := |xs| - 1, xs[..|xs| - 1];
      IntersectLength(init, ys, desc);
      RowLength(xs[n], ys, if desc == "" then xs[n].desc else desc);
      PairWithCard(n, xs[n], ys);
      OverlapPairsSnoc(xs, ys);
    }
  }

  /** The overlapping pairs grow by those of the last appointment of `xs`. */
  lemma OverlapPairsSnoc(xs: seq<Appt>, ys: seq<Appt>)
    requires xs != []
    ensures var n := |xs| - 1; var last := set j | j in OverlapIndices(xs[n], ys) :: (n, j);
      OverlapPairs(xs, ys) == OverlapPairs(xs[..n], ys) + last && OverlapPairs(xs[..n], ys) * last == {}
  {
    var n, init := |xs| - 1, xs[..|xs| - 1];
    assert forall i :: 0 <= i < n ==> init[i] == xs[i];
  }

  lemma {:induction false} RowEmpty(x: Appt, ys: seq<Appt>, desc: string)
    ensures Row(x, ys, desc) == [] <==> forall j :: 0 <= j < |ys| ==> !Overlaps(x, ys[j])
    decreases |ys|
  {
    if ys != [] {
      var init := ys[..|ys| - 1];
      RowEmpty(x, init, desc);
      assert forall j :: 0 <= j < |init| ==> init[j] == ys[j];
    }
  }

  /** The intersection is empty exactly when every row is. */
  lemma {:induction false} IntersectRowsEmpty(xs: seq<Appt>, ys: seq<Appt>, desc: string)
    ensures IntersectAll(xs, ys, desc) == [] <==>
      forall i :: 0 <= i < |xs| ==> Row(xs[i], ys, if desc == "" then xs[i].desc else desc) == []
    decreases |xs|
  {
    if xs != [] {
      var x, init := xs[|xs| - 1], xs[..|xs| - 1];
      IntersectRowsEmpty(init, ys, desc);
      assert forall i :: 0 <= i < |init| ==> init[i] == xs[i];
    }
  }

  /** The intersection is empty exactly when no pair of appointments overlaps. */
  lemma IntersectEmpty(xs: seq<Appt>, ys: seq<Appt>, desc: string)
    ensures IntersectAll(xs, ys, desc) == [] <==>
      forall i, j :: 0 <= i < |xs| && 0 <= j < |ys| ==> !Overlaps(xs[i], ys[j])
  {
    IntersectRowsEmpty(xs, ys, desc);
    forall i | 0 <= i < |xs|
      ensures Row(xs[i], ys, if desc == "" then xs[i].desc else desc) == [] <==>
              forall j :: 0 <= j < |ys| ==> !Overlaps(xs[i], ys[j])
    {
      RowEmpty(xs[i], ys, if desc == "" then xs[i].desc else desc);
    }
  }

  // ---------------------------------------------------------------- equality

  /** `==` on agendas: the same number of appointments, pairwise equal begin and end. */
  predicate SameTimes(a: seq<Appt>, b: seq<Appt>) {
    |a| == |b| && forall i :: 0 <= i < |a| ==> Begin(a[i]) == Begin(b[i]) && End(a[i]) == End(b[i])
  }

  /** The (begin, end) pairs of a list of appointments, with the descriptions dropped. */
  function Times(s: seq<Appt>): (r: seq<(int, int)>)
    ensures |r| == |s|
    ensures forall i :: 0 <= i < |s| ==> r[i] == (Begin(s[i]), End(s[i]))
  {
    if s == [] then [] else [(Begin(s[0]), End(s[0]))] + Times(s[1..])
  }

  /** Agenda equality is equality of the begin/end sequences: descriptions do not count. */
  lemma SameTimesIsTimes(a: seq<Appt>, b: seq<Appt>)
    ensures SameTimes(a, b) <==> Times(a) == Times(b)
  {
    if Times(a) == Times(b) {
      forall i | 0 <= i < |a|
        ensures Begin(a[i]) == Begin(b[i]) && End(a[i]) == End(b[i])
      {
        assert Times(a)[i] == Times(b)[i];
      }
    }
  }

  /** Agendas that are equal in this sense book the same instants. */
  lemma SameTimesCovers(a: seq<Appt>, b: seq<Appt>, t: int)
    requires SameTimes(a, b)
    ensures Covers(a, t) <==> Covers(b, t)
  {
    if Covers(a, t) {
      var i :| 0 <= i < |a| && Contains(a[i], t);
      assert Contains(b[i], t);
    }
    if Covers(b, t) {
      var i :| 0 <= i < |b| && Contains(b[i], t);
      assert Contains(a[i], t);
    }
  }

  // ---------------------------------------------------------------- reading a file

  /** A blank line or a `#` comment, once stripped. */
  predicate Ignored(line: string) {
    var l := Strip(line);
    l == [] || l[0] == '#'
  }

  /** What becomes of one line of the file: skipped, read as an appointment, or failed with an error. */
  datatype LineResult = Blank | Parsed(appt: Appt) | Failed(error: ApptError)

  /** `line.strip()`, the blank/comment test, then `Appt.from_string`. */
  function ReadLine(line: string): (r: LineResult)
    ensures r.Blank? <==> Ignored(line)
  {
    if Ignored(line) then Blank
    else match FromString(Strip(line))
      case Ok(a) => Parsed(a)
      case Err(e) => Failed(e)
  }

  /** Every line of the file, read on its own. */
  function ReadAll(lines: seq<string>): (r: seq<LineResult>)
    ensures |r| == |lines| && forall i :: 0 <= i < |lines| ==> r[i] == ReadLine(lines[i])
  {
    seq(|lines|, i requires 0 <= i < |lines| => ReadLine(lines[i]))
  }

  /** A failure `from_file` does not catch: anything but a `ValueError`. */
  predicate Fatal(r: LineResult) {
    r.Failed? && !IsValueError(r.error)
  }

  /**
   * The loop of `from_file` as written: appointments are kept in file order, blank lines,
   * comments and `ValueError`s are skipped, and a fatal failure ends the whole read.
   */
  function Collect(rs: seq<LineResult>): Result<seq<Appt>, ApptError>
    decreases |rs|
  {
    if rs == [] then Ok([])
    else match Collect(rs[..|rs| - 1])
      case Err(e) => Err(e)
      case Ok(prev) =>
        match rs[|rs| - 1]
        case Blank => Ok(prev)
        case Parsed(a) => Ok(prev + [a])
        case Failed(e) => if IsValueError(e) then Ok(prev) else Err(e)
  }

  /** What one line contributes to the best-effort reading: its appointment, if it has one. */
  function Kept(r: LineResult): (k: seq<Appt>)
    ensures |k| <= 1 && (k != [] <==> r.Parsed?)
  {
    if r.Parsed? then [r.appt] else []
  }

  /** The best-effort loop `from_file` intends: every line that fails is skipped. */
  function CollectBestEffort(rs: seq<LineResult>): seq<Appt>
    decreases |rs|
  {
    if rs == [] then [] else CollectBestEffort(rs[..|rs| - 1]) + Kept(rs[|rs| - 1])
  }

  /** `Agenda.from_file` as written. */
  function ReadLines(lines: seq<string>): Result<seq<Appt>, ApptError> {
    Collect(ReadAll(lines))
  }

  /** `Agenda.from_file` as intended: best effort. */
  function ReadLinesBestEffort(lines: seq<string>): seq<Appt> {
    CollectBestEffort(ReadAll(lines))
  }

  /** Without a fatal failure, the loop as written is the best-effort loop. */
  lemma {:induction false} CollectAgree(rs: seq<LineResult>)
    requires forall i :: 0 <= i < |rs| ==> !Fatal(rs[i])
    ensures Collect(rs) == Ok(CollectBestEffort(rs))
    decreases |rs|
  {
    if rs != [] {
      var init := rs[..|rs| - 1];
      assert forall i :: 0 <= i < |init| ==> init[i] == rs[i];
      CollectAgree(init);
      assert !Fatal(rs[|rs| - 1]);
      assert CollectBestEffort(init) + [] == CollectBestEffort(init);
    }
  }

  /** A fatal failure on any line aborts the loop as written, whatever comes before or after it. */
  lemma {:induction false} CollectAborts(rs: seq<LineResult>, k: nat)
    requires k < |rs| && Fatal(rs[k])
    ensures Collect(rs).Err?
    decreases |rs|
  {
    var init := rs[..|rs| - 1];
    if k < |rs| - 1 {
      assert init[k] == rs[k];
      CollectAborts(init, k);
    } else {
      assert rs[|rs| - 1].Failed? && !IsValueError(rs[|rs| - 1].error);
    }
  }

  /** One more line of the file: what each loop makes of the first `i + 1` lines. */
  lemma ReadStep(lines: seq<string>, i: nat)
    requires i < |lines|
    ensures CollectBestEffort(ReadAll(lines)[..i + 1]) == CollectBestEffort(ReadAll(lines)[..i]) + Kept(ReadLine(lines[i]))
    ensures Collect(ReadAll(lines)[..i + 1]) ==
      match Collect(ReadAll(lines)[..i])
      case Err(e) => Err(e)
      case Ok(prev) =>
        match ReadLine(lines[i])
        case Blank => Ok(prev)
        case Parsed(a) => Ok(prev + [a])
        case Failed(e) => if IsValueError(e) then Ok(prev) else Err(e)
  {
    var rs := ReadAll(lines);
    assert rs[..i + 1][..i] == rs[..i];
  }

  /** Once the loop as written has failed, later lines change nothing: the first fatal error is the result. */
  lemma {:induction false} CollectKeepsErr(rs: seq<LineResult>, k: nat)
    requires k <= |rs| && Collect(rs[..k]).Err?
    ensures Collect(rs) == Collect(rs[..k])
    decreases |rs|
  {
    if k < |rs| {
      var init := rs[..|rs| - 1];
      assert init[..k] == rs[..k];
      CollectKeepsErr(init, k);
    } else {
      assert rs[..k] == rs;
    }
  }

  /** The best-effort loop reads line by line: two files read as their concatenation. */
  lemma {:induction false} CollectBestEffortAppend(a: seq<LineResult>, b: seq<LineResult>)
    ensures CollectBestEffort(a + b) == CollectBestEffort(a) + CollectBestEffort(b)
    decreases |b|
  {
    if b == [] {
      assert a + b == a;
    } else {
      var init := b[..|b| - 1];
      assert (a + b)[..|a + b| - 1] == a + init;
      assert (a + b)[|a + b| - 1] == b[|b| - 1];
      CollectBestEffortAppend(a, init);
    }
  }

  /** Where no line overflows, `from_file` as written is the best-effort reading. */
  lemma ReadLinesAgree(lines: seq<string>)
    requires forall i :: 0 <= i < |lines| ==> !Fatal(ReadLine(lines[i]))
    ensures ReadLines(lines) == Ok(ReadLinesBestEffort(lines))
  {
    CollectAgree(ReadAll(lines));
  }

  /** The best-effort reading of two files is the reading of each, one after the other. */
  lemma ReadLinesBestEffortAppend(a: seq<string>, b: seq<string>)
    ensures ReadLinesBestEffort(a + b) == ReadLinesBestEffort(a) + ReadLinesBestEffort(b)
  {
    assert forall i :: 0 <= i < |a + b| ==> (a + b)[i] == if i < |a| then a[i] else b[i - |a|];
    assert ReadAll(a + b) == ReadAll(a) + ReadAll(b);
    CollectBestEffortAppend(ReadAll(a), ReadAll(b));
  }

  /** On the line results: the best-effort loop skips a fatal one, keeping what comes before and after. */
  lemma SkipFatal(rs: seq<LineResult>, k: nat)
    requires k < |rs| && Fatal(rs[k])
    ensures CollectBestEffort(rs) == CollectBestEffort(rs[..k]) + CollectBestEffort(rs[k + 1..])
  {
    SplitAround(rs, k);
    CollectBestEffortAround(rs[..k], rs[k], rs[k + 1..]);
  }

  /** A sequence is what comes before position `k`, the element at `k`, and what follows. */
  lemma SplitAround<T>(s: seq<T>, k: nat)
    requires k < |s|
    ensures s == (s[..k] + [s[k]]) + s[k + 1..]
  {
  }

  /** The best-effort loop keeps, around one line result, what that result keeps. */
  lemma CollectBestEffortAround(before: seq<LineResult>, r: LineResult, after: seq<LineResult>)
    ensures CollectBestEffort((before + [r]) + after) == (CollectBestEffort(before) + Kept(r)) + CollectBestEffort(after)
  {
    CollectBestEffortAppend(before + [r], after);
    CollectBestEffortAppend(before, [r]);
    CollectBestEffortOne(r);
  }

  /** A single line result is read as what it keeps. */
  lemma CollectBestEffortOne(r: LineResult)
    ensures CollectBestEffort([r]) == Kept(r)
  {
    assert [r][..0] == [];
  }

  /** Reading the lines before and after line `k` gives the line results before and after it. */
  lemma ReadAllAround(lines: seq<string>, k: nat)
    requires k < |lines|
    ensures ReadAll(lines[..k]) == ReadAll(lines)[..k]
    ensures ReadAll(lines[k + 1..]) == ReadAll(lines)[k + 1..]
  {
  }

  /**
   * A line that fails with an error other than `ValueError` aborts `from_file` as written,
   * where the best-effort reading only skips that line.
   */
  lemma FatalLineAborts(lines: seq<string>, k: nat)
    requires k < |lines| && Fatal(ReadLine(lines[k]))
    ensures ReadLines(lines).Err?
    ensures ReadLinesBestEffort(lines) == ReadLinesBestEffort(lines[..k]) + ReadLinesBestEffort(lines[k + 1..])
  {
    CollectAborts(ReadAll(lines), k);
    SkipFatal(ReadAll(lines), k);
    ReadAllAround(lines, k);
  }

  lemma OverflowLineTrimmed(line: string, y: string, b: string, e: string, post: string)
    requires line == y + ['.'] + "01" + ['.'] + "01" + " " + b + " " + e + " " + "|" + post
    requires y != [] && AllDigits(y) && Trimmed(post)
    ensures Trimmed(line) && line != [] && IsDigit(line[0])
  {
    assert line[0] == y[0];
    assert line[|line| - 1] == if post == [] then '|' else post[|post| - 1];
  }

  /** A line of the overflow shape is read, not skipped, and fails with `DateOverflow`. */
  lemma OverflowReadLine(line: string, y: string, b: string, e: string, post: string)
    requires line == y + ['.'] + "01" + ['.'] + "01" + " " + b + " " + e + " " + "|" + post
    requires y != [] && |y| <= MaxIntDigits && AllDigits(y) && DigitsValue(y) >= 0x8000_0000
    requires b != [] && e != [] && NoSpace(b) && NoSpace(e)
    requires '|' !in b && '|' !in e && '|' !in post && Trimmed(post)
    ensures ReadLine(line) == Failed(DateOverflow)
  {
    OverflowLineTrimmed(line, y, b, e, post);
    StripSelf(line);
    OverflowLine(y, b, e, post);
  }

  /**
   * A file with a line whose year does not fit a C `int`, such as `3000000000.01.01 10:00 11:00 | x`:
   * the line fails with `DateOverflow`, so `from_file` as written ends with an error, where the
   * best-effort reading skips just that line.
   */
  lemma OverflowAborts(lines: seq<string>, k: nat, y: string, b: string, e: string, post: string)
    requires k < |lines|
    requires lines[k] == y + ['.'] + "01" + ['.'] + "01" + " " + b + " " + e + " " + "|" + post
    requires y != [] && |y| <= MaxIntDigits && AllDigits(y) && DigitsValue(y) >= 0x8000_0000
    requires b != [] && e != [] && NoSpace(b) && NoSpace(e)
    requires '|' !in b && '|' !in e && '|' !in post && Trimmed(post)
    ensures ReadLines(lines).Err?
    ensures ReadLinesBestEffort(lines) == ReadLinesBestEffort(lines[..k]) + ReadLinesBestEffort(lines[k + 1..])
  {
    OverflowReadLine(lines[k], y, b, e, post);
    FatalLineAborts(lines, k);
  }

  /** The printed form of each appointment, one per line. */
  function PrintLines(s: seq<Appt>): (r: seq<string>)
    ensures |r| == |s|
    ensures forall i :: 0 <= i < |s| ==> r[i] == ToString(s[i])
  {
    if s == [] then [] else PrintLines(s[..|s| - 1]) + [ToString(s[|s| - 1])]
  }

  lemma {:induction false} CollectParsed(rs: seq<LineResult>, s: seq<Appt>)
    requires |rs| == |s| && forall i :: 0 <= i < |s| ==> rs[i] == Parsed(s[i])
    ensures CollectBestEffort(rs) == s
    decreases |s|
  {
    if s != [] {
      CollectParsed(rs[..|rs| - 1], s[..|s| - 1]);
      assert s[..|s| - 1] + [s[|s| - 1]] == s;
    }
  }

  /** A printed appointment is read back as itself. */
  lemma ReadLinePrinted(a: Appt)
    requires '|' !in a.desc && Trimmed(a.desc)
    ensures ReadLine(ToString(a)) == Parsed(a)
  {
    ParseStripped(a);
  }

  /**
   * Reading back what was printed gives the same appointments (for descriptions without `|`
   * and without surrounding white space), both as written and best effort.
   */
  lemma ReadPrinted(s: seq<Appt>)
    requires forall i :: 0 <= i < |s| ==> '|' !in s[i].desc && Trimmed(s[i].desc)
    ensures ReadLines(PrintLines(s)) == Ok(s)
    ensures ReadLinesBestEffort(PrintLines(s)) == s
  {
    var lines := PrintLines(s);
    var rs := ReadAll(lines);
    forall i | 0 <= i < |s|
      ensures rs[i] == Parsed(s[i])
    {
      ReadLinePrinted(s[i]);
    }
    CollectParsed(rs, s);
    CollectAgree(rs);
  }
}
