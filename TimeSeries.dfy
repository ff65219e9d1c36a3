/**
 * The time-series primitives of the series loader, written out over sorted
 * records: keep the first record of each date, sort by date, reindex onto a
 * continuous daily calendar, forward-fill, and aggregate each calendar month
 * by its median.
 */
module TimeSeries {
  import opened Results
  import opened Calendar
  import opened Statistics

  // ---------------------------------------------------------------------------
  // Records and de-duplication

  /** One row of a loaded file: its parsed date (None: unparseable, NaT) and its value (None: NaN). */
  datatype Record = Record(date: Option<Date>, value: Option<real>)

  function DatesOf(rs: seq<Record>): set<Option<Date>> {
    set i | 0 <= i < |rs| :: rs[i].date
  }

  lemma DatesOfSnoc(rs: seq<Record>, x: Record)
    ensures DatesOf(rs + [x]) == DatesOf(rs) + {x.date}
  {
    var s := rs + [x];
    assert s[|rs|] == x;
    forall d | d in DatesOf(rs) ensures d in DatesOf(s) {
      var i :| 0 <= i < |rs| && rs[i].date == d;
      assert s[i] == rs[i];
    }
  }

  lemma DatesOfCons(x: Record, rs: seq<Record>)
    ensures DatesOf([x] + rs) == {x.date} + DatesOf(rs)
  {
    var s := [x] + rs;
    assert s[0] == x;
    forall d | d in DatesOf(rs) ensures d in DatesOf(s) {
      var i :| 0 <= i < |rs| && rs[i].date == d;
      assert s[i + 1] == rs[i];
    }
    forall d | d in DatesOf(s) ensures d in {x.date} + DatesOf(rs) {
      var i :| 0 <= i < |s| && s[i].date == d;
      if i > 0 { assert s[i] == rs[i - 1]; }
    }
  }

  predicate DistinctDates(rs: seq<Record>) {
    forall i, j :: 0 <= i < j < |rs| ==> rs[i].date != rs[j].date
  }

  /** Position of the first record carrying date `d`. */
  function FirstIndex(rs: seq<Record>, d: Option<Date>): (i: nat)
    requires d in DatesOf(rs)
    ensures i < |rs| && rs[i].date == d
    ensures forall j :: 0 <= j < i ==> rs[j].date != d
    decreases |rs|
  {
    var init := rs[..|rs| - 1];
    DatesOfSnoc(init, rs[|rs| - 1]);
    assert rs == init + [rs[|rs| - 1]];
    if d in DatesOf(init) then FirstIndex(init, d)
    else
      assert forall j :: 0 <= j < |init| ==> init[j].date in DatesOf(init);
      |rs| - 1
  }

  /**
   * drop_duplicates on the date: of each date, only the first record in file
   * order survives, and survivors keep their file order.
   */
  function KeepFirst(rs: seq<Record>): (r: seq<Record>)
    ensures DatesOf(r) == DatesOf(rs)
    ensures DistinctDates(r)
    ensures forall i :: 0 <= i < |r| ==> r[i] == rs[FirstIndex(rs, r[i].date)]
    ensures forall i, j :: 0 <= i < j < |r| ==> FirstIndex(rs, r[i].date) < FirstIndex(rs, r[j].date)
    decreases |rs|
  {
    if rs == [] then []
    else
      var init := rs[..|rs| - 1];
      var last := rs[|rs| - 1];
      assert rs == init + [last];
      var p := KeepFirst(init);
      DatesOfSnoc(init, last);
      FirstIndicesKept(init, last, p);
      if last.date in DatesOf(init) then p
      else
        KeepFirstNew(init, last, p);
        p + [last]
  }

  /** Appending a record moves no first occurrence of a date already seen. */
  lemma FirstIndicesKept(init: seq<Record>, last: Record, p: seq<Record>)
    requires DatesOf(p) == DatesOf(init)
    ensures forall i :: 0 <= i < |p| ==>
      p[i].date in DatesOf(init + [last]) && FirstIndex(init + [last], p[i].date) == FirstIndex(init, p[i].date)
  {
    forall i | 0 <= i < |p|
      ensures p[i].date in DatesOf(init + [last]) && FirstIndex(init + [last], p[i].date) == FirstIndex(init, p[i].date)
    {
      assert p[i].date in DatesOf(p);
      FirstIndexSnoc(init, last, p[i].date);
    }
  }

  /** A date already seen keeps its first position when a record is appended. */
  lemma FirstIndexSnoc(init: seq<Record>, last: Record, d: Option<Date>)
    requires d in DatesOf(init)
    ensures d in DatesOf(init + [last]) && FirstIndex(init + [last], d) == FirstIndex(init, d)
  {
    var rs := init + [last];
    DatesOfSnoc(init, last);
    var i' := FirstIndex(init, d);
    assert rs[i'] == init[i'];
  }

  /** A record with a new date is appended, after all the records kept before. */
  lemma KeepFirstNew(init: seq<Record>, last: Record, p: seq<Record>)
    requires last.date !in DatesOf(init)
    requires DatesOf(p) == DatesOf(init) && DistinctDates(p)
    ensures DatesOf(p + [last]) == DatesOf(init + [last]) && DistinctDates(p + [last])
    ensures last.date in DatesOf(init + [last]) && FirstIndex(init + [last], last.date) == |init|
  {
    var rs := init + [last];
    DatesOfSnoc(init, last);
    DatesOfSnoc(p, last);
    var r := p + [last];
    forall i, j | 0 <= i < j < |r| ensures r[i].date != r[j].date {
      assert r[i] == p[i];
      if j < |p| {
        assert r[j] == p[j];
      } else {
        assert p[i].date in DatesOf(p);
      }
    }
    assert rs[|init|] == last;
  }

  /** The imperative de-duplication pass, with the set of dates already seen. */
  method DropDuplicates(rs: seq<Record>) returns (out: seq<Record>)
    ensures out == KeepFirst(rs)
  {
    out := [];
    var seen: set<Option<Date>> := {};
    var i := 0;
    while i < |rs|
      invariant 0 <= i <= |rs|
      invariant out == KeepFirst(rs[..i])
      invariant seen == DatesOf(rs[..i])
    {
      assert rs[..i + 1] == rs[..i] + [rs[i]];
      DatesOfSnoc(rs[..i], rs[i]);
      if rs[i].date !in seen {
        out := out + [rs[i]];
        seen := seen + {rs[i].date};
      }
      i := i + 1;
    }
    assert rs[..|rs|] == rs;
  }

  /** Appending a record whose date was already seen changes nothing (a duplicate row is dropped). */
  lemma KeepFirstDuplicate(rs: seq<Record>, x: Record)
    requires x.date in DatesOf(rs)
    ensures KeepFirst(rs + [x]) == KeepFirst(rs)
  {
    assert (rs + [x])[..|rs|] == rs;
  }

  /** Without duplicate dates nothing is dropped. */
  lemma {:induction false} KeepFirstDistinct(rs: seq<Record>)
    requires DistinctDates(rs)
    ensures KeepFirst(rs) == rs
  {
    if rs != [] {
      var init := rs[..|rs| - 1];
      KeepFirstDistinct(init);
      assert rs[|rs| - 1].date !in DatesOf(init);
      assert rs == init + [rs[|rs| - 1]];
    }
  }

  // ---------------------------------------------------------------------------
  // Sorting by date

  /** The order sort_values puts dates in: chronological, the unparseable last. */
  predicate KeyLe(a: Option<Date>, b: Option<Date>) {
    b.None? || (a.Some? && NotAfter(a.value, b.value))
  }

  predicate KeyLess(a: Option<Date>, b: Option<Date>) {
    a.Some? && (b.None? || Before(a.value, b.value))
  }

  predicate SortedByDate(rs: seq<Record>) {
    forall i, j :: 0 <= i < j < |rs| ==> KeyLe(rs[i].date, rs[j].date)
  }

  predicate StrictlyByDate(rs: seq<Record>) {
    forall i, j :: 0 <= i < j < |rs| ==> KeyLess(rs[i].date, rs[j].date)
  }

  lemma KeyLeTotal(a: Option<Date>, b: Option<Date>)
    ensures KeyLe(a, b) || KeyLe(b, a)
  {
  }

  lemma KeyLeTrans(a: Option<Date>, b: Option<Date>, c: Option<Date>)
    requires KeyLe(a, b) && KeyLe(b, c)
    ensures KeyLe(a, c)
  {
  }

  lemma KeyLessLe(a: Option<Date>, b: Option<Date>, c: Option<Date>)
    requires KeyLess(a, b) && KeyLe(b, c)
    ensures KeyLess(a, c)
  {
  }

  /** `x` placed before the first record that does not sort before it. */
  function InsertByDate(x: Record, s: seq<Record>): (r: seq<Record>)
    ensures multiset(r) == multiset(s) + multiset{x}
    ensures DatesOf(r) == DatesOf(s) + {x.date}
    decreases |s|
  {
    if s == [] || KeyLe(x.date, s[0].date) then
      DatesOfCons(x, s);
      [x] + s
    else
      var t := InsertByDate(x, s[1..]);
      DatesOfCons(s[0], s[1..]);
      DatesOfCons(s[0], t);
      assert s == [s[0]] + s[1..];
      [s[0]] + t
  }

  /** Each record of the insertion is `x` (reported as -1) or a record of `s`. */
  lemma InsertByDateMember(x: Record, s: seq<Record>, j: int) returns (k: int)
    requires 0 <= j < |InsertByDate(x, s)|
    ensures -1 <= k < |s|
    ensures k == -1 ==> InsertByDate(x, s)[j] == x
    ensures k >= 0 ==> InsertByDate(x, s)[j] == s[k]
  {
    var r := InsertByDate(x, s);
    assert r[j] in multiset(r);
    if r[j] == x {
      k := -1;
    } else {
      assert r[j] in multiset(s);
      k :| 0 <= k < |s| && s[k] == r[j];
    }
  }

  lemma InsertByDateSorted(x: Record, s: seq<Record>)
    requires SortedByDate(s)
    ensures SortedByDate(InsertByDate(x, s))
    ensures StrictlyByDate(s) && x.date !in DatesOf(s) ==> StrictlyByDate(InsertByDate(x, s))
  {
    InsertByDateLe(x, s);
    if StrictlyByDate(s) && x.date !in DatesOf(s) {
      InsertByDateLess(x, s);
    }
  }

  lemma ConsLe(a: Record, t: seq<Record>)
    requires SortedByDate(t) && forall j :: 0 <= j < |t| ==> KeyLe(a.date, t[j].date)
    ensures SortedByDate([a] + t)
  {
    var r := [a] + t;
    forall i, j | 0 <= i < j < |r| ensures KeyLe(r[i].date, r[j].date) {
      assert r[j] == t[j - 1];
      if i > 0 { assert r[i] == t[i - 1]; }
    }
  }

  lemma ConsLess(a: Record, t: seq<Record>)
    requires StrictlyByDate(t) && forall j :: 0 <= j < |t| ==> KeyLess(a.date, t[j].date)
    ensures StrictlyByDate([a] + t)
  {
    var r := [a] + t;
    forall i, j | 0 <= i < j < |r| ensures KeyLess(r[i].date, r[j].date) {
      assert r[j] == t[j - 1];
      if i > 0 { assert r[i] == t[i - 1]; }
    }
  }

  lemma {:induction false} InsertByDateLe(x: Record, s: seq<Record>)
    requires SortedByDate(s)
    ensures SortedByDate(InsertByDate(x, s))
    decreases |s|
  {
    if s == [] || KeyLe(x.date, s[0].date) {
      forall j | 0 <= j < |s| ensures KeyLe(x.date, s[j].date) {
        if j > 0 { KeyLeTrans(x.date, s[0].date, s[j].date); }
      }
      ConsLe(x, s);
    } else {
      var t := InsertByDate(x, s[1..]);
      InsertByDateLe(x, s[1..]);
      KeyLeTotal(x.date, s[0].date);
      forall j | 0 <= j < |t| ensures KeyLe(s[0].date, t[j].date) {
        var k := InsertByDateMember(x, s[1..], j);
        if k >= 0 { assert s[1..][k] == s[k + 1]; }
      }
      ConsLe(s[0], t);
    }
  }

  lemma {:induction false} InsertByDateLess(x: Record, s: seq<Record>)
    requires StrictlyByDate(s) && x.date !in DatesOf(s)
    ensures StrictlyByDate(InsertByDate(x, s))
    decreases |s|
  {
    if s == [] || KeyLe(x.date, s[0].date) {
      if s != [] {
        assert s[0].date in DatesOf(s);
        assert KeyLess(x.date, s[0].date);
      }
      forall j | 0 <= j < |s| ensures KeyLess(x.date, s[j].date) {
        if j > 0 { KeyLessLe(x.date, s[0].date, s[j].date); }
      }
      ConsLess(x, s);
    } else {
      var t := InsertByDate(x, s[1..]);
      assert x.date !in DatesOf(s[1..]) by { DatesOfCons(s[0], s[1..]); assert s == [s[0]] + s[1..]; }
      assert StrictlyByDate(s[1..]) by {
        forall i, j | 0 <= i < j < |s[1..]| ensures KeyLess(s[1..][i].date, s[1..][j].date) {
          assert s[1..][i] == s[i + 1] && s[1..][j] == s[j + 1];
        }
      }
      InsertByDateLess(x, s[1..]);
      assert s[0].date in DatesOf(s);
      KeyLeTotal(x.date, s[0].date);
      forall j | 0 <= j < |t| ensures KeyLess(s[0].date, t[j].date) {
        var k := InsertByDateMember(x, s[1..], j);
        if k >= 0 { assert s[1..][k] == s[k + 1]; }
      }
      ConsLess(s[0], t);
    }
  }

  lemma DistinctTail(s: seq<Record>)
    requires s != []
    ensures DistinctDates(s) ==> DistinctDates(s[1..]) && s[0].date !in DatesOf(s[1..])
  {
    if DistinctDates(s) {
      forall d | d in DatesOf(s[1..]) ensures d != s[0].date {
        var k :| 0 <= k < |s[1..]| && s[1..][k].date == d;
        assert s[k + 1].date == d;
      }
    }
  }

  /** sort_values on the date (records of one date can only come from duplicates, absent after de-duplication). */
  function SortByDate(s: seq<Record>): (r: seq<Record>)
    ensures SortedByDate(r)
    ensures multiset(r) == multiset(s)
    ensures DatesOf(r) == DatesOf(s)
    ensures DistinctDates(s) ==> StrictlyByDate(r)
    decreases |s|
  {
    if s == [] then []
    else
      var t := SortByDate(s[1..]);
      InsertByDateSorted(s[0], t);
      DatesOfCons(s[0], s[1..]);
      DistinctTail(s);
      assert s == [s[0]] + s[1..];
      InsertByDate(s[0], t)
  }

  // ---------------------------------------------------------------------------
  // Observations and the daily calendar

  /** A dated observation: a day and its value (None: NaN). */
  datatype Point = Point(day: Date, value: Option<real>)

  predicate Increasing(ps: seq<Point>) {
    forall i, j :: 0 <= i < j < |ps| ==> Before(ps[i].day, ps[j].day)
  }

  /**
   * The records that carry a day, in order: a record whose date did not
   * parse (NaT) has no slot in a calendar, so reindexing never sees it.
   */
  function Observed(rs: seq<Record>): (ps: seq<Point>)
    ensures forall k :: 0 <= k < |ps| ==> Record(Some(ps[k].day), ps[k].value) in rs
    ensures forall i :: 0 <= i < |rs| && rs[i].date.Some? ==> Point(rs[i].date.value, rs[i].value) in ps
  {
    if rs == [] then []
    else
      var tail := Observed(rs[1..]);
      assert forall i :: 1 <= i < |rs| ==> rs[i] == rs[1..][i - 1];
      if rs[0].date.Some? then [Point(rs[0].date.value, rs[0].value)] + tail else tail
  }

  /** Records strictly ordered by date give observations on increasing days. */
  lemma {:induction false} ObservedIncreasing(rs: seq<Record>)
    requires StrictlyByDate(rs)
    ensures Increasing(Observed(rs))
  {
    if rs != [] {
      var rest := rs[1..];
      assert StrictlyByDate(rest) by {
        forall i, j | 0 <= i < j < |rest| ensures KeyLess(rest[i].date, rest[j].date) {
          assert rest[i] == rs[i + 1] && rest[j] == rs[j + 1];
        }
      }
      ObservedIncreasing(rest);
      if rs[0].date.Some? {
        forall i | 0 <= i < |rest| ensures KeyLess(rs[0].date, rest[i].date) {
          assert rest[i] == rs[i + 1];
        }
        ObservedAfter(rs[0].date.value, rest);
        IncreasingCons(Point(rs[0].date.value, rs[0].value), Observed(rest));
      }
    }
  }

  /** Records all dated after `d` are observed on days after `d`. */
  lemma ObservedAfter(d: Date, rs: seq<Record>)
    requires forall i :: 0 <= i < |rs| ==> KeyLess(Some(d), rs[i].date)
    ensures forall k :: 0 <= k < |Observed(rs)| ==> Before(d, Observed(rs)[k].day)
  {
    var ps := Observed(rs);
    forall k | 0 <= k < |ps| ensures Before(d, ps[k].day) {
      assert Record(Some(ps[k].day), ps[k].value) in rs;
      var i :| 0 <= i < |rs| && rs[i] == Record(Some(ps[k].day), ps[k].value);
      assert KeyLess(Some(d), rs[i].date);
    }
  }

  /** A point before every point of an increasing sequence extends it at the front. */
  lemma IncreasingCons(p: Point, ps: seq<Point>)
    requires Increasing(ps) && forall k :: 0 <= k < |ps| ==> Before(p.day, ps[k].day)
    ensures Increasing([p] + ps)
  {
    var qs := [p] + ps;
    forall i, j | 0 <= i < j < |qs| ensures Before(qs[i].day, qs[j].day) {
      assert qs[j] == ps[j - 1];
      if i > 0 {
        assert qs[i] == ps[i - 1];
      }
    }
  }

  /** Every parsed date among the records is the day of an observation. */
  lemma ObservedHasDate(rs: seq<Record>, d: Date)
    requires Some(d) in DatesOf(rs)
    ensures exists k :: 0 <= k < |Observed(rs)| && Observed(rs)[k].day == d
  {
    var j :| 0 <= j < |rs| && rs[j].date == Some(d);
    var ps := Observed(rs);
    var p := Point(d, rs[j].value);
    assert p in ps;
    var k :| 0 <= k < |ps| && ps[k] == p;
  }

  /** Every observation's day is a parsed date among the records. */
  lemma ObservedDayIsDate(rs: seq<Record>, k: int)
    requires 0 <= k < |Observed(rs)|
    ensures Some(Observed(rs)[k].day) in DatesOf(rs)
  {
    var ps := Observed(rs);
    var m :| 0 <= m < |rs| && rs[m] == Record(Some(ps[k].day), ps[k].value);
  }

  /** reindex: the value recorded on day `d` (None when no observation has that day, or it is NaN). */
  function ValueOn(ps: seq<Point>, d: Date): (v: Option<real>)
    ensures v.Some? ==> exists k :: 0 <= k < |ps| && ps[k].day == d && ps[k].value == v
    ensures (forall k :: 0 <= k < |ps| ==> ps[k].day != d) ==> v.None?
  {
    if ps == [] then None
    else if ps[0].day == d then ps[0].value
    else
      var v := ValueOn(ps[1..], d);
      assert forall k :: 1 <= k < |ps| ==> ps[k] == ps[1..][k - 1];
      v
  }

  /** With increasing days, the observation on a day is the one reindexing reads. */
  lemma {:induction false} ValueOnAt(ps: seq<Point>, k: int)
    requires Increasing(ps) && 0 <= k < |ps|
    ensures ValueOn(ps, ps[k].day) == ps[k].value
  {
    if k > 0 {
      assert Before(ps[0].day, ps[k].day);
      assert Increasing(ps[1..]) by {
        forall i, j | 0 <= i < j < |ps[1..]| ensures Before(ps[1..][i].day, ps[1..][j].day) {
          assert ps[1..][i] == ps[i + 1] && ps[1..][j] == ps[j + 1];
        }
      }
      ValueOnAt(ps[1..], k - 1);
    }
  }

  /** The series reindexed onto a calendar: one value per calendar day. */
  function Reindexed(ps: seq<Point>, days: seq<Date>): (vals: seq<Option<real>>)
    ensures |vals| == |days|
    ensures forall i :: 0 <= i < |days| ==> vals[i] == ValueOn(ps, days[i])
  {
    seq(|days|, i requires 0 <= i < |days| => ValueOn(ps, days[i]))
  }

  /** One step of the calendar: a range that does not end at its start is its start and the rest. */
  lemma DateRangeStep(days: seq<Date>, cur: Date, hi: Date)
    requires Before(cur, hi)
    ensures NotAfter(NextDay(cur), hi)
    ensures days + DateRange(cur, hi) == (days + [cur]) + DateRange(NextDay(cur), hi)
  {
    NextDayIsSuccessor(cur, hi);
  }

  /** date_range(start, end, freq='D'): the calendar, built one day at a time. */
  method DailyCalendar(lo: Date, hi: Date) returns (days: seq<Date>)
    requires NotAfter(lo, hi)
    ensures days == DateRange(lo, hi)
  {
    days := [];
    var cur := lo;
    while cur != hi
      invariant NotAfter(cur, hi)
      invariant days + DateRange(cur, hi) == DateRange(lo, hi)
      decreases hi.year - cur.year, 12 - cur.month, 31 - cur.day
    {
      DateRangeStep(days, cur, hi);
      days := days + [cur];
      cur := NextDay(cur);
    }
    days := days + [hi];
  }

  /** Moving to the next calendar day: the consumed observations lie before it, the next one not. */
  lemma ReindexNext(ps: seq<Point>, j: int, d: Date)
    requires Increasing(ps) && 0 <= j <= |ps|
    requires forall k :: 0 <= k < j ==> NotAfter(ps[k].day, d)
    requires j < |ps| ==> Before(d, ps[j].day)
    ensures forall k :: 0 <= k < j ==> Before(ps[k].day, NextDay(d))
    ensures j < |ps| ==> NotAfter(NextDay(d), ps[j].day)
  {
    if j < |ps| {
      NextDayIsSuccessor(d, ps[j].day);
    }
  }

  /** A calendar day between the consumed observations and the next one has no observation. */
  lemma ReindexMiss(ps: seq<Point>, j: int, d: Date)
    requires Increasing(ps) && 0 <= j <= |ps|
    requires forall k :: 0 <= k < j ==> Before(ps[k].day, d)
    requires j < |ps| ==> Before(d, ps[j].day)
    ensures forall k :: 0 <= k < |ps| ==> ps[k].day != d
  {
    forall k | 0 <= k < |ps| ensures ps[k].day != d {
      if k > j {
        assert Before(ps[j].day, ps[k].day);
      }
    }
  }

  /**
   * reindex(full_index): walks the calendar and the increasing observations
   * together, taking an observation's value on its day and NaN elsewhere.
   */
  method Reindex(ps: seq<Point>, days: seq<Date>) returns (vals: seq<Option<real>>)
    requires Increasing(ps) && Consecutive(days) && |days| > 0
    requires |ps| > 0 ==> NotAfter(days[0], ps[0].day)
    ensures vals == Reindexed(ps, days)
  {
    vals := [];
    var i, j := 0, 0;
    while i < |days|
      invariant 0 <= i <= |days| && 0 <= j <= |ps|
      invariant |vals| == i
      invariant forall t :: 0 <= t < i ==> vals[t] == ValueOn(ps, days[t])
      invariant i < |days| ==> forall k :: 0 <= k < j ==> Before(ps[k].day, days[i])
      invariant i < |days| && j < |ps| ==> NotAfter(days[i], ps[j].day)
    {
      var d := days[i];
      if j < |ps| && ps[j].day == d {
        ValueOnAt(ps, j);
        vals := vals + [ps[j].value];
        j := j + 1;
      } else {
        ReindexMiss(ps, j, d);
        vals := vals + [None];
      }
      ReindexNext(ps, j, d);
      if i + 1 < |days| {
        assert days[i + 1] == NextDay(d);
      }
      i := i + 1;
    }
  }

  // ---------------------------------------------------------------------------
  // Forward fill

  /** fillna(method='ffill'): a missing value takes the value before it, once that is filled. */
  function Filled(s: seq<Option<real>>): (r: seq<Option<real>>)
    ensures |r| == |s|
    ensures forall i :: 0 <= i < |s| && (s[i].Some? || i == 0) ==> r[i] == s[i]
    ensures forall i :: 0 < i < |s| && s[i].None? ==> r[i] == r[i - 1]
    decreases |s|
  {
    if s == [] then []
    else
      var init := s[..|s| - 1];
      var p := Filled(init);
      p + [if s[|s| - 1].Some? || p == [] then s[|s| - 1] else p[|p| - 1]]
  }

  /**
   * What forward filling promises: a filled value is the last present value at
   * or before its position, with only gaps after it; nothing present before
   * means the value stays missing.
   */
  lemma {:induction false} FilledIsLastPresent(s: seq<Option<real>>, i: int)
    requires 0 <= i < |s|
    ensures Filled(s)[i].Some? ==>
      exists j :: 0 <= j <= i && s[j] == Filled(s)[i] && forall k :: j < k <= i ==> s[k].None?
    ensures Filled(s)[i].None? ==> forall j :: 0 <= j <= i ==> s[j].None?
  {
    var f := Filled(s);
    if s[i].Some? {
      assert s[i] == f[i];
    } else if i > 0 {
      assert f[i] == f[i - 1];
      FilledIsLastPresent(s, i - 1);
      if f[i].Some? {
        var j :| 0 <= j <= i - 1 && s[j] == f[i - 1] && forall k :: j < k <= i - 1 ==> s[k].None?;
        assert forall k :: j < k <= i ==> s[k].None?;
      }
    }
  }

  /** The in-place forward fill over the daily buffer. */
  method ForwardFill(a: array<Option<real>>)
    modifies a
    ensures a[..] == Filled(old(a[..]))
  {
    ghost var orig := a[..];
    ghost var f := Filled(orig);
    var i := 0;
    while i < a.Length
      invariant 0 <= i <= a.Length
      invariant forall k :: 0 <= k < i ==> a[k] == f[k]
      invariant forall k :: i <= k < a.Length ==> a[k] == orig[k]
    {
      if a[i].None? && i > 0 {
        a[i] := a[i - 1];
      }
      i := i + 1;
    }
  }

  /**
   * The reference meaning of a filled daily value: the value of the latest
   * observation on or before day `d` that has a value.
   */
  function LatestPresent(ps: seq<Point>, d: Date): (v: Option<real>)
    ensures v.Some? ==> exists k :: 0 <= k < |ps| && NotAfter(ps[k].day, d) && ps[k].value == v
    decreases |ps|
  {
    if ps == [] then None
    else
      var last := ps[|ps| - 1];
      if NotAfter(last.day, d) && last.value.Some? then last.value
      else
        var v := LatestPresent(ps[..|ps| - 1], d);
        assert forall k :: 0 <= k < |ps| - 1 ==> ps[..|ps| - 1][k] == ps[k];
        v
  }

  /** Two days that see the same valued observations on or before them see the same latest value. */
  lemma {:induction false} LatestPresentSame(ps: seq<Point>, d1: Date, d2: Date)
    requires forall k :: 0 <= k < |ps| && ps[k].value.Some? ==>
      (NotAfter(ps[k].day, d1) <==> NotAfter(ps[k].day, d2))
    ensures LatestPresent(ps, d1) == LatestPresent(ps, d2)
    decreases |ps|
  {
    if ps != [] {
      var init := ps[..|ps| - 1];
      assert forall k :: 0 <= k < |init| ==> init[k] == ps[k];
      LatestPresentSame(init, d1, d2);
    }
  }

  /** The latest valued observation on or before a day is the one whose value that day sees. */
  lemma {:induction false} LatestPresentAt(ps: seq<Point>, k: int, d: Date)
    requires 0 <= k < |ps| && NotAfter(ps[k].day, d) && ps[k].value.Some?
    requires forall t :: k < t < |ps| ==> !NotAfter(ps[t].day, d)
    ensures LatestPresent(ps, d) == ps[k].value
    decreases |ps|
  {
    if k < |ps| - 1 {
      var init := ps[..|ps| - 1];
      assert forall t :: 0 <= t < |init| ==> init[t] == ps[t];
      LatestPresentAt(init, k, d);
    }
  }

  /** No valued observation on or before a day: the day sees nothing. */
  lemma {:induction false} LatestPresentNone(ps: seq<Point>, d: Date)
    requires forall k :: 0 <= k < |ps| && NotAfter(ps[k].day, d) ==> ps[k].value.None?
    ensures LatestPresent(ps, d).None?
    decreases |ps|
  {
    if ps != [] {
      var init := ps[..|ps| - 1];
      assert forall k :: 0 <= k < |init| ==> init[k] == ps[k];
      LatestPresentNone(init, d);
    }
  }

  /** A day on or before the next day of `y` is `y`'s next day or on or before `y`. */
  lemma NotAfterNextDay(x: Date, y: Date)
    ensures NotAfter(x, NextDay(y)) <==> x == NextDay(y) || NotAfter(x, y)
  {
    if Before(y, x) {
      NextDayIsSuccessor(y, x);
    }
  }

  /**
   * The daily series of load_series: the observations reindexed onto every day
   * from the earliest to the latest and forward filled.  Each day holds the
   * value of the latest observation on or before it that has a value, and
   * nothing before the first valued observation.
   */
  lemma {:induction false} DailyIsLatestPresent(ps: seq<Point>, i: int)
    requires Increasing(ps) && |ps| > 0
    requires NotAfter(ps[0].day, ps[|ps| - 1].day)
    requires 0 <= i < |DateRange(ps[0].day, ps[|ps| - 1].day)|
    ensures
      var days := DateRange(ps[0].day, ps[|ps| - 1].day);
      Filled(Reindexed(ps, days))[i] == LatestPresent(ps, days[i])
  {
    var days := DateRange(ps[0].day, ps[|ps| - 1].day);
    var vals := Reindexed(ps, days);
    var f := Filled(vals);
    var d := days[i];
    if vals[i].Some? {
      var k :| 0 <= k < |ps| && ps[k].day == d && ps[k].value == vals[i];
      forall t | k < t < |ps| ensures !NotAfter(ps[t].day, d) {
        assert Before(ps[k].day, ps[t].day);
      }
      LatestPresentAt(ps, k, d);
    } else if i == 0 {
      ValueOnAt(ps, 0);
      forall k | 0 <= k < |ps| && NotAfter(ps[k].day, d) ensures ps[k].value.None? {
        assert k > 0 ==> Before(ps[0].day, ps[k].day);
      }
      LatestPresentNone(ps, d);
    } else {
      DailyIsLatestPresent(ps, i - 1);
      assert d == NextDay(days[i - 1]);
      forall k | 0 <= k < |ps| && ps[k].value.Some?
        ensures NotAfter(ps[k].day, d) <==> NotAfter(ps[k].day, days[i - 1])
      {
        NotAfterNextDay(ps[k].day, days[i - 1]);
        if ps[k].day == d {
          ValueOnAt(ps, k);
        }
      }
      LatestPresentSame(ps, d, days[i - 1]);
    }
  }

  // ---------------------------------------------------------------------------
  // Monthly median resampling

  /** The consecutive number of a day's month. */
  function MonthNo(d: Date): int {
    MonthIndex(MonthOf(d))
  }

  /**
   * Days whose months never go back and never skip a month from one day to
   * the next (what a daily calendar has, and all the monthly pass relies on).
   */
  ghost predicate MonthSteps(days: seq<Date>) {
    forall i, j :: 0 <= i < j < |days| && j == i + 1 ==> MonthNo(days[i]) <= MonthNo(days[j]) <= MonthNo(days[i]) + 1
  }

  /** A daily calendar steps through the months. */
  lemma ConsecutiveMonthSteps(days: seq<Date>)
    requires Consecutive(days)
    ensures MonthSteps(days)
  {
    forall i, j | 0 <= i < j < |days| && j == i + 1 ensures MonthNo(days[i]) <= MonthNo(days[j]) <= MonthNo(days[i]) + 1 {
      NextDayMonth(days[i]);
    }
  }

  /** Later days are in the same or a later month. */
  lemma {:induction false} MonthsNondecreasing(days: seq<Date>, i: int, j: int)
    requires MonthSteps(days) && 0 <= i <= j < |days|
    ensures MonthNo(days[i]) <= MonthNo(days[j])
    decreases j - i
  {
    if i < j {
      MonthsNondecreasing(days, i, j - 1);
      assert MonthNo(days[j - 1]) <= MonthNo(days[j]);
    }
  }

  /** The values present (not NaN) among the first `hi` days that fall in month number `mi`, in day order. */
  function Bucket(days: seq<Date>, vals: seq<Option<real>>, mi: int, hi: int): seq<real>
    requires |vals| == |days| && 0 <= hi <= |days|
    decreases hi
  {
    if hi == 0 then []
    else
      var t := hi - 1;
      Bucket(days, vals, mi, t) + (if MonthNo(days[t]) == mi && vals[t].Some? then [vals[t].value] else [])
  }

  /** A bucket holds exactly the present values of the days of its month. */
  lemma {:induction false} BucketMembers(days: seq<Date>, vals: seq<Option<real>>, mi: int, hi: int, x: real)
    requires |vals| == |days| && 0 <= hi <= |days|
    ensures x in Bucket(days, vals, mi, hi) <==>
      exists t :: 0 <= t < hi && MonthNo(days[t]) == mi && vals[t] == Some(x)
    decreases hi
  {
    if hi > 0 {
      BucketMembers(days, vals, mi, hi - 1, x);
    }
  }

  /** The days before `hi` that fall in month number `mi` and carry the value `x`. */
  function DaysWith(days: seq<Date>, vals: seq<Option<real>>, mi: int, hi: int, x: real): set<int>
    requires |vals| == |days| && 0 <= hi <= |days|
  {
    set t | 0 <= t < hi && MonthNo(days[t]) == mi && vals[t] == Some(x)
  }

  /**
   * A bucket holds each value once per day of its month that carries it: a
   * value repeated on several days (as forward filling makes common) counts
   * once for each of them, which is what the median weighs.
   */
  lemma {:induction false} BucketCount(days: seq<Date>, vals: seq<Option<real>>, mi: int, hi: int, x: real)
    requires |vals| == |days| && 0 <= hi <= |days|
    ensures multiset(Bucket(days, vals, mi, hi))[x] == |DaysWith(days, vals, mi, hi, x)|
    decreases hi
  {
    if hi > 0 {
      var u := hi - 1;
      BucketCount(days, vals, mi, u, x);
      DaysWithStep(days, vals, mi, u, x);
      var b := Bucket(days, vals, mi, u);
      if MonthNo(days[u]) == mi && vals[u].Some? {
        assert Bucket(days, vals, mi, hi) == b + [vals[u].value];
        assert multiset(b + [vals[u].value]) == multiset(b) + multiset{vals[u].value};
      } else {
        assert Bucket(days, vals, mi, hi) == b + [];
        assert b + [] == b;
      }
    }
  }

  /** One more day adds itself to the days carrying `x` exactly when it is of the month and carries `x`. */
  lemma DaysWithStep(days: seq<Date>, vals: seq<Option<real>>, mi: int, u: int, x: real)
    requires |vals| == |days| && 0 <= u < |days|
    ensures MonthNo(days[u]) == mi && vals[u] == Some(x) ==>
      |DaysWith(days, vals, mi, u + 1, x)| == |DaysWith(days, vals, mi, u, x)| + 1
    ensures !(MonthNo(days[u]) == mi && vals[u] == Some(x)) ==>
      DaysWith(days, vals, mi, u + 1, x) == DaysWith(days, vals, mi, u, x)
  {
    var before := DaysWith(days, vals, mi, u, x);
    var after := DaysWith(days, vals, mi, u + 1, x);
    var here := MonthNo(days[u]) == mi && vals[u] == Some(x);
    var added: set<int> := if here then {u} else {};
    forall t ensures t in after <==> t in before + added {
      if t == u {
        assert t !in before;
      } else {
        assert t in after <==> t in before;
      }
    }
    assert after == before + added;
    assert u !in before;
  }

  /** Days outside month `mi` add nothing to its bucket. */
  lemma {:induction false} BucketStable(days: seq<Date>, vals: seq<Option<real>>, mi: int, lo: int, hi: int)
    requires |vals| == |days| && 0 <= lo <= hi <= |days|
    requires forall t :: lo <= t < hi ==> MonthNo(days[t]) != mi
    ensures Bucket(days, vals, mi, hi) == Bucket(days, vals, mi, lo)
    decreases hi
  {
    if lo < hi {
      BucketStable(days, vals, mi, lo, hi - 1);
    }
  }

  /** A month's label and its value (None: NaN). */
  datatype MonthValue = MonthValue(month: YearMonth, value: Option<real>)

  /**
   * resample("M").median() over a daily series, labelled by month: one entry
   * for every month from the first day's to the last day's, holding the
   * median of that month's present values (NaN when it has none).
   */
  /** The entry of month number `mi`: its label and the median of its bucket. */
  function MonthEntry(days: seq<Date>, vals: seq<Option<real>>, mi: int): MonthValue
    requires |vals| == |days|
  {
    MonthValue(MonthAt(mi), MedianOf(Bucket(days, vals, mi, |days|)))
  }

  function MonthlyMedians(days: seq<Date>, vals: seq<Option<real>>): (r: seq<MonthValue>)
    requires |vals| == |days| > 0 && MonthSteps(days)
    ensures |r| == MonthNo(days[|days| - 1]) - MonthNo(days[0]) + 1 > 0
  {
    MonthsNondecreasing(days, 0, |days| - 1);
    MonthEntries(days, vals, MonthNo(days[0]), MonthNo(days[|days| - 1]) - MonthNo(days[0]) + 1)
  }

  /** The entries of `n` consecutive months, from month number `first` on. */
  function MonthEntries(days: seq<Date>, vals: seq<Option<real>>, first: int, n: nat): (r: seq<MonthValue>)
    requires |vals| == |days|
    ensures |r| == n
  {
    seq(n, k requires 0 <= k => MonthEntry(days, vals, first + k))
  }

  lemma MonthEntriesSnoc(days: seq<Date>, vals: seq<Option<real>>, first: int, n: nat)
    requires |vals| == |days|
    ensures MonthEntries(days, vals, first, n + 1) == MonthEntries(days, vals, first, n) + [MonthEntry(days, vals, first + n)]
  {
    assert forall k :: 0 <= k < n ==> MonthEntries(days, vals, first, n + 1)[k] == MonthEntries(days, vals, first, n)[k];
  }

  /** The entry at position `k` is the one of the `k`-th month after the first day's. */
  lemma MonthlyMediansAt(days: seq<Date>, vals: seq<Option<real>>, k: int)
    requires |vals| == |days| > 0 && MonthSteps(days)
    requires 0 <= k < |MonthlyMedians(days, vals)|
    ensures MonthlyMedians(days, vals)[k] == MonthEntry(days, vals, MonthNo(days[0]) + k)
    ensures MonthlyMedians(days, vals)[k].month == MonthAt(MonthNo(days[0]) + k)
  {
  }

  /**
   * The monthly labels run without gaps from the first day's month to the
   * last day's, strictly increasing, and every day's month has its entry.
   */
  lemma MonthlyMediansMonths(days: seq<Date>, vals: seq<Option<real>>, t: int)
    requires |vals| == |days| > 0 && MonthSteps(days) && 0 <= t < |days|
    ensures
      var r := MonthlyMedians(days, vals);
      r[0].month == MonthOf(days[0]) && r[|r| - 1].month == MonthOf(days[|days| - 1]) &&
      (forall k :: 0 < k < |r| ==> MonthIndex(r[k].month) == MonthIndex(r[k - 1].month) + 1) &&
      0 <= MonthNo(days[t]) - MonthNo(days[0]) < |r| &&
      r[MonthNo(days[t]) - MonthNo(days[0])].month == MonthOf(days[t])
  {
    var r := MonthlyMedians(days, vals);
    forall k | 0 <= k < |r| ensures r[k].month == MonthAt(MonthNo(days[0]) + k) {
      MonthlyMediansAt(days, vals, k);
    }
    MonthsNondecreasing(days, 0, t);
    MonthsNondecreasing(days, t, |days| - 1);
    MonthAtIndex(MonthOf(days[0]));
    MonthAtIndex(MonthOf(days[|days| - 1]));
    MonthAtIndex(MonthOf(days[t]));
    MonthAtIndex(r[0].month);
    MonthAtIndex(r[|r| - 1].month);
    MonthAtIndex(r[MonthNo(days[t]) - MonthNo(days[0])].month);
  }

  /**
   * The value of a month is the median of its bucket, which holds exactly the
   * present daily values of that month (each as often as it occurs, by
   * BucketCount), and it is NaN exactly when the month has no present value.
   */
  lemma MonthlyMedianValue(days: seq<Date>, vals: seq<Option<real>>, k: int)
    requires |vals| == |days| > 0 && MonthSteps(days)
    requires 0 <= k < |MonthlyMedians(days, vals)|
    ensures
      var r := MonthlyMedians(days, vals);
      var mi := MonthIndex(r[k].month);
      var b := Bucket(days, vals, mi, |days|);
      (forall x :: x in b <==> exists t :: 0 <= t < |days| && MonthNo(days[t]) == mi && vals[t] == Some(x)) &&
      (r[k].value.Some? <==> exists t :: 0 <= t < |days| && MonthNo(days[t]) == mi && vals[t].Some?) &&
      (r[k].value.Some? ==> |b| > 0 && r[k].value.value == Median(b))
  {
    MonthlyMediansAt(days, vals, k);
    MonthEntryValue(days, vals, MonthNo(days[0]) + k);
  }

  lemma MonthEntryValue(days: seq<Date>, vals: seq<Option<real>>, mi: int)
    requires |vals| == |days|
    ensures
      var e := MonthEntry(days, vals, mi);
      var b := Bucket(days, vals, mi, |days|);
      (forall x :: x in b <==> exists t :: 0 <= t < |days| && MonthNo(days[t]) == mi && vals[t] == Some(x)) &&
      (e.value.Some? <==> exists t :: 0 <= t < |days| && MonthNo(days[t]) == mi && vals[t].Some?) &&
      (e.value.Some? ==> |b| > 0 && e.value.value == Median(b))
  {
    var b := Bucket(days, vals, mi, |days|);
    forall x ensures x in b <==> exists t :: 0 <= t < |days| && MonthNo(days[t]) == mi && vals[t] == Some(x) {
      BucketMembers(days, vals, mi, |days|, x);
    }
    if b != [] {
      assert b[0] in b;
    }
  }

  /**
   * A whole run of days of one month, preceded by an earlier month: its
   * gathered values are that month's complete bucket, and the day after the
   * run starts the next month.
   */
  lemma MonthRunBucket(days: seq<Date>, v: seq<Option<real>>, start: int, next: int, b: seq<real>)
    requires |v| == |days| && MonthSteps(days) && 0 <= start < next <= |days|
    requires start > 0 ==> MonthNo(days[start - 1]) < MonthNo(days[start])
    requires forall t :: start <= t < next ==> MonthNo(days[t]) == MonthNo(days[start])
    requires next < |days| ==> MonthNo(days[next]) != MonthNo(days[start])
    requires Bucket(days, v, MonthNo(days[start]), next) == Bucket(days, v, MonthNo(days[start]), start) + b
    ensures Bucket(days, v, MonthNo(days[start]), |days|) == b
    ensures next < |days| ==> MonthNo(days[next]) == MonthNo(days[start]) + 1
  {
    var cm := MonthNo(days[start]);
    forall t | 0 <= t < start ensures MonthNo(days[t]) != cm {
      MonthsNondecreasing(days, t, start - 1);
    }
    BucketStable(days, v, cm, 0, start);
    if next < |days| {
      MonthsNondecreasing(days, next - 1, next);
      forall t | next <= t < |days| ensures MonthNo(days[t]) != cm {
        MonthsNondecreasing(days, next, t);
      }
      BucketStable(days, v, cm, next, |days|);
    }
  }

  /**
   * Gathers the present values of the run of days that share the month of
   * day `start` (a day that begins a month of the calendar), returning them,
   * which is that month's whole bucket, and the position after the run,
   * where the next month begins.
   */
  method GatherMonth(days: seq<Date>, vals: array<Option<real>>, start: int) returns (b: seq<real>, i: int)
    requires |days| == vals.Length && MonthSteps(days) && 0 <= start < |days|
    requires start > 0 ==> MonthNo(days[start - 1]) < MonthNo(days[start])
    ensures start < i <= |days| && MonthNo(days[i - 1]) == MonthNo(days[start])
    ensures i < |days| ==> MonthNo(days[i]) == MonthNo(days[start]) + 1
    ensures b == Bucket(days, vals[..], MonthNo(days[start]), |days|)
  {
    var cm := MonthNo(days[start]);
    b := [];
    i := start;
    while i < |days| && MonthNo(days[i]) == cm
      invariant start <= i <= |days|
      invariant forall t :: start <= t < i ==> MonthNo(days[t]) == cm
      invariant Bucket(days, vals[..], cm, i) == Bucket(days, vals[..], cm, start) + b
    {
      if vals[i].Some? {
        b := b + [vals[i].value];
      }
      i := i + 1;
    }
    MonthRunBucket(days, vals[..], start, i, b);
  }

  /** One month gathered: appending its entry keeps the resample's loop invariants. */
  lemma ResampleStep(days: seq<Date>, v: seq<Option<real>>, out: seq<MonthValue>, i: int, next: int, b: seq<real>)
    requires |v| == |days| > 0 && MonthSteps(days) && 0 <= i < next <= |days|
    requires MonthNo(days[i]) == MonthNo(days[0]) + |out|
    requires out == MonthEntries(days, v, MonthNo(days[0]), |out|)
    requires MonthNo(days[next - 1]) == MonthNo(days[i])
    requires next < |days| ==> MonthNo(days[next]) == MonthNo(days[i]) + 1
    requires b == Bucket(days, v, MonthNo(days[i]), |days|)
    ensures var o := out + [MonthValue(MonthAt(MonthNo(days[i])), MedianOf(b))];
      o == MonthEntries(days, v, MonthNo(days[0]), |o|) &&
      MonthNo(days[next - 1]) == MonthNo(days[0]) + |o| - 1 &&
      (next < |days| ==> MonthNo(days[next]) == MonthNo(days[0]) + |o|)
  {
    MonthEntriesSnoc(days, v, MonthNo(days[0]), |out|);
  }

  /** The monthly resample, one pass over the daily values gathering each month's bucket. */
  method ResampleMonthlyMedian(days: seq<Date>, vals: array<Option<real>>) returns (out: seq<MonthValue>)
    requires |days| == vals.Length > 0 && MonthSteps(days)
    ensures out == MonthlyMedians(days, vals[..])
  {
    ghost var v := vals[..];
    ghost var first := MonthNo(days[0]);
    out := [];
    var i := 0;
    while i < |days|
      invariant 0 <= i <= |days|
      invariant i < |days| ==> MonthNo(days[i]) == first + |out|
      invariant 0 < i ==> MonthNo(days[i - 1]) == first + |out| - 1
      invariant out == MonthEntries(days, v, first, |out|)
    {
      var cm := MonthNo(days[i]);
      var b, next := GatherMonth(days, vals, i);
      ResampleStep(days, v, out, i, next, b);
      out := out + [MonthValue(MonthAt(cm), MedianOf(b))];
      i := next;
    }
  }
}
