/** The dashboard's data pipeline: the daily log and the retreats are read back into
    dates, every retreat is expanded into one 12-hour row per day, the two tables are
    combined and summed into calendar-month buckets, and the monthly series gets a
    cumulative total, a 6-month trailing mean, a life total and an average per year. */
module Dashboard {
  import opened Calendar
  import opened DateText
  import opened Wrappers
  import opened Sums
  import ConvertDaily
  import ConvertRetreats

  /** Where a combined row came from; a tag only, nothing downstream reads it. */
  datatype Source = DailyPractice | RetreatDay

  /** A row of the combined table once its date is a timestamp: the day number and hours. */
  datatype Row = Row(day: int, hours: real, source: Source)

  /** A retreat once its dates are timestamps. `duration` is Duration_Days, absent when the
      table was read without that column. */
  datatype Span = Span(name: string, start: int, end: int, duration: Option<int>,
                       lat: real, lon: real, kind: string)

  /** A month-start bucket: the day number of the month's first day and its hours. */
  datatype Bucket = Bucket(start: int, hours: real)

  /** Hours per retreat day, whatever the retreat's kind. */
  const RetreatHours := 12.0

  function RowHours(rows: seq<Row>): (hs: seq<real>)
    ensures |hs| == |rows| && forall i :: 0 <= i < |rows| ==> hs[i] == rows[i].hours
  {
    seq(|rows|, i requires 0 <= i < |rows| => rows[i].hours)
  }

  function BucketHours(buckets: seq<Bucket>): (hs: seq<real>)
    ensures |hs| == |buckets| && forall i :: 0 <= i < |buckets| ==> hs[i] == buckets[i].hours
  {
    seq(|buckets|, i requires 0 <= i < |buckets| => buckets[i].hours)
  }

  /** The days a table has rows on. */
  function DaysOf(rows: seq<Row>): set<int> {
    set i | 0 <= i < |rows| :: rows[i].day
  }

  predicate AllInRange(rows: seq<Row>) {
    forall i :: 0 <= i < |rows| ==> InRange(rows[i].day)
  }

  lemma RowHoursConcat(a: seq<Row>, b: seq<Row>)
    ensures RowHours(a + b) == RowHours(a) + RowHours(b)
  {
  }

  // ---------------------------------------------------------------------------
  // Reading the dates back (pd.to_datetime on Date, Start and End)

  /** The daily log with its date texts read as days; None when some text is not a date. */
  function ParseDaily(log: seq<ConvertDaily.DailyRow>): (r: Option<seq<Row>>)
    ensures r.Some? <==> forall i :: 0 <= i < |log| ==> Parse(log[i].date).Some?
    ensures r.Some? ==> |r.value| == |log| && AllInRange(r.value)
  {
    if forall i :: 0 <= i < |log| ==> Parse(log[i].date).Some? then
      var rows := seq(|log|, i requires 0 <= i < |log| =>
        Row(ToDay(Parse(log[i].date).value), log[i].hours, DailyPractice));
      assert AllInRange(rows) by {
        forall i | 0 <= i < |log| ensures InRange(rows[i].day) {
          ToDayBounds(Parse(log[i].date).value);
        }
      }
      Some(rows)
    else None
  }

  /** A parsed log row is the day its text names, with the hours unchanged. */
  lemma ParseDailyRows(log: seq<ConvertDaily.DailyRow>, i: int)
    requires ParseDaily(log).Some? && 0 <= i < |log|
    ensures var row := ParseDaily(log).value[i];
      && DayText(row.day) == log[i].date
      && row.hours == log[i].hours && row.source == DailyPractice
  {
    DayTextOfParse(log[i].date);
  }

  lemma ParseDailyTotal(log: seq<ConvertDaily.DailyRow>)
    requires ParseDaily(log).Some?
    ensures Sum(RowHours(ParseDaily(log).value)) == Sum(ConvertDaily.Hours(log))
  {
    assert RowHours(ParseDaily(log).value) == ConvertDaily.Hours(log);
  }

  /** One exported retreat with its dates read back; None when a date is not a date. */
  function ParseRetreat(r: ConvertRetreats.Retreat): (s: Option<Span>)
    ensures s.Some? <==> Parse(r.start).Some? && Parse(r.end).Some?
    ensures s.Some? ==> InRange(s.value.start) && InRange(s.value.end)
  {
    match (Parse(r.start), Parse(r.end))
    case (Some(start), Some(end)) =>
      ToDayBounds(start);
      ToDayBounds(end);
      Some(Span(r.name, ToDay(start), ToDay(end), Some(r.durationDays), r.lat, r.lon, r.kind))
    case _ => None
  }

  function ParseRetreats(rs: seq<ConvertRetreats.Retreat>): (r: Option<seq<Span>>)
    ensures r.Some? <==> forall i :: 0 <= i < |rs| ==> ParseRetreat(rs[i]).Some?
    ensures r.Some? ==> |r.value| == |rs|
    ensures r.Some? ==> forall i :: 0 <= i < |rs| ==> Some(r.value[i]) == ParseRetreat(rs[i])
  {
    if forall i :: 0 <= i < |rs| ==> ParseRetreat(rs[i]).Some? then
      Some(seq(|rs|, i requires 0 <= i < |rs| => ParseRetreat(rs[i]).value))
    else None
  }

  /** What the retreat conversion writes, the dashboard reads back: the same start day, an
      end exactly Duration_Days later, and the other fields unchanged. */
  lemma RetreatRoundTrip(raw: ConvertRetreats.RawRetreat)
    requires ConvertRetreats.ProcessRetreat(raw).Success?
    ensures var out := ConvertRetreats.ProcessRetreat(raw).value;
      && ParseRetreat(out).Some?
      && ParseRetreat(out).value.start == ConvertRetreats.StartDay(raw)
      && ParseRetreat(out).value.end == ParseRetreat(out).value.start + raw.days
      && ParseRetreat(out).value.duration == Some(raw.days)
      && ParseRetreat(out).value.name == raw.name && ParseRetreat(out).value.kind == raw.kind
      && ParseRetreat(out).value.lat == raw.lat && ParseRetreat(out).value.lon == raw.lon
  {
    ConvertRetreats.ProcessRetreatSpec(raw);
  }

  // ---------------------------------------------------------------------------
  // Duration_Days fallback: (End - Start).days when the column is missing

  function FillDurations(spans: seq<Span>, hasColumn: bool): (out: seq<Span>)
    ensures |out| == |spans|
  {
    if hasColumn then spans
    else seq(|spans|, i requires 0 <= i < |spans| => spans[i].(duration := Some(spans[i].end - spans[i].start)))
  }

  /** Without the column every retreat gets End - Start days; with it nothing changes; the
      other fields are never touched. */
  lemma FillDurationsSpec(spans: seq<Span>, hasColumn: bool, i: int)
    requires 0 <= i < |spans|
    ensures var s, t := spans[i], FillDurations(spans, hasColumn)[i];
      && t.name == s.name && t.start == s.start && t.end == s.end
      && t.lat == s.lat && t.lon == s.lon && t.kind == s.kind
      && t.duration == if hasColumn then s.duration else Some(s.end - s.start)
  {
  }

  /** A retreat whose Duration_Days is its End - Start. */
  predicate DurationMatches(s: Span) {
    s.duration == Some(s.end - s.start)
  }

  /** Where every duration already equals End - Start, the fallback changes nothing. */
  lemma FallbackAgrees(spans: seq<Span>)
    requires forall i :: 0 <= i < |spans| ==> DurationMatches(spans[i])
    ensures FillDurations(spans, false) == FillDurations(spans, true)
  {
  }

  /** Retreats written by the conversion read back with Duration_Days equal to End - Start, so
      the fallback would recompute exactly the stored column. */
  lemma ConvertedDurations(raws: seq<ConvertRetreats.RawRetreat>, out: seq<ConvertRetreats.Retreat>)
    requires |out| == |raws|
    requires forall i :: 0 <= i < |raws| ==> ConvertRetreats.ProcessRetreat(raws[i]) == Success(out[i])
    ensures ParseRetreats(out).Some?
    ensures forall i :: 0 <= i < |out| ==> DurationMatches(ParseRetreats(out).value[i])
  {
    forall i | 0 <= i < |out|
      ensures ParseRetreat(out[i]).Some? && DurationMatches(ParseRetreat(out[i]).value)
    {
      ConvertedDuration(raws[i], out[i]);
    }
    assert ParseRetreats(out).Some?;
  }

  lemma ConvertedDuration(raw: ConvertRetreats.RawRetreat, out: ConvertRetreats.Retreat)
    requires ConvertRetreats.ProcessRetreat(raw) == Success(out)
    ensures ParseRetreat(out).Some? && DurationMatches(ParseRetreat(out).value)
  {
    RetreatRoundTrip(raw);
  }

  /** For a file the conversion wrote, reading it with or without its Duration_Days column
      gives the same retreats. */
  lemma ConvertedFallback(raws: seq<ConvertRetreats.RawRetreat>, out: seq<ConvertRetreats.Retreat>)
    requires |out| == |raws|
    requires forall i :: 0 <= i < |raws| ==> ConvertRetreats.ProcessRetreat(raws[i]) == Success(out[i])
    ensures ParseRetreats(out).Some?
    ensures FillDurations(ParseRetreats(out).value, false) == ParseRetreats(out).value
  {
    ConvertedDurations(raws, out);
    FallbackAgrees(ParseRetreats(out).value);
  }

  // ---------------------------------------------------------------------------
  // Retreat expansion: one 12-hour row per day of [Start, End)

  /** The rows of one retreat: Start, Start + 1, ..., End - 1. */
  function SpanRows(start: int, end: int): (rows: seq<Row>)
    ensures |rows| == if start < end then end - start else 0
    ensures forall i :: 0 <= i < |rows| ==>
      start <= rows[i].day < end && rows[i].hours == RetreatHours && rows[i].source == RetreatDay
  {
    seq(if start < end then end - start else 0, i => Row(start + i, RetreatHours, RetreatDay))
  }

  /** A retreat's rows are exactly its days from Start up to, not including, End, each with
      12 hours and the retreat tag. */
  lemma SpanRowsSpec(start: int, end: int)
    ensures var rows := SpanRows(start, end);
      && (forall i :: 0 <= i < |rows| ==> rows[i].day == start + i)
      && (forall i :: 0 <= i < |rows| ==> rows[i].hours == 12.0 && rows[i].source == RetreatDay)
      && (forall n :: n in DaysOf(rows) <==> start <= n < end)
  {
    var rows := SpanRows(start, end);
    forall n | start <= n < end ensures n in DaysOf(rows) {
      assert rows[n - start].day == n;
    }
  }

  lemma SpanRowsTotal(start: int, end: int)
    ensures Sum(RowHours(SpanRows(start, end))) == Times(if start < end then end - start else 0, RetreatHours)
  {
    SumConstant(RowHours(SpanRows(start, end)), RetreatHours);
  }

  /** A converted retreat read back expands to exactly Duration_Days rows (none when the
      duration is not positive). */
  lemma RetreatDayCount(raw: ConvertRetreats.RawRetreat)
    requires ConvertRetreats.ProcessRetreat(raw).Success?
    ensures var s := ParseRetreat(ConvertRetreats.ProcessRetreat(raw).value);
      && s.Some?
      && |SpanRows(s.value.start, s.value.end)| == if raw.days > 0 then raw.days else 0
  {
    RetreatRoundTrip(raw);
  }

  /** Days a retreat spends in [Start, End); none when End is not after Start. */
  function SpanDays(s: Span): nat {
    if s.start < s.end then s.end - s.start else 0
  }

  function TotalSpanDays(spans: seq<Span>): nat {
    if |spans| == 0 then 0 else TotalSpanDays(spans[..|spans| - 1]) + SpanDays(spans[|spans| - 1])
  }

  /** All retreats' rows, retreat after retreat: one row per retreat day. */
  function RetreatRows(spans: seq<Span>): (rows: seq<Row>)
    ensures |rows| == TotalSpanDays(spans)
  {
    if |spans| == 0 then []
    else RetreatRows(spans[..|spans| - 1]) + SpanRows(spans[|spans| - 1].start, spans[|spans| - 1].end)
  }

  /** The expanded retreats carry 12 hours for every retreat day, and nothing else. */
  lemma {:induction false} RetreatRowsTotal(spans: seq<Span>)
    ensures Sum(RowHours(RetreatRows(spans))) == Times(TotalSpanDays(spans), RetreatHours)
  {
    if |spans| > 0 {
      var init, s := spans[..|spans| - 1], spans[|spans| - 1];
      RetreatRowsTotal(init);
      RowHoursConcat(RetreatRows(init), SpanRows(s.start, s.end));
      SumConcat(RowHours(RetreatRows(init)), RowHours(SpanRows(s.start, s.end)));
      SpanRowsTotal(s.start, s.end);
      TimesAdd(TotalSpanDays(init), SpanDays(s), RetreatHours);
    }
  }

  lemma {:induction false} TimesAdd(m: nat, n: nat, v: real)
    ensures Times(m + n, v) == Times(m, v) + Times(n, v)
    decreases n
  {
    if n > 0 {
      TimesAdd(m, n - 1, v);
    }
  }

  /** Every expanded retreat row lies inside its retreat, so inside the calendar. */
  lemma {:induction false} RetreatRowsInRange(spans: seq<Span>)
    requires forall i :: 0 <= i < |spans| ==> InRange(spans[i].start) && InRange(spans[i].end)
    ensures AllInRange(RetreatRows(spans))
  {
    if |spans| > 0 {
      var init, s := spans[..|spans| - 1], spans[|spans| - 1];
      assert forall i :: 0 <= i < |init| ==> init[i] == spans[i];
      RetreatRowsInRange(init);
      var a, b := RetreatRows(init), SpanRows(s.start, s.end);
      var ab: seq<Row> := a + b;
      assert ab == RetreatRows(spans);
      forall i | 0 <= i < |ab| ensures InRange(ab[i].day) {
        if i < |a| {
          assert ab[i] == a[i];
        } else {
          assert ab[i] == b[i - |a|];
        }
      }
    }
  }

  /** The inner loop over `pd.date_range(Start, End - 1 day)`. */
  method AppendSpan(rows: seq<Row>, start: int, end: int) returns (res: seq<Row>)
    ensures res == rows + SpanRows(start, end)
  {
    res := rows;
    var day := start;
    while day <= end - 1
      invariant start <= day <= if start < end then end else start
      invariant res == rows + SpanRows(start, day)
    {
      assert SpanRows(start, day + 1) == SpanRows(start, day) + [Row(day, RetreatHours, RetreatDay)];
      res := res + [Row(day, RetreatHours, RetreatDay)];
      day := day + 1;
    }
    assert day == if start < end then end else start;
  }

  /** The retreat loop: every retreat's days appended in table order. */
  method ExpandRetreats(spans: seq<Span>) returns (rows: seq<Row>)
    ensures rows == RetreatRows(spans)
  {
    rows := [];
    var i := 0;
    while i < |spans|
      invariant 0 <= i <= |spans|
      invariant rows == RetreatRows(spans[..i])
    {
      assert spans[..i + 1][..i] == spans[..i];
      rows := AppendSpan(rows, spans[i].start, spans[i].end);
      i := i + 1;
    }
    assert spans[..i] == spans;
  }

  /** pd.concat: the daily rows, then the retreat rows. */
  function Combine(daily: seq<Row>, retreats: seq<Row>): (rows: seq<Row>)
    ensures |rows| == |daily| + |retreats|
    ensures multiset(rows) == multiset(daily) + multiset(retreats)
  {
    daily + retreats
  }

  lemma CombineSpec(daily: seq<Row>, retreats: seq<Row>)
    ensures Sum(RowHours(Combine(daily, retreats))) == Sum(RowHours(daily)) + Sum(RowHours(retreats))
    ensures AllInRange(daily) && AllInRange(retreats) ==> AllInRange(Combine(daily, retreats))
    ensures Combine(daily, retreats)[..|daily|] == daily && Combine(daily, retreats)[|daily|..] == retreats
  {
    RowHoursConcat(daily, retreats);
    SumConcat(RowHours(daily), RowHours(retreats));
  }

  // ---------------------------------------------------------------------------
  // Earliest and latest day of a table

  function RowDays(rows: seq<Row>): (ds: seq<int>)
    ensures |ds| == |rows| && forall i :: 0 <= i < |rows| ==> ds[i] == rows[i].day
  {
    seq(|rows|, i requires 0 <= i < |rows| => rows[i].day)
  }

  function Min(xs: seq<int>): (m: int)
    requires |xs| > 0
    ensures (exists i :: 0 <= i < |xs| && xs[i] == m) && forall i :: 0 <= i < |xs| ==> m <= xs[i]
  {
    if |xs| == 1 then xs[0]
    else
      var m := Min(xs[..|xs| - 1]);
      assert forall i :: 0 <= i < |xs| - 1 ==> xs[..|xs| - 1][i] == xs[i];
      if xs[|xs| - 1] < m then xs[|xs| - 1] else m
  }

  function Max(xs: seq<int>): (m: int)
    requires |xs| > 0
    ensures (exists i :: 0 <= i < |xs| && xs[i] == m) && forall i :: 0 <= i < |xs| ==> xs[i] <= m
  {
    if |xs| == 1 then xs[0]
    else
      var m := Max(xs[..|xs| - 1]);
      assert forall i :: 0 <= i < |xs| - 1 ==> xs[..|xs| - 1][i] == xs[i];
      if m < xs[|xs| - 1] then xs[|xs| - 1] else m
  }

  // ---------------------------------------------------------------------------
  // Month-start resampling: resample("MS")["Hours"].sum()

  /** Hours of the rows dated in [lo, hi), in any order. */
  function HoursBetween(rows: seq<Row>, lo: int, hi: int): real {
    if |rows| == 0 then 0.0
    else (if lo <= rows[0].day < hi then rows[0].hours else 0.0) + HoursBetween(rows[1..], lo, hi)
  }

  /** Buckets for the n consecutive months from month k on, each holding its month's hours. */
  function Buckets(rows: seq<Row>, k: int, n: nat): (b: seq<Bucket>)
    requires ValidMonth(k) && (n == 0 || ValidMonth(k + n - 1))
    ensures |b| == n
  {
    seq(n, i requires 0 <= i < n =>
      Bucket(MonthStart(k + i), HoursBetween(rows, MonthStart(k + i), MonthEnd(k + i))))
  }

  /** One bucket per calendar month from the month of the earliest row to the month of the
      latest, empty months included; no rows, no buckets. Like DayText it is written as a
      one-step count-down, so that a mention of the monthly table does not expand the
      calendar search behind its first and last months; ResampleIsBuckets gives the
      definition where a proof needs it. */
  function Resample(rows: seq<Row>): (b: seq<Bucket>)
    requires AllInRange(rows)
    ensures |b| == 0 <==> |rows| == 0
  {
    ResampleAfter(rows, 1)
  }

  function ResampleAfter(rows: seq<Row>, steps: nat): (b: seq<Bucket>)
    requires AllInRange(rows)
    ensures |b| == 0 <==> |rows| == 0
  {
    if steps > 0 then ResampleAfter(rows, steps - 1)
    else if |rows| == 0 then []
    else
      var k0, k1 := MonthIndex(Min(RowDays(rows))), MonthIndex(Max(RowDays(rows)));
      MonthIndexMonotone(Min(RowDays(rows)), Max(RowDays(rows)));
      Buckets(rows, k0, k1 - k0 + 1)
  }

  /** The months of the first and last bucket. */
  function FirstMonth(rows: seq<Row>): int
    requires AllInRange(rows) && |rows| > 0
  {
    MonthIndex(Min(RowDays(rows)))
  }

  function LastMonth(rows: seq<Row>): int
    requires AllInRange(rows) && |rows| > 0
  {
    MonthIndex(Max(RowDays(rows)))
  }

  /** Bins are consecutive calendar months: every label is the first day of a month, each
      label's month is the one after the previous label's, the first label is the month of the
      earliest row and the last label the month of the latest. */
  lemma ResampleLabels(rows: seq<Row>)
    requires AllInRange(rows)
    ensures var b := Resample(rows);
      && (|b| == 0 <==> |rows| == 0)
      && (forall i :: 0 <= i < |b| ==> InRange(b[i].start) && FromDay(b[i].start).day == 1)
      && (forall i :: 0 <= i < |b| - 1 ==> MonthIndex(b[i + 1].start) == MonthIndex(b[i].start) + 1)
      && (|b| > 0 ==> |rows| > 0 && MonthIndex(b[0].start) == FirstMonth(rows)
                      && MonthIndex(b[|b| - 1].start) == LastMonth(rows))
  {
    var b := Resample(rows);
    ResampleIsBuckets(rows);
    if |rows| > 0 {
      var k0, n := FirstMonth(rows), LastMonth(rows) - FirstMonth(rows) + 1;
      forall i | 0 <= i < |b| ensures InRange(b[i].start) && FromDay(b[i].start).day == 1
        && MonthIndex(b[i].start) == k0 + i
      {
        BucketAt(rows, k0, n, i);
        MonthStartLabel(k0 + i);
      }
    }
  }

  /** The label of month k is a first day of a month, and of month k itself. */
  lemma MonthStartLabel(k: int)
    requires ValidMonth(k)
    ensures InRange(MonthStart(k)) && MonthIndex(MonthStart(k)) == k && FromDay(MonthStart(k)).day == 1
  {
    MonthIndexOfStart(k);
    MonthStartIsFirstDay(k);
    FromDayToDay(FirstOfMonth(k));
  }

  /** Each bucket sums exactly the rows dated from its label up to the next month's label, so
      every row is counted in the bucket of its own calendar month. */
  lemma ResampleBins(rows: seq<Row>, i: int)
    requires AllInRange(rows) && |rows| > 0 && 0 <= i < |Resample(rows)|
    ensures var b, k := Resample(rows), FirstMonth(rows) + i;
      && ValidMonth(k) && b[i].start == MonthStart(k)
      && InRange(b[i].start) && MonthIndex(b[i].start) == k
      && b[i].hours == HoursBetween(rows, MonthStart(k), MonthEnd(k))
      && (i + 1 < |b| ==> b[i + 1].start == MonthEnd(k))
  {
    ResampleIsBuckets(rows);
    BucketAt(rows, FirstMonth(rows), LastMonth(rows) - FirstMonth(rows) + 1, i);
  }

  /** The i-th of the buckets from month k on: month k + i's label, and its bin's hours. */
  lemma BucketAt(rows: seq<Row>, k: int, n: nat, i: int)
    requires ValidMonth(k) && ValidMonth(k + n - 1) && 0 <= i < n
    ensures var b := Buckets(rows, k, n);
      && ValidMonth(k + i) && b[i].start == MonthStart(k + i)
      && InRange(b[i].start) && MonthIndex(b[i].start) == k + i
      && b[i].hours == HoursBetween(rows, MonthStart(k + i), MonthEnd(k + i))
      && (i + 1 < n ==> b[i + 1].start == MonthEnd(k + i))
  {
    var b := Buckets(rows, k, n);
    var m := MonthStart(k + i);
    assert b[i] == Bucket(m, HoursBetween(rows, m, MonthEnd(k + i)));
    MonthStartLabel(k + i);
    if i + 1 < n {
      assert b[i + 1].start == MonthStart(k + i + 1);
      MonthTiles(k + i);
    }
  }

  /** A month with no rows gets a bucket with 0 hours. */
  lemma {:induction false} HoursBetweenEmpty(rows: seq<Row>, lo: int, hi: int)
    requires forall i :: 0 <= i < |rows| ==> !(lo <= rows[i].day < hi)
    ensures HoursBetween(rows, lo, hi) == 0.0
  {
    if |rows| > 0 {
      HoursBetweenEmpty(rows[1..], lo, hi);
    }
  }

  /** Adjacent day ranges add up. */
  lemma {:induction false} HoursBetweenSplit(rows: seq<Row>, lo: int, mid: int, hi: int)
    requires lo <= mid <= hi
    ensures HoursBetween(rows, lo, mid) + HoursBetween(rows, mid, hi) == HoursBetween(rows, lo, hi)
  {
    if |rows| > 0 {
      HoursBetweenSplit(rows[1..], lo, mid, hi);
    }
  }

  /** A range holding every row holds all the hours. */
  lemma {:induction false} HoursBetweenAll(rows: seq<Row>, lo: int, hi: int)
    requires forall i :: 0 <= i < |rows| ==> lo <= rows[i].day < hi
    ensures HoursBetween(rows, lo, hi) == Sum(RowHours(rows))
  {
    if |rows| > 0 {
      assert RowHours(rows)[1..] == RowHours(rows[1..]);
      HoursBetweenAll(rows[1..], lo, hi);
    }
  }

  lemma {:induction false} BucketsTotal(rows: seq<Row>, k: int, n: nat)
    requires ValidMonth(k) && ValidMonth(k + n - 1) && n > 0
    ensures Sum(BucketHours(Buckets(rows, k, n))) == HoursBetween(rows, MonthStart(k), MonthEnd(k + n - 1))
    decreases n
  {
    var hs := BucketHours(Buckets(rows, k, n));
    assert hs[0] == HoursBetween(rows, MonthStart(k), MonthEnd(k));
    assert Sum(hs) == hs[0] + Sum(hs[1..]);
    if n == 1 {
      assert hs[1..] == [];
    } else {
      BucketsTail(rows, k, n);
      BucketsTotal(rows, k + 1, n - 1);
      MonthStartBeforeEnd(k, n);
      HoursBetweenSplit(rows, MonthStart(k), MonthEnd(k), MonthEnd(k + n - 1));
    }
  }

  lemma BucketsTail(rows: seq<Row>, k: int, n: nat)
    requires ValidMonth(k) && ValidMonth(k + n - 1) && n > 1
    ensures BucketHours(Buckets(rows, k, n))[1..] == BucketHours(Buckets(rows, k + 1, n - 1))
  {
  }

  lemma MonthStartBeforeEnd(k: int, n: nat)
    requires ValidMonth(k) && ValidMonth(k + n - 1) && n > 1
    ensures MonthStart(k + 1) == MonthEnd(k) <= MonthEnd(k + n - 1)
  {
    MonthTiles(k);
    MonthTiles(k + n - 1);
    if k + 1 < k + n - 1 {
      MonthStartMonotone(k + 1, k + n - 1);
    }
  }

  /** Resampling neither loses nor invents hours: the buckets sum to the rows' total. */
  lemma ResampleConserves(rows: seq<Row>)
    requires AllInRange(rows)
    ensures Sum(BucketHours(Resample(rows))) == Sum(RowHours(rows))
  {
    ResampleIsBuckets(rows);
    if |rows| > 0 {
      var k0, k1 := FirstMonth(rows), LastMonth(rows);
      BucketsTotal(rows, k0, k1 - k0 + 1);
      RowsWithinMonths(rows);
      HoursBetweenAll(rows, MonthStart(k0), MonthEnd(k1));
    }
  }

  /** Every row lies between the first day of the first month and the end of the last. */
  lemma RowsWithinMonths(rows: seq<Row>)
    requires AllInRange(rows) && |rows| > 0
    ensures ValidMonth(FirstMonth(rows)) && ValidMonth(LastMonth(rows))
    ensures forall i :: 0 <= i < |rows| ==> MonthStart(FirstMonth(rows)) <= rows[i].day < MonthEnd(LastMonth(rows))
  {
    var lo, hi := Min(RowDays(rows)), Max(RowDays(rows));
    MonthIndexRange(lo, FirstMonth(rows));
    MonthIndexRange(hi, LastMonth(rows));
    forall i | 0 <= i < |rows| ensures lo <= rows[i].day <= hi {
      assert RowDays(rows)[i] == rows[i].day;
    }
  }

  /** Every row is counted in the bucket of its own calendar month: the bucket whose label
      begins that month. */
  lemma ResampleRowBucket(rows: seq<Row>, j: int)
    requires AllInRange(rows) && 0 <= j < |rows|
    ensures var b, i := Resample(rows), MonthIndex(rows[j].day) - FirstMonth(rows);
      && 0 <= i < |b| && InRange(b[i].start) && ValidMonth(MonthIndex(b[i].start))
      && b[i].start <= rows[j].day < MonthEnd(MonthIndex(b[i].start))
  {
    var lo, hi, day := Min(RowDays(rows)), Max(RowDays(rows)), rows[j].day;
    assert lo <= RowDays(rows)[j] <= hi;
    MonthIndexMonotone(lo, day);
    MonthIndexMonotone(day, hi);
    var k := MonthIndex(day);
    var i := k - FirstMonth(rows);
    ResampleIsBuckets(rows);
    ResampleBins(rows, i);
    var start := Resample(rows)[i].start;
    assert MonthIndex(start) == k && start == MonthStart(k);
    MonthIndexRange(day, k);
  }

  /** No rows give no buckets; otherwise the buckets are the months from the first row's
      month to the last row's. */
  lemma ResampleIsBuckets(rows: seq<Row>)
    requires AllInRange(rows)
    ensures |rows| == 0 ==> Resample(rows) == []
    ensures |rows| > 0 ==>
      && FirstMonth(rows) <= LastMonth(rows)
      && Resample(rows) == Buckets(rows, FirstMonth(rows), LastMonth(rows) - FirstMonth(rows) + 1)
  {
    assert ResampleAfter(rows, 1) == ResampleAfter(rows, 0);
    if |rows| > 0 {
      MonthIndexMonotone(Min(RowDays(rows)), Max(RowDays(rows)));
    }
  }

  /** A month in range that has no rows still gets its bucket, holding 0 hours. */
  lemma ResampleEmptyMonth(rows: seq<Row>, i: int)
    requires AllInRange(rows) && |rows| > 0 && 0 <= i < |Resample(rows)|
    requires forall j :: 0 <= j < |rows| ==> MonthIndex(rows[j].day) != FirstMonth(rows) + i
    ensures Resample(rows)[i].hours == 0.0
  {
    var k := FirstMonth(rows) + i;
    ResampleBins(rows, i);
    NoRowsInMonth(rows, k);
    HoursBetweenEmpty(rows, MonthStart(k), MonthEnd(k));
  }

  lemma NoRowsInMonth(rows: seq<Row>, k: int)
    requires AllInRange(rows) && ValidMonth(k)
    requires forall j :: 0 <= j < |rows| ==> MonthIndex(rows[j].day) != k
    ensures forall j :: 0 <= j < |rows| ==> !(MonthStart(k) <= rows[j].day < MonthEnd(k))
  {
    forall j | 0 <= j < |rows| ensures !(MonthStart(k) <= rows[j].day < MonthEnd(k)) {
      MonthIndexRange(rows[j].day, k);
    }
  }

  /** Labels strictly increase: the monthly table is in date order. */
  lemma ResampleAscending(rows: seq<Row>)
    requires AllInRange(rows)
    ensures var b := Resample(rows);
      forall i, j :: 0 <= i < j < |b| ==> b[i].start < b[j].start
  {
    ResampleIsBuckets(rows);
    if |rows| > 0 {
      BucketsAscending(rows, FirstMonth(rows), LastMonth(rows) - FirstMonth(rows) + 1);
    }
  }

  lemma BucketsAscending(rows: seq<Row>, k: int, n: nat)
    requires ValidMonth(k) && (n == 0 || ValidMonth(k + n - 1))
    ensures var b := Buckets(rows, k, n);
      forall i, j :: 0 <= i < j < |b| ==> b[i].start < b[j].start
  {
    var b := Buckets(rows, k, n);
    forall i, j | 0 <= i < j < |b| ensures b[i].start < b[j].start {
      assert b[i].start == MonthStart(k + i) && b[j].start == MonthStart(k + j);
      MonthStartMonotone(k + i, k + j);
    }
  }

  // ---------------------------------------------------------------------------
  // Cumulative hours: cumsum()

  /** Running totals of a column: the total so far plus each value in turn. */
  function RunningTotals(total: real, hs: seq<real>): (cs: seq<real>)
    ensures |cs| == |hs|
    ensures |hs| > 0 ==> cs[0] == total + hs[0]
    ensures forall i :: 0 < i < |hs| ==> cs[i] == cs[i - 1] + hs[i]
    decreases |hs|
  {
    if |hs| == 0 then [] else [total + hs[0]] + RunningTotals(total + hs[0], hs[1..])
  }

  /** The cumulative column: it starts at the first value and each entry adds its own value
      to the one before. */
  function CumSum(hs: seq<real>): (cs: seq<real>)
    ensures |cs| == |hs|
    ensures |hs| > 0 ==> cs[0] == hs[0]
    ensures forall i :: 0 < i < |hs| ==> cs[i] == cs[i - 1] + hs[i]
  {
    RunningTotals(0.0, hs)
  }

  lemma {:induction false} RunningTotalsArePrefixSums(total: real, hs: seq<real>)
    ensures forall i :: 0 <= i < |hs| ==> RunningTotals(total, hs)[i] == total + Sum(hs[..i + 1])
    decreases |hs|
  {
    if |hs| > 0 {
      var rest := RunningTotals(total + hs[0], hs[1..]);
      RunningTotalsArePrefixSums(total + hs[0], hs[1..]);
      forall i | 0 <= i < |hs| ensures RunningTotals(total, hs)[i] == total + Sum(hs[..i + 1]) {
        assert hs[..i + 1][1..] == hs[1..][..i];
        if i > 0 {
          assert RunningTotals(total, hs)[i] == rest[i - 1];
        }
      }
    }
  }

  /** Cumulative Hours[i] is the sum of Hours[0..i]. */
  lemma CumSumIsPrefixSum(hs: seq<real>)
    ensures forall i :: 0 <= i < |hs| ==> CumSum(hs)[i] == Sum(hs[..i + 1])
  {
    RunningTotalsArePrefixSums(0.0, hs);
  }

  /** With no negative hours the cumulative curve never goes down. */
  lemma CumSumMonotone(hs: seq<real>, i: int, j: int)
    requires forall k :: 0 <= k < |hs| ==> hs[k] >= 0.0
    requires 0 <= i <= j < |hs|
    ensures CumSum(hs)[i] <= CumSum(hs)[j]
  {
    CumSumIsPrefixSum(hs);
    assert hs[..j + 1] == hs[..i + 1] + hs[i + 1..j + 1];
    SumConcat(hs[..i + 1], hs[i + 1..j + 1]);
    SumNonNegative(hs[i + 1..j + 1]);
  }

  /** The cumulative curve ends at the column's total. */
  lemma CumSumLast(hs: seq<real>)
    requires |hs| > 0
    ensures CumSum(hs)[|hs| - 1] == Sum(hs)
  {
    CumSumIsPrefixSum(hs);
    assert hs[..|hs|] == hs;
  }

  // ---------------------------------------------------------------------------
  // 6-month trailing mean: rolling(window=6).mean()

  const Window := 6

  /** The mean of each bucket and the five before it; absent until six buckets exist. */
  function RollingMean(hs: seq<real>): (r: seq<Option<real>>)
    ensures |r| == |hs|
    ensures forall i :: 0 <= i < |hs| ==> (r[i].None? <==> i < Window - 1)
  {
    seq(|hs|, i requires 0 <= i < |hs| =>
      if i < Window - 1 then None else Some(Sum(hs[i - (Window - 1)..i + 1]) / Window as real))
  }

  /** The trailing mean is the rise of the cumulative curve over the last six buckets, divided
      by six; the first mean is the cumulative total so far, divided by six. */
  lemma RollingMeanFromCumSum(hs: seq<real>, i: int)
    requires Window - 1 <= i < |hs|
    ensures RollingMean(hs)[i] ==
      Some((CumSum(hs)[i] - (if i == Window - 1 then 0.0 else CumSum(hs)[i - Window])) / 6.0)
  {
    var total := CumSum(hs)[i];
    CumSumAt(hs, i);
    if i == Window - 1 {
      assert hs[..i - 5] == [];
      RollingMeanPrefixSums(hs, i, total, 0.0);
    } else {
      var earlier := CumSum(hs)[i - Window];
      CumSumAt(hs, i - Window);
      assert hs[..i - Window + 1] == hs[..i - 5];
      RollingMeanPrefixSums(hs, i, total, earlier);
    }
  }

  lemma CumSumAt(hs: seq<real>, i: int)
    requires 0 <= i < |hs|
    ensures CumSum(hs)[i] == Sum(hs[..i + 1])
  {
    CumSumIsPrefixSum(hs);
  }

  lemma RollingMeanPrefixSums(hs: seq<real>, i: int, total: real, earlier: real)
    requires Window - 1 <= i < |hs|
    requires total == Sum(hs[..i + 1]) && earlier == Sum(hs[..i - 5])
    ensures RollingMean(hs)[i] == Some((total - earlier) / 6.0)
  {
    var before, w := hs[..i - 5], hs[i - 5..i + 1];
    assert hs[..i + 1] == before + w;
    SumConcat(before, w);
  }

  /** A mean of six buckets lies between their smallest and largest possible values. */
  lemma RollingMeanBounds(hs: seq<real>, i: int, lo: real, hi: real)
    requires Window - 1 <= i < |hs|
    requires forall k :: 0 <= k < |hs| ==> lo <= hs[k] <= hi
    ensures lo <= RollingMean(hs)[i].value <= hi
  {
    var w := hs[i - 5..i + 1];
    SumBounds(w, lo, hi);
    TimesIsProduct(6, lo);
    TimesIsProduct(6, hi);
  }

  // ---------------------------------------------------------------------------
  // Headline figures

  function BucketStarts(buckets: seq<Bucket>): (ds: seq<int>)
    ensures |ds| == |buckets| && forall i :: 0 <= i < |buckets| ==> ds[i] == buckets[i].start
  {
    seq(|buckets|, i requires 0 <= i < |buckets| => buckets[i].start)
  }

  /** Total Life Hours: the sum of the monthly column, which is where the cumulative column
      ends. */
  function TotalHours(buckets: seq<Bucket>): (t: real)
    ensures |buckets| > 0 ==> t == CumSum(BucketHours(buckets))[|buckets| - 1]
  {
    if |buckets| > 0 then
      CumSumLast(BucketHours(buckets));
      Sum(BucketHours(buckets))
    else Sum(BucketHours(buckets))
  }

  /** Days between the earliest and the latest bucket label. */
  function LabelSpan(buckets: seq<Bucket>): int
    requires |buckets| > 0
  {
    LabelSpanAfter(buckets, 1)
  }

  function LabelSpanAfter(buckets: seq<Bucket>, steps: nat): int
    requires |buckets| > 0
  {
    if steps > 0 then LabelSpanAfter(buckets, steps - 1)
    else Max(BucketStarts(buckets)) - Min(BucketStarts(buckets))
  }

  /** Days from the first to the last bucket label, over 365.25, divide the total; undefined
      (None) for an empty table or a single label. */
  function AvgPerYear(buckets: seq<Bucket>): (r: Option<real>)
    ensures r.None? <==> |buckets| == 0 || LabelSpan(buckets) == 0
    ensures r.Some? ==>
      |buckets| > 0 && r.value * (LabelSpan(buckets) as real / 365.25) == TotalHours(buckets)
  {
    if |buckets| == 0 then None
    else
      var days := LabelSpan(buckets);
      if days == 0 then None
      else
        var avg := Some(TotalHours(buckets) / (days as real / 365.25));
        PerYearTimesYears(avg, TotalHours(buckets), days);
        avg
  }

  /** The life total counts every combined row's hours: the daily log plus the retreats. */
  lemma TotalHoursOfCombined(daily: seq<Row>, retreats: seq<Row>)
    requires AllInRange(daily) && AllInRange(retreats)
    ensures AllInRange(Combine(daily, retreats))
    ensures TotalHours(Resample(Combine(daily, retreats))) == Sum(RowHours(daily)) + Sum(RowHours(retreats))
  {
    CombineSpec(daily, retreats);
    ResampleConserves(Combine(daily, retreats));
  }

  /** The cumulative chart ends at the Total Life Hours figure. */
  lemma CumulativeEndsAtTotal(rows: seq<Row>)
    requires AllInRange(rows) && |rows| > 0
    ensures var b := Resample(rows);
      |b| > 0 && CumSum(BucketHours(b))[|b| - 1] == TotalHours(b) == Sum(RowHours(rows))
  {
    ResampleLabels(rows);
    ResampleConserves(rows);
    CumSumLast(BucketHours(Resample(rows)));
  }

  /** On the monthly table the average per year exists exactly when there are at least two
      months, and then it times the years between first and last label gives the total. */
  lemma AvgPerYearOfResample(rows: seq<Row>)
    requires AllInRange(rows)
    ensures var b := Resample(rows);
      && (AvgPerYear(b).Some? <==> |b| >= 2)
      && (AvgPerYear(b).Some? ==>
            AvgPerYear(b).value * ((b[|b| - 1].start - b[0].start) as real / 365.25) == TotalHours(b))
  {
    ResampleAscending(rows);
    AvgPerYearAscending(Resample(rows));
  }

  /** The same for any table in date order. */
  lemma AvgPerYearAscending(b: seq<Bucket>)
    requires forall i, j :: 0 <= i < j < |b| ==> b[i].start < b[j].start
    ensures && (AvgPerYear(b).Some? <==> |b| >= 2)
            && (AvgPerYear(b).Some? ==>
                  AvgPerYear(b).value * ((b[|b| - 1].start - b[0].start) as real / 365.25) == TotalHours(b))
  {
    if |b| > 0 {
      AscendingSpan(b);
      var days := b[|b| - 1].start - b[0].start;
      if days != 0 {
        PerYearTimesYears(AvgPerYear(b), TotalHours(b), days);
      }
    }
  }

  /** The labels of a table in date order span from its first to its last label, which
      coincide exactly when there is a single label. */
  lemma AscendingSpan(b: seq<Bucket>)
    requires |b| > 0 && forall i, j :: 0 <= i < j < |b| ==> b[i].start < b[j].start
    ensures LabelSpan(b) == b[|b| - 1].start - b[0].start
    ensures b[|b| - 1].start - b[0].start == 0 <==> |b| < 2
  {
    assert LabelSpanAfter(b, 1) == LabelSpanAfter(b, 0);
    AscendingEnds(BucketStarts(b));
    if |b| >= 2 {
      assert b[0].start < b[|b| - 1].start;
    }
  }

  lemma PerYearTimesYears(avg: Option<real>, total: real, days: int)
    requires days != 0 && avg == Some(total / (days as real / 365.25))
    ensures avg.value * (days as real / 365.25) == total
  {
    var years := days as real / 365.25;
    assert years != 0.0;
  }

  /** In a strictly ascending column the least value comes first and the greatest last. */
  lemma AscendingEnds(xs: seq<int>)
    requires |xs| > 0 && forall i, j :: 0 <= i < j < |xs| ==> xs[i] < xs[j]
    ensures Min(xs) == xs[0] && Max(xs) == xs[|xs| - 1]
  {
  }

  /** From the two exported tables to the life total: the daily log's hours plus 12 hours for
      every retreat day. */
  lemma PipelineTotal(log: seq<ConvertDaily.DailyRow>, retreats: seq<ConvertRetreats.Retreat>)
    requires ParseDaily(log).Some? && ParseRetreats(retreats).Some?
    ensures var spans := ParseRetreats(retreats).value;
      var rows := Combine(ParseDaily(log).value, RetreatRows(spans));
      && AllInRange(rows)
      && TotalHours(Resample(rows)) == Sum(ConvertDaily.Hours(log)) + Times(TotalSpanDays(spans), RetreatHours)
  {
    var spans := ParseRetreats(retreats).value;
    RetreatRowsInRange(spans);
    ParseDailyTotal(log);
    RetreatRowsTotal(spans);
    TotalHoursOfCombined(ParseDaily(log).value, RetreatRows(spans));
  }
}
