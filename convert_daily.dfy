/** The daily practice log: hand-written habit phases are expanded into one row per day
    of each phase's inclusive date range, and the rows are then grouped by their date
    text with the hours of a date summed. */
module ConvertDaily {
  import opened Calendar
  import opened DateText
  import opened Wrappers
  import opened Sums

  /** A habit phase: first and last day as `YYYY-MM-DD` text, and hours per day. */
  datatype Phase = Phase(start: string, end: string, hours: real)

  /** A row of the daily log: the date as text and the hours practised. */
  datatype DailyRow = DailyRow(date: string, hours: real)

  /** Why the conversion stops: a phase date that is not a calendar date makes its date
      range fail, and an expansion without any row leaves no `Date` column to group by. */
  datatype DailyError = BadDate(text: string) | NoRows

  // ---------------------------------------------------------------------------
  // Columns of a daily table

  function Hours(rows: seq<DailyRow>): (hs: seq<real>)
    ensures |hs| == |rows| && forall i :: 0 <= i < |rows| ==> hs[i] == rows[i].hours
  {
    seq(|rows|, i requires 0 <= i < |rows| => rows[i].hours)
  }

  function Keys(rows: seq<DailyRow>): set<string> {
    set i | 0 <= i < |rows| :: rows[i].date
  }

  /** Sum of the hours of the rows whose date text is `key`. */
  function SumOn(rows: seq<DailyRow>, key: string): real {
    if |rows| == 0 then 0.0
    else (if rows[0].date == key then rows[0].hours else 0.0) + SumOn(rows[1..], key)
  }

  predicate StrictlySorted(rows: seq<DailyRow>) {
    forall i, j :: 0 <= i < j < |rows| ==> LexLess(rows[i].date, rows[j].date)
  }

  lemma HoursConcat(a: seq<DailyRow>, b: seq<DailyRow>)
    ensures Hours(a + b) == Hours(a) + Hours(b)
  {
  }

  lemma HoursCons(r: DailyRow, rows: seq<DailyRow>)
    ensures Sum(Hours([r] + rows)) == r.hours + Sum(Hours(rows))
  {
    assert Hours([r] + rows)[1..] == Hours(rows);
  }

  lemma {:induction false} SumOnConcat(a: seq<DailyRow>, b: seq<DailyRow>, key: string)
    ensures SumOn(a + b, key) == SumOn(a, key) + SumOn(b, key)
  {
    if |a| == 0 {
      assert a + b == b;
    } else {
      assert (a + b)[1..] == a[1..] + b;
      SumOnConcat(a[1..], b, key);
    }
  }

  lemma {:induction false} SumOnAbsent(rows: seq<DailyRow>, key: string)
    requires key !in Keys(rows)
    ensures SumOn(rows, key) == 0.0
  {
    if |rows| > 0 {
      assert rows[0].date in Keys(rows);
      assert Keys(rows[1..]) <= Keys(rows) by {
        forall k | k in Keys(rows[1..]) ensures k in Keys(rows) {
          var i :| 0 <= i < |rows| - 1 && rows[1..][i].date == k;
          assert rows[i + 1].date == k;
        }
      }
      SumOnAbsent(rows[1..], key);
    }
  }

  lemma KeysCons(r: DailyRow, rows: seq<DailyRow>)
    ensures Keys([r] + rows) == {r.date} + Keys(rows)
  {
    var s := [r] + rows;
    forall k | k in Keys(s) ensures k in {r.date} + Keys(rows) {
      var i :| 0 <= i < |s| && s[i].date == k;
      if i > 0 {
        assert rows[i - 1].date == k;
      }
    }
    forall k | k in Keys(rows) ensures k in Keys(s) {
      var i :| 0 <= i < |rows| && rows[i].date == k;
      assert s[i + 1].date == k;
    }
    assert s[0].date == r.date;
  }

  // ---------------------------------------------------------------------------
  // groupby("Date").sum(): keys sorted as text, one row per key

  /** Adds one row to a table that is sorted by date text with one row per date: merged
      into the row of its date if there is one, else placed before the first later date. */
  function InsertRow(acc: seq<DailyRow>, r: DailyRow): (res: seq<DailyRow>)
    ensures |res| == |acc| || |res| == |acc| + 1
  {
    if |acc| == 0 then [r]
    else if acc[0].date == r.date then [DailyRow(r.date, acc[0].hours + r.hours)] + acc[1..]
    else if LexLess(r.date, acc[0].date) then [r] + acc
    else [acc[0]] + InsertRow(acc[1..], r)
  }

  /** Inserting keeps the table sorted with one row per date, and adds the row's date. */
  lemma {:induction false} InsertRowSorted(acc: seq<DailyRow>, r: DailyRow)
    requires StrictlySorted(acc)
    ensures StrictlySorted(InsertRow(acc, r))
    ensures Keys(InsertRow(acc, r)) == Keys(acc) + {r.date}
  {
    if |acc| == 0 {
      KeysCons(r, []);
      assert [r] + [] == [r];
    } else if acc[0].date == r.date {
      InsertRowSortedMerge(acc, r);
    } else if LexLess(r.date, acc[0].date) {
      InsertRowSortedFront(acc, r);
    } else {
      InsertRowSorted(acc[1..], r);
      InsertRowSortedPast(acc, r);
    }
  }

  lemma InsertRowSortedMerge(acc: seq<DailyRow>, r: DailyRow)
    requires StrictlySorted(acc) && |acc| > 0 && acc[0].date == r.date
    ensures StrictlySorted(InsertRow(acc, r))
    ensures Keys(InsertRow(acc, r)) == Keys(acc) + {r.date}
  {
    var res := InsertRow(acc, r);
    assert res == [DailyRow(r.date, acc[0].hours + r.hours)] + acc[1..];
    KeysCons(res[0], acc[1..]);
    KeysCons(acc[0], acc[1..]);
    assert acc == [acc[0]] + acc[1..];
  }

  lemma InsertRowSortedFront(acc: seq<DailyRow>, r: DailyRow)
    requires StrictlySorted(acc) && |acc| > 0 && LexLess(r.date, acc[0].date)
    ensures StrictlySorted(InsertRow(acc, r))
    ensures Keys(InsertRow(acc, r)) == Keys(acc) + {r.date}
  {
    forall j | 0 <= j < |acc| ensures LexLess(r.date, acc[j].date) {
      if j > 0 {
        LexTransitive(r.date, acc[0].date, acc[j].date);
      }
    }
    ConsSorted(r, acc);
    KeysCons(r, acc);
    LexIrreflexive(r.date);
    assert InsertRow(acc, r) == [r] + acc;
  }

  lemma InsertRowSortedPast(acc: seq<DailyRow>, r: DailyRow)
    requires StrictlySorted(acc) && |acc| > 0
    requires acc[0].date != r.date && !LexLess(r.date, acc[0].date)
    requires StrictlySorted(InsertRow(acc[1..], r))
    requires Keys(InsertRow(acc[1..], r)) == Keys(acc[1..]) + {r.date}
    ensures StrictlySorted(InsertRow(acc, r))
    ensures Keys(InsertRow(acc, r)) == Keys(acc) + {r.date}
  {
    var tail := InsertRow(acc[1..], r);
    LexTotal(r.date, acc[0].date);
    forall j | 0 <= j < |tail| ensures LexLess(acc[0].date, tail[j].date) {
      HeadBeforeTail(acc, r, tail, j);
    }
    ConsSorted(acc[0], tail);
    KeysCons(acc[0], tail);
    KeysCons(acc[0], acc[1..]);
    assert acc == [acc[0]] + acc[1..];
    assert InsertRow(acc, r) == [acc[0]] + tail;
  }

  /** A row whose date comes before every date of a sorted table can head it. */
  lemma ConsSorted(h: DailyRow, rows: seq<DailyRow>)
    requires StrictlySorted(rows)
    requires forall j :: 0 <= j < |rows| ==> LexLess(h.date, rows[j].date)
    ensures StrictlySorted([h] + rows)
  {
    var res := [h] + rows;
    forall i, j | 0 <= i < j < |res| ensures LexLess(res[i].date, res[j].date) {
      assert res[j] == rows[j - 1];
      if i > 0 {
        assert res[i] == rows[i - 1];
      }
    }
  }

  lemma HeadBeforeTail(acc: seq<DailyRow>, r: DailyRow, tail: seq<DailyRow>, j: int)
    requires StrictlySorted(acc) && |acc| > 0 && LexLess(acc[0].date, r.date)
    requires Keys(tail) == Keys(acc[1..]) + {r.date}
    requires 0 <= j < |tail|
    ensures LexLess(acc[0].date, tail[j].date)
  {
    assert tail[j].date in Keys(tail);
    if tail[j].date != r.date {
      var m :| 0 <= m < |acc| - 1 && acc[1..][m].date == tail[j].date;
      assert LexLess(acc[0].date, acc[m + 1].date);
    }
  }

  /** The per-date sums of all rows, one row per distinct date, sorted by date text. */
  function GroupSum(rows: seq<DailyRow>): (res: seq<DailyRow>)
    ensures StrictlySorted(res)
    ensures Keys(res) == Keys(rows)
  {
    if |rows| == 0 then []
    else
      var init, last := rows[..|rows| - 1], rows[|rows| - 1];
      assert rows == init + [last];
      assert Keys(rows) == Keys(init) + {last.date} by {
        forall k | k in Keys(rows) ensures k in Keys(init) + {last.date} {
          var i :| 0 <= i < |rows| && rows[i].date == k;
          if i < |rows| - 1 {
            assert init[i].date == k;
          }
        }
      }
      InsertRowSorted(GroupSum(init), last);
      InsertRow(GroupSum(init), last)
  }

  /** Inserting a row adds its hours to its own date's total and to no other date's. */
  lemma {:induction false} InsertRowSumOn(acc: seq<DailyRow>, r: DailyRow, key: string)
    ensures SumOn(InsertRow(acc, r), key) == SumOn(acc, key) + (if key == r.date then r.hours else 0.0)
  {
    var res := InsertRow(acc, r);
    if |acc| > 0 {
      var rest := acc[1..];
      assert acc == [acc[0]] + rest;
      if acc[0].date == r.date {
        assert res == [DailyRow(r.date, acc[0].hours + r.hours)] + rest;
      } else if LexLess(r.date, acc[0].date) {
        assert res == [r] + acc;
      } else {
        assert res == [acc[0]] + InsertRow(rest, r);
        InsertRowSumOn(rest, r, key);
      }
    }
  }

  /** Inserting a row adds its hours to the grand total. */
  lemma {:induction false} InsertRowTotal(acc: seq<DailyRow>, r: DailyRow)
    ensures Sum(Hours(InsertRow(acc, r))) == Sum(Hours(acc)) + r.hours
  {
    if |acc| == 0 {
      HoursCons(r, []);
    } else {
      var rest := acc[1..];
      assert acc == [acc[0]] + rest;
      HoursCons(acc[0], rest);
      var res := InsertRow(acc, r);
      if acc[0].date == r.date {
        var merged := DailyRow(r.date, acc[0].hours + r.hours);
        assert res == [merged] + rest;
        HoursCons(merged, rest);
      } else if LexLess(r.date, acc[0].date) {
        assert res == [r] + acc;
        HoursCons(r, acc);
      } else {
        InsertRowTotal(rest, r);
        InsertRowTotalStep(acc[0], InsertRow(rest, r), res);
      }
    }
  }

  lemma InsertRowTotalStep(h: DailyRow, tail: seq<DailyRow>, res: seq<DailyRow>)
    requires res == [h] + tail
    ensures Sum(Hours(res)) == h.hours + Sum(Hours(tail))
  {
    HoursCons(h, tail);
  }

  /** Grouping keeps every date's total and the grand total of hours. */
  lemma {:induction false} GroupSumConserves(rows: seq<DailyRow>, key: string)
    ensures SumOn(GroupSum(rows), key) == SumOn(rows, key)
    ensures Sum(Hours(GroupSum(rows))) == Sum(Hours(rows))
  {
    if |rows| > 0 {
      var init, last := rows[..|rows| - 1], rows[|rows| - 1];
      assert rows == init + [last];
      GroupSumConserves(init, key);
      InsertRowSumOn(GroupSum(init), last, key);
      InsertRowTotal(GroupSum(init), last);
      SumOnConcat(init, [last], key);
      HoursConcat(init, [last]);
      SumConcat(Hours(init), Hours([last]));
    }
  }

  /** In a table with one row per date, a row's hours are the table's total for its date. */
  lemma {:induction false} SumOnSorted(rows: seq<DailyRow>, i: int)
    requires StrictlySorted(rows) && 0 <= i < |rows|
    ensures SumOn(rows, rows[i].date) == rows[i].hours
  {
    if i == 0 {
      forall k | k in Keys(rows[1..]) ensures k != rows[0].date {
        var m :| 0 <= m < |rows| - 1 && rows[1..][m].date == k;
        assert LexLess(rows[0].date, rows[m + 1].date);
        LexIrreflexive(k);
      }
      SumOnAbsent(rows[1..], rows[0].date);
    } else {
      assert LexLess(rows[0].date, rows[i].date);
      LexIrreflexive(rows[i].date);
      SumOnSorted(rows[1..], i - 1);
    }
  }

  /** What groupby("Date").sum() promises: each date once, in ascending text order, carrying
      the sum of the hours of every input row with that date, and nothing lost overall. */
  lemma GroupSumSpec(rows: seq<DailyRow>)
    ensures var out := GroupSum(rows);
      && (forall i, j :: 0 <= i < j < |out| ==> LexLess(out[i].date, out[j].date))
      && (forall i, j :: 0 <= i < j < |out| ==> out[i].date != out[j].date)
      && Keys(out) == Keys(rows)
      && (forall i :: 0 <= i < |out| ==> out[i].hours == SumOn(rows, out[i].date))
      && Sum(Hours(out)) == Sum(Hours(rows))
  {
    var out := GroupSum(rows);
    forall i, j | 0 <= i < j < |out| ensures out[i].date != out[j].date {
      LexIrreflexive(out[i].date);
    }
    forall i | 0 <= i < |out| ensures out[i].hours == SumOn(rows, out[i].date) {
      SumOnSorted(out, i);
      GroupSumConserves(rows, out[i].date);
    }
    GroupSumConserves(rows, "");
  }

  // ---------------------------------------------------------------------------
  // pd.date_range(start, end): every day from start to end, both included

  /** `count` consecutive days from day number `first`, each with `h` hours. */
  function RangeRows(first: int, count: nat, h: real): (rows: seq<DailyRow>)
    requires count == 0 || (InRange(first) && InRange(first + count - 1))
    ensures |rows| == count
  {
    seq(count, i requires 0 <= i < count && InRange(first + i) => DailyRow(DayText(first + i), h))
  }

  /** A range one day longer is the range followed by its new last day. */
  lemma RangeRowsLast(first: int, count: nat, h: real)
    requires InRange(first) && InRange(first + count)
    ensures RangeRows(first, count + 1, h) == RangeRows(first, count, h) + [DailyRow(DayText(first + count), h)]
  {
    var a, b := RangeRows(first, count + 1, h), RangeRows(first, count, h) + [DailyRow(DayText(first + count), h)];
    forall i | 0 <= i <= count ensures a[i] == b[i] {
      if i < count {
        assert b[i] == RangeRows(first, count, h)[i];
      }
    }
  }

  /** The rows of a range carry a day's hours exactly when the day lies in the range. */
  lemma {:induction false} RangeRowsOnDay(first: int, count: nat, h: real, n: int)
    requires count == 0 || (InRange(first) && InRange(first + count - 1))
    requires InRange(n)
    ensures SumOn(RangeRows(first, count, h), DayText(n)) ==
      if first <= n < first + count then h else 0.0
  {
    if count > 0 {
      var k := count - 1;
      RangeRowsLast(first, k, h);
      RangeRowsOnDay(first, k, h, n);
      SumOnConcat(RangeRows(first, k, h), [DailyRow(DayText(first + k), h)], DayText(n));
      DayTextOrder(first + k, n);
    }
  }

  /** Every text in a range is the text of one of its days ... */
  lemma RangeRowsKeysDays(first: int, count: nat, h: real, key: string)
    requires count == 0 || (InRange(first) && InRange(first + count - 1))
    requires key in Keys(RangeRows(first, count, h))
    ensures Parse(key).Some? && first <= ToDay(Parse(key).value) < first + count
  {
    var rows := RangeRows(first, count, h);
    var i :| 0 <= i < |rows| && rows[i].date == key;
    assert key == DayText(first + i);
    DayTextParse(first + i);
  }

  /** ... and the text of each of its days is in it. */
  lemma RangeRowsDaysKeys(first: int, count: nat, h: real, key: string)
    requires count == 0 || (InRange(first) && InRange(first + count - 1))
    requires Parse(key).Some? && first <= ToDay(Parse(key).value) < first + count
    ensures key in Keys(RangeRows(first, count, h))
  {
    var rows := RangeRows(first, count, h);
    var i := ToDay(Parse(key).value) - first;
    DayTextOfParse(key);
    assert rows[i].date == key;
  }

  /** A range mentions exactly the texts of the days in it. */
  lemma RangeRowsKeys(first: int, count: nat, h: real, key: string)
    requires count == 0 || (InRange(first) && InRange(first + count - 1))
    ensures key in Keys(RangeRows(first, count, h)) <==>
      Parse(key).Some? && first <= ToDay(Parse(key).value) < first + count
  {
    if key in Keys(RangeRows(first, count, h)) {
      RangeRowsKeysDays(first, count, h, key);
    }
    if Parse(key).Some? && first <= ToDay(Parse(key).value) < first + count {
      RangeRowsDaysKeys(first, count, h, key);
    }
  }

  /** Row i of a range is day first + i, its text reads back as that day, the texts ascend,
      and every row carries the range's hours. */
  lemma RangeRowsSpec(first: int, count: nat, h: real)
    requires count == 0 || (InRange(first) && InRange(first + count - 1))
    ensures var rows := RangeRows(first, count, h);
      && (forall i :: 0 <= i < count ==> rows[i].hours == h)
      && (forall i :: 0 <= i < count ==>
            Parse(rows[i].date).Some? && ToDay(Parse(rows[i].date).value) == first + i)
      && (forall i :: 0 < i < count ==> LexLess(rows[i - 1].date, rows[i].date))
  {
    RangeRowsParse(first, count, h);
    RangeRowsAscending(first, count, h);
  }

  lemma RangeRowsParse(first: int, count: nat, h: real)
    requires count == 0 || (InRange(first) && InRange(first + count - 1))
    ensures var rows := RangeRows(first, count, h);
      forall i :: 0 <= i < count ==>
        Parse(rows[i].date).Some? && ToDay(Parse(rows[i].date).value) == first + i
  {
    var rows := RangeRows(first, count, h);
    forall i | 0 <= i < count
      ensures Parse(rows[i].date).Some? && ToDay(Parse(rows[i].date).value) == first + i
    {
      DayTextParse(first + i);
    }
  }

  lemma RangeRowsAscending(first: int, count: nat, h: real)
    requires count == 0 || (InRange(first) && InRange(first + count - 1))
    ensures var rows := RangeRows(first, count, h);
      forall i :: 0 < i < count ==> LexLess(rows[i - 1].date, rows[i].date)
  {
    var rows := RangeRows(first, count, h);
    forall i | 0 < i < count ensures LexLess(rows[i - 1].date, rows[i].date) {
      DayTextOrder(first + i - 1, first + i);
    }
  }

  lemma RangeRowsTotal(first: int, count: nat, h: real)
    requires count == 0 || (InRange(first) && InRange(first + count - 1))
    ensures Sum(Hours(RangeRows(first, count, h))) == Times(count, h)
  {
    var rows := RangeRows(first, count, h);
    forall i | 0 <= i < count ensures Hours(rows)[i] == h {
    }
    SumConstant(Hours(rows), h);
  }

  // ---------------------------------------------------------------------------
  // One phase

  predicate WellFormed(p: Phase) {
    Parse(p.start).Some? && Parse(p.end).Some?
  }

  function FirstDay(p: Phase): int
    requires WellFormed(p)
  {
    ToDay(Parse(p.start).value)
  }

  function LastDay(p: Phase): int
    requires WellFormed(p)
  {
    ToDay(Parse(p.end).value)
  }

  /** Days in the phase's inclusive range; none when the start lies after the end. */
  function DayTotal(p: Phase): (n: nat)
    requires WellFormed(p)
    ensures FirstDay(p) <= LastDay(p) ==> n == LastDay(p) - FirstDay(p) + 1
    ensures FirstDay(p) > LastDay(p) ==> n == 0
  {
    if FirstDay(p) <= LastDay(p) then LastDay(p) - FirstDay(p) + 1 else 0
  }

  predicate Covers(p: Phase, d: Date)
    requires WellFormed(p) && ValidDate(d)
  {
    FirstDay(p) <= ToDay(d) <= LastDay(p)
  }

  lemma PhaseInRange(p: Phase)
    requires WellFormed(p)
    ensures InRange(FirstDay(p)) && InRange(LastDay(p))
  {
    ToDayBounds(Parse(p.start).value);
    ToDayBounds(Parse(p.end).value);
  }

  /** The rows one phase contributes, or the text that is not a date. */
  function PhaseRows(p: Phase): (r: Result<seq<DailyRow>, DailyError>)
    ensures r.Success? <==> WellFormed(p)
    ensures r.Failure? ==>
      r.error.BadDate? && r.error.text in {p.start, p.end} && Parse(r.error.text).None?
  {
    if Parse(p.start).None? then Failure(BadDate(p.start))
    else if Parse(p.end).None? then Failure(BadDate(p.end))
    else
      PhaseInRange(p);
      Success(RangeRows(FirstDay(p), DayTotal(p), p.hours))
  }

  /** A well-formed phase yields end - start + 1 rows (none if start > end), for consecutive
      days from start to end in ascending text order, each carrying the phase's hours. */
  lemma PhaseRowsSpec(p: Phase)
    requires WellFormed(p)
    ensures var rows := PhaseRows(p).value;
      && |rows| == DayTotal(p)
      && (forall i :: 0 <= i < |rows| ==> rows[i].hours == p.hours)
      && (forall i :: 0 <= i < |rows| ==>
            Parse(rows[i].date).Some? && ToDay(Parse(rows[i].date).value) == FirstDay(p) + i)
      && (forall i :: 0 < i < |rows| ==> LexLess(rows[i - 1].date, rows[i].date))
  {
    PhaseInRange(p);
    RangeRowsSpec(FirstDay(p), DayTotal(p), p.hours);
  }

  /** The rows of a well-formed phase name exactly the dates from its start to its end, both
      included: DayTotal counts the days the phase covers. */
  lemma PhaseRowsKeys(p: Phase, key: string)
    requires WellFormed(p)
    ensures key in Keys(PhaseRows(p).value) <==> Parse(key).Some? && Covers(p, Parse(key).value)
  {
    PhaseInRange(p);
    RangeRowsKeys(FirstDay(p), DayTotal(p), p.hours, key);
  }

  // ---------------------------------------------------------------------------
  // All phases

  /** The rows of all phases, phase after phase, or the first text that is not a date. */
  function ExpandAll(phases: seq<Phase>): (r: Result<seq<DailyRow>, DailyError>)
    ensures r.Failure? ==> exists i :: 0 <= i < |phases| && PhaseRows(phases[i]) == Failure(r.error)
  {
    if |phases| == 0 then Success([])
    else
      match ExpandAll(phases[..|phases| - 1])
      case Failure(e) => Failure(e)
      case Success(rows) =>
        match PhaseRows(phases[|phases| - 1])
        case Failure(e) => Failure(e)
        case Success(more) => Success(rows + more)
  }

  predicate AllWellFormed(phases: seq<Phase>) {
    forall i :: 0 <= i < |phases| ==> WellFormed(phases[i])
  }

  /** Hours of the phases whose range contains d, summed. */
  function CoveredHours(phases: seq<Phase>, d: Date): real
    requires AllWellFormed(phases) && ValidDate(d)
  {
    if |phases| == 0 then 0.0
    else
      var p := phases[|phases| - 1];
      CoveredHours(phases[..|phases| - 1], d) + (if Covers(p, d) then p.hours else 0.0)
  }

  /** Total hours all phases describe: each phase's day count times its hours per day. */
  function PhaseHoursTotal(phases: seq<Phase>): real
    requires AllWellFormed(phases)
  {
    if |phases| == 0 then 0.0
    else
      var p := phases[|phases| - 1];
      PhaseHoursTotal(phases[..|phases| - 1]) + Times(DayTotal(p), p.hours)
  }

  predicate CoveredBySome(phases: seq<Phase>, d: Date)
    requires AllWellFormed(phases) && ValidDate(d)
  {
    exists i :: 0 <= i < |phases| && Covers(phases[i], d)
  }

  lemma {:induction false} ExpandAllSucceeds(phases: seq<Phase>)
    ensures ExpandAll(phases).Success? <==> AllWellFormed(phases)
  {
    if |phases| > 0 {
      var init := phases[..|phases| - 1];
      ExpandAllSucceeds(init);
      assert AllWellFormed(phases) <==> AllWellFormed(init) && WellFormed(phases[|phases| - 1]);
    }
  }

  lemma KeysConcat(a: seq<DailyRow>, b: seq<DailyRow>)
    ensures Keys(a + b) == Keys(a) + Keys(b)
  {
    forall k | k in Keys(a + b) ensures k in Keys(a) + Keys(b) {
      var i :| 0 <= i < |a + b| && (a + b)[i].date == k;
      if i < |a| {
        assert a[i].date == k;
      } else {
        assert b[i - |a|].date == k;
      }
    }
    forall k | k in Keys(a) + Keys(b) ensures k in Keys(a + b) {
      if k in Keys(a) {
        var i :| 0 <= i < |a| && a[i].date == k;
        assert (a + b)[i].date == k;
      } else {
        var i :| 0 <= i < |b| && b[i].date == k;
        assert (a + b)[|a| + i].date == k;
      }
    }
  }

  /** A date is covered by some phase of a list exactly when it is covered by some phase
      before the last one, or by the last one. */
  lemma CoveredBySomeLast(phases: seq<Phase>, d: Date)
    requires |phases| > 0 && AllWellFormed(phases) && ValidDate(d)
    ensures var init := phases[..|phases| - 1];
      AllWellFormed(init) &&
      (CoveredBySome(phases, d) <==> CoveredBySome(init, d) || Covers(phases[|phases| - 1], d))
  {
    var init := phases[..|phases| - 1];
    if CoveredBySome(phases, d) {
      var i :| 0 <= i < |phases| && Covers(phases[i], d);
      if i < |init| {
        assert init[i] == phases[i];
      }
    }
    if CoveredBySome(init, d) {
      var i :| 0 <= i < |init| && Covers(init[i], d);
      assert phases[i] == init[i];
    }
  }

  /** The expanded rows hold, for each date, the hours of the phases covering it. */
  lemma {:induction false} ExpandAllOnDate(phases: seq<Phase>, d: Date)
    requires AllWellFormed(phases) && ValidDate(d)
    ensures ExpandAll(phases).Success?
    ensures SumOn(ExpandAll(phases).value, Format(d)) == CoveredHours(phases, d)
  {
    ExpandAllSucceeds(phases);
    if |phases| > 0 {
      var init, p := phases[..|phases| - 1], phases[|phases| - 1];
      assert AllWellFormed(init);
      ExpandAllOnDate(init, d);
      var rows, more := ExpandAll(init).value, PhaseRows(p).value;
      PhaseInRange(p);
      SumOnConcat(rows, more, Format(d));
      DayTextOfDate(d);
      RangeRowsOnDay(FirstDay(p), DayTotal(p), p.hours, ToDay(d));
    }
  }

  /** The expanded rows mention a text exactly when it is a date some phase covers. */
  lemma {:induction false} ExpandAllKeys(phases: seq<Phase>, key: string)
    requires AllWellFormed(phases)
    ensures ExpandAll(phases).Success?
    ensures key in Keys(ExpandAll(phases).value) <==>
      Parse(key).Some? && CoveredBySome(phases, Parse(key).value)
  {
    ExpandAllSucceeds(phases);
    if |phases| > 0 {
      var init, p := phases[..|phases| - 1], phases[|phases| - 1];
      assert AllWellFormed(init);
      ExpandAllKeys(init, key);
      var rows, more := ExpandAll(init).value, PhaseRows(p).value;
      PhaseInRange(p);
      KeysConcat(rows, more);
      RangeRowsKeys(FirstDay(p), DayTotal(p), p.hours, key);
      if Parse(key).Some? {
        CoveredBySomeLast(phases, Parse(key).value);
      }
    }
  }

  /** The expanded rows carry every phase's days times its hours, and nothing more. */
  lemma {:induction false} ExpandAllTotal(phases: seq<Phase>)
    requires AllWellFormed(phases)
    ensures ExpandAll(phases).Success?
    ensures Sum(Hours(ExpandAll(phases).value)) == PhaseHoursTotal(phases)
  {
    ExpandAllSucceeds(phases);
    if |phases| > 0 {
      var init, p := phases[..|phases| - 1], phases[|phases| - 1];
      assert AllWellFormed(init);
      ExpandAllTotal(init);
      var rows, more := ExpandAll(init).value, PhaseRows(p).value;
      PhaseInRange(p);
      assert ExpandAll(phases).value == rows + more;
      HoursConcat(rows, more);
      SumConcat(Hours(rows), Hours(more));
      RangeRowsTotal(FirstDay(p), DayTotal(p), p.hours);
      assert PhaseHoursTotal(phases) == PhaseHoursTotal(init) + Times(DayTotal(p), p.hours);
    }
  }

  /** Every phase starts after it ends, so none of them has a day. */
  predicate NoDays(phases: seq<Phase>)
    requires AllWellFormed(phases)
  {
    forall i :: 0 <= i < |phases| ==> DayTotal(phases[i]) == 0
  }

  lemma NoDaysLast(phases: seq<Phase>)
    requires |phases| > 0 && AllWellFormed(phases)
    ensures var init := phases[..|phases| - 1];
      AllWellFormed(init) && (NoDays(phases) <==> NoDays(init) && DayTotal(phases[|phases| - 1]) == 0)
  {
    var init := phases[..|phases| - 1];
    assert forall i :: 0 <= i < |init| ==> init[i] == phases[i];
  }

  /** The expansion has no row at all exactly when every phase starts after it ends
      (in particular when there are no phases). */
  lemma {:induction false} ExpandAllEmpty(phases: seq<Phase>)
    requires AllWellFormed(phases)
    ensures ExpandAll(phases).Success?
    ensures |ExpandAll(phases).value| == 0 <==> NoDays(phases)
  {
    ExpandAllSucceeds(phases);
    if |phases| > 0 {
      var init, p := phases[..|phases| - 1], phases[|phases| - 1];
      NoDaysLast(phases);
      ExpandAllEmpty(init);
      PhaseInRange(p);
      assert ExpandAll(phases).value == ExpandAll(init).value + PhaseRows(p).value;
    }
  }

  // ---------------------------------------------------------------------------
  // The script: build the rows phase by phase, then group them by date

  /** Once a prefix of the phases fails, the whole expansion fails with the same error. */
  lemma {:induction false} ExpandAllFirstFailure(phases: seq<Phase>, j: int)
    requires 0 <= j <= |phases| && ExpandAll(phases[..j]).Failure?
    ensures ExpandAll(phases) == ExpandAll(phases[..j])
    decreases |phases| - j
  {
    if j < |phases| {
      var init := phases[..|phases| - 1];
      assert init[..j] == phases[..j];
      ExpandAllFirstFailure(init, j);
    } else {
      assert phases[..j] == phases;
    }
  }

  /** The inner loop over `pd.date_range(start, end)`: one row per day from first to last,
      both included, each with the date's text and h hours. */
  method AppendDays(rows: seq<DailyRow>, first: int, last: int, h: real) returns (res: seq<DailyRow>)
    requires InRange(first) && InRange(last)
    ensures res == rows + RangeRows(first, if first <= last then last - first + 1 else 0, h)
  {
    res := rows;
    var day := first;
    while day <= last
      invariant first <= day <= if first <= last then last + 1 else first
      invariant res == rows + RangeRows(first, day - first, h)
    {
      DayTextIsFormat(day);
      RangeRowsLast(first, day - first, h);
      res := res + [DailyRow(Format(FromDay(day)), h)];
      day := day + 1;
    }
  }

  /** The phase loop: one row per day of each phase's inclusive range, phase after phase. */
  method ExpandPhases(phases: seq<Phase>) returns (res: Result<seq<DailyRow>, DailyError>)
    ensures res == ExpandAll(phases)
  {
    var rows: seq<DailyRow> := [];
    var i := 0;
    while i < |phases|
      invariant 0 <= i <= |phases|
      invariant ExpandAll(phases[..i]) == Success(rows)
    {
      var p := phases[i];
      assert phases[..i + 1][..i] == phases[..i];
      var start := Parse(p.start);
      if start.None? {
        ExpandAllFirstFailure(phases, i + 1);
        return Failure(BadDate(p.start));
      }
      var end := Parse(p.end);
      if end.None? {
        ExpandAllFirstFailure(phases, i + 1);
        return Failure(BadDate(p.end));
      }
      PhaseInRange(p);
      rows := AppendDays(rows, ToDay(start.value), ToDay(end.value), p.hours);
      assert DayTotal(p) == if FirstDay(p) <= LastDay(p) then LastDay(p) - FirstDay(p) + 1 else 0;
      i := i + 1;
    }
    assert phases[..i] == phases;
    res := Success(rows);
  }

  /** The whole conversion: the phase loop followed by the group-by-date sum. An expansion
      without rows fails, since the table built from it has no `Date` column to group by. */
  method BuildDailyLog(phases: seq<Phase>) returns (res: Result<seq<DailyRow>, DailyError>)
    ensures res.Success? <==> AllWellFormed(phases) && |ExpandAll(phases).value| > 0
    ensures res == Failure(NoRows) <==> ExpandAll(phases) == Success([])
    ensures res.Success? ==> res.value == GroupSum(ExpandAll(phases).value) && |res.value| > 0
    ensures res.Success? ==> forall i, j :: 0 <= i < j < |res.value| ==>
      res.value[i].date != res.value[j].date
    ensures res.Success? ==> forall i :: 0 <= i < |res.value| ==>
      Parse(res.value[i].date).Some? &&
      res.value[i].hours == CoveredHours(phases, Parse(res.value[i].date).value)
    ensures res.Success? ==> Sum(Hours(res.value)) == PhaseHoursTotal(phases)
  {
    var expanded := ExpandPhases(phases);
    ExpandAllSucceeds(phases);
    if expanded.Failure? {
      return Failure(expanded.error);
    }
    if |expanded.value| == 0 {
      return Failure(NoRows);
    }
    var out := GroupSum(expanded.value);
    GroupSumSpec(expanded.value);
    assert expanded.value[0].date in Keys(out);
    forall i | 0 <= i < |out|
      ensures Parse(out[i].date).Some?
      ensures out[i].hours == CoveredHours(phases, Parse(out[i].date).value)
    {
      assert out[i].date in Keys(out);
      ExpandAllKeys(phases, out[i].date);
      var d := Parse(out[i].date).value;
      ExpandAllOnDate(phases, d);
      FormatParse(out[i].date);
    }
    ExpandAllTotal(phases);
    res := Success(out);
  }

  /** The log has a row for a date exactly when some phase covers it, and the rows run in
      chronological order. */
  lemma DailyLogDates(phases: seq<Phase>, d: Date)
    requires AllWellFormed(phases) && ValidDate(d)
    ensures ExpandAll(phases).Success?
    ensures var out := GroupSum(ExpandAll(phases).value);
      && (Format(d) in Keys(out) <==> CoveredBySome(phases, d))
      && (forall i :: 0 <= i < |out| ==> Parse(out[i].date).Some?)
      && (forall i, j :: 0 <= i < j < |out| ==>
            ToDay(Parse(out[i].date).value) < ToDay(Parse(out[j].date).value))
  {
    ExpandAllSucceeds(phases);
    var rows := ExpandAll(phases).value;
    var out := GroupSum(rows);
    ExpandAllKeys(phases, Format(d));
    ParseFormat(d);
    forall i | 0 <= i < |out| ensures Parse(out[i].date).Some? {
      assert out[i].date in Keys(out);
      ExpandAllKeys(phases, out[i].date);
    }
    forall i, j | 0 <= i < j < |out|
      ensures ToDay(Parse(out[i].date).value) < ToDay(Parse(out[j].date).value)
    {
      assert out[i].date in Keys(out) && out[j].date in Keys(out);
      ExpandAllKeys(phases, out[i].date);
      ExpandAllKeys(phases, out[j].date);
      FormatParse(out[i].date);
      FormatParse(out[j].date);
      FormatOrder(Parse(out[i].date).value, Parse(out[j].date).value);
    }
  }
}
