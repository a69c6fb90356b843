/** The supervision-load report (count_supervisions_per_day and the Total
    column, ujiandsb.py:465-482): for every instructor, how many
    supervisions fall on each exam day, and how many in all. */
module Tally {
  import opened Common
  import opened Supervision

  /** How often `x` occurs in `names`. */
  function Occ(names: seq<Instructor>, x: Instructor): (n: nat)
    ensures n <= |names|
    ensures n == 0 <==> x !in names
  {
    if names == [] then 0
    else
      assert names == names[..|names| - 1] + [names[|names| - 1]];
      Occ(names[..|names| - 1], x) + (if names[|names| - 1] == x then 1 else 0)
  }

  /** The supervisions of `x` in the rows held on day `d`. */
  function DayCount(rows: seq<ExamRow>, sup: seq<seq<Instructor>>, x: Instructor, d: Day): nat
    requires |sup| == |rows|
  {
    if rows == [] then 0
    else
      DayCount(rows[..|rows| - 1], sup[..|sup| - 1], x, d)
        + (if rows[|rows| - 1].session.day == d then Occ(sup[|sup| - 1], x) else 0)
  }

  /** All supervisions of `x`. */
  function TotalCount(sup: seq<seq<Instructor>>, x: Instructor): nat
  {
    if sup == [] then 0 else TotalCount(sup[..|sup| - 1], x) + Occ(sup[|sup| - 1], x)
  }

  /** The day of every row, in row order. */
  function RowDays(rows: seq<ExamRow>): (r: seq<Day>)
    ensures |r| == |rows|
    ensures forall i | 0 <= i < |rows| :: r[i] == rows[i].session.day
  {
    seq(|rows|, i requires 0 <= i < |rows| => rows[i].session.day)
  }

  /** DayCount of `x` summed over the days `days`. */
  function SumDays(rows: seq<ExamRow>, sup: seq<seq<Instructor>>, x: Instructor, days: seq<Day>): nat
    requires |sup| == |rows|
  {
    if days == [] then 0
    else SumDays(rows, sup, x, days[..|days| - 1]) + DayCount(rows, sup, x, days[|days| - 1])
  }

  /** The Total column: one instructor's day counts added up. */
  function RowTotal(perDay: map<Day, nat>, days: seq<Day>): nat
    requires forall d | d in days :: d in perDay
  {
    if days == [] then 0
    else RowTotal(perDay, days[..|days| - 1]) + perDay[days[|days| - 1]]
  }

  lemma DayCountStep(rows: seq<ExamRow>, sup: seq<seq<Instructor>>, i: nat, x: Instructor, d: Day)
    requires |sup| == |rows| && i < |rows|
    ensures DayCount(rows[..i + 1], sup[..i + 1], x, d)
      == DayCount(rows[..i], sup[..i], x, d) + (if rows[i].session.day == d then Occ(sup[i], x) else 0)
  {
    assert rows[..i + 1][..i] == rows[..i];
    assert sup[..i + 1][..i] == sup[..i];
  }

  /** A day no row is held on has no supervisions. */
  lemma {:induction false} DayCountAbsent(rows: seq<ExamRow>, sup: seq<seq<Instructor>>, x: Instructor, d: Day)
    requires |sup| == |rows|
    requires d !in RowDays(rows)
    ensures DayCount(rows, sup, x, d) == 0
  {
    if rows != [] {
      var n := |rows| - 1;
      assert RowDays(rows[..n]) == RowDays(rows)[..n];
      DayCountAbsent(rows[..n], sup[..n], x, d);
    }
  }

  /** One more row adds its supervisions of `x` to the sum over any list
      of distinct days that holds its day. */
  lemma {:induction false} SumDaysSnoc(rows: seq<ExamRow>, sup: seq<seq<Instructor>>, r: ExamRow, names: seq<Instructor>, x: Instructor, days: seq<Day>)
    requires |sup| == |rows| && Distinct(days)
    ensures SumDays(rows + [r], sup + [names], x, days)
      == SumDays(rows, sup, x, days) + (if r.session.day in days then Occ(names, x) else 0)
  {
    if days != [] {
      var init, d := days[..|days| - 1], days[|days| - 1];
      DistinctAppend(init, [d]);
      assert days == init + [d];
      SumDaysSnoc(rows, sup, r, names, x, init);
      assert (rows + [r])[..|rows|] == rows && (sup + [names])[..|sup|] == sup;
    }
  }

  /** The day columns add up to the instructor's supervisions: summing
      DayCount over the distinct days of the rows gives TotalCount. */
  lemma {:induction false} TallyTotal(rows: seq<ExamRow>, sup: seq<seq<Instructor>>, x: Instructor)
    requires |sup| == |rows|
    ensures SumDays(rows, sup, x, Unique(RowDays(rows))) == TotalCount(sup, x)
  {
    if rows != [] {
      var n := |rows| - 1;
      var init, sinit, r, names := rows[..n], sup[..n], rows[n], sup[n];
      assert rows == init + [r] && sup == sinit + [names];
      assert RowDays(rows)[..n] == RowDays(init);
      TallyTotal(init, sinit, x);
      var u := Unique(RowDays(init));
      var d := r.session.day;
      SumDaysSnoc(init, sinit, r, names, x, u);
      if d !in u {
        assert Unique(RowDays(rows)) == u + [d];
        assert (u + [d])[..|u|] == u;
        DayCountAbsent(init, sinit, x, d);
        DayCountStep(rows, sup, n, x, d);
      }
    }
  }

  lemma {:induction false} RowTotalSums(perDay: map<Day, nat>, days: seq<Day>, rows: seq<ExamRow>, sup: seq<seq<Instructor>>, x: Instructor)
    requires |sup| == |rows|
    requires forall d | d in days :: d in perDay && perDay[d] == DayCount(rows, sup, x, d)
    ensures RowTotal(perDay, days) == SumDays(rows, sup, x, days)
  {
    if days != [] {
      RowTotalSums(perDay, days[..|days| - 1], rows, sup, x);
    }
  }

  /** A count table with a row for each of `names` and, in each, a column
      for each of `days`. */
  predicate Shape(counts: map<Instructor, map<Day, nat>>, names: set<Instructor>, days: set<Day>)
  {
    counts.Keys == names && forall x | x in counts :: counts[x].Keys == days
  }

  /** One more supervision of `p` on day `d`, if the table has a row for
      `p`. */
  function Bump(c: map<Instructor, map<Day, nat>>, p: Instructor, d: Day): (r: map<Instructor, map<Day, nat>>)
    requires p in c ==> d in c[p]
  {
    if p in c then c[p := c[p][d := c[p][d] + 1]] else c
  }

  lemma BumpCells(c: map<Instructor, map<Day, nat>>, p: Instructor, d: Day, names: set<Instructor>, days: set<Day>)
    requires Shape(c, names, days) && d in days
    ensures Shape(Bump(c, p, d), names, days)
    ensures forall x, e | x in c && e in c[x] :: Bump(c, p, d)[x][e] == c[x][e] + (if x == p && e == d then 1 else 0)
  {
    if p in c {
      assert c[p][d := c[p][d] + 1].Keys == days;
    }
  }

  /** The table after counting each of `row` once on day `d`. */
  function Bumped(counts: map<Instructor, map<Day, nat>>, d: Day, row: seq<Instructor>, ghost names: set<Instructor>, ghost days: set<Day>): (r: map<Instructor, map<Day, nat>>)
    requires Shape(counts, names, days) && d in days
    ensures Shape(r, names, days)
  {
    if row == [] then counts
    else
      var c := Bumped(counts, d, row[..|row| - 1], names, days);
      BumpCells(c, row[|row| - 1], d, names, days);
      Bump(c, row[|row| - 1], d)
  }

  /** Each cell of day `d` grows by how often its instructor is listed. */
  lemma {:induction false} BumpedCells(counts: map<Instructor, map<Day, nat>>, d: Day, row: seq<Instructor>, names: set<Instructor>, days: set<Day>, x: Instructor, e: Day)
    requires Shape(counts, names, days) && d in days
    requires x in names && e in days
    ensures Bumped(counts, d, row, names, days)[x][e] == counts[x][e] + (if e == d then Occ(row, x) else 0)
  {
    if row != [] {
      var init, p := row[..|row| - 1], row[|row| - 1];
      assert Occ(row, x) == Occ(init, x) + (if p == x then 1 else 0);
      BumpedCells(counts, d, init, names, days, x, e);
      var c := Bumped(counts, d, init, names, days);
      BumpCells(c, p, d, names, days);
    }
  }

  /** The inner loop of count_supervisions_per_day: one more on day `d`
      for each listed supervisor of one row who has a row in the table. */
  method AddRow(counts: map<Instructor, map<Day, nat>>, d: Day, row: seq<Instructor>, ghost names: set<Instructor>, ghost days: set<Day>)
    returns (c: map<Instructor, map<Day, nat>>)
    requires Shape(counts, names, days) && d in days
    ensures c == Bumped(counts, d, row, names, days)
  {
    c := counts;
    for j := 0 to |row|
      invariant c == Bumped(counts, d, row[..j], names, days)
    {
      BumpedSnoc(counts, d, row, names, days, j);
      c := Bump(c, row[j], d);
    }
    assert row[..|row|] == row;
  }

  /** Counting one more name of the row is one more Bump. */
  lemma BumpedSnoc(counts: map<Instructor, map<Day, nat>>, d: Day, row: seq<Instructor>, names: set<Instructor>, days: set<Day>, j: nat)
    requires Shape(counts, names, days) && d in days && j < |row|
    ensures Bumped(counts, d, row[..j + 1], names, days) == Bump(Bumped(counts, d, row[..j], names, days), row[j], d)
  {
    assert row[..j + 1][..j] == row[..j];
  }

  /** The empty table of count_supervisions_per_day. */
  function Zero(instructors: seq<Instructor>, days: seq<Day>): (r: map<Instructor, map<Day, nat>>)
    ensures Shape(r, set x | x in instructors, set d | d in days)
  {
    map x | x in instructors :: map d | d in days :: 0
  }

  /** Every row's day is one of `days`. */
  predicate DaysCover(rows: seq<ExamRow>, days: seq<Day>)
  {
    forall i | 0 <= i < |rows| :: rows[i].session.day in days
  }

  /** The table after counting the rows in order. */
  function Table(rows: seq<ExamRow>, sup: seq<seq<Instructor>>, instructors: seq<Instructor>, days: seq<Day>): (r: map<Instructor, map<Day, nat>>)
    requires |sup| == |rows| && DaysCover(rows, days)
    ensures Shape(r, set x | x in instructors, set d | d in days)
  {
    if rows == [] then Zero(instructors, days)
    else
      var n := |rows| - 1;
      assert DaysCover(rows[..n], days);
      var names := set y | y in instructors;
      var daySet := set d | d in days;
      Bumped(Table(rows[..n], sup[..n], instructors, days), rows[n].session.day, sup[n], names, daySet)
  }

  /** Counting one more row is one more Bumped. */
  lemma TableSnoc(rows: seq<ExamRow>, sup: seq<seq<Instructor>>, instructors: seq<Instructor>, days: seq<Day>, i: nat)
    requires |sup| == |rows| && DaysCover(rows, days) && i < |rows|
    ensures DaysCover(rows[..i], days) && DaysCover(rows[..i + 1], days)
    ensures Table(rows[..i + 1], sup[..i + 1], instructors, days)
         == Bumped(Table(rows[..i], sup[..i], instructors, days), rows[i].session.day, sup[i],
                   set y | y in instructors, set d | d in days)
  {
    assert rows[..i + 1][..i] == rows[..i] && sup[..i + 1][..i] == sup[..i];
  }

  /** Each cell of the counted table is the day count. */
  lemma {:induction false} TableCells(rows: seq<ExamRow>, sup: seq<seq<Instructor>>, instructors: seq<Instructor>, days: seq<Day>, x: Instructor, e: Day)
    requires |sup| == |rows| && DaysCover(rows, days)
    requires x in instructors && e in days
    ensures Table(rows, sup, instructors, days)[x][e] == DayCount(rows, sup, x, e)
  {
    if rows != [] {
      var n := |rows| - 1;
      assert DaysCover(rows[..n], days);
      TableCells(rows[..n], sup[..n], instructors, days, x, e);
      var names := set y | y in instructors;
      var daySet := set d | d in days;
      BumpedCells(Table(rows[..n], sup[..n], instructors, days), rows[n].session.day, sup[n], names, daySet, x, e);
    }
  }

  /** The Total column of a table whose cells are the day counts. */
  lemma TotalsAreCounts(counts: map<Instructor, map<Day, nat>>, rows: seq<ExamRow>, sup: seq<seq<Instructor>>, x: Instructor)
    requires |sup| == |rows| && x in counts
    requires counts[x].Keys == set d | d in Unique(RowDays(rows))
    requires forall e | e in counts[x] :: counts[x][e] == DayCount(rows, sup, x, e)
    ensures RowTotal(counts[x], Unique(RowDays(rows))) == TotalCount(sup, x)
  {
    RowTotalSums(counts[x], Unique(RowDays(rows)), rows, sup, x);
    TallyTotal(rows, sup, x);
  }

  /** The exam days of the rows, each once, cover every row. */
  lemma DaysOfRows(rows: seq<ExamRow>)
    ensures DaysCover(rows, Unique(RowDays(rows)))
    ensures (set d | d in Unique(RowDays(rows))) == set d | d in RowDays(rows)
  {
    forall i | 0 <= i < |rows| ensures rows[i].session.day in Unique(RowDays(rows)) {
      assert RowDays(rows)[i] == rows[i].session.day;
    }
  }

  /** The loops of count_supervisions_per_day: a zero count for every
      instructor and exam day, then one more for each listed supervisor of
      each row (names outside the instructor list are skipped). */
  method CountTable(rows: seq<ExamRow>, sup: seq<seq<Instructor>>, instructors: seq<Instructor>, days: seq<Day>)
    returns (counts: map<Instructor, map<Day, nat>>)
    requires |sup| == |rows| && DaysCover(rows, days)
    ensures counts == Table(rows, sup, instructors, days)
  {
    counts := map x | x in instructors :: map d | d in days :: 0;
    for i := 0 to |rows|
      invariant counts == Table(rows[..i], sup[..i], instructors, days)
    {
      TableSnoc(rows, sup, instructors, days, i);
      ghost var names := set y | y in instructors;
      ghost var daySet := set d | d in days;
      counts := AddRow(counts, rows[i].session.day, sup[i], names, daySet);
    }
    assert rows[..|rows|] == rows && sup[..|sup|] == sup;
  }

  /** The table over the rows' own exam days has a row for each
      instructor, a column for each exam day, and the day counts in its
      cells. */
  lemma ReportCells(rows: seq<ExamRow>, sup: seq<seq<Instructor>>, instructors: seq<Instructor>)
    requires |sup| == |rows|
    ensures DaysCover(rows, Unique(RowDays(rows)))
    ensures var t := Table(rows, sup, instructors, Unique(RowDays(rows)));
            Shape(t, set x | x in instructors, set d | d in RowDays(rows)) &&
            forall x, d | x in t && d in t[x] :: t[x][d] == DayCount(rows, sup, x, d)
  {
    DaysOfRows(rows);
    var days := Unique(RowDays(rows));
    var t := Table(rows, sup, instructors, days);
    forall x, d | x in t && d in t[x] ensures t[x][d] == DayCount(rows, sup, x, d) {
      TableCells(rows, sup, instructors, days, x, d);
    }
  }

  /** The Total column: each row of the table added up over `days`. */
  function Totals(counts: map<Instructor, map<Day, nat>>, days: seq<Day>): (r: map<Instructor, nat>)
    requires forall x, d | x in counts && d in days :: d in counts[x]
    ensures r.Keys == counts.Keys
  {
    map x | x in counts :: RowTotal(counts[x], days)
  }

  /** The Total column of the counted table is each instructor's number of
      supervisions. */
  lemma ReportTotals(rows: seq<ExamRow>, sup: seq<seq<Instructor>>, instructors: seq<Instructor>)
    requires |sup| == |rows|
    ensures DaysCover(rows, Unique(RowDays(rows)))
    ensures var days := Unique(RowDays(rows));
            var r := Totals(Table(rows, sup, instructors, days), days);
            forall x | x in r :: r[x] == TotalCount(sup, x)
  {
    ReportCells(rows, sup, instructors);
    DaysOfRows(rows);
    var days := Unique(RowDays(rows));
    var t := Table(rows, sup, instructors, days);
    forall x | x in Totals(t, days) ensures Totals(t, days)[x] == TotalCount(sup, x) {
      TotalsAreCounts(t, rows, sup, x);
    }
  }

  /** count_supervisions_per_day with the Total column: the counted table,
      then each instructor's counts added up. */
  method Report(rows: seq<ExamRow>, sup: seq<seq<Instructor>>, instructors: seq<Instructor>)
    returns (counts: map<Instructor, map<Day, nat>>, totals: map<Instructor, nat>)
    requires |sup| == |rows|
    ensures Shape(counts, set x | x in instructors, set d | d in RowDays(rows))
    ensures forall x, d | x in counts && d in counts[x] :: counts[x][d] == DayCount(rows, sup, x, d)
    ensures totals.Keys == counts.Keys
    ensures forall x | x in totals :: totals[x] == TotalCount(sup, x)
  {
    var days := Unique(RowDays(rows));
    ReportCells(rows, sup, instructors);
    ReportTotals(rows, sup, instructors);
    counts := CountTable(rows, sup, instructors, days);
    totals := Totals(counts, days);
  }
}
