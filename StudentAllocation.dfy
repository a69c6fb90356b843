/** Student sub-group allocation (alokasi_mahasiswa, ujiandsb.py:499-561):
    each room row of the timetable asks for a number of students of one
    course; the course's class sub-groups are drawn down to fill it, first
    by a sub-group of exactly that size, otherwise greedily from the
    largest remaining sub-group, the last one possibly in part. */
module StudentAllocation {
  import opened Common
  import opened Sorting

  /** A class sub-group of a course: its name (Kelas), its semester and
      how many of its students are still unplaced. */
  datatype SubGroup = SubGroup(name: string, semester: int, left: int)

  /** One chunk written into a row's Kelas cell: `count` students of the
      sub-group `name` of `semester`. */
  datatype Placement = Placement(name: string, semester: int, count: nat)

  /** One room row of the timetable: its course and how many students it
      seats. */
  datatype Demand = Demand(course: Course, headcount: nat)

  /** A sub-group position in the course's list with its remaining size
      at the time the list was sorted. */
  datatype Tagged = Tagged(at: nat, left: int)

  /** Take `amount` students from the sub-group at position `at`. */
  datatype Take = Take(at: nat, amount: nat)

  predicate NonNegative(seats: seq<SubGroup>)
  {
    forall j | 0 <= j < |seats| :: seats[j].left >= 0
  }

  function Pos(n: int): nat
  {
    if n > 0 then n else 0
  }

  function Min(a: int, b: int): int
  {
    if a <= b then a else b
  }

  /** How many students of the course are still unplaced. */
  function Waiting(seats: seq<SubGroup>): int
  {
    if seats == [] then 0 else seats[0].left + Waiting(seats[1..])
  }

  // ---------------------------------------------------------------------
  // The exact-size match (ujiandsb.py:526-535)
  // ---------------------------------------------------------------------

  function ExactFrom(seats: seq<SubGroup>, h: nat, from: nat): (r: Option<nat>)
    requires from <= |seats|
    ensures r.Some? ==> from <= r.value < |seats| && seats[r.value].left == h > 0
    ensures r.Some? ==> forall j | from <= j < r.value :: seats[j].left != h
    ensures r.None? ==> forall j | from <= j < |seats| :: !(seats[j].left == h && h > 0)
    decreases |seats| - from
  {
    if from == |seats| then None
    else if seats[from].left == h && h > 0 then Some(from)
    else ExactFrom(seats, h, from + 1)
  }

  /** The first sub-group, in the course's own order, with exactly `h`
      students left (and at least one). */
  function ExactMatch(seats: seq<SubGroup>, h: nat): (r: Option<nat>)
    ensures r.Some? ==> r.value < |seats| && seats[r.value].left == h > 0
    ensures r.Some? ==> forall j | 0 <= j < r.value :: seats[j].left != h
    ensures r.None? ==> forall j | 0 <= j < |seats| :: !(seats[j].left == h && h > 0)
  {
    ExactFrom(seats, h, 0)
  }

  /** The search loop over the course's sub-groups, stopping at the first
      exact match. */
  method FindExact(seats: seq<SubGroup>, h: nat) returns (r: Option<nat>)
    ensures r == ExactMatch(seats, h)
  {
    r := None;
    for i := 0 to |seats|
      invariant forall j | 0 <= j < i :: !(seats[j].left == h && h > 0)
    {
      if seats[i].left == h && seats[i].left > 0 {
        return Some(i);
      }
    }
  }

  // ---------------------------------------------------------------------
  // The greedy fill, largest remaining sub-group first (ujiandsb.py:538-555)
  // ---------------------------------------------------------------------

  function Key(t: Tagged): int
  {
    t.left
  }

  /** The course's sub-groups tagged with their positions. */
  function Indexed(seats: seq<SubGroup>): (r: seq<Tagged>)
    ensures |r| == |seats|
  {
    seq(|seats|, j requires 0 <= j < |seats| => Tagged(j, seats[j].left))
  }

  /** The sub-groups by descending remaining size, ties in their own order:
      the list the greedy fill walks. */
  function Order(seats: seq<SubGroup>): (r: seq<Tagged>)
    ensures forall p | 0 <= p < |r| :: r[p].at < |seats|
  {
    var r := SortDesc(Indexed(seats), Key);
    forall p | 0 <= p < |r| ensures r[p].at < |seats| {
      assert r[p] in multiset(Indexed(seats));
    }
    r
  }

  function Ats(order: seq<Tagged>): set<nat>
  {
    set e | e in order :: e.at
  }

  /** The walk over `order` with `rem` seats to fill: stop once the room is
      full, skip empty sub-groups, take a whole sub-group that fits, else
      the part that fits and stop. */
  function Takes(order: seq<Tagged>, rem: nat): (r: seq<Take>)
    ensures forall k | 0 <= k < |r| :: r[k].amount > 0 && r[k].at in Ats(order)
  {
    if order == [] || rem == 0 then []
    else
      var e := order[0];
      assert Ats(order) == {e.at} + Ats(order[1..]) by {
        assert order == [e] + order[1..];
      }
      if e.left > 0 then
        if e.left <= rem then [Take(e.at, e.left)] + Takes(order[1..], rem - e.left)
        else [Take(e.at, rem)]
      else Takes(order[1..], rem)
  }

  /** The students taken in all. */
  function Total(takes: seq<Take>): nat
  {
    if takes == [] then 0 else takes[0].amount + Total(takes[1..])
  }

  /** The students taken from the sub-group at position `j`. */
  function TakenAt(takes: seq<Take>, j: nat): nat
  {
    if takes == [] then 0
    else (if takes[0].at == j then takes[0].amount else 0) + TakenAt(takes[1..], j)
  }

  /** The students still unplaced over the whole list, and in the entries
      for position `j`; empty or overdrawn sub-groups count as none. */
  function PosSum(order: seq<Tagged>): nat
  {
    if order == [] then 0 else Pos(order[0].left) + PosSum(order[1..])
  }

  function PosAt(order: seq<Tagged>, j: nat): nat
  {
    if order == [] then 0
    else (if order[0].at == j then Pos(order[0].left) else 0) + PosAt(order[1..], j)
  }

  /** The greedy fill takes `rem` students, or all there are if fewer. */
  lemma {:induction false} TakesTotal(order: seq<Tagged>, rem: nat)
    ensures Total(Takes(order, rem)) == Min(rem, PosSum(order))
  {
    if order != [] && rem != 0 {
      var e := order[0];
      if e.left > 0 && e.left <= rem {
        TakesTotal(order[1..], rem - e.left);
      } else if e.left <= 0 {
        TakesTotal(order[1..], rem);
      }
    }
  }

  /** No sub-group gives more students than it has left. */
  lemma {:induction false} TakesBound(order: seq<Tagged>, rem: nat, j: nat)
    ensures TakenAt(Takes(order, rem), j) <= PosAt(order, j)
  {
    if order != [] && rem != 0 {
      var e := order[0];
      if e.left > 0 && e.left <= rem {
        TakesBound(order[1..], rem - e.left, j);
      } else if e.left <= 0 {
        TakesBound(order[1..], rem, j);
      }
    }
  }

  /** One step of the walk at position `p`: a sub-group with students
      left gives what fits, and what is still to take follows on. */
  lemma WalkStep(order: seq<Tagged>, p: nat, rem: nat, done: seq<Take>, whole: seq<Take>)
    requires p < |order| && rem != 0
    requires done + Takes(order[p..], rem) == whole
    ensures order[p].left > 0 ==>
      var t := Take(order[p].at, Min(order[p].left, rem));
      (done + [t]) + Takes(order[p + 1..], rem - t.amount) == whole
    ensures order[p].left <= 0 ==> done + Takes(order[p + 1..], rem) == whole
  {
    assert order[p..][1..] == order[p + 1..];
    var e := order[p];
    if e.left > 0 {
      var t := Take(e.at, Min(e.left, rem));
      assert Takes(order[p..], rem) == [t] + Takes(order[p + 1..], rem - t.amount);
      assert (done + [t]) + Takes(order[p + 1..], rem - t.amount) == done + ([t] + Takes(order[p + 1..], rem - t.amount));
    }
  }

  lemma {:induction false} TakenAppend(a: seq<Take>, b: seq<Take>, j: nat)
    ensures TakenAt(a + b, j) == TakenAt(a, j) + TakenAt(b, j)
    ensures Total(a + b) == Total(a) + Total(b)
  {
    if a != [] {
      assert (a + b)[1..] == a[1..] + b;
      TakenAppend(a[1..], b, j);
    } else {
      assert a + b == b;
    }
  }

  /** Sorting moves students between no sub-groups. */
  lemma {:induction false} InsertPos(x: Tagged, s: seq<Tagged>, j: nat)
    ensures PosSum(Insert(x, s, Key)) == Pos(x.left) + PosSum(s)
    ensures PosAt(Insert(x, s, Key), j) == (if x.at == j then Pos(x.left) else 0) + PosAt(s, j)
  {
    if s != [] && Key(s[0]) > Key(x) {
      InsertPos(x, s[1..], j);
      var r := Insert(x, s, Key);
      assert r[0] == s[0] && r[1..] == Insert(x, s[1..], Key);
    }
  }

  lemma {:induction false} SortPos(s: seq<Tagged>, j: nat)
    ensures PosSum(SortDesc(s, Key)) == PosSum(s)
    ensures PosAt(SortDesc(s, Key), j) == PosAt(s, j)
  {
    if s != [] {
      SortPos(s[1..], j);
      InsertPos(s[0], SortDesc(s[1..], Key), j);
    }
  }

  lemma {:induction false} IndexedFrom(seats: seq<SubGroup>, k: nat, j: nat)
    requires k <= |seats| && NonNegative(seats)
    ensures PosSum(Indexed(seats)[k..]) == Waiting(seats[k..])
    ensures PosAt(Indexed(seats)[k..], j) == (if k <= j < |seats| then seats[j].left else 0)
    decreases |seats| - k
  {
    if k < |seats| {
      IndexedFrom(seats, k + 1, j);
      assert Indexed(seats)[k..][1..] == Indexed(seats)[k + 1..];
      assert seats[k..][1..] == seats[k + 1..];
    }
  }

  /** The sorted list holds every unplaced student of the course, each
      under the position of their sub-group. */
  lemma OrderPos(seats: seq<SubGroup>, j: nat)
    requires NonNegative(seats)
    ensures PosSum(Order(seats)) == Waiting(seats)
    ensures PosAt(Order(seats), j) == (if j < |seats| then seats[j].left else 0)
  {
    SortPos(Indexed(seats), j);
    IndexedFrom(seats, 0, j);
    assert Indexed(seats)[0..] == Indexed(seats) && seats[0..] == seats;
  }

  // ---------------------------------------------------------------------
  // One row
  // ---------------------------------------------------------------------

  /** What one row takes from its course's sub-groups: the exact match
      whole, or else the greedy fill. */
  function RowTakes(seats: seq<SubGroup>, h: nat): (r: seq<Take>)
    ensures forall k | 0 <= k < |r| :: r[k].at < |seats| && r[k].amount > 0
  {
    match ExactMatch(seats, h)
    case Some(i) => [Take(i, h)]
    case None => Takes(Order(seats), h)
  }

  /** The sub-groups after the takes. */
  function Apply(seats: seq<SubGroup>, takes: seq<Take>): seq<SubGroup>
  {
    seq(|seats|, j requires 0 <= j < |seats| => seats[j].(left := seats[j].left - TakenAt(takes, j)))
  }

  /** The chunks written into the row, one per take. */
  function Placements(seats: seq<SubGroup>, takes: seq<Take>): seq<Placement>
    requires forall k | 0 <= k < |takes| :: takes[k].at < |seats|
  {
    seq(|takes|, k requires 0 <= k < |takes| =>
      Placement(seats[takes[k].at].name, seats[takes[k].at].semester, takes[k].amount))
  }

  /** The students seated by the chunks. */
  function Headcount(placed: seq<Placement>): nat
  {
    if placed == [] then 0 else placed[0].count + Headcount(placed[1..])
  }

  lemma {:induction false} HeadcountTotal(seats: seq<SubGroup>, takes: seq<Take>)
    requires forall k | 0 <= k < |takes| :: takes[k].at < |seats|
    ensures Headcount(Placements(seats, takes)) == Total(takes)
  {
    if takes != [] {
      HeadcountTotal(seats, takes[1..]);
      assert Placements(seats, takes)[1..] == Placements(seats, takes[1..]);
    }
  }

  /** A row seats its headcount, or every unplaced student of the course
      when there are fewer. */
  lemma RowSeated(seats: seq<SubGroup>, h: nat)
    requires NonNegative(seats)
    ensures Headcount(Placements(seats, RowTakes(seats, h))) == Min(h, Waiting(seats))
  {
    HeadcountTotal(seats, RowTakes(seats, h));
    match ExactMatch(seats, h)
    case Some(i) =>
      OrderPos(seats, i);
      SortPos(Indexed(seats), i);
      assert Total([Take(i, h)]) == h;
      PosAtBelowSum(Order(seats), i);
    case None =>
      OrderPos(seats, 0);
      TakesTotal(Order(seats), h);
  }

  lemma {:induction false} PosAtBelowSum(order: seq<Tagged>, j: nat)
    ensures PosAt(order, j) <= PosSum(order)
  {
    if order != [] {
      PosAtBelowSum(order[1..], j);
    }
  }

  /** Every sub-group drops by exactly what the row took from it, and none
      goes below zero. */
  lemma RowDrawsDown(seats: seq<SubGroup>, h: nat, j: nat)
    requires NonNegative(seats) && j < |seats|
    ensures var after := Apply(seats, RowTakes(seats, h))[j];
            after.name == seats[j].name && after.semester == seats[j].semester &&
            after.left == seats[j].left - TakenAt(RowTakes(seats, h), j) && after.left >= 0
  {
    match ExactMatch(seats, h)
    case Some(i) =>
      assert TakenAt([Take(i, h)], j) == (if i == j then h else 0);
    case None =>
      TakesBound(Order(seats), h, j);
      OrderPos(seats, j);
  }

  /** The sub-groups stay non-negative after a row. */
  lemma RowKeepsNonNegative(seats: seq<SubGroup>, h: nat)
    requires NonNegative(seats)
    ensures NonNegative(Apply(seats, RowTakes(seats, h)))
  {
    forall j | 0 <= j < |seats| ensures Apply(seats, RowTakes(seats, h))[j].left >= 0 {
      RowDrawsDown(seats, h, j);
    }
  }

  /** An exact-size match places that one sub-group whole and empties it. */
  lemma ExactWhole(seats: seq<SubGroup>, h: nat, i: nat)
    requires ExactMatch(seats, h) == Some(i)
    ensures Placements(seats, RowTakes(seats, h)) == [Placement(seats[i].name, seats[i].semester, seats[i].left)]
    ensures Apply(seats, RowTakes(seats, h)) == seats[i := seats[i].(left := 0)]
  {
    var a := Apply(seats, [Take(i, h)]);
    forall j | 0 <= j < |seats| ensures a[j] == seats[i := seats[i].(left := 0)][j] {
      assert TakenAt([Take(i, h)], j) == (if i == j then h else 0);
    }
  }

  lemma ApplySnoc(seats: seq<SubGroup>, takes: seq<Take>, t: Take)
    requires t.at < |seats|
    ensures var a := Apply(seats, takes);
            Apply(seats, takes + [t]) == a[t.at := a[t.at].(left := a[t.at].left - t.amount)]
  {
    var a := Apply(seats, takes);
    var b := Apply(seats, takes + [t]);
    forall j | 0 <= j < |seats| ensures b[j] == a[t.at := a[t.at].(left := a[t.at].left - t.amount)][j] {
      TakenAppend(takes, [t], j);
      assert TakenAt([t], j) == (if t.at == j then t.amount else 0);
    }
  }

  lemma PlacementsSnoc(seats: seq<SubGroup>, takes: seq<Take>, t: Take)
    requires forall k | 0 <= k < |takes| :: takes[k].at < |seats|
    requires t.at < |seats|
    ensures Placements(seats, takes + [t]) ==
            Placements(seats, takes) + [Placement(seats[t.at].name, seats[t.at].semester, t.amount)]
  {
  }

  /** The greedy walk from the `p`-th sorted sub-group on, with `rem`
      seats still to fill, the chunks so far and the sub-groups as they
      stand. */
  function Walk(seats: seq<SubGroup>, order: seq<Tagged>, p: nat, rem: nat,
                placed: seq<Placement>, after: seq<SubGroup>): (seq<Placement>, seq<SubGroup>)
    requires p <= |order| && |after| == |seats|
    requires forall q | 0 <= q < |order| :: order[q].at < |seats|
    decreases |order| - p
  {
    if p == |order| || rem == 0 then (placed, after)
    else
      var e := order[p];
      if e.left > 0 then
        var n := Min(e.left, rem);
        Walk(seats, order, p + 1, rem - n, placed + [Placement(seats[e.at].name, seats[e.at].semester, n)],
             after[e.at := after[e.at].(left := after[e.at].left - n)])
      else Walk(seats, order, p + 1, rem, placed, after)
  }

  /** Walking on from any point completes the takes of the fill. */
  lemma {:induction false} WalkFills(seats: seq<SubGroup>, order: seq<Tagged>, p: nat, rem: nat, done: seq<Take>)
    requires p <= |order|
    requires forall q | 0 <= q < |order| :: order[q].at < |seats|
    requires forall k | 0 <= k < |done| :: done[k].at < |seats|
    ensures var all := done + Takes(order[p..], rem);
            (forall k | 0 <= k < |all| :: all[k].at < |seats|) &&
            Walk(seats, order, p, rem, Placements(seats, done), Apply(seats, done)) ==
            (Placements(seats, all), Apply(seats, all))
    decreases |order| - p
  {
    if p == |order| || rem == 0 {
      assert Takes(order[p..], rem) == [];
      assert done + [] == done;
    } else {
      var e := order[p];
      WalkStep(order, p, rem, done, done + Takes(order[p..], rem));
      if e.left > 0 {
        var t := Take(e.at, Min(e.left, rem));
        ApplySnoc(seats, done, t);
        PlacementsSnoc(seats, done, t);
        WalkFills(seats, order, p + 1, rem - t.amount, done + [t]);
      } else {
        WalkFills(seats, order, p + 1, rem, done);
      }
    }
  }

  /** The greedy walk over the sorted sub-groups (ujiandsb.py:540-555). */
  method Fill(seats: seq<SubGroup>, h: nat) returns (placed: seq<Placement>, after: seq<SubGroup>)
    requires ExactMatch(seats, h).None?
    ensures placed == Placements(seats, RowTakes(seats, h))
    ensures after == Apply(seats, RowTakes(seats, h))
  {
    var order := Order(seats);
    var rem: nat := h;
    placed, after := [], seats;
    var p := 0;
    while p < |order| && rem != 0
      invariant p <= |order| && |after| == |seats|
      invariant Walk(seats, order, p, rem, placed, after) == Walk(seats, order, 0, h, [], seats)
    {
      var e := order[p];
      if e.left > 0 {
        var n := Min(e.left, rem);
        placed := placed + [Placement(seats[e.at].name, seats[e.at].semester, n)];
        after := after[e.at := after[e.at].(left := after[e.at].left - n)];
        rem := rem - n;
      }
      p := p + 1;
    }
    FillIsWalk(seats, h);
  }

  /** The walk from the start is the fill. */
  lemma FillIsWalk(seats: seq<SubGroup>, h: nat)
    requires ExactMatch(seats, h).None?
    ensures Walk(seats, Order(seats), 0, h, [], seats) ==
            (Placements(seats, RowTakes(seats, h)), Apply(seats, RowTakes(seats, h)))
  {
    WalkFromStart(seats, Order(seats), h);
  }

  /** A walk from the first entry with nothing taken yet follows `Takes`. */
  lemma WalkFromStart(seats: seq<SubGroup>, order: seq<Tagged>, h: nat)
    requires forall q | 0 <= q < |order| :: order[q].at < |seats|
    ensures forall k | 0 <= k < |Takes(order, h)| :: Takes(order, h)[k].at < |seats|
    ensures Walk(seats, order, 0, h, [], seats) ==
            (Placements(seats, Takes(order, h)), Apply(seats, Takes(order, h)))
  {
    assert order[0..] == order;
    assert [] + Takes(order, h) == Takes(order, h);
    assert Apply(seats, []) == seats;
    assert Placements(seats, []) == [];
    WalkFills(seats, order, 0, h, []);
  }

  // ---------------------------------------------------------------------
  // The whole timetable
  // ---------------------------------------------------------------------

  /** One row against the per-course ledger: nothing for an unknown
      course, else the row's placements and the drawn-down sub-groups. */
  function Step(m: map<Course, seq<SubGroup>>, d: Demand): (map<Course, seq<SubGroup>>, Option<seq<Placement>>)
  {
    if d.course !in m then (m, None)
    else
      var seats := m[d.course];
      var takes := RowTakes(seats, d.headcount);
      (m[d.course := Apply(seats, takes)], Some(Placements(seats, takes)))
  }

  /** The rows in timetable order. */
  function Run(m: map<Course, seq<SubGroup>>, rows: seq<Demand>): (r: (map<Course, seq<SubGroup>>, seq<Option<seq<Placement>>>))
    ensures |r.1| == |rows| && r.0.Keys == m.Keys
  {
    if rows == [] then (m, [])
    else
      var (m', out) := Run(m, rows[..|rows| - 1]);
      var (m'', o) := Step(m', rows[|rows| - 1]);
      (m'', out + [o])
  }

  predicate LedgerNonNegative(m: map<Course, seq<SubGroup>>)
  {
    forall c | c in m :: NonNegative(m[c])
  }

  /** A row whose course has no sub-groups leaves the ledger as it was. */
  lemma AbsentKeepsLedger(m: map<Course, seq<SubGroup>>, rows: seq<Demand>, k: nat)
    requires k < |rows| && rows[k].course !in m
    ensures Run(m, rows[..k + 1]).0 == Run(m, rows[..k]).0
  {
    assert rows[..k + 1][..k] == rows[..k];
    assert rows[..k + 1][k] == rows[k];
  }

  /** Rows whose course has no sub-groups get no placements. */
  lemma {:induction false} AbsentUntouched(m: map<Course, seq<SubGroup>>, rows: seq<Demand>, k: nat)
    requires k < |rows| && rows[k].course !in m
    ensures Run(m, rows).1[k] == None
  {
    var n := |rows| - 1;
    if k < n {
      AbsentUntouched(m, rows[..n], k);
      assert rows[..n][k] == rows[k];
    }
  }

  /** No sub-group is ever overdrawn over the whole timetable. */
  lemma {:induction false} RunNonNegative(m: map<Course, seq<SubGroup>>, rows: seq<Demand>)
    requires LedgerNonNegative(m)
    ensures LedgerNonNegative(Run(m, rows).0)
  {
    if rows != [] {
      var m' := Run(m, rows[..|rows| - 1]).0;
      RunNonNegative(m, rows[..|rows| - 1]);
      var d := rows[|rows| - 1];
      if d.course in m' {
        RowKeepsNonNegative(m'[d.course], d.headcount);
      }
    }
  }

  /** The per-course ledger of unplaced students (sisa_mahasiswa with the
      semesters of kelas_semester). */
  class Ledger {
    var remaining: map<Course, seq<SubGroup>>

    constructor(initial: map<Course, seq<SubGroup>>)
      ensures remaining == initial
    {
      remaining := initial;
    }

    /** One row of the allocation loop (ujiandsb.py:513-558). */
    method AllocateRow(d: Demand) returns (placed: Option<seq<Placement>>)
      modifies this
      ensures (remaining, placed) == Step(old(remaining), d)
    {
      if d.course !in remaining {
        return None;
      }
      var seats := remaining[d.course];
      var i := FindExact(seats, d.headcount);
      var after;
      if i.Some? {
        var k := i.value;
        ExactWhole(seats, d.headcount, k);
        placed := Some([Placement(seats[k].name, seats[k].semester, seats[k].left)]);
        after := seats[k := seats[k].(left := seats[k].left - d.headcount)];
      } else {
        var chunks;
        chunks, after := Fill(seats, d.headcount);
        placed := Some(chunks);
      }
      remaining := remaining[d.course := after];
    }

    /** The loop over all rows of the timetable (ujiandsb.py:513). */
    method AllocateAll(rows: seq<Demand>) returns (out: seq<Option<seq<Placement>>>)
      modifies this
      ensures (remaining, out) == Run(old(remaining), rows)
    {
      out := [];
      for i := 0 to |rows|
        invariant (remaining, out) == Run(old(remaining), rows[..i])
      {
        assert rows[..i + 1][..i] == rows[..i];
        var o := AllocateRow(rows[i]);
        out := out + [o];
      }
      assert rows[..|rows|] == rows;
    }
  }
}
