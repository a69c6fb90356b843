/** Supervisor assignment (ujiandsb.py:364-459): every scheduled exam row
    gets the number of supervisors its room asks for, drawn from the
    instructors not yet supervising in that session, the course's own
    teachers first. The random sample is a nondeterministic choice of any
    that many distinct candidates. */
module Supervision {
  import opened Common

  /** One row of the room timetable with the teachers of its course. */
  datatype ExamRow = ExamRow(session: Session, course: Course, room: RoomName, teachers: seq<Instructor>)

  /** The room sheet's supervisor column. */
  datatype RoomStaff = RoomStaff(name: RoomName, supervisors: nat)

  datatype SupervisionError =
    | UnknownRoom   // the row's room is not on the room sheet
    | PoolTooSmall  // fewer candidates than supervisors asked for

  // ---------------------------------------------------------------------
  // Candidates

  /** The supervisor count of the first room sheet row named `name`. */
  function Need(rooms: seq<RoomStaff>, name: RoomName): (r: Option<nat>)
    ensures r.None? <==> forall i | 0 <= i < |rooms| :: rooms[i].name != name
  {
    if rooms == [] then None
    else if rooms[0].name == name then Some(rooms[0].supervisors)
    else Need(rooms[1..], name)
  }

  /** Need reads the first row with that name. */
  lemma {:induction false} NeedFirst(rooms: seq<RoomStaff>, name: RoomName, i: nat)
    requires i < |rooms| && rooms[i].name == name
    requires forall j | 0 <= j < i :: rooms[j].name != name
    ensures Need(rooms, name) == Some(rooms[i].supervisors)
  {
    if i > 0 {
      NeedFirst(rooms[1..], name, i - 1);
    }
  }

  /** The instructors, in list order, that teach the course (or, with
      `teaching` false, that do not) and are not in `busy`. */
  function Free(instructors: seq<Instructor>, teachers: seq<Instructor>, busy: seq<Instructor>, teaching: bool): (r: seq<Instructor>)
    ensures forall x :: x in r <==> x in instructors && (x in teachers <==> teaching) && x !in busy
    ensures |r| <= |instructors|
  {
    if instructors == [] then []
    else
      var init := instructors[..|instructors| - 1];
      var d := instructors[|instructors| - 1];
      assert instructors == init + [d];
      var rest := Free(init, teachers, busy, teaching);
      if (d in teachers <==> teaching) && d !in busy then rest + [d] else rest
  }

  lemma {:induction false} FreeDistinct(instructors: seq<Instructor>, teachers: seq<Instructor>, busy: seq<Instructor>, teaching: bool)
    requires Distinct(instructors)
    ensures Distinct(Free(instructors, teachers, busy, teaching))
  {
    if instructors != [] {
      var init := instructors[..|instructors| - 1];
      var d := instructors[|instructors| - 1];
      DistinctAppend(init, [d]);
      FreeDistinct(init, teachers, busy, teaching);
      var rest := Free(init, teachers, busy, teaching);
      if (d in teachers <==> teaching) && d !in busy {
        DistinctJoin(rest, [d]);
      }
    }
  }

  /** The candidate pool of one row: the free teachers of the course, and
      only when they are fewer than `k` also every free non-teacher. */
  function Pool(instructors: seq<Instructor>, teachers: seq<Instructor>, busy: seq<Instructor>, k: nat): (r: seq<Instructor>)
    ensures forall x :: x in r <==>
      x in instructors && x !in busy && (x in teachers || |Free(instructors, teachers, busy, true)| < k)
  {
    var own := Free(instructors, teachers, busy, true);
    if |own| < k then own + Free(instructors, teachers, busy, false) else own
  }

  lemma PoolDistinct(instructors: seq<Instructor>, teachers: seq<Instructor>, busy: seq<Instructor>, k: nat)
    requires Distinct(instructors)
    ensures Distinct(Pool(instructors, teachers, busy, k))
  {
    FreeDistinct(instructors, teachers, busy, true);
    FreeDistinct(instructors, teachers, busy, false);
    DistinctJoin(Free(instructors, teachers, busy, true), Free(instructors, teachers, busy, false));
  }

  /** The free teachers and the free others are together exactly the
      instructors not yet busy. */
  lemma FreeCount(instructors: seq<Instructor>, teachers: seq<Instructor>, busy: seq<Instructor>)
    requires Distinct(instructors) && Distinct(busy)
    requires forall x | x in busy :: x in instructors
    ensures |Free(instructors, teachers, busy, true)| + |Free(instructors, teachers, busy, false)| == |instructors| - |busy|
  {
    var own, others := Free(instructors, teachers, busy, true), Free(instructors, teachers, busy, false);
    FreeDistinct(instructors, teachers, busy, true);
    FreeDistinct(instructors, teachers, busy, false);
    DistinctJoin(own, others);
    DistinctCard(own + others);
    DistinctCard(instructors);
    DistinctCard(busy);
    var all, taken := set x | x in instructors, set x | x in busy;
    assert (set x | x in own + others) == all - taken;
    assert all * taken == taken && all + taken == all;
  }

  /** The pool can serve `k` supervisors exactly when at least `k`
      instructors are not yet busy. */
  lemma PoolLargeEnough(instructors: seq<Instructor>, teachers: seq<Instructor>, busy: seq<Instructor>, k: nat)
    requires Distinct(instructors) && Distinct(busy)
    requires forall x | x in busy :: x in instructors
    ensures k <= |Pool(instructors, teachers, busy, k)| <==> k + |busy| <= |instructors|
  {
    FreeCount(instructors, teachers, busy);
  }

  /** random.sample: `k` distinct members of the pool. */
  predicate IsSample(picks: seq<Instructor>, pool: seq<Instructor>, k: nat)
  {
    |picks| == k && Distinct(picks) && forall i | 0 <= i < |picks| :: picks[i] in pool
  }

  /** What a sample of the pool guarantees: known instructors none of whom
      is busy in the session, all teachers of the course whenever enough
      teachers are free, and a session list that stays free of repeats. */
  lemma SampleFacts(picks: seq<Instructor>, instructors: seq<Instructor>, teachers: seq<Instructor>, busy: seq<Instructor>, k: nat)
    requires Distinct(busy)
    requires IsSample(picks, Pool(instructors, teachers, busy, k), k)
    ensures forall x | x in picks :: x in instructors && x !in busy
    ensures |Free(instructors, teachers, busy, true)| >= k ==> forall x | x in picks :: x in teachers
    ensures Distinct(busy + picks)
  {
    DistinctJoin(busy, picks);
  }

  // ---------------------------------------------------------------------
  // The per-session book and one assignment

  /** The instructors a book's map lists for session `s`. */
  function BusyIn(m: map<Session, seq<Instructor>>, s: Session): seq<Instructor>
  {
    if s in m then m[s] else []
  }

  /** assigned_supervisors: the instructors already supervising in each
      session. A session with no entry has none. */
  class SupervisorBook {
    var booked: map<Session, seq<Instructor>>

    /** The empty book generate_schedule and mutate start from. */
    constructor ()
      ensures booked == map[]
    {
      booked := map[];
    }

    /** A book that already lists `names` in session `s`. */
    constructor Seeded(s: Session, names: seq<Instructor>)
      ensures booked == map[s := names]
    {
      booked := map[s := names];
    }

    function Busy(s: Session): seq<Instructor>
      reads this
    {
      BusyIn(booked, s)
    }

    /** assign_pengawas: the room's supervisor count is looked up, the pool
        formed, `k` candidates sampled and recorded for the session. */
    method Assign(row: ExamRow, rooms: seq<RoomStaff>, instructors: seq<Instructor>)
      returns (r: Result<seq<Instructor>, SupervisionError>)
      requires Distinct(instructors)
      modifies this
      ensures Need(rooms, row.room).None? ==> r == Err(UnknownRoom)
      ensures Need(rooms, row.room).Some? ==>
        (r.Ok? <==> Need(rooms, row.room).value <= |Pool(instructors, row.teachers, old(Busy(row.session)), Need(rooms, row.room).value)|)
      ensures r.Err? ==> booked == old(booked)
      ensures r.Err? && Need(rooms, row.room).Some? ==> r.error == PoolTooSmall
      ensures r.Ok? ==> Need(rooms, row.room).Some?
      ensures r.Ok? ==> IsSample(r.value, Pool(instructors, row.teachers, old(Busy(row.session)), Need(rooms, row.room).value), Need(rooms, row.room).value)
      ensures r.Ok? ==> booked == old(booked)[row.session := old(Busy(row.session)) + r.value]
    {
      var need := Need(rooms, row.room);
      if need.None? {
        return Err(UnknownRoom);
      }
      var k := need.value;
      var busy := Busy(row.session);
      var pool := Pool(instructors, row.teachers, busy, k);
      if |pool| < k {
        return Err(PoolTooSmall);
      }
      PoolDistinct(instructors, row.teachers, busy, k);
      assert IsSample(pool[..k], pool, k);
      var picks :| IsSample(picks, pool, k);
      booked := booked[row.session := busy + picks];
      return Ok(picks);
    }
  }

  // ---------------------------------------------------------------------
  // Whole timetables

  /** Every row has as many distinct supervisors as its room asks for. */
  predicate Staffed(rows: seq<ExamRow>, rooms: seq<RoomStaff>, sup: seq<seq<Instructor>>)
  {
    && |sup| == |rows|
    && forall i | 0 <= i < |rows| ::
         Need(rooms, rows[i].room).Some? && |sup[i]| == Need(rooms, rows[i].room).value && Distinct(sup[i])
  }

  /** No instructor supervises two rows of one session. */
  predicate Exclusive(rows: seq<ExamRow>, sup: seq<seq<Instructor>>)
  {
    && |sup| == |rows|
    && forall i, j | 0 <= i < j < |rows| && rows[i].session == rows[j].session ::
         forall x | x in sup[i] :: x !in sup[j]
  }

  /** The supervisors the rows of `rows` ask for in session `s`. */
  function Demand(rows: seq<ExamRow>, rooms: seq<RoomStaff>, s: Session): nat
  {
    if rows == [] then 0
    else
      var last := rows[|rows| - 1];
      Demand(rows[..|rows| - 1], rooms, s)
        + (if last.session == s && Need(rooms, last.room).Some? then Need(rooms, last.room).value else 0)
  }

  lemma {:induction false} DemandPrefix(rows: seq<ExamRow>, rooms: seq<RoomStaff>, s: Session, n: nat)
    requires n <= |rows|
    ensures Demand(rows[..n], rooms, s) <= Demand(rows, rooms, s)
  {
    if n < |rows| {
      DemandPrefix(rows[..|rows| - 1], rooms, s, n);
      assert rows[..|rows| - 1][..n] == rows[..n];
    } else {
      assert rows[..n] == rows;
    }
  }

  lemma DemandSnoc(rows: seq<ExamRow>, rooms: seq<RoomStaff>, s: Session, i: nat)
    requires i < |rows|
    ensures Demand(rows[..i + 1], rooms, s) == Demand(rows[..i], rooms, s)
      + (if rows[i].session == s && Need(rooms, rows[i].room).Some? then Need(rooms, rows[i].room).value else 0)
  {
    assert rows[..i + 1][..i] == rows[..i];
  }

  /** Every row's room is known and no session asks for more supervisors
      than there are instructors. */
  predicate Feasible(rows: seq<ExamRow>, rooms: seq<RoomStaff>, instructors: seq<Instructor>)
  {
    forall i | 0 <= i < |rows| ::
      Need(rooms, rows[i].room).Some? && Demand(rows, rooms, rows[i].session) <= |instructors|
  }

  /** The supervisors of the first `|sup|` rows are listed in the book. */
  ghost predicate Recorded(rows: seq<ExamRow>, sup: seq<seq<Instructor>>, m: map<Session, seq<Instructor>>)
    requires |sup| <= |rows|
  {
    forall j, x | 0 <= j < |sup| && x in sup[j] :: x in BusyIn(m, rows[j].session)
  }

  /** The book lists, for each session, the demand of the first `n` rows,
      without repeats and only known instructors. */
  ghost predicate Counted(rows: seq<ExamRow>, rooms: seq<RoomStaff>, instructors: seq<Instructor>, n: nat, m: map<Session, seq<Instructor>>)
    requires n <= |rows|
  {
    && (forall s :: Distinct(BusyIn(m, s)) && |BusyIn(m, s)| == Demand(rows[..n], rooms, s))
    && (forall s, x | x in BusyIn(m, s) :: x in instructors)
  }

  /** No session of the first `n` rows asks for more than the supply. */
  predicate Supplied(rows: seq<ExamRow>, rooms: seq<RoomStaff>, instructors: seq<Instructor>, n: nat)
    requires n <= |rows|
  {
    forall j | 0 <= j < n :: Demand(rows[..n], rooms, rows[j].session) <= |instructors|
  }

  /** What AssignAll knows after its first `|sup|` rows, with book map `m`. */
  ghost predicate Progress(rows: seq<ExamRow>, rooms: seq<RoomStaff>, instructors: seq<Instructor>,
                           sup: seq<seq<Instructor>>, m: map<Session, seq<Instructor>>)
  {
    && |sup| <= |rows|
    && Staffed(rows[..|sup|], rooms, sup) && Exclusive(rows[..|sup|], sup)
    && Recorded(rows, sup, m)
    && Counted(rows, rooms, instructors, |sup|, m)
    && Supplied(rows, rooms, instructors, |sup|)
  }

  /** A successful row keeps the first `|sup| + 1` rows staffed and
      exclusive. */
  lemma StepStaffed(rows: seq<ExamRow>, rooms: seq<RoomStaff>, instructors: seq<Instructor>,
                    sup: seq<seq<Instructor>>, m: map<Session, seq<Instructor>>, picks: seq<Instructor>)
    requires Progress(rows, rooms, instructors, sup, m) && |sup| < |rows|
    requires Need(rooms, rows[|sup|].room).Some?
    requires IsSample(picks, Pool(instructors, rows[|sup|].teachers, BusyIn(m, rows[|sup|].session), Need(rooms, rows[|sup|].room).value), Need(rooms, rows[|sup|].room).value)
    ensures Staffed(rows[..|sup| + 1], rooms, sup + [picks]) && Exclusive(rows[..|sup| + 1], sup + [picks])
  {
    var i, s := |sup|, rows[|sup|].session;
    var sup', rows' := sup + [picks], rows[..|sup| + 1];
    assert rows'[..i] == rows[..i];
    assert forall j | 0 <= j < i :: sup'[j] == sup[j] && rows'[j] == rows[..i][j];
    forall j | 0 <= j < i + 1
      ensures Need(rooms, rows'[j].room).Some? && |sup'[j]| == Need(rooms, rows'[j].room).value && Distinct(sup'[j])
    {
    }
    forall a, b | 0 <= a < b < i + 1 && rows'[a].session == rows'[b].session
      ensures forall x | x in sup'[a] :: x !in sup'[b]
    {
      if b == i {
        forall x | x in sup[a] ensures x !in picks {
          assert x in BusyIn(m, s);
        }
      }
    }
  }

  /** Recording the picks keeps every earlier row recorded. */
  lemma StepRecorded(rows: seq<ExamRow>, sup: seq<seq<Instructor>>, m: map<Session, seq<Instructor>>, picks: seq<Instructor>)
    requires |sup| < |rows| && Recorded(rows, sup, m)
    ensures Recorded(rows, sup + [picks], m[rows[|sup|].session := BusyIn(m, rows[|sup|].session) + picks])
  {
    var i := |sup|;
    var m' := m[rows[i].session := BusyIn(m, rows[i].session) + picks];
    var sup' := sup + [picks];
    forall j, x | 0 <= j < i + 1 && x in sup'[j] ensures x in BusyIn(m', rows[j].session) {
      if j < i {
        assert sup'[j] == sup[j];
      }
    }
  }

  /** Recording `k` fresh picks for row `n` keeps the book counted. */
  lemma StepCounted(rows: seq<ExamRow>, rooms: seq<RoomStaff>, instructors: seq<Instructor>, n: nat,
                    m: map<Session, seq<Instructor>>, picks: seq<Instructor>)
    requires n < |rows| && Counted(rows, rooms, instructors, n, m)
    requires Need(rooms, rows[n].room).Some? && |picks| == Need(rooms, rows[n].room).value
    requires Distinct(BusyIn(m, rows[n].session) + picks)
    requires forall x | x in picks :: x in instructors
    ensures Counted(rows, rooms, instructors, n + 1, m[rows[n].session := BusyIn(m, rows[n].session) + picks])
  {
    var m' := m[rows[n].session := BusyIn(m, rows[n].session) + picks];
    forall s ensures Distinct(BusyIn(m', s)) && |BusyIn(m', s)| == Demand(rows[..n + 1], rooms, s) {
      DemandSnoc(rows, rooms, s, n);
    }
    forall s, x | x in BusyIn(m', s) ensures x in instructors {
      if s == rows[n].session {
        assert x in BusyIn(m, s) || x in picks;
      } else {
        assert BusyIn(m', s) == BusyIn(m, s);
      }
    }
  }

  /** A row whose session can still be served keeps the supply bound. */
  lemma StepSupplied(rows: seq<ExamRow>, rooms: seq<RoomStaff>, instructors: seq<Instructor>, n: nat)
    requires n < |rows| && Supplied(rows, rooms, instructors, n)
    requires Need(rooms, rows[n].room).Some?
    requires Demand(rows[..n], rooms, rows[n].session) + Need(rooms, rows[n].room).value <= |instructors|
    ensures Supplied(rows, rooms, instructors, n + 1)
  {
    forall s ensures Demand(rows[..n + 1], rooms, s) == Demand(rows[..n], rooms, s)
      + (if s == rows[n].session then Need(rooms, rows[n].room).value else 0) {
      DemandSnoc(rows, rooms, s, n);
    }
  }

  /** A successful row, with the picks recorded in the book, keeps
      Progress. */
  lemma StepBook(rows: seq<ExamRow>, rooms: seq<RoomStaff>, instructors: seq<Instructor>,
                 sup: seq<seq<Instructor>>, m: map<Session, seq<Instructor>>, picks: seq<Instructor>)
    requires Progress(rows, rooms, instructors, sup, m) && |sup| < |rows|
    requires Distinct(instructors)
    requires Need(rooms, rows[|sup|].room).Some?
    requires Need(rooms, rows[|sup|].room).value <= |Pool(instructors, rows[|sup|].teachers, BusyIn(m, rows[|sup|].session), Need(rooms, rows[|sup|].room).value)|
    requires IsSample(picks, Pool(instructors, rows[|sup|].teachers, BusyIn(m, rows[|sup|].session), Need(rooms, rows[|sup|].room).value), Need(rooms, rows[|sup|].room).value)
    ensures Progress(rows, rooms, instructors, sup + [picks], m[rows[|sup|].session := BusyIn(m, rows[|sup|].session) + picks])
  {
    var i, row := |sup|, rows[|sup|];
    var k := Need(rooms, row.room).value;
    var busy := BusyIn(m, row.session);
    StepStaffed(rows, rooms, instructors, sup, m, picks);
    StepRecorded(rows, sup, m, picks);
    SampleFacts(picks, instructors, row.teachers, busy, k);
    StepCounted(rows, rooms, instructors, i, m, picks);
    PoolLargeEnough(instructors, row.teachers, busy, k);
    StepSupplied(rows, rooms, instructors, i);
  }

  /** A row that cannot be staffed shows the timetable infeasible. */
  lemma StepFails(rows: seq<ExamRow>, rooms: seq<RoomStaff>, instructors: seq<Instructor>,
                  sup: seq<seq<Instructor>>, m: map<Session, seq<Instructor>>)
    requires Progress(rows, rooms, instructors, sup, m) && |sup| < |rows|
    requires Distinct(instructors)
    requires Need(rooms, rows[|sup|].room).Some? ==>
      Need(rooms, rows[|sup|].room).value > |Pool(instructors, rows[|sup|].teachers, BusyIn(m, rows[|sup|].session), Need(rooms, rows[|sup|].room).value)|
    ensures !Feasible(rows, rooms, instructors)
  {
    var i, row := |sup|, rows[|sup|];
    if Need(rooms, row.room).Some? {
      var k := Need(rooms, row.room).value;
      PoolLargeEnough(instructors, row.teachers, BusyIn(m, row.session), k);
      DemandSnoc(rows, rooms, row.session, i);
      DemandPrefix(rows, rooms, row.session, i + 1);
    }
  }

  /** generate_schedule of the supervisor stage: assign_pengawas row after
      row against one shared book. It succeeds exactly when every room is
      known and no session asks for more supervisors than there are
      instructors, and then every row is staffed and no instructor
      supervises twice in one session. */
  method AssignAll(rows: seq<ExamRow>, rooms: seq<RoomStaff>, instructors: seq<Instructor>)
    returns (r: Result<seq<seq<Instructor>>, SupervisionError>)
    requires Distinct(instructors)
    ensures r.Ok? <==> Feasible(rows, rooms, instructors)
    ensures r.Ok? ==> Staffed(rows, rooms, r.value) && Exclusive(rows, r.value)
    ensures r.Ok? ==> forall i, x | 0 <= i < |rows| && x in r.value[i] :: x in instructors
  {
    var book := new SupervisorBook();
    var sup: seq<seq<Instructor>> := [];
    assert rows[..0] == [];
    for i := 0 to |rows|
      invariant |sup| == i
      invariant Progress(rows, rooms, instructors, sup, book.booked)
    {
      ghost var m := book.booked;
      var a := book.Assign(rows[i], rooms, instructors);
      if a.Err? {
        StepFails(rows, rooms, instructors, sup, m);
        return Err(a.error);
      }
      StepBook(rows, rooms, instructors, sup, m, a.value);
      sup := sup + [a.value];
    }
    assert rows[..|rows|] == rows;
    return Ok(sup);
  }

  // ---------------------------------------------------------------------
  // Genetic operators

  /** crossover: copies of both parents whose supervisor column is swapped
      from row `k` on. */
  method CrossoverRows(p1: array<seq<Instructor>>, p2: array<seq<Instructor>>, k: nat)
    returns (c1: array<seq<Instructor>>, c2: array<seq<Instructor>>)
    requires p1.Length == p2.Length && k <= p1.Length
    ensures fresh(c1) && fresh(c2)
    ensures c1[..] == p1[..k] + p2[k..]
    ensures c2[..] == p2[..k] + p1[k..]
  {
    c1 := new seq<Instructor>[p1.Length](i requires 0 <= i < p1.Length reads p1 => p1[i]);
    c2 := new seq<Instructor>[p2.Length](i requires 0 <= i < p2.Length reads p2 => p2[i]);
    for i := k to p1.Length
      invariant forall j | 0 <= j < c1.Length :: c1[j] == if k <= j < i then p2[j] else p1[j]
      invariant forall j | 0 <= j < c2.Length :: c2[j] == if k <= j < i then p1[j] else p2[j]
    {
      c1[i] := p2[i];
      c2[i] := p1[i];
    }
    assert c1[..] == p1[..k] + p2[k..];
    assert c2[..] == p2[..k] + p1[k..];
  }

  /** Crossover keeps every row staffed: each row comes whole from one
      parent. */
  lemma CrossoverStaffed(rows: seq<ExamRow>, rooms: seq<RoomStaff>, s1: seq<seq<Instructor>>, s2: seq<seq<Instructor>>, k: nat)
    requires Staffed(rows, rooms, s1) && Staffed(rows, rooms, s2) && k <= |rows|
    ensures Staffed(rows, rooms, s1[..k] + s2[k..])
  {
    var c := s1[..k] + s2[k..];
    forall i | 0 <= i < |rows| ensures c[i] == s1[i] || c[i] == s2[i] { }
  }

  const Slot := Session("Mon", "08")
  /** Two rooms used in one session, one supervisor each. */
  const TwoRows := [ExamRow(Slot, "C1", "R1", ["A"]), ExamRow(Slot, "C2", "R2", ["A"])]
  const TwoRooms := [RoomStaff("R1", 1), RoomStaff("R2", 1)]

  /** Crossover does not keep sessions exclusive: two exclusive parents
      swapped after row 1 give a child with "A" in both rooms. */
  lemma CrossoverClash()
    ensures Exclusive(TwoRows, [["A"], ["B"]]) && Exclusive(TwoRows, [["B"], ["A"]])
    ensures !Exclusive(TwoRows, [["A"], ["B"]][..1] + [["B"], ["A"]][1..])
  {
    var c := [["A"], ["B"]][..1] + [["B"], ["A"]][1..];
    assert c == [["A"], ["A"]];
    assert "A" in c[0] && "A" in c[1];
  }

  /** mutate: a copy in which one row's supervisors are drawn again against
      an empty book, ignoring the other rows of its session. */
  method MutateRow(rows: seq<ExamRow>, sup: array<seq<Instructor>>, rooms: seq<RoomStaff>, instructors: seq<Instructor>, idx: nat)
    returns (r: Result<array<seq<Instructor>>, SupervisionError>)
    requires sup.Length == |rows| && idx < |rows| && Distinct(instructors)
    ensures r.Err? <==> (Need(rooms, rows[idx].room).None? ||
      Need(rooms, rows[idx].room).value > |Pool(instructors, rows[idx].teachers, [], Need(rooms, rows[idx].room).value)|)
    ensures r.Ok? ==> fresh(r.value) && r.value.Length == sup.Length && r.value[..] == sup[..][idx := r.value[idx]]
    ensures r.Ok? ==> IsSample(r.value[idx], Pool(instructors, rows[idx].teachers, [], Need(rooms, rows[idx].room).value), Need(rooms, rows[idx].room).value)
  {
    var copy := new seq<Instructor>[sup.Length](i requires 0 <= i < sup.Length reads sup => sup[i]);
    var book := new SupervisorBook();
    var a := book.Assign(rows[idx], rooms, instructors);
    if a.Err? {
      return Err(a.error);
    }
    copy[idx] := a.value;
    return Ok(copy);
  }

  /** The instructors supervising the rows before `n`, other than `idx`, in
      the session of row `idx`. */
  function SessionPicks(rows: seq<ExamRow>, sup: seq<seq<Instructor>>, idx: nat, n: nat): seq<Instructor>
    requires |sup| == |rows| && idx < |rows| && n <= |rows|
  {
    if n == 0 then []
    else SessionPicks(rows, sup, idx, n - 1) + (if n - 1 != idx && rows[n - 1].session == rows[idx].session then sup[n - 1] else [])
  }

  lemma {:induction false} SessionPicksHas(rows: seq<ExamRow>, sup: seq<seq<Instructor>>, idx: nat, n: nat, j: nat, x: Instructor)
    requires |sup| == |rows| && idx < |rows| && n <= |rows|
    requires j < n && j != idx && rows[j].session == rows[idx].session && x in sup[j]
    ensures x in SessionPicks(rows, sup, idx, n)
  {
    if j < n - 1 {
      SessionPicksHas(rows, sup, idx, n - 1, j, x);
    }
  }

  /** Replacing one row by instructors not supervising elsewhere in its
      session keeps sessions exclusive. */
  lemma ReplaceExclusive(rows: seq<ExamRow>, sup: seq<seq<Instructor>>, idx: nat, picks: seq<Instructor>)
    requires Exclusive(rows, sup) && idx < |rows|
    requires forall x | x in picks :: x !in SessionPicks(rows, sup, idx, |rows|)
    ensures Exclusive(rows, sup[idx := picks])
  {
    var c := sup[idx := picks];
    forall i, j | 0 <= i < j < |rows| && rows[i].session == rows[j].session
      ensures forall x | x in c[i] :: x !in c[j]
    {
      if i == idx {
        forall x | x in c[j] ensures x !in c[i] {
          SessionPicksHas(rows, sup, idx, |rows|, j, x);
        }
      } else if j == idx {
        forall x | x in c[i] ensures x !in c[j] {
          SessionPicksHas(rows, sup, idx, |rows|, i, x);
        }
      }
    }
  }

  /** mutate with the book seeded by the other rows of the session: the
      redrawn row joins the session without clashing, so an exclusive
      timetable stays exclusive. */
  method MutateRowExclusive(rows: seq<ExamRow>, sup: array<seq<Instructor>>, rooms: seq<RoomStaff>, instructors: seq<Instructor>, idx: nat)
    returns (r: Result<array<seq<Instructor>>, SupervisionError>)
    requires sup.Length == |rows| && idx < |rows| && Distinct(instructors)
    ensures r.Err? <==> (Need(rooms, rows[idx].room).None? ||
      Need(rooms, rows[idx].room).value > |Pool(instructors, rows[idx].teachers, SessionPicks(rows, sup[..], idx, |rows|), Need(rooms, rows[idx].room).value)|)
    ensures r.Ok? ==> fresh(r.value) && r.value.Length == sup.Length && r.value[..] == sup[..][idx := r.value[idx]]
    ensures r.Ok? ==> IsSample(r.value[idx], Pool(instructors, rows[idx].teachers, SessionPicks(rows, sup[..], idx, |rows|), Need(rooms, rows[idx].room).value), Need(rooms, rows[idx].room).value)
    ensures r.Ok? && Exclusive(rows, sup[..]) ==> Exclusive(rows, r.value[..])
  {
    var copy := new seq<Instructor>[sup.Length](i requires 0 <= i < sup.Length reads sup => sup[i]);
    var others := SessionPicks(rows, sup[..], idx, |rows|);
    var book := new SupervisorBook.Seeded(rows[idx].session, others);
    var a := book.Assign(rows[idx], rooms, instructors);
    if a.Err? {
      return Err(a.error);
    }
    copy[idx] := a.value;
    if Exclusive(rows, sup[..]) {
      ReplaceExclusive(rows, sup[..], idx, a.value);
    }
    return Ok(copy);
  }

  const Teachers := ["A", "B"]

  /** When a free teacher of the course is one of `Teachers` and the
      course has no other teacher, a one-supervisor draw picks that teacher. */
  lemma OnlyTeacher(picks: seq<Instructor>, teacher: Instructor, busy: seq<Instructor>)
    requires teacher in Teachers && teacher !in busy
    requires IsSample(picks, Pool(Teachers, [teacher], busy, 1), 1)
    ensures picks == [teacher]
  {
    assert teacher in Free(Teachers, [teacher], busy, true);
    assert picks[0] in Pool(Teachers, [teacher], busy, 1);
  }

  /** With "A" teaching both courses of TwoRows, the two assign_pengawas
      calls can only give row 0 "A" and row 1 "B": once "A" is busy the
      second row has no free teacher and falls back to the others. */
  lemma TwoRowsAssigned(p0: seq<Instructor>, p1: seq<Instructor>)
    requires IsSample(p0, Pool(Teachers, TwoRows[0].teachers, [], 1), 1)
    requires IsSample(p1, Pool(Teachers, TwoRows[1].teachers, p0, 1), 1)
    ensures p0 == ["A"] && p1 == ["B"]
  {
    OnlyTeacher(p0, "A", []);
    assert p1[0] in Pool(Teachers, ["A"], ["A"], 1);
  }

  /** The mutation as written can break exclusivity: on TwoRows the
      assignment is row 0 "A", row 1 "B" (TwoRowsAssigned); redrawing row 1
      against an empty book must give it "A" again. */
  lemma MutationClash(picks: seq<Instructor>)
    requires IsSample(picks, Pool(Teachers, TwoRows[1].teachers, [], 1), 1)
    ensures Exclusive(TwoRows, [["A"], ["B"]])
    ensures !Exclusive(TwoRows, [["A"], ["B"]][1 := picks])
  {
    OnlyTeacher(picks, "A", []);
    var c := [["A"], ["B"]][1 := picks];
    assert c == [["A"], ["A"]];
    assert "A" in c[0] && "A" in c[1];
  }

  /** Two simultaneous courses, "A" teaching the first and "B" the second. */
  const OwnRows := [ExamRow(Slot, "C1", "R1", ["A"]), ExamRow(Slot, "C2", "R2", ["B"])]

  /** Own teachers first: on OwnRows every possible draw of the two
      assign_pengawas calls gives each course its own teacher, and the
      session has no clash. */
  lemma OwnTeachers(p0: seq<Instructor>, p1: seq<Instructor>)
    requires IsSample(p0, Pool(Teachers, OwnRows[0].teachers, [], 1), 1)
    requires IsSample(p1, Pool(Teachers, OwnRows[1].teachers, p0, 1), 1)
    ensures p0 == ["A"] && p1 == ["B"]
    ensures Exclusive(OwnRows, [p0, p1])
  {
    OnlyTeacher(p0, "A", []);
    OnlyTeacher(p1, "B", ["A"]);
  }
}
