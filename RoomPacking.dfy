/** Room packing (generate_schedule, ujiandsb.py:241-336): every exam group,
    keyed by day, time and course, is poured into rooms largest-first. Each
    free room takes as many students as remain, up to its capacity; a room
    already holding a row at the same day and time is skipped. Lab courses
    fill lab rooms first and overflow into non-lab rooms; other courses do
    the reverse. */
module RoomPacking {
  import opened Common
  import opened Sorting

  /** A row of the room sheet; `lab` is its Lab column ("y" for a lab). */
  datatype Room = Room(name: RoomName, capacity: nat, lab: string)

  predicate IsLabRoom(r: Room)
  {
    r.lab == "y"
  }

  /** A group of the groupby on (day, time, course) with its summed
      enrolment. */
  datatype GroupKey = GroupKey(day: Day, time: Time, course: Course)
  datatype ExamGroup = ExamGroup(key: GroupKey, students: nat)

  /** An output row: day, time, course, room, students placed, capacity.
      The constant class label "Gabungan" is not kept. */
  datatype Row = Row(day: Day, time: Time, course: Course, room: RoomName, count: nat, capacity: nat)

  function Capacity(r: Room): int
  {
    r.capacity
  }

  function Names(rooms: seq<Room>): (r: seq<RoomName>)
    ensures |r| == |rooms|
  {
    seq(|rooms|, i requires 0 <= i < |rooms| => rooms[i].name)
  }

  /** The rooms whose lab flag is (or is not) "y", in sheet order. */
  function Partition(rooms: seq<Room>, lab: bool): (r: seq<Room>)
    ensures forall x :: x in r <==> x in rooms && IsLabRoom(x) == lab
  {
    if rooms == [] then []
    else (if IsLabRoom(rooms[0]) == lab then [rooms[0]] else []) + Partition(rooms[1..], lab)
  }

  /** Every room lands in exactly one of the two lists. */
  lemma {:induction false} PartitionSplits(rooms: seq<Room>)
    ensures multiset(Partition(rooms, true)) + multiset(Partition(rooms, false)) == multiset(rooms)
  {
    if rooms != [] {
      PartitionSplits(rooms[1..]);
      assert rooms == [rooms[0]] + rooms[1..];
    }
  }

  /** df_ruang_lab and df_ruang_non_lab (lines 245-246). */
  function LabList(rooms: seq<Room>): seq<Room>
  {
    SortDesc(Partition(rooms, true), Capacity)
  }

  function NonLabList(rooms: seq<Room>): seq<Room>
  {
    SortDesc(Partition(rooms, false), Capacity)
  }

  /** The conflict test: some row already holds `room` at (day, time). */
  predicate Booked(schedule: seq<Row>, day: Day, time: Time, room: RoomName)
  {
    && schedule != []
    && (|| Holds(schedule[|schedule| - 1], day, time, room)
        || Booked(schedule[..|schedule| - 1], day, time, room))
  }

  predicate Holds(r: Row, day: Day, time: Time, room: RoomName)
  {
    r.day == day && r.time == time && r.room == room
  }

  /** Booked means: some row of the schedule holds the room then. */
  lemma {:induction false} BookedMeans(schedule: seq<Row>, day: Day, time: Time, room: RoomName)
    ensures Booked(schedule, day, time, room) <==> exists i | 0 <= i < |schedule| :: Holds(schedule[i], day, time, room)
  {
    if schedule != [] {
      var init := schedule[..|schedule| - 1];
      BookedMeans(init, day, time, room);
      assert forall i | 0 <= i < |init| :: init[i] == schedule[i];
    }
  }

  /** A placed row: some students, no more than the room holds. */
  predicate RowOk(r: Row)
  {
    0 < r.count <= r.capacity
  }

  /** No (day, time, room) appears in two rows. */
  predicate NoClash(schedule: seq<Row>)
  {
    forall i, j | 0 <= i < j < |schedule| ::
      !(schedule[i].day == schedule[j].day && schedule[i].time == schedule[j].time && schedule[i].room == schedule[j].room)
  }

  function Min(a: nat, b: nat): nat
  {
    if a <= b then a else b
  }

  /** One pass over a room list (the loops of lines 257-274 and their
      three mirrors): the schedule after the pass and the students still
      unplaced. */
  function Fill(schedule: seq<Row>, k: GroupKey, rooms: seq<Room>, remaining: nat): (f: (seq<Row>, nat))
    decreases |rooms|
    ensures |schedule| <= |f.0| && f.0[..|schedule|] == schedule
    ensures f.1 <= remaining
  {
    if rooms == [] || remaining == 0 then (schedule, remaining)
    else if Booked(schedule, k.day, k.time, rooms[0].name) then Fill(schedule, k, rooms[1..], remaining)
    else
      var room := rooms[0];
      var placed := Min(remaining, room.capacity);
      var next := if placed > 0 then schedule + [Row(k.day, k.time, k.course, room.name, placed, room.capacity)] else schedule;
      Fill(next, k, rooms[1..], remaining - placed)
  }

  /** A row of group `k` in a room of `rooms`, holding 0 < count <= capacity. */
  predicate RowOf(r: Row, k: GroupKey, rooms: seq<Room>)
  {
    r.day == k.day && r.time == k.time && r.course == k.course && RowOk(r) && r.room in Names(rooms)
  }

  /** The rows a pass appends belong to its own group, each in a room of
      the list and holding 0 < count <= capacity. */
  lemma {:induction false} FillShape(schedule: seq<Row>, k: GroupKey, rooms: seq<Room>, remaining: nat)
    decreases |rooms|
    ensures forall i | |schedule| <= i < |Fill(schedule, k, rooms, remaining).0| ::
      RowOf(Fill(schedule, k, rooms, remaining).0[i], k, rooms)
  {
    if rooms != [] && remaining != 0 {
      var room := rooms[0];
      assert Names(rooms) == [room.name] + Names(rooms[1..]);
      if Booked(schedule, k.day, k.time, room.name) {
        FillShape(schedule, k, rooms[1..], remaining);
      } else {
        var placed := Min(remaining, room.capacity);
        var row := Row(k.day, k.time, k.course, room.name, placed, room.capacity);
        var next := if placed > 0 then schedule + [row] else schedule;
        FillShape(next, k, rooms[1..], remaining - placed);
        var f := Fill(next, k, rooms[1..], remaining - placed);
        assert f == Fill(schedule, k, rooms, remaining);
        assert f.0[..|next|] == next;
        forall i | |schedule| <= i < |f.0| ensures RowOf(f.0[i], k, rooms) {
          if i < |next| {
            assert f.0[i] == next[i] == row;
          } else {
            assert RowOf(f.0[i], k, rooms[1..]);
          }
        }
      }
    }
  }

  /** The list a group tries first, and the one it overflows into. */
  function FirstList(g: ExamGroup, lab: seq<Room>, nonLab: seq<Room>, labCourses: set<Course>): seq<Room>
  {
    if g.key.course in labCourses then lab else nonLab
  }

  function SecondList(g: ExamGroup, lab: seq<Room>, nonLab: seq<Room>, labCourses: set<Course>): seq<Room>
  {
    if g.key.course in labCourses then nonLab else lab
  }

  /** One group (lines 252-334): its own room list first, the other list
      only while students remain. */
  function PackGroup(schedule: seq<Row>, g: ExamGroup, lab: seq<Room>, nonLab: seq<Room>, labCourses: set<Course>): (s: seq<Row>)
  {
    var (s1, r1) := Fill(schedule, g.key, FirstList(g, lab, nonLab, labCourses), g.students);
    if r1 > 0 then Fill(s1, g.key, SecondList(g, lab, nonLab, labCourses), r1).0 else s1
  }

  /** The schedule after the groups `groups`, in order. */
  function Packing(groups: seq<ExamGroup>, lab: seq<Room>, nonLab: seq<Room>, labCourses: set<Course>): seq<Row>
  {
    if groups == [] then []
    else PackGroup(Packing(groups[..|groups| - 1], lab, nonLab, labCourses), groups[|groups| - 1], lab, nonLab, labCourses)
  }

  // ---------------------------------------------------------------------
  // The imperative packing

  /** One room loop of generate_schedule, with its `break` and `continue`. */
  method FillRooms(schedule0: seq<Row>, k: GroupKey, rooms: seq<Room>, remaining0: nat)
    returns (schedule: seq<Row>, remaining: nat)
    ensures (schedule, remaining) == Fill(schedule0, k, rooms, remaining0)
  {
    schedule, remaining := schedule0, remaining0;
    var i := 0;
    while i < |rooms|
      invariant 0 <= i <= |rooms|
      invariant Fill(schedule, k, rooms[i..], remaining) == Fill(schedule0, k, rooms, remaining0)
    {
      if remaining == 0 {
        break;
      }
      var room := rooms[i];
      assert rooms[i..][0] == room && rooms[i..][1..] == rooms[i + 1..];
      if Booked(schedule, k.day, k.time, room.name) {
        i := i + 1;
        continue;
      }
      var placed := Min(remaining, room.capacity);
      remaining := remaining - placed;
      if placed > 0 {
        schedule := schedule + [Row(k.day, k.time, k.course, room.name, placed, room.capacity)];
      }
      i := i + 1;
    }
  }

  /** generate_schedule: the room lists split and sorted, then every group
      packed in turn. */
  method GenerateSchedule(groups: seq<ExamGroup>, rooms: seq<Room>, labCourses: set<Course>)
    returns (schedule: seq<Row>)
    ensures schedule == Packing(groups, LabList(rooms), NonLabList(rooms), labCourses)
  {
    var lab := LabList(rooms);
    var nonLab := NonLabList(rooms);
    schedule := [];
    var g := 0;
    while g < |groups|
      invariant 0 <= g <= |groups|
      invariant schedule == Packing(groups[..g], lab, nonLab, labCourses)
    {
      var grp := groups[g];
      PackingSnoc(groups, g, lab, nonLab, labCourses);
      var remaining;
      schedule, remaining := FillRooms(schedule, grp.key, FirstList(grp, lab, nonLab, labCourses), grp.students);
      if remaining > 0 {
        schedule, remaining := FillRooms(schedule, grp.key, SecondList(grp, lab, nonLab, labCourses), remaining);
      }
      g := g + 1;
    }
    assert groups[..|groups|] == groups;
  }

  /** Packing one more group. */
  lemma PackingSnoc(groups: seq<ExamGroup>, g: nat, lab: seq<Room>, nonLab: seq<Room>, labCourses: set<Course>)
    requires g < |groups|
    ensures Packing(groups[..g + 1], lab, nonLab, labCourses)
      == PackGroup(Packing(groups[..g], lab, nonLab, labCourses), groups[g], lab, nonLab, labCourses)
  {
    assert groups[..g + 1][..g] == groups[..g];
  }

  // ---------------------------------------------------------------------
  // What a pass places

  function Total(rows: seq<Row>): nat
  {
    if rows == [] then 0 else rows[0].count + Total(rows[1..])
  }

  lemma {:induction false} TotalAppend(a: seq<Row>, b: seq<Row>)
    ensures Total(a + b) == Total(a) + Total(b)
  {
    if a != [] {
      TotalAppend(a[1..], b);
      assert (a + b)[1..] == a[1..] + b;
    } else {
      assert a + b == b;
    }
  }

  /** The capacity of the rooms of `rooms` still free at (day, time). */
  function FreeCapacity(schedule: seq<Row>, day: Day, time: Time, rooms: seq<Room>): nat
  {
    if rooms == [] then 0
    else
      (if Booked(schedule, day, time, rooms[0].name) then 0 else rooms[0].capacity)
        + FreeCapacity(schedule, day, time, rooms[1..])
  }

  /** Rows in other rooms do not change whether `n` is booked. */
  lemma BookedOther(schedule: seq<Row>, extra: seq<Row>, day: Day, time: Time, n: RoomName)
    requires forall i | 0 <= i < |extra| :: extra[i].room != n
    ensures Booked(schedule + extra, day, time, n) <==> Booked(schedule, day, time, n)
  {
    var all := schedule + extra;
    BookedMeans(all, day, time, n);
    BookedMeans(schedule, day, time, n);
    assert forall i | 0 <= i < |schedule| :: all[i] == schedule[i];
    if Booked(all, day, time, n) {
      var i :| 0 <= i < |all| && Holds(all[i], day, time, n);
      if i >= |schedule| {
        assert all[i] == extra[i - |schedule|];
      }
    }
  }

  /** Rows in other rooms leave a list's free capacity as it was. */
  lemma {:induction false} FreeCapacityUnaffected(schedule: seq<Row>, extra: seq<Row>, day: Day, time: Time, rooms: seq<Room>)
    requires forall i | 0 <= i < |extra| :: extra[i].room !in Names(rooms)
    ensures FreeCapacity(schedule + extra, day, time, rooms) == FreeCapacity(schedule, day, time, rooms)
  {
    if rooms != [] {
      assert Names(rooms) == [rooms[0].name] + Names(rooms[1..]);
      FreeCapacityUnaffected(schedule, extra, day, time, rooms[1..]);
      BookedOther(schedule, extra, day, time, rooms[0].name);
    }
  }

  /** The rooms of `rooms` a pass can use at (day, time), in list order:
      those not booked then that seat at least one student. */
  function Open(schedule: seq<Row>, day: Day, time: Time, rooms: seq<Room>): (r: seq<Room>)
    ensures forall x | x in r :: x in rooms && x.capacity > 0 && !Booked(schedule, day, time, x.name)
  {
    if rooms == [] then []
    else
      (if !Booked(schedule, day, time, rooms[0].name) && rooms[0].capacity > 0 then [rooms[0]] else [])
        + Open(schedule, day, time, rooms[1..])
  }

  /** Rows in other rooms leave a list's open rooms as they were. */
  lemma {:induction false} OpenUnaffected(schedule: seq<Row>, extra: seq<Row>, day: Day, time: Time, rooms: seq<Room>)
    requires forall i | 0 <= i < |extra| :: extra[i].room !in Names(rooms)
    ensures Open(schedule + extra, day, time, rooms) == Open(schedule, day, time, rooms)
  {
    if rooms != [] {
      assert Names(rooms) == [rooms[0].name] + Names(rooms[1..]);
      OpenUnaffected(schedule, extra, day, time, rooms[1..]);
      BookedOther(schedule, extra, day, time, rooms[0].name);
    }
  }

  /** The open rooms of a list sorted by capacity are sorted too. */
  lemma {:induction false} OpenSorted(schedule: seq<Row>, day: Day, time: Time, rooms: seq<Room>)
    requires SortedDesc(rooms, Capacity)
    ensures SortedDesc(Open(schedule, day, time, rooms), Capacity)
  {
    if rooms != [] {
      var rest := rooms[1..];
      var tail := Open(schedule, day, time, rest);
      assert SortedDesc(rest, Capacity) by {
        forall i, j | 0 <= i < j < |rest| ensures Capacity(rest[i]) >= Capacity(rest[j]) {
          assert rest[i] == rooms[i + 1] && rest[j] == rooms[j + 1];
        }
      }
      OpenSorted(schedule, day, time, rest);
      if tail != [] {
        var j :| 0 <= j < |rest| && rest[j] == tail[0];
        assert rooms[j + 1] == tail[0];
      }
      ConsSorted(rooms[0], tail, Capacity);
    }
  }

  /** Both room lists are largest-first, so their open rooms are too. */
  lemma OpenLargestFirst(schedule: seq<Row>, day: Day, time: Time, rooms: seq<Room>)
    ensures SortedDesc(Open(schedule, day, time, LabList(rooms)), Capacity)
    ensures SortedDesc(Open(schedule, day, time, NonLabList(rooms)), Capacity)
  {
    OpenSorted(schedule, day, time, LabList(rooms));
    OpenSorted(schedule, day, time, NonLabList(rooms));
  }

  /** Row i of `rows` sits in room i of `open`. */
  predicate InOrder(rows: seq<Row>, open: seq<Room>)
  {
    |rows| <= |open| && forall i | 0 <= i < |rows| :: rows[i].room == open[i].name && rows[i].capacity == open[i].capacity
  }

  lemma InOrderCons(row: Row, rows: seq<Row>, room: Room, open: seq<Room>)
    requires InOrder(rows, open) && row.room == room.name && row.capacity == room.capacity
    ensures InOrder([row] + rows, [room] + open)
  {
    var r, o := [row] + rows, [room] + open;
    forall i | 0 <= i < |r| ensures r[i].room == o[i].name && r[i].capacity == o[i].capacity {
      if i > 0 {
        assert r[i] == rows[i - 1] && o[i] == open[i - 1];
      }
    }
  }

  /** Over rooms of distinct names, a pass fills the open rooms in list
      order, one row each, until the students run out; when some are left
      over it has used every open room. */
  lemma {:induction false} FillInOrder(schedule: seq<Row>, k: GroupKey, rooms: seq<Room>, remaining: nat)
    decreases |rooms|
    requires Distinct(Names(rooms))
    ensures InOrder(Fill(schedule, k, rooms, remaining).0[|schedule|..], Open(schedule, k.day, k.time, rooms))
    ensures Fill(schedule, k, rooms, remaining).1 > 0 ==>
      |Fill(schedule, k, rooms, remaining).0| - |schedule| == |Open(schedule, k.day, k.time, rooms)|
  {
    if rooms == [] || remaining == 0 {
      assert Fill(schedule, k, rooms, remaining).0[|schedule|..] == [];
    } else {
      var room := rooms[0];
      DistinctNamesTail(rooms);
      if Booked(schedule, k.day, k.time, room.name) || room.capacity == 0 {
        assert Fill(schedule, k, rooms, remaining) == Fill(schedule, k, rooms[1..], remaining);
        assert Open(schedule, k.day, k.time, rooms) == Open(schedule, k.day, k.time, rooms[1..]);
        FillInOrder(schedule, k, rooms[1..], remaining);
      } else {
        var placed := Min(remaining, room.capacity);
        var next := schedule + [Row(k.day, k.time, k.course, room.name, placed, room.capacity)];
        FillInOrder(next, k, rooms[1..], remaining - placed);
        FillTakes(schedule, k, rooms, remaining);
      }
    }
  }

  /** The step of FillInOrder where the first room is open: its row comes
      first, then the rows of the rest of the list. */
  lemma FillTakes(schedule: seq<Row>, k: GroupKey, rooms: seq<Room>, remaining: nat)
    requires rooms != [] && remaining > 0 && rooms[0].capacity > 0
    requires !Booked(schedule, k.day, k.time, rooms[0].name) && rooms[0].name !in Names(rooms[1..])
    requires var placed := Min(remaining, rooms[0].capacity);
      var next := schedule + [Row(k.day, k.time, k.course, rooms[0].name, placed, rooms[0].capacity)];
      var f := Fill(next, k, rooms[1..], remaining - placed);
      && InOrder(f.0[|next|..], Open(next, k.day, k.time, rooms[1..]))
      && (f.1 > 0 ==> |f.0| - |next| == |Open(next, k.day, k.time, rooms[1..])|)
    ensures InOrder(Fill(schedule, k, rooms, remaining).0[|schedule|..], Open(schedule, k.day, k.time, rooms))
    ensures Fill(schedule, k, rooms, remaining).1 > 0 ==>
      |Fill(schedule, k, rooms, remaining).0| - |schedule| == |Open(schedule, k.day, k.time, rooms)|
  {
    var room, rest := rooms[0], rooms[1..];
    var placed := Min(remaining, room.capacity);
    var row := Row(k.day, k.time, k.course, room.name, placed, room.capacity);
    var next := schedule + [row];
    var f := Fill(next, k, rest, remaining - placed);
    OpenFirst(schedule, k, rooms, row);
    var rows := f.0[|next|..];
    assert f.0[|schedule|..] == [row] + rows by {
      assert f.0[..|next|] == next;
    }
    InOrderCons(row, rows, room, Open(next, k.day, k.time, rest));
    assert |Open(schedule, k.day, k.time, rooms)| == 1 + |Open(next, k.day, k.time, rest)|;
    assert |f.0| - |schedule| == 1 + |rows|;
    assert Fill(schedule, k, rooms, remaining) == f;
  }

  /** With its first room open, a list's open rooms after that room's row
      are the room followed by the rest's open rooms. */
  lemma OpenFirst(schedule: seq<Row>, k: GroupKey, rooms: seq<Room>, row: Row)
    requires rooms != [] && rooms[0].capacity > 0 && row.room == rooms[0].name
    requires !Booked(schedule, k.day, k.time, rooms[0].name) && rooms[0].name !in Names(rooms[1..])
    ensures Open(schedule, k.day, k.time, rooms) == [rooms[0]] + Open(schedule + [row], k.day, k.time, rooms[1..])
  {
    OpenUnaffected(schedule, [row], k.day, k.time, rooms[1..]);
  }

  /** The rows a pass appends hold exactly the students it placed. */
  lemma {:induction false} FillAccounts(schedule: seq<Row>, k: GroupKey, rooms: seq<Room>, remaining: nat)
    decreases |rooms|
    ensures Total(Fill(schedule, k, rooms, remaining).0[|schedule|..]) == remaining - Fill(schedule, k, rooms, remaining).1
  {
    var f := Fill(schedule, k, rooms, remaining);
    if rooms == [] || remaining == 0 {
      assert f.0[|schedule|..] == [];
    } else if Booked(schedule, k.day, k.time, rooms[0].name) {
      FillAccounts(schedule, k, rooms[1..], remaining);
    } else {
      var room := rooms[0];
      var placed := Min(remaining, room.capacity);
      var row := Row(k.day, k.time, k.course, room.name, placed, room.capacity);
      var next := if placed > 0 then schedule + [row] else schedule;
      FillAccounts(next, k, rooms[1..], remaining - placed);
      if placed > 0 {
        assert f.0[|schedule|..] == [row] + f.0[|next|..];
      }
    }
  }

  /** A list of distinct names, taken apart at its head. */
  lemma DistinctNamesTail(rooms: seq<Room>)
    requires rooms != [] && Distinct(Names(rooms))
    ensures Distinct(Names(rooms[1..]))
    ensures rooms[0].name !in Names(rooms[1..])
  {
    var rest := rooms[1..];
    assert rooms == [rooms[0]] + rest;
    NamesAppend([rooms[0]], rest);
    assert Names([rooms[0]]) == [rooms[0].name];
    DistinctAppend([rooms[0].name], Names(rest));
  }

  /** Over rooms of distinct names, a pass places exactly the smaller of the
      students waiting and the free capacity of the list. */
  lemma {:induction false} FillPlaces(schedule: seq<Row>, k: GroupKey, rooms: seq<Room>, remaining: nat)
    decreases |rooms|
    requires Distinct(Names(rooms))
    ensures remaining - Fill(schedule, k, rooms, remaining).1 == Min(remaining, FreeCapacity(schedule, k.day, k.time, rooms))
  {
    if rooms != [] && remaining != 0 {
      var room := rooms[0];
      var rest := rooms[1..];
      DistinctNamesTail(rooms);
      if Booked(schedule, k.day, k.time, room.name) {
        FillPlaces(schedule, k, rest, remaining);
      } else {
        var placed := Min(remaining, room.capacity);
        var row := Row(k.day, k.time, k.course, room.name, placed, room.capacity);
        var next := if placed > 0 then schedule + [row] else schedule;
        FillPlaces(next, k, rest, remaining - placed);
        if placed > 0 {
          FreeCapacityUnaffected(schedule, [row], k.day, k.time, rest);
        }
      }
    }
  }

  /** The rows s[from..to] hold as many students as their rooms seat. */
  predicate Full(s: seq<Row>, from: int, to: int)
  {
    forall i | 0 <= from <= i < to && i < |s| :: s[i].count == s[i].capacity
  }

  /** Every row a pass adds is full except possibly its last; and if
      students are left over, all of them are full. */
  lemma {:induction false} FillFullRows(schedule: seq<Row>, k: GroupKey, rooms: seq<Room>, remaining: nat)
    decreases |rooms|
    ensures Full(Fill(schedule, k, rooms, remaining).0, |schedule|, |Fill(schedule, k, rooms, remaining).0| - 1)
    ensures Fill(schedule, k, rooms, remaining).1 > 0 ==> Full(Fill(schedule, k, rooms, remaining).0, |schedule|, |Fill(schedule, k, rooms, remaining).0|)
  {
    if rooms != [] && remaining != 0 {
      var room := rooms[0];
      if Booked(schedule, k.day, k.time, room.name) {
        FillFullRows(schedule, k, rooms[1..], remaining);
      } else {
        var placed := Min(remaining, room.capacity);
        var next := if placed > 0 then schedule + [Row(k.day, k.time, k.course, room.name, placed, room.capacity)] else schedule;
        FillFullRows(next, k, rooms[1..], remaining - placed);
      }
    }
  }

  /** A pass never books a room twice at one time, given that the schedule
      did not. */
  lemma {:induction false} FillNoClash(schedule: seq<Row>, k: GroupKey, rooms: seq<Room>, remaining: nat)
    decreases |rooms|
    requires NoClash(schedule)
    ensures NoClash(Fill(schedule, k, rooms, remaining).0)
  {
    if rooms != [] && remaining != 0 {
      var room := rooms[0];
      if Booked(schedule, k.day, k.time, room.name) {
        FillNoClash(schedule, k, rooms[1..], remaining);
      } else {
        var placed := Min(remaining, room.capacity);
        if placed > 0 {
          var row := Row(k.day, k.time, k.course, room.name, placed, room.capacity);
          var next := schedule + [row];
          BookedMeans(schedule, k.day, k.time, room.name);
          forall i, j | 0 <= i < j < |next|
            ensures !(next[i].day == next[j].day && next[i].time == next[j].time && next[i].room == next[j].room)
          {
            if j == |schedule| {
              assert !Holds(schedule[i], k.day, k.time, room.name);
            }
          }
          FillNoClash(next, k, rooms[1..], remaining - placed);
        } else {
          FillNoClash(schedule, k, rooms[1..], remaining - placed);
        }
      }
    }
  }

  // ---------------------------------------------------------------------
  // What a group places

  /** `added`, the rows one group appended, place min(students, free
      capacity of both lists); all but the last are full; the rows in the
      first list's rooms come before those in the second's, each part
      taking the open rooms of its list (`open1`, `open2`) in list order,
      and the second list is used only once every open room of the first,
      with its free capacity `free1`, is taken. */
  predicate GroupPlaced(added: seq<Row>, students: nat, first: seq<Room>, second: seq<Room>, free1: nat, free2: nat,
                        open1: seq<Room>, open2: seq<Room>)
  {
    && Total(added) == Min(students, free1 + free2)
    && Full(added, 0, |added| - 1)
    && exists m | 0 <= m <= |added| :: SplitAt(added, m, first, second, free1, open1, open2)
  }

  /** added[..m] lies in the first list's open rooms, in order, added[m..]
      in the second's, and the second is reached only with all of the
      first's open rooms, and so its free capacity `free1`, placed. */
  predicate SplitAt(added: seq<Row>, m: nat, first: seq<Room>, second: seq<Room>, free1: nat,
                    open1: seq<Room>, open2: seq<Room>)
    requires m <= |added|
  {
    && (forall i | 0 <= i < m :: added[i].room in Names(first))
    && (forall i | m <= i < |added| :: added[i].room in Names(second))
    && InOrder(added[..m], open1) && InOrder(added[m..], open2)
    && (m < |added| ==> Total(added[..m]) == free1 && m == |open1|)
  }

  lemma NamesAppend(a: seq<Room>, b: seq<Room>)
    ensures Names(a + b) == Names(a) + Names(b)
  {
    assert forall i | 0 <= i < |a + b| :: Names(a + b)[i] == (Names(a) + Names(b))[i];
  }

  /** The two room lists, when all their names differ, each have distinct
      names and share none. */
  lemma NamesSplit(lab: seq<Room>, nonLab: seq<Room>)
    requires Distinct(Names(lab + nonLab))
    ensures Distinct(Names(lab)) && Distinct(Names(nonLab))
    ensures forall n | n in Names(lab) :: n !in Names(nonLab)
  {
    NamesAppend(lab, nonLab);
    DistinctAppend(Names(lab), Names(nonLab));
  }

  /** A group placed wholly by its first list. */
  lemma OnePass(schedule: seq<Row>, k: GroupKey, students: nat, first: seq<Room>, second: seq<Room>, free2: nat, open2: seq<Room>)
    requires Distinct(Names(first))
    requires Fill(schedule, k, first, students).1 == 0
    ensures GroupPlaced(Fill(schedule, k, first, students).0[|schedule|..], students, first, second,
      FreeCapacity(schedule, k.day, k.time, first), free2, Open(schedule, k.day, k.time, first), open2)
  {
    var s1 := Fill(schedule, k, first, students).0;
    FillShape(schedule, k, first, students);
    FillAccounts(schedule, k, first, students);
    FillPlaces(schedule, k, first, students);
    FillFullRows(schedule, k, first, students);
    FillInOrder(schedule, k, first, students);
    var added := s1[|schedule|..];
    assert added[..|added|] == added && added[|added|..] == [];
    forall i | 0 <= i < |added| ensures added[i] == s1[|schedule| + i] && RowOf(added[i], k, first) {
      assert RowOf(s1[|schedule| + i], k, first);
    }
    assert SplitAt(added, |added|, first, second, FreeCapacity(schedule, k.day, k.time, first), Open(schedule, k.day, k.time, first), open2);
    assert Full(added, 0, |added| - 1);
  }

  /** The rows of a group that overflows, `s2[|schedule|..]`: first the
      `|s1| - |schedule|` rows of the first pass, all full and in the first
      list's rooms, then those of the second pass, in the second list's
      rooms and full but for the last. */
  lemma TwoPassRows(schedule: seq<Row>, k: GroupKey, students: nat, first: seq<Room>, second: seq<Room>,
                    s1: seq<Row>, r1: nat, s2: seq<Row>)
    requires (s1, r1) == Fill(schedule, k, first, students) && r1 > 0
    requires s2 == Fill(s1, k, second, r1).0
    ensures |schedule| <= |s1| <= |s2|
    ensures forall i | |schedule| <= i < |s1| :: s1[i].room in Names(first)
    ensures s2[|schedule|..][..|s1| - |schedule|] == s1[|schedule|..]
    ensures forall i | 0 <= i < |s1| - |schedule| ::
      s2[|schedule|..][i].count == s2[|schedule|..][i].capacity && s2[|schedule|..][i].room in Names(first)
    ensures forall i | |s1| - |schedule| <= i < |s2| - |schedule| :: s2[|schedule|..][i].room in Names(second)
    ensures forall i | |s1| - |schedule| <= i < |s2| - |schedule| - 1 :: s2[|schedule|..][i].count == s2[|schedule|..][i].capacity
  {
    FillShape(schedule, k, first, students);
    FillFullRows(schedule, k, first, students);
    FillShape(s1, k, second, r1);
    FillFullRows(s1, k, second, r1);
    assert s2[..|s1|] == s1;
    var added := s2[|schedule|..];
    forall i | |schedule| <= i < |s1| ensures s1[i].room in Names(first) {
      assert RowOf(s1[i], k, first);
    }
    forall i | 0 <= i < |s1| - |schedule| ensures added[i].count == added[i].capacity && added[i].room in Names(first) {
      assert added[i] == s1[|schedule| + i];
    }
    forall i | |s1| - |schedule| <= i < |s2| - |schedule| ensures added[i].room in Names(second) {
      assert added[i] == s2[|schedule| + i];
      assert RowOf(s2[|schedule| + i], k, second);
    }
    forall i | |s1| - |schedule| <= i < |s2| - |schedule| - 1 ensures added[i].count == added[i].capacity {
      assert added[i] == s2[|schedule| + i];
    }
  }

  /** Rows split at `m` as GroupPlaced asks place the group. */
  lemma PlacedParts(added: seq<Row>, m: nat, students: nat, first: seq<Room>, second: seq<Room>, free1: nat, free2: nat,
                    open1: seq<Room>, open2: seq<Room>)
    requires m <= |added|
    requires InOrder(added[..m], open1) && InOrder(added[m..], open2) && (m < |added| ==> m == |open1|)
    requires forall i | 0 <= i < m :: added[i].count == added[i].capacity && added[i].room in Names(first)
    requires forall i | m <= i < |added| :: added[i].room in Names(second)
    requires forall i | m <= i < |added| - 1 :: added[i].count == added[i].capacity
    requires Total(added[..m]) == free1
    requires Total(added) == Min(students, free1 + free2)
    ensures GroupPlaced(added, students, first, second, free1, free2, open1, open2)
  {
    assert SplitAt(added, m, first, second, free1, open1, open2);
  }

  /** Two passes place min(students, free capacity of both lists): the
      first places min(students, free1) and leaves r1 > 0, the second
      places min(r1, free2) of what is left. */
  lemma TwoPassTotal(students: nat, r1: nat, r2: nat, free1: nat, free2: nat, placed1: nat, placed2: nat)
    requires r1 > 0 && placed1 == students - r1 == Min(students, free1)
    requires placed2 == r1 - r2 == Min(r1, free2)
    ensures placed1 + placed2 == Min(students, free1 + free2)
  {
  }

  /** When `a` is a prefix of `b`, dropping `n <= |a|` from `b` leaves
      what `a` has past `n` followed by what `b` adds to `a`. */
  lemma DropSplit(a: seq<Row>, b: seq<Row>, n: nat)
    requires n <= |a| <= |b| && b[..|a|] == a
    ensures b[n..] == a[n..] + b[|a|..]
    ensures b[n..][..|a| - n] == a[n..] && b[n..][|a| - n..] == b[|a|..]
  {
    assert b[n..] == a[n..] + b[|a|..];
  }

  /** The first pass of an overflowing group places what it takes off. */
  lemma FirstPass(schedule: seq<Row>, k: GroupKey, students: nat, first: seq<Room>, s1: seq<Row>, r1: nat)
    requires Distinct(Names(first))
    requires (s1, r1) == Fill(schedule, k, first, students)
    ensures Total(s1[|schedule|..]) == students - r1 == Min(students, FreeCapacity(schedule, k.day, k.time, first))
    ensures InOrder(s1[|schedule|..], Open(schedule, k.day, k.time, first))
    ensures r1 > 0 ==> |s1| - |schedule| == |Open(schedule, k.day, k.time, first)|
  {
    FillAccounts(schedule, k, first, students);
    FillPlaces(schedule, k, first, students);
    FillInOrder(schedule, k, first, students);
  }

  /** The second pass places what it takes off, up to the second list's
      free capacity before the first pass: the first pass's rooms are not
      in the second list. */
  lemma SecondPass(schedule: seq<Row>, s1: seq<Row>, k: GroupKey, second: seq<Room>, r1: nat, s2: seq<Row>, r2: nat)
    requires Distinct(Names(second))
    requires (s2, r2) == Fill(s1, k, second, r1)
    requires |schedule| <= |s1| && s1[..|schedule|] == schedule
    requires forall i | |schedule| <= i < |s1| :: s1[i].room !in Names(second)
    ensures Total(s2[|s1|..]) == r1 - r2 == Min(r1, FreeCapacity(schedule, k.day, k.time, second))
    ensures InOrder(s2[|s1|..], Open(schedule, k.day, k.time, second))
  {
    var extra := s1[|schedule|..];
    assert s1 == schedule + extra;
    forall i | 0 <= i < |extra| ensures extra[i].room !in Names(second) {
      assert extra[i] == s1[|schedule| + i];
    }
    FreeCapacityUnaffected(schedule, extra, k.day, k.time, second);
    OpenUnaffected(schedule, extra, k.day, k.time, second);
    FillAccounts(s1, k, second, r1);
    FillPlaces(s1, k, second, r1);
    FillInOrder(s1, k, second, r1);
  }

  /** The two passes' totals add up to min(students, free1 + free2), the
      first taking all of free1. */
  lemma SumOfPasses(all: seq<Row>, extra: seq<Row>, tail: seq<Row>, students: nat, r1: nat, r2: nat, free1: nat, free2: nat)
    requires all == extra + tail && r1 > 0
    requires Total(extra) == students - r1 == Min(students, free1)
    requires Total(tail) == r1 - r2 == Min(r1, free2)
    ensures Total(extra) == free1
    ensures Total(all) == Min(students, free1 + free2)
  {
    TotalAppend(extra, tail);
    TwoPassTotal(students, r1, r2, free1, free2, Total(extra), Total(tail));
  }

  /** A group that overflows into its second list. */
  lemma TwoPasses(schedule: seq<Row>, k: GroupKey, students: nat, first: seq<Room>, second: seq<Room>,
                  s1: seq<Row>, r1: nat, s2: seq<Row>)
    requires Distinct(Names(first)) && Distinct(Names(second))
    requires forall n | n in Names(first) :: n !in Names(second)
    requires (s1, r1) == Fill(schedule, k, first, students) && r1 > 0
    requires s2 == Fill(s1, k, second, r1).0
    ensures |schedule| <= |s2|
    ensures GroupPlaced(s2[|schedule|..], students, first, second,
      FreeCapacity(schedule, k.day, k.time, first), FreeCapacity(schedule, k.day, k.time, second),
      Open(schedule, k.day, k.time, first), Open(schedule, k.day, k.time, second))
  {
    TwoPassRows(schedule, k, students, first, second, s1, r1, s2);
    var r2 := Fill(s1, k, second, r1).1;
    var free1, free2 := FreeCapacity(schedule, k.day, k.time, first), FreeCapacity(schedule, k.day, k.time, second);
    forall i | |schedule| <= i < |s1| ensures s1[i].room !in Names(second) { }
    FirstPass(schedule, k, students, first, s1, r1);
    SecondPass(schedule, s1, k, second, r1, s2, r2);
    DropSplit(s1, s2, |schedule|);
    SumOfPasses(s2[|schedule|..], s1[|schedule|..], s2[|s1|..], students, r1, r2, free1, free2);
    PlacedParts(s2[|schedule|..], |s1| - |schedule|, students, first, second, free1, free2,
      Open(schedule, k.day, k.time, first), Open(schedule, k.day, k.time, second));
  }

  /** A row of group `k`'s session and course, holding 0 < count <= capacity. */
  predicate RowIn(r: Row, k: GroupKey)
  {
    r.day == k.day && r.time == k.time && r.course == k.course && RowOk(r)
  }

  /** Every row a group adds, in either pass, is booked in the group's own
      session for its own course. */
  lemma PackGroupShape(schedule: seq<Row>, g: ExamGroup, lab: seq<Room>, nonLab: seq<Room>, labCourses: set<Course>)
    ensures forall i | |schedule| <= i < |PackGroup(schedule, g, lab, nonLab, labCourses)| ::
      RowIn(PackGroup(schedule, g, lab, nonLab, labCourses)[i], g.key)
  {
    var first := FirstList(g, lab, nonLab, labCourses);
    var second := SecondList(g, lab, nonLab, labCourses);
    var (s1, r1) := Fill(schedule, g.key, first, g.students);
    FillShape(schedule, g.key, first, g.students);
    if r1 > 0 {
      var s2 := Fill(s1, g.key, second, r1).0;
      FillShape(s1, g.key, second, r1);
      forall i | |schedule| <= i < |s2| ensures RowIn(s2[i], g.key) {
        if i < |s1| {
          assert s2[i] == s2[..|s1|][i] == s1[i];
        }
      }
    }
  }

  /** The rows one group adds: see GroupPlaced. */
  lemma PackGroupPlaces(schedule: seq<Row>, g: ExamGroup, lab: seq<Room>, nonLab: seq<Room>, labCourses: set<Course>)
    requires Distinct(Names(lab + nonLab))
    ensures |schedule| <= |PackGroup(schedule, g, lab, nonLab, labCourses)|
    ensures PackGroup(schedule, g, lab, nonLab, labCourses)[..|schedule|] == schedule
    ensures GroupPlaced(PackGroup(schedule, g, lab, nonLab, labCourses)[|schedule|..], g.students,
      FirstList(g, lab, nonLab, labCourses), SecondList(g, lab, nonLab, labCourses),
      FreeCapacity(schedule, g.key.day, g.key.time, FirstList(g, lab, nonLab, labCourses)),
      FreeCapacity(schedule, g.key.day, g.key.time, SecondList(g, lab, nonLab, labCourses)),
      Open(schedule, g.key.day, g.key.time, FirstList(g, lab, nonLab, labCourses)),
      Open(schedule, g.key.day, g.key.time, SecondList(g, lab, nonLab, labCourses)))
    ensures forall i | |schedule| <= i < |PackGroup(schedule, g, lab, nonLab, labCourses)| ::
      RowIn(PackGroup(schedule, g, lab, nonLab, labCourses)[i], g.key)
  {
    PackGroupShape(schedule, g, lab, nonLab, labCourses);
    var first := FirstList(g, lab, nonLab, labCourses);
    var second := SecondList(g, lab, nonLab, labCourses);
    NamesSplit(lab, nonLab);
    var (s1, r1) := Fill(schedule, g.key, first, g.students);
    if r1 > 0 {
      TwoPasses(schedule, g.key, g.students, first, second, s1, r1, Fill(s1, g.key, second, r1).0);
    } else {
      OnePass(schedule, g.key, g.students, first, second, FreeCapacity(schedule, g.key.day, g.key.time, second),
        Open(schedule, g.key.day, g.key.time, second));
    }
  }

  // ---------------------------------------------------------------------
  // The whole schedule

  /** Every row holds 0 < count <= capacity. */
  predicate AllRowsOk(schedule: seq<Row>)
  {
    forall i | 0 <= i < |schedule| :: RowOk(schedule[i])
  }

  /** A pass keeps a sound schedule sound. */
  lemma FillSound(schedule: seq<Row>, k: GroupKey, rooms: seq<Room>, remaining: nat)
    requires NoClash(schedule) && AllRowsOk(schedule)
    ensures NoClash(Fill(schedule, k, rooms, remaining).0) && AllRowsOk(Fill(schedule, k, rooms, remaining).0)
  {
    var s := Fill(schedule, k, rooms, remaining).0;
    FillNoClash(schedule, k, rooms, remaining);
    FillShape(schedule, k, rooms, remaining);
    forall i | 0 <= i < |s| ensures RowOk(s[i]) {
      if i < |schedule| {
        assert s[i] == schedule[i];
      } else {
        assert RowOf(s[i], k, rooms);
      }
    }
  }

  /** generate_schedule never books one room twice at the same day and
      time, and every row holds 0 < count <= capacity. */
  lemma {:induction false} PackingSound(groups: seq<ExamGroup>, lab: seq<Room>, nonLab: seq<Room>, labCourses: set<Course>)
    ensures NoClash(Packing(groups, lab, nonLab, labCourses))
    ensures AllRowsOk(Packing(groups, lab, nonLab, labCourses))
  {
    if groups != [] {
      var before := Packing(groups[..|groups| - 1], lab, nonLab, labCourses);
      PackingSound(groups[..|groups| - 1], lab, nonLab, labCourses);
      var g := groups[|groups| - 1];
      var (s1, r1) := Fill(before, g.key, FirstList(g, lab, nonLab, labCourses), g.students);
      FillSound(before, g.key, FirstList(g, lab, nonLab, labCourses), g.students);
      if r1 > 0 {
        FillSound(s1, g.key, SecondList(g, lab, nonLab, labCourses), r1);
      }
    }
  }

  /** The worked case: 40 students of a lab course, a 30-seat lab and a
      20-seat classroom give the lab 30 and the classroom 10. */
  lemma PackingExample()
    ensures
      var k := GroupKey("Senin", "08.00", "Jaringan");
      var lab := [Room("Lab1", 30, "y")];
      var nonLab := [Room("R1", 20, "n")];
      PackGroup([], ExamGroup(k, 40), lab, nonLab, {"Jaringan"})
        == [Row("Senin", "08.00", "Jaringan", "Lab1", 30, 30), Row("Senin", "08.00", "Jaringan", "R1", 10, 20)]
  {
    var k := GroupKey("Senin", "08.00", "Jaringan");
    var row := Row("Senin", "08.00", "Jaringan", "Lab1", 30, 30);
    assert !Booked([], "Senin", "08.00", "Lab1");
    assert Fill([], k, [Room("Lab1", 30, "y")], 40) == ([row], 10);
    assert "Lab1" != "R1";
    assert !Booked([row], "Senin", "08.00", "R1");
  }

  const R20: Room := Room("R20", 20, "y")
  const R30: Room := Room("R30", 30, "y")

  /** The two labs listed smaller first are sorted larger first. */
  lemma ExampleLists()
    ensures LabList([R20, R30]) == [R30, R20] && NonLabList([R20, R30]) == []
  {
    assert [R20, R30][1..] == [R30] && [R30][1..] == [];
    assert IsLabRoom(R20) && IsLabRoom(R30);
    assert Partition([R30], true) == [R30] && Partition([R30], false) == [];
    assert Partition([R20, R30], true) == [R20] + [R30];
    assert Partition([R20, R30], false) == [];
    assert SortDesc([R30], Capacity) == [R30];
    assert Insert(R20, [R30], Capacity) == [R30] + Insert(R20, [], Capacity);
  }

  /** Largest first: with labs R20 (20 seats) and R30 (30 seats) listed in
      that order, 25 students of a lab course all go to R30. */
  lemma LargestFirstExample()
    ensures
      var k := GroupKey("Senin", "08.00", "Jaringan");
      PackGroup([], ExamGroup(k, 25), LabList([R20, R30]), NonLabList([R20, R30]), {"Jaringan"})
        == [Row("Senin", "08.00", "Jaringan", "R30", 25, 30)]
  {
    ExampleLists();
    var k := GroupKey("Senin", "08.00", "Jaringan");
    var row := Row("Senin", "08.00", "Jaringan", "R30", 25, 30);
    assert !Booked([], "Senin", "08.00", "R30");
    assert [R30, R20][1..] == [R20];
    assert Fill([], k, [R30, R20], 25) == Fill([row], k, [R20], 0);
  }

  // ---------------------------------------------------------------------
  // The quality score and the best of five runs

  const MisplacedPenalty: int := 10

  /** The score of one row (lines 217-236): a lab course in a lab room
      earns its head count; in any other room it loses 10; every row loses
      its empty seats. */
  function RowScore(r: Row, labCourses: set<Course>, labRooms: set<RoomName>): int
  {
    var difference := r.capacity - r.count;
    var isLabCourse := r.course in labCourses;
    (if isLabCourse && r.room in labRooms then r.capacity - difference
     else if isLabCourse then -MisplacedPenalty
     else 0) - difference
  }

  /** fitness (lines 215-238). */
  function ScheduleFitness(schedule: seq<Row>, labCourses: set<Course>, labRooms: set<RoomName>): int
  {
    if schedule == [] then 0
    else RowScore(schedule[0], labCourses, labRooms) + ScheduleFitness(schedule[1..], labCourses, labRooms)
  }

  /** The most a schedule can earn: the head count of its lab-course rows
      in lab rooms. */
  function LabSeats(schedule: seq<Row>, labCourses: set<Course>, labRooms: set<RoomName>): nat
  {
    if schedule == [] then 0
    else
      var r := schedule[0];
      (if r.course in labCourses && r.room in labRooms then r.count else 0) + LabSeats(schedule[1..], labCourses, labRooms)
  }

  /** With no row over capacity the score never exceeds the lab seats, and
      reaches them exactly when every room is full and no lab course sits
      outside a lab room. */
  lemma {:induction false} FitnessBound(schedule: seq<Row>, labCourses: set<Course>, labRooms: set<RoomName>)
    requires forall r | r in schedule :: r.count <= r.capacity
    ensures ScheduleFitness(schedule, labCourses, labRooms) <= LabSeats(schedule, labCourses, labRooms)
    ensures ScheduleFitness(schedule, labCourses, labRooms) == LabSeats(schedule, labCourses, labRooms) <==>
      forall r | r in schedule :: r.count == r.capacity && (r.course in labCourses ==> r.room in labRooms)
  {
    if schedule != [] {
      var r := schedule[0];
      var rest := schedule[1..];
      assert forall x | x in rest :: x in schedule;
      FitnessBound(rest, labCourses, labRooms);
      assert forall x | x in schedule :: x == r || x in rest;
    }
  }

  /** The names of the lab rooms (df_ruang_lab['Ruang'].values). */
  function LabRoomNames(rooms: seq<Room>): set<RoomName>
  {
    set r | r in rooms && IsLabRoom(r) :: r.name
  }

  /** The five-run loop (lines 345-352). generate_schedule draws nothing at
      random, so every run gives the same schedule and the first is kept. */
  method BestOfFive(groups: seq<ExamGroup>, rooms: seq<Room>, labCourses: set<Course>)
    returns (best: seq<Row>, bestFitness: int)
    ensures best == Packing(groups, LabList(rooms), NonLabList(rooms), labCourses)
    ensures bestFitness == ScheduleFitness(best, labCourses, LabRoomNames(rooms))
  {
    var found := false;
    best, bestFitness := [], 0;
    for trial := 0 to 5
      invariant found == (trial > 0)
      invariant found ==> best == Packing(groups, LabList(rooms), NonLabList(rooms), labCourses)
      invariant found ==> bestFitness == ScheduleFitness(best, labCourses, LabRoomNames(rooms))
    {
      var schedule := GenerateSchedule(groups, rooms, labCourses);
      var current := ScheduleFitness(schedule, labCourses, LabRoomNames(rooms));
      if !found || current > bestFitness {
        best, bestFitness, found := schedule, current, true;
      }
    }
  }
}
