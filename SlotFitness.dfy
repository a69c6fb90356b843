/** The integer score that ranks the individuals of the slot search
    (fitness_function, ujiandsb.py:91-121). Higher is better. */
module SlotFitness {
  import opened Common
  import opened SlotSchedule

  /** A semester may sit this many exams before it is penalised. */
  const SemesterLimit: nat := 2
  /** Penalty per exam over a limit. */
  const PenaltyWeight: nat := 10

  /** Number of genes of semester `sem`. */
  function SemesterCount(ind: Individual, sem: int): (n: nat)
    ensures n <= |ind|
  {
    if ind == [] then 0
    else SemesterCount(ind[..|ind| - 1], sem) + (if ind[|ind| - 1].semester == sem then 1 else 0)
  }

  /** Number of genes of a lab course on day `day`. */
  function LabLoad(ind: Individual, labCourses: set<Course>, day: Day): (n: nat)
    ensures n <= |ind|
  {
    if ind == [] then 0
    else
      var g := ind[|ind| - 1];
      LabLoad(ind[..|ind| - 1], labCourses, day) + (if g.course in labCourses && g.session.day == day then 1 else 0)
  }

  /** Number of rows of the session sheet on day `day`. */
  function SessionsOnDay(sessions: seq<Session>, day: Day): (n: nat)
    ensures n <= |sessions|
  {
    if sessions == [] then 0
    else SessionsOnDay(sessions[..|sessions| - 1], day) + (if sessions[|sessions| - 1].day == day then 1 else 0)
  }

  function DaysOf(sessions: seq<Session>): (r: seq<Day>)
    ensures |r| == |sessions|
    ensures forall i | 0 <= i < |r| :: r[i] == sessions[i].day
  {
    if sessions == [] then [] else DaysOf(sessions[..|sessions| - 1]) + [sessions[|sessions| - 1].day]
  }

  /** The penalty for `count` exams against a limit of `limit`. */
  function Excess(count: nat, limit: nat): (e: nat)
    ensures e == 0 <==> count <= limit
    ensures count > limit ==> e == (count - limit) * PenaltyWeight
  {
    if count > limit then (count - limit) * PenaltyWeight else 0
  }

  /** Ten points for every exam of a semester beyond SemesterLimit, summed
      over the semesters `sems`. */
  function SemesterPenalty(ind: Individual, sems: seq<int>): (p: nat)
    ensures p == 0 <==> forall i | 0 <= i < |sems| :: SemesterCount(ind, sems[i]) <= SemesterLimit
  {
    if sems == [] then 0
    else
      var sem := sems[|sems| - 1];
      var c := SemesterCount(ind, sem);
      assert sems == sems[..|sems| - 1] + [sem];
      SemesterPenalty(ind, sems[..|sems| - 1]) + Excess(c, SemesterLimit)
  }

  /** Ten points for every lab exam of a day beyond the number of sessions of
      that day, summed over the days `days`. */
  function LabPenalty(ind: Individual, sessions: seq<Session>, labCourses: set<Course>, days: seq<Day>): (p: nat)
    ensures p == 0 <==> forall i | 0 <= i < |days| :: LabLoad(ind, labCourses, days[i]) <= SessionsOnDay(sessions, days[i])
  {
    if days == [] then 0
    else
      var day := days[|days| - 1];
      var load := LabLoad(ind, labCourses, day);
      var room := SessionsOnDay(sessions, day);
      assert days == days[..|days| - 1] + [day];
      LabPenalty(ind, sessions, labCourses, days[..|days| - 1]) + Excess(load, room)
  }

  /** Penalty-free over the distinct semesters means penalty-free over every
      row of the course sheet. */
  lemma SemesterPenaltyOverSheet(ind: Individual, courseSemesters: seq<int>)
    ensures SemesterPenalty(ind, Unique(courseSemesters)) == 0 <==>
      forall i | 0 <= i < |courseSemesters| :: SemesterCount(ind, courseSemesters[i]) <= SemesterLimit
  {
    var keys := Unique(courseSemesters);
    if SemesterPenalty(ind, keys) == 0 {
      forall i | 0 <= i < |courseSemesters| ensures SemesterCount(ind, courseSemesters[i]) <= SemesterLimit {
        assert courseSemesters[i] in keys;
      }
    }
  }

  /** Penalty-free over the distinct days means penalty-free for the day of
      every session. */
  lemma LabPenaltyOverSheet(ind: Individual, sessions: seq<Session>, labCourses: set<Course>)
    ensures LabPenalty(ind, sessions, labCourses, Unique(DaysOf(sessions))) == 0 <==>
      forall i | 0 <= i < |sessions| :: LabLoad(ind, labCourses, sessions[i].day) <= SessionsOnDay(sessions, sessions[i].day)
  {
    var days := Unique(DaysOf(sessions));
    if LabPenalty(ind, sessions, labCourses, days) == 0 {
      forall i | 0 <= i < |sessions|
        ensures LabLoad(ind, labCourses, sessions[i].day) <= SessionsOnDay(sessions, sessions[i].day)
      {
        assert DaysOf(sessions)[i] == sessions[i].day;
        assert sessions[i].day in days;
      }
    } else {
      var k :| 0 <= k < |days| && LabLoad(ind, labCourses, days[k]) > SessionsOnDay(sessions, days[k]);
      assert days[k] in DaysOf(sessions);
      var i :| 0 <= i < |DaysOf(sessions)| && DaysOf(sessions)[i] == days[k];
      assert sessions[i].day == days[k];
    }
  }

  /** The distinct per-semester counts: the values of the source's
      semester_distribution. */
  function CountValues(ind: Individual, sems: seq<int>): set<nat>
  {
    set i | 0 <= i < |sems| :: SemesterCount(ind, sems[i])
  }

  /** There are never more distinct counts than semesters, and at least one
      when there is a semester; with all counts equal there is exactly one. */
  lemma {:induction false} CountValuesSize(ind: Individual, sems: seq<int>)
    ensures |CountValues(ind, sems)| <= |sems|
    ensures sems != [] ==> |CountValues(ind, sems)| >= 1
    ensures (sems != [] && forall i | 0 <= i < |sems| :: SemesterCount(ind, sems[i]) == SemesterCount(ind, sems[0]))
        ==> |CountValues(ind, sems)| == 1
  {
    if sems != [] {
      var init := sems[..|sems| - 1];
      var last := SemesterCount(ind, sems[|sems| - 1]);
      CountValuesSize(ind, init);
      assert CountValues(ind, sems) == CountValues(ind, init) + {last} by {
        forall v | v in CountValues(ind, sems) ensures v in CountValues(ind, init) + {last} {
          var i :| 0 <= i < |sems| && SemesterCount(ind, sems[i]) == v;
          if i < |sems| - 1 {
            assert init[i] == sems[i];
          }
        }
        forall v | v in CountValues(ind, init) ensures v in CountValues(ind, sems) {
          var i :| 0 <= i < |init| && SemesterCount(ind, init[i]) == v;
          assert sems[i] == init[i];
        }
      }
      if forall i | 0 <= i < |sems| :: SemesterCount(ind, sems[i]) == SemesterCount(ind, sems[0]) {
        assert CountValues(ind, sems) == {SemesterCount(ind, sems[0])};
      }
    }
  }

  /** Number of semesters minus number of distinct per-semester counts: the
      more semesters share a count, the larger the bonus; with all counts
      equal it is the number of semesters less one. */
  function BalanceBonus(ind: Individual, courseSemesters: seq<int>): (b: int)
    ensures 0 <= b
    ensures courseSemesters != [] ==> b < |Unique(courseSemesters)|
    ensures (courseSemesters != [] &&
             forall i | 0 <= i < |courseSemesters| ::
               SemesterCount(ind, courseSemesters[i]) == SemesterCount(ind, courseSemesters[0]))
        ==> b == |Unique(courseSemesters)| - 1
  {
    var keys := Unique(courseSemesters);
    CountValuesSize(ind, keys);
    assert courseSemesters != [] ==> courseSemesters[0] in keys;
    assert (forall i | 0 <= i < |courseSemesters| ::
               SemesterCount(ind, courseSemesters[i]) == SemesterCount(ind, courseSemesters[0]))
        ==> forall i | 0 <= i < |keys| :: SemesterCount(ind, keys[i]) == SemesterCount(ind, keys[0]) by {
      if forall i | 0 <= i < |courseSemesters| ::
               SemesterCount(ind, courseSemesters[i]) == SemesterCount(ind, courseSemesters[0]) {
        forall i | 0 <= i < |keys| ensures SemesterCount(ind, keys[i]) == SemesterCount(ind, courseSemesters[0]) {
          assert keys[i] in courseSemesters;
        }
      }
    }
    |keys| - |CountValues(ind, keys)|
  }

  /** fitness_function: the balance bonus minus the semester and the lab
      penalties. The score never exceeds the bonus, reaches it exactly when
      no semester sits more than two exams and no day has more lab exams
      than sessions, and is below the number of semesters. */
  function FitnessFunction(ind: Individual, courseSemesters: seq<int>, sessions: seq<Session>, labCourses: set<Course>): (f: int)
    requires forall i | 0 <= i < |ind| :: ind[i].semester in courseSemesters
    requires InSessions(ind, sessions)
    ensures f <= BalanceBonus(ind, courseSemesters)
    ensures f == BalanceBonus(ind, courseSemesters) <==>
      && (forall i | 0 <= i < |courseSemesters| :: SemesterCount(ind, courseSemesters[i]) <= SemesterLimit)
      && (forall i | 0 <= i < |sessions| :: LabLoad(ind, labCourses, sessions[i].day) <= SessionsOnDay(sessions, sessions[i].day))
    ensures courseSemesters != [] ==> f < |Unique(courseSemesters)|
  {
    SemesterPenaltyOverSheet(ind, courseSemesters);
    LabPenaltyOverSheet(ind, sessions, labCourses);
    BalanceBonus(ind, courseSemesters)
      - SemesterPenalty(ind, Unique(courseSemesters))
      - LabPenalty(ind, sessions, labCourses, Unique(DaysOf(sessions)))
  }
}
