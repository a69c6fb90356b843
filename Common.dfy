/** Shared vocabulary of the exam-timetabling pipeline: names, sessions and
    the failure-carrying result type used by every stage. */
module Common {

  type Day = string
  type Time = string
  type Course = string
  type RoomName = string
  type Instructor = string

  /** An exam session: a (day, time) slot of the session sheet. */
  datatype Session = Session(day: Day, time: Time)

  datatype Option<+T> = None | Some(value: T)

  /** The outcome of a stage: a value, or the error the source raises. */
  datatype Result<+T, +E> = Ok(value: T) | Err(error: E)

  /** The distinct sessions of a session sheet. */
  function SessionSet(sessions: seq<Session>): set<Session>
  {
    set s | s in sessions
  }

  /** No element occurs twice. */
  predicate Distinct<T(==)>(s: seq<T>)
  {
    forall i, j | 0 <= i < j < |s| :: s[i] != s[j]
  }

  /** The two halves of a list without repeats have none either, and share
      no element. */
  lemma DistinctAppend<T>(a: seq<T>, b: seq<T>)
    requires Distinct(a + b)
    ensures Distinct(a) && Distinct(b)
    ensures forall x | x in a :: x !in b
  {
    forall i, j | 0 <= i < j < |a| ensures a[i] != a[j] {
      assert a[i] == (a + b)[i] && a[j] == (a + b)[j];
    }
    forall i, j | 0 <= i < j < |b| ensures b[i] != b[j] {
      assert b[i] == (a + b)[|a| + i] && b[j] == (a + b)[|a| + j];
    }
    forall x | x in a ensures x !in b {
      var i :| 0 <= i < |a| && a[i] == x;
      forall j | 0 <= j < |b| ensures b[j] != x {
        assert (a + b)[i] == x && (a + b)[|a| + j] == b[j];
      }
    }
  }

  /** Two lists without repeats that share no element join into one without
      repeats. */
  lemma DistinctJoin<T>(a: seq<T>, b: seq<T>)
    requires Distinct(a) && Distinct(b)
    requires forall x | x in a :: x !in b
    ensures Distinct(a + b)
  {
    var c := a + b;
    forall i, j | 0 <= i < j < |c| ensures c[i] != c[j] {
      if j >= |a| && i < |a| {
        assert c[i] in a && c[j] == b[j - |a|];
      } else if i >= |a| {
        assert c[i] == b[i - |a|] && c[j] == b[j - |a|];
      }
    }
  }

  /** A list without repeats has as many elements as its set. */
  lemma {:induction false} DistinctCard<T>(s: seq<T>)
    requires Distinct(s)
    ensures |set x | x in s| == |s|
  {
    if s != [] {
      var init := s[..|s| - 1];
      assert Distinct(init);
      DistinctCard(init);
      assert s == init + [s[|s| - 1]];
      assert (set x | x in s) == (set x | x in init) + {s[|s| - 1]};
      assert s[|s| - 1] !in init;
    }
  }

  /** The distinct values of `s`, in order of first appearance. */
  function Unique<T(==, !new)>(s: seq<T>): (r: seq<T>)
    ensures Distinct(r)
    ensures forall x :: x in r <==> x in s
  {
    if s == [] then []
    else
      var init := Unique(s[..|s| - 1]);
      var x := s[|s| - 1];
      assert forall y :: y in s <==> y in s[..|s| - 1] || y == x by {
        assert s == s[..|s| - 1] + [x];
      }
      if x in init then init else init + [x]
  }
}
