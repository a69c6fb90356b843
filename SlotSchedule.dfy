/** Stage one of the pipeline: placing every course group in an exam session
    so that no session holds more than two exams (ujiandsb.py, lines 67-165).
    The random draws of the source (random.choice, random.randint,
    random.random) are parameters of the operations here. */
module SlotSchedule {
  import opened Common

  /** One gene of an individual: (hari, jam, mata kuliah, semester). */
  datatype Gene = Gene(session: Session, course: Course, semester: int)

  type Individual = seq<Gene>

  /** One course group of the course sheet: its name and the semester of
      its first row. */
  datatype CourseGroup = CourseGroup(course: Course, semester: int)

  datatype SlotError =
    | NoSessionUnderCap  // random.choice on an empty list of sessions
    | CutsExhausted      // the given cut points never produced two valid children

  /** At most this many exams share one session. */
  const Cap: nat := 2

  /** Number of genes of `ind` placed in session `s`. */
  function Occupancy(ind: Individual, s: Session): (n: nat)
    ensures n <= |ind|
  {
    if ind == [] then 0
    else Occupancy(ind[..|ind| - 1], s) + (if ind[|ind| - 1].session == s then 1 else 0)
  }

  /** The cap checked by is_valid_schedule: every gene's session holds at
      most Cap genes. */
  predicate WithinCap(ind: Individual)
  {
    forall i | 0 <= i < |ind| :: Occupancy(ind, ind[i].session) <= Cap
  }

  /** Every gene sits in a session of the session sheet. */
  predicate InSessions(ind: Individual, sessions: seq<Session>)
  {
    forall i | 0 <= i < |ind| :: ind[i].session in sessions
  }

  /** Gene i belongs to course group i, in group order. */
  predicate Fits(ind: Individual, groups: seq<CourseGroup>)
  {
    && |ind| == |groups|
    && forall i | 0 <= i < |ind| ::
         ind[i].course == groups[i].course && ind[i].semester == groups[i].semester
  }

  /** An individual the slot search may hold: one gene per group, all in
      known sessions, no session over the cap. */
  predicate Good(ind: Individual, sessions: seq<Session>, groups: seq<CourseGroup>)
  {
    Fits(ind, groups) && InSessions(ind, sessions) && WithinCap(ind)
  }

  // ---------------------------------------------------------------------
  // Counting lemmas

  lemma OccupancySnoc(ind: Individual, g: Gene, s: Session)
    ensures Occupancy(ind + [g], s) == Occupancy(ind, s) + (if g.session == s then 1 else 0)
  {
    assert (ind + [g])[..|ind|] == ind;
  }

  lemma {:induction false} OccupancyAppend(a: Individual, b: Individual, s: Session)
    ensures Occupancy(a + b, s) == Occupancy(a, s) + Occupancy(b, s)
    decreases |b|
  {
    if b != [] {
      var b' := b[..|b| - 1];
      assert a + b == (a + b') + [b[|b| - 1]];
      OccupancySnoc(a + b', b[|b| - 1], s);
      OccupancySnoc(b', b[|b| - 1], s);
      assert b == b' + [b[|b| - 1]];
      OccupancyAppend(a, b', s);
    } else {
      assert a + b == a;
    }
  }

  lemma {:induction false} OccupancyPositive(ind: Individual, s: Session)
    requires Occupancy(ind, s) > 0
    ensures exists i :: 0 <= i < |ind| && ind[i].session == s
  {
    var last := |ind| - 1;
    if ind[last].session != s {
      OccupancyPositive(ind[..last], s);
      var i :| 0 <= i < last && ind[..last][i].session == s;
      assert ind[i].session == s;
    }
  }

  /** WithinCap bounds every session, not only the occupied ones. */
  lemma WithinCapEverySession(ind: Individual, s: Session)
    requires WithinCap(ind)
    ensures Occupancy(ind, s) <= Cap
  {
    if Occupancy(ind, s) > 0 {
      OccupancyPositive(ind, s);
    }
  }

  lemma OccupancyPrefix(ind: Individual, k: nat, s: Session)
    requires k <= |ind|
    ensures Occupancy(ind[..k], s) <= Occupancy(ind, s)
  {
    assert ind == ind[..k] + ind[k..];
    OccupancyAppend(ind[..k], ind[k..], s);
  }

  lemma {:induction false} OccupancyUpdate(ind: Individual, i: nat, g: Gene, s: Session)
    requires i < |ind|
    ensures Occupancy(ind[i := g], s) + (if ind[i].session == s then 1 else 0)
         == Occupancy(ind, s) + (if g.session == s then 1 else 0)
  {
    var u := ind[i := g];
    assert ind == ind[..i] + [ind[i]] + ind[i + 1..];
    assert u == ind[..i] + [g] + ind[i + 1..];
    OccupancyAppend(ind[..i] + [ind[i]], ind[i + 1..], s);
    OccupancyAppend(ind[..i] + [g], ind[i + 1..], s);
    OccupancySnoc(ind[..i], ind[i], s);
    OccupancySnoc(ind[..i], g, s);
  }

  /** `ind` without the genes placed in session `s`. */
  function Without(ind: Individual, s: Session): (r: Individual)
    ensures |ind| == Occupancy(ind, s) + |r|
    ensures forall t :: Occupancy(r, t) == if t == s then 0 else Occupancy(ind, t)
    ensures forall i | 0 <= i < |r| :: r[i].session != s && r[i].session in Sessions(ind)
  {
    if ind == [] then []
    else
      var init := Without(ind[..|ind| - 1], s);
      var g := ind[|ind| - 1];
      var r := if g.session == s then init else init + [g];
      assert forall t :: Occupancy(r, t) == if t == s then 0 else Occupancy(ind, t) by {
        forall t ensures Occupancy(r, t) == if t == s then 0 else Occupancy(ind, t) {
          if g.session != s { OccupancySnoc(init, g, t); }
        }
      }
      r
  }

  /** The sessions the genes of `ind` sit in. */
  function Sessions(ind: Individual): set<Session>
  {
    set i | 0 <= i < |ind| :: ind[i].session
  }

  lemma SessionsOfNonEmpty(ind: Individual)
    ensures ind != [] ==> ind[0].session in Sessions(ind)
  {
  }

  /** With no session over the cap, an individual over the sessions S has at
      most Cap * |S| genes. */
  lemma {:induction false} CapBound(ind: Individual, S: set<Session>)
    requires Sessions(ind) <= S
    requires forall s :: Occupancy(ind, s) <= Cap
    ensures |ind| <= Cap * |S|
    decreases |S|
  {
    if S != {} {
      var s :| s in S;
      var rest := Without(ind, s);
      assert Sessions(rest) <= S - {s} by {
        forall t | t in Sessions(rest) ensures t in S - {s} {
          var i :| 0 <= i < |rest| && rest[i].session == t;
        }
      }
      forall t ensures Occupancy(rest, t) <= Cap {
      }
      CapBound(rest, S - {s});
      assert |S - {s}| == |S| - 1;
      assert Occupancy(ind, s) <= Cap;
    } else {
      SessionsOfNonEmpty(ind);
    }
  }

  /** With every session of S full, there are at least Cap * |S| genes. */
  lemma {:induction false} FullBound(ind: Individual, S: set<Session>)
    requires forall s | s in S :: Occupancy(ind, s) >= Cap
    ensures |ind| >= Cap * |S|
    decreases |S|
  {
    if S != {} {
      var s :| s in S;
      var rest := Without(ind, s);
      forall t | t in S - {s} ensures Occupancy(rest, t) >= Cap {
      }
      FullBound(rest, S - {s});
    }
  }

  // ---------------------------------------------------------------------
  // is_valid_schedule

  /** Counts the genes of every session and fails as soon as one session
      holds more than Cap of them (ujiandsb.py:133-144). */
  method IsValidSchedule(ind: Individual, sessions: seq<Session>) returns (valid: bool)
    requires InSessions(ind, sessions)
    ensures valid <==> WithinCap(ind)
    ensures valid <==> forall s :: Occupancy(ind, s) <= Cap
  {
    var counts: map<Session, nat> := map s | s in sessions :: 0;
    var i := 0;
    while i < |ind|
      invariant 0 <= i <= |ind|
      invariant forall s | s in sessions :: s in counts && counts[s] == Occupancy(ind[..i], s)
      invariant forall s :: Occupancy(ind[..i], s) <= Cap
    {
      var s := ind[i].session;
      assert ind[..i + 1] == ind[..i] + [ind[i]];
      forall t ensures Occupancy(ind[..i + 1], t) == Occupancy(ind[..i], t) + (if s == t then 1 else 0) {
        OccupancySnoc(ind[..i], ind[i], t);
      }
      counts := counts[s := counts[s] + 1];
      if counts[s] > Cap {
        OccupancyPrefix(ind, i + 1, s);
        return false;
      }
      i := i + 1;
    }
    assert ind[..i] == ind;
    return true;
  }

  /** Counts the genes of every session of the sheet, as the counters built
      at the start of mutate (ujiandsb.py:152-156). */
  method CountSessions(ind: Individual, sessions: seq<Session>) returns (counts: map<Session, nat>)
    requires InSessions(ind, sessions)
    ensures forall s | s in sessions :: s in counts && counts[s] == Occupancy(ind, s)
  {
    counts := map s | s in sessions :: 0;
    var i := 0;
    while i < |ind|
      invariant 0 <= i <= |ind|
      invariant forall s | s in sessions :: s in counts && counts[s] == Occupancy(ind[..i], s)
    {
      var s := ind[i].session;
      assert ind[..i + 1] == ind[..i] + [ind[i]];
      forall t ensures Occupancy(ind[..i + 1], t) == Occupancy(ind[..i], t) + (if s == t then 1 else 0) {
        OccupancySnoc(ind[..i], ind[i], t);
      }
      counts := counts[s := counts[s] + 1];
      i := i + 1;
    }
    assert ind[..i] == ind;
  }

  // ---------------------------------------------------------------------
  // generate_initial_population

  /** The sessions of `ss` (in sheet order) that hold fewer than Cap genes of
      `ind`: the list `valid_sesi` of the source. */
  function UnderCap(ind: Individual, ss: seq<Session>): (r: seq<Session>)
    ensures forall s | s in r :: s in ss && Occupancy(ind, s) < Cap
    ensures forall s | s in ss && Occupancy(ind, s) < Cap :: s in r
  {
    if ss == [] then []
    else
      var last := ss[|ss| - 1];
      assert ss == ss[..|ss| - 1] + [last];
      UnderCap(ind, ss[..|ss| - 1]) + (if Occupancy(ind, last) < Cap then [last] else [])
  }

  /** When every session is under the cap, all of them stay candidates, in
      order. */
  lemma {:induction false} UnderCapAllFree(ind: Individual, ss: seq<Session>)
    requires forall i | 0 <= i < |ss| :: Occupancy(ind, ss[i]) < Cap
    ensures UnderCap(ind, ss) == ss
  {
    if ss != [] {
      assert ss == ss[..|ss| - 1] + [ss[|ss| - 1]];
      UnderCapAllFree(ind, ss[..|ss| - 1]);
    }
  }

  /** The list comprehension that builds `valid_sesi` from the counters. */
  method FreeSessions(counts: map<Session, nat>, ind: Individual, sessions: seq<Session>)
    returns (valid: seq<Session>)
    requires forall s | s in sessions :: s in counts && counts[s] == Occupancy(ind, s)
    ensures valid == UnderCap(ind, sessions)
  {
    valid := [];
    var j := 0;
    while j < |sessions|
      invariant 0 <= j <= |sessions|
      invariant valid == UnderCap(ind, sessions[..j])
    {
      assert sessions[..j + 1][..j] == sessions[..j];
      if counts[sessions[j]] < Cap {
        valid := valid + [sessions[j]];
      }
      j := j + 1;
    }
    assert sessions[..j] == sessions;
  }

  /** The individual generate_individual builds for the first `k` groups
      with the draws `picks`, or None once a group finds no session under
      the cap. */
  function Grown(sessions: seq<Session>, groups: seq<CourseGroup>, picks: seq<nat>, k: nat): Option<Individual>
    requires k <= |groups| == |picks|
  {
    if k == 0 then Some([])
    else match Grown(sessions, groups, picks, k - 1)
      case None => None
      case Some(ind) =>
        var valid := UnderCap(ind, sessions);
        if valid == [] then None
        else Some(ind + [Gene(valid[picks[k - 1] % |valid|], groups[k - 1].course, groups[k - 1].semester)])
  }

  /** Once a group finds no session, the whole individual fails. */
  lemma {:induction false} GrownStaysNone(sessions: seq<Session>, groups: seq<CourseGroup>, picks: seq<nat>, k: nat, n: nat)
    requires k <= n <= |groups| == |picks|
    requires Grown(sessions, groups, picks, k).None?
    ensures Grown(sessions, groups, picks, n).None?
    decreases n - k
  {
    if k < n {
      GrownStaysNone(sessions, groups, picks, k + 1, n);
    }
  }

  /** One individual: each group in turn gets a session still under the cap;
      `picks[k]` is the draw of random.choice for group k. Fails exactly when
      there are more groups than Cap times the number of distinct sessions
      (ujiandsb.py:71-87). */
  method GenerateIndividual(sessions: seq<Session>, groups: seq<CourseGroup>, picks: seq<nat>)
    returns (r: Result<Individual, SlotError>)
    requires |picks| == |groups|
    ensures r.Ok? ==> Good(r.value, sessions, groups)
    ensures r.Err? <==> |groups| > Cap * |SessionSet(sessions)|
    ensures r.Err? ==> r.error == NoSessionUnderCap
    ensures r.Ok? ==> Grown(sessions, groups, picks, |groups|) == Some(r.value)
    ensures r.Err? ==> Grown(sessions, groups, picks, |groups|) == None
  {
    var counts: map<Session, nat> := map s | s in sessions :: 0;
    var ind: Individual := [];
    var k := 0;
    while k < |groups|
      invariant 0 <= k <= |groups| && |ind| == k
      invariant Fits(ind, groups[..k])
      invariant InSessions(ind, sessions)
      invariant forall s | s in sessions :: s in counts && counts[s] == Occupancy(ind, s)
      invariant forall s :: Occupancy(ind, s) <= Cap
      invariant Grown(sessions, groups, picks, k) == Some(ind)
    {
      var valid := FreeSessions(counts, ind, sessions);
      if valid == [] {
        NoneUnderCap(ind, sessions);
        GrownStaysNone(sessions, groups, picks, k + 1, |groups|);
        return Err(NoSessionUnderCap);
      }
      var s := valid[picks[k] % |valid|];
      var g := Gene(s, groups[k].course, groups[k].semester);
      AddGene(ind, g, sessions, groups);
      ind := ind + [g];
      counts := counts[s := counts[s] + 1];
      k := k + 1;
    }
    assert groups[..k] == groups;
    Finished(ind, sessions, groups);
    return Ok(ind);
  }

  /** With no session under the cap, every distinct session is full. */
  lemma NoneUnderCap(ind: Individual, sessions: seq<Session>)
    requires UnderCap(ind, sessions) == []
    ensures |ind| >= Cap * |SessionSet(sessions)|
  {
    forall s | s in SessionSet(sessions) ensures Occupancy(ind, s) >= Cap {
    }
    FullBound(ind, SessionSet(sessions));
  }

  /** The next gene, for the next group and in a session under the cap,
      keeps the partial individual within the cap. */
  lemma AddGene(ind: Individual, g: Gene, sessions: seq<Session>, groups: seq<CourseGroup>)
    requires |ind| < |groups| && Fits(ind, groups[..|ind|]) && InSessions(ind, sessions)
    requires g.course == groups[|ind|].course && g.semester == groups[|ind|].semester
    requires g.session in sessions && Occupancy(ind, g.session) < Cap
    requires forall t :: Occupancy(ind, t) <= Cap
    ensures Fits(ind + [g], groups[..|ind| + 1]) && InSessions(ind + [g], sessions)
    ensures forall t :: Occupancy(ind + [g], t) == Occupancy(ind, t) + (if g.session == t then 1 else 0)
    ensures forall t :: Occupancy(ind + [g], t) <= Cap
  {
    forall t ensures Occupancy(ind + [g], t) == Occupancy(ind, t) + (if g.session == t then 1 else 0) {
      OccupancySnoc(ind, g, t);
    }
  }

  /** A whole individual built under the cap is good and no longer than
      Cap times the distinct sessions. */
  lemma Finished(ind: Individual, sessions: seq<Session>, groups: seq<CourseGroup>)
    requires Fits(ind, groups) && InSessions(ind, sessions)
    requires forall t :: Occupancy(ind, t) <= Cap
    ensures Good(ind, sessions, groups)
    ensures |ind| <= Cap * |SessionSet(sessions)|
  {
    CapBound(ind, SessionSet(sessions));
    forall i | 0 <= i < |ind| ensures Occupancy(ind, ind[i].session) <= Cap {
    }
  }

  const PopulationSize: nat := 50

  /** Individual j of `population` is the one grown with draws picks[j]. */
  predicate GrownAll(sessions: seq<Session>, groups: seq<CourseGroup>, picks: seq<seq<nat>>, population: seq<Individual>)
  {
    && |population| <= |picks|
    && forall j | 0 <= j < |population| ::
         |picks[j]| == |groups| && Grown(sessions, groups, picks[j], |groups|) == Some(population[j])
  }

  lemma GrownAllSnoc(sessions: seq<Session>, groups: seq<CourseGroup>, picks: seq<seq<nat>>, population: seq<Individual>, one: Individual)
    requires GrownAll(sessions, groups, picks, population) && |population| < |picks|
    requires |picks[|population|]| == |groups|
    requires Grown(sessions, groups, picks[|population|], |groups|) == Some(one)
    ensures GrownAll(sessions, groups, picks, population + [one])
  {
    var q := population + [one];
    forall j | 0 <= j < |q| ensures |picks[j]| == |groups| && Grown(sessions, groups, picks[j], |groups|) == Some(q[j]) {
      if j < |population| {
        assert q[j] == population[j];
      }
    }
  }

  /** population_size independent individuals (ujiandsb.py:67-89). Whether it
      fails depends only on the number of groups and distinct sessions, not
      on the draws. */
  method GenerateInitialPopulation(sessions: seq<Session>, groups: seq<CourseGroup>, picks: seq<seq<nat>>)
    returns (r: Result<seq<Individual>, SlotError>)
    requires |picks| == PopulationSize
    requires forall p | p in picks :: |p| == |groups|
    ensures r.Ok? ==> |r.value| == PopulationSize
    ensures r.Ok? ==> forall ind | ind in r.value :: Good(ind, sessions, groups)
    ensures r.Err? <==> |groups| > Cap * |SessionSet(sessions)|
    ensures r.Err? ==> r.error == NoSessionUnderCap
    ensures r.Ok? ==> GrownAll(sessions, groups, picks, r.value)
  {
    var population: seq<Individual> := [];
    var n := 0;
    while n < PopulationSize
      invariant 0 <= n <= PopulationSize && |population| == n
      invariant forall ind | ind in population :: Good(ind, sessions, groups)
      invariant GrownAll(sessions, groups, picks, population)
      invariant n > 0 ==> |groups| <= Cap * |SessionSet(sessions)|
    {
      var one := GenerateIndividual(sessions, groups, picks[n]);
      if one.Err? {
        return Err(one.error);
      }
      GrownAllSnoc(sessions, groups, picks, population, one.value);
      population := population + [one.value];
      n := n + 1;
    }
    return Ok(population);
  }

  // ---------------------------------------------------------------------
  // mutate

  /** The random draws of one call of mutate: random.random() < 0.1, the
      gene index of random.randint and the draw of random.choice. */
  datatype MutationDraw = MutationDraw(fires: bool, index: nat, pick: nat)

  /** The individual after mutate reassigns gene `idx`: the new session is
      drawn from the sessions under the cap, counting the gene itself; with
      no such session the individual is unchanged (ujiandsb.py:148-165). */
  function Mutated(ind: Individual, sessions: seq<Session>, idx: nat, pick: nat): (r: Individual)
    requires idx < |ind|
    ensures |r| == |ind|
    ensures forall j | 0 <= j < |ind| && j != idx :: r[j] == ind[j]
    ensures r[idx].course == ind[idx].course && r[idx].semester == ind[idx].semester
    ensures r[idx] == ind[idx] || (r[idx].session in sessions && Occupancy(ind, r[idx].session) < Cap)
    ensures UnderCap(ind, sessions) == [] ==> r == ind
    ensures UnderCap(ind, sessions) != [] ==> r[idx].session in UnderCap(ind, sessions)
  {
    var free := UnderCap(ind, sessions);
    if free == [] then ind
    else ind[idx := ind[idx].(session := free[pick % |free|])]
  }

  /** Mutation keeps an individual fit for its groups, in known sessions and
      under the cap. */
  lemma MutatedKeepsGood(ind: Individual, sessions: seq<Session>, groups: seq<CourseGroup>, idx: nat, pick: nat)
    requires idx < |ind|
    requires Good(ind, sessions, groups)
    ensures Good(Mutated(ind, sessions, idx, pick), sessions, groups)
  {
    var r := Mutated(ind, sessions, idx, pick);
    if r != ind {
      assert r == ind[idx := r[idx]];
      forall t ensures Occupancy(r, t) <= Cap {
        OccupancyUpdate(ind, idx, r[idx], t);
        WithinCapEverySession(ind, t);
      }
    }
  }

  /** mutate, in place on the individual's list (ujiandsb.py:146-165). */
  method Mutate(a: array<Gene>, sessions: seq<Session>, d: MutationDraw)
    requires d.fires ==> d.index < a.Length
    requires InSessions(a[..], sessions)
    modifies a
    ensures a[..] == if d.fires then Mutated(old(a[..]), sessions, d.index, d.pick) else old(a[..])
  {
    if d.fires {
      var counts := CountSessions(a[..], sessions);
      var valid := FreeSessions(counts, a[..], sessions);
      if valid != [] {
        a[d.index] := a[d.index].(session := valid[d.pick % |valid|]);
      }
    }
  }

  // ---------------------------------------------------------------------
  // crossover

  /** parent1[:k] + parent2[k:]. */
  function Splice(p1: Individual, p2: Individual, k: nat): (r: Individual)
    requires |p1| == |p2| && k <= |p1|
    ensures |r| == |p1|
    ensures forall i | 0 <= i < |r| :: r[i] == if i < k then p1[i] else p2[i]
  {
    p1[..k] + p2[k..]
  }

  /** One attempt of crossover at cut point `k`: the two splices, kept only
      when both are within the cap (ujiandsb.py:125-131). */
  function Crossover(p1: Individual, p2: Individual, k: nat): (r: Option<(Individual, Individual)>)
    requires |p1| == |p2| && k < |p1|
    ensures r.Some? <==> WithinCap(Splice(p1, p2, k)) && WithinCap(Splice(p2, p1, k))
    ensures r.Some? ==> |r.value.0| == |r.value.1| == |p1|
    ensures r.Some? ==> forall i | 0 <= i < |p1| ::
      (i < k ==> r.value.0[i] == p1[i] && r.value.1[i] == p2[i]) &&
      (k <= i ==> r.value.0[i] == p2[i] && r.value.1[i] == p1[i])
  {
    var c1 := Splice(p1, p2, k);
    var c2 := Splice(p2, p1, k);
    if WithinCap(c1) && WithinCap(c2) then Some((c1, c2)) else None
  }

  /** The children of two good parents are good. */
  lemma CrossoverKeepsGood(p1: Individual, p2: Individual, sessions: seq<Session>, groups: seq<CourseGroup>, k: nat)
    requires |p1| == |p2| && k < |p1|
    requires Good(p1, sessions, groups) && Good(p2, sessions, groups)
    requires Crossover(p1, p2, k).Some?
    ensures Good(Crossover(p1, p2, k).value.0, sessions, groups)
    ensures Good(Crossover(p1, p2, k).value.1, sessions, groups)
  {
    SpliceFits(p1, p2, sessions, groups, k);
    SpliceFits(p2, p1, sessions, groups, k);
  }

  lemma SpliceFits(p1: Individual, p2: Individual, sessions: seq<Session>, groups: seq<CourseGroup>, k: nat)
    requires |p1| == |p2| && k <= |p1|
    requires Fits(p1, groups) && InSessions(p1, sessions)
    requires Fits(p2, groups) && InSessions(p2, sessions)
    ensures Fits(Splice(p1, p2, k), groups) && InSessions(Splice(p1, p2, k), sessions)
  {
    var c := Splice(p1, p2, k);
    forall i | 0 <= i < |c| ensures c[i] == p1[i] || c[i] == p2[i] { }
  }

  /** Crossover hands every gene to exactly one child. */
  lemma {:induction false} CrossoverConservesGenes(p1: Individual, p2: Individual, k: nat)
    requires |p1| == |p2| && k < |p1|
    requires Crossover(p1, p2, k).Some?
    ensures multiset(Crossover(p1, p2, k).value.0) + multiset(Crossover(p1, p2, k).value.1)
         == multiset(p1) + multiset(p2)
  {
    assert p1 == p1[..k] + p1[k..];
    assert p2 == p2[..k] + p2[k..];
  }

  /** Cut point 0 swaps the parents, so on two parents within the cap it
      always succeeds: the retry loop of the source stops as soon as 0 is
      drawn. */
  lemma CrossoverAtZero(p1: Individual, p2: Individual)
    requires |p1| == |p2| && 0 < |p1|
    requires WithinCap(p1) && WithinCap(p2)
    ensures Crossover(p1, p2, 0) == Some((p2, p1))
  {
    assert Splice(p1, p2, 0) == p2;
    assert Splice(p2, p1, 0) == p1;
  }

  /** The first cut of `cuts` whose crossover passes the cap check, and its
      children. */
  function FirstValid(p1: Individual, p2: Individual, cuts: seq<nat>): (r: Option<(Individual, Individual)>)
    requires |p1| == |p2| && forall j | 0 <= j < |cuts| :: cuts[j] < |p1|
    ensures r.Some? ==> |r.value.0| == |p1| && |r.value.1| == |p1|
  {
    if cuts == [] then None
    else if Crossover(p1, p2, cuts[0]).Some? then Crossover(p1, p2, cuts[0])
    else FirstValid(p1, p2, cuts[1..])
  }

  /** The `while True` loop of crossover run over a finite stream of cut
      points: the first cut whose two children are within the cap wins
      (ujiandsb.py:123-131). */
  method CrossoverUntilValid(p1: Individual, p2: Individual, cuts: seq<nat>)
    returns (r: Option<(Individual, Individual)>)
    requires |p1| == |p2|
    requires forall j | 0 <= j < |cuts| :: cuts[j] < |p1|
    ensures r.Some? ==> exists j | 0 <= j < |cuts| ::
      && Crossover(p1, p2, cuts[j]) == r
      && forall j' | 0 <= j' < j :: Crossover(p1, p2, cuts[j']).None?
    ensures r.None? <==> forall j | 0 <= j < |cuts| :: Crossover(p1, p2, cuts[j]).None?
    ensures WithinCap(p1) && WithinCap(p2) && 0 in cuts ==> r.Some?
    ensures r == FirstValid(p1, p2, cuts)
  {
    var j := 0;
    while j < |cuts|
      invariant 0 <= j <= |cuts|
      invariant forall j' | 0 <= j' < j :: Crossover(p1, p2, cuts[j']).None?
      invariant FirstValid(p1, p2, cuts[j..]) == FirstValid(p1, p2, cuts)
    {
      assert cuts[j..][0] == cuts[j] && cuts[j..][1..] == cuts[j + 1..];
      var attempt := Crossover(p1, p2, cuts[j]);
      if attempt.Some? {
        return attempt;
      }
      j := j + 1;
    }
    assert cuts[j..] == [];
    if WithinCap(p1) && WithinCap(p2) && 0 in cuts {
      var z :| 0 <= z < |cuts| && cuts[z] == 0;
      CrossoverAtZero(p1, p2);
    }
    return None;
  }
}
