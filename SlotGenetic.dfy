/** The generation loop of the slot search (genetic_algorithm,
    ujiandsb.py:167-198). Individuals are Python lists that mutate changes in
    place, and a child that skips crossover IS its parent (line 189), so the
    population is a sequence of arrays that may alias one another. */
module SlotGenetic {
  import opened Common
  import opened SlotSchedule
  import opened SlotFitness

  const Generations: nat := 100

  /** The fixed inputs of the slot search. */
  datatype Problem = Problem(
    sessions: seq<Session>,
    groups: seq<CourseGroup>,
    courseSemesters: seq<int>,   // the Semester column of the course sheet
    labCourses: set<Course>)     // the Butuh Lab sheet

  /** The source's own demands: there is a course to place (randint over an
      empty individual raises) and every group's semester is a key of the
      semester counters. */
  predicate WellFormed(p: Problem)
  {
    && |p.groups| > 0
    && forall i | 0 <= i < |p.groups| :: p.groups[i].semester in p.courseSemesters
  }

  function Score(ind: Individual, p: Problem): int
    requires WellFormed(p) && Good(ind, p.sessions, p.groups)
  {
    FitnessFunction(ind, p.courseSemesters, p.sessions, p.labCourses)
  }

  /** The random draws of one pass of the selection loop (lines 183-194). */
  datatype BreedDraw = BreedDraw(
    parent1: nat, parent2: nat,  // the two random.choice draws
    cross: bool,                 // random.random() < crossover_rate
    cuts: seq<nat>,              // the randint draws of the crossover retry loop
    mutation1: MutationDraw, mutation2: MutationDraw)

  predicate DrawFits(d: BreedDraw, popSize: nat, n: nat)
  {
    && d.parent1 < popSize && d.parent2 < popSize
    && (forall j | 0 <= j < |d.cuts| :: d.cuts[j] < n)
    && (d.mutation1.fires ==> d.mutation1.index < n)
    && (d.mutation2.fires ==> d.mutation2.index < n)
  }

  ghost predicate AllGood(pop: seq<array<Gene>>, p: Problem)
    reads pop
  {
    forall a | a in pop :: Good(a[..], p.sessions, p.groups)
  }

  /** The fitness of every individual, in population order: the list
      population_fitness before it is sorted (line 173). */
  function Scores(pop: seq<Individual>, p: Problem): (r: seq<int>)
    requires WellFormed(p)
    requires forall i | 0 <= i < |pop| :: Good(pop[i], p.sessions, p.groups)
    ensures |r| == |pop|
  {
    seq(|pop|, i requires 0 <= i < |pop| && WellFormed(p) && Good(pop[i], p.sessions, p.groups) => Score(pop[i], p))
  }

  /** population_fitness.sort(key=fitness, reverse=True)[0]: the sort is
      stable, so the head is the first entry of greatest fitness. */
  method FittestIndex(scores: seq<int>) returns (best: nat)
    requires |scores| > 0
    ensures best < |scores|
    ensures forall i | 0 <= i < |scores| :: scores[i] <= scores[best]
    ensures forall i | 0 <= i < best :: scores[i] < scores[best]
  {
    best := 0;
    var i := 1;
    while i < |scores|
      invariant 1 <= i <= |scores| && best < i
      invariant forall j | 0 <= j < i :: scores[j] <= scores[best]
      invariant forall j | 0 <= j < best :: scores[j] < scores[best]
    {
      if scores[i] > scores[best] {
        best := i;
      }
      i := i + 1;
    }
  }

  /** The current contents of every individual. */
  method Snapshot(pop: seq<array<Gene>>) returns (vals: seq<Individual>)
    ensures |vals| == |pop|
    ensures forall i | 0 <= i < |pop| :: vals[i] == pop[i][..]
  {
    vals := [];
    var i := 0;
    while i < |pop|
      invariant 0 <= i <= |pop| && |vals| == i
      invariant forall j | 0 <= j < i :: vals[j] == pop[j][..]
    {
      vals := vals + [pop[i][..]];
      i := i + 1;
    }
  }

  method FromSeq(ind: Individual) returns (a: array<Gene>)
    ensures fresh(a) && a[..] == ind
  {
    a := new Gene[|ind|](i requires 0 <= i < |ind| => ind[i]);
  }

  // ---------------------------------------------------------------------
  // The population as values

  /** The individual mutate leaves behind after one draw. */
  function MutatedBy(ind: Individual, sessions: seq<Session>, m: MutationDraw): (r: Individual)
    ensures |r| == |ind|
  {
    if m.fires && m.index < |ind| then Mutated(ind, sessions, m.index, m.pick) else ind
  }

  /** A population of Python lists: `store` holds the contents of every
      list object and `refs[i]` names the object member i is. Two members
      with one ref are one list: mutating either changes both. */
  datatype Herd = Herd(store: seq<Individual>, refs: seq<nat>)

  /** Every member names an object. */
  predicate RefsOk(h: Herd)
  {
    forall i | 0 <= i < |h.refs| :: h.refs[i] < |h.store|
  }

  /** Every object holds `n` genes and every member names an object. */
  predicate HerdOk(h: Herd, n: nat)
  {
    && (forall k | 0 <= k < |h.store| :: |h.store[k]| == n)
    && RefsOk(h)
  }

  /** A new population: every member its own list. */
  function Unshared(store: seq<Individual>): (h: Herd)
    ensures h.store == store && |h.refs| == |store| && RefsOk(h)
    ensures forall i | 0 <= i < |store| :: h.refs[i] == i
  {
    Herd(store, seq(|store|, i => i))
  }

  /** The contents of the members, in population order. */
  function Members(h: Herd): (r: seq<Individual>)
    requires RefsOk(h)
    ensures |r| == |h.refs|
    ensures forall i | 0 <= i < |h.refs| :: r[i] == h.store[h.refs[i]]
  {
    seq(|h.refs|, i requires 0 <= i < |h.refs| && h.refs[i] < |h.store| => h.store[h.refs[i]])
  }

  /** One pass of the selection loop on values (lines 184-192). With
      crossover the children are two new lists, each mutated once. Without
      it they ARE the parent objects, which mutate changes in place, one
      after the other: a parent drawn twice is mutated twice and both
      children are that one list. The result is the new store and the
      objects of the two children. */
  function PairStep(store: seq<Individual>, refs: seq<nat>, p: Problem, d: BreedDraw): (r: Option<(seq<Individual>, nat, nat)>)
    requires HerdOk(Herd(store, refs), |p.groups|) && DrawFits(d, |refs|, |p.groups|)
    ensures r.Some? ==> HerdOk(Herd(r.value.0, refs), |p.groups|) && |store| <= |r.value.0|
    ensures r.Some? ==> r.value.1 < |r.value.0| && r.value.2 < |r.value.0|
  {
    var a, b := refs[d.parent1], refs[d.parent2];
    if d.cross then
      match FirstValid(store[a], store[b], d.cuts)
      case None => None
      case Some(kids) =>
        var c1, c2 := MutatedBy(kids.0, p.sessions, d.mutation1), MutatedBy(kids.1, p.sessions, d.mutation2);
        Some((store + [c1, c2], |store|, |store| + 1))
    else
      var s1 := store[a := MutatedBy(store[a], p.sessions, d.mutation1)];
      Some((s1[b := MutatedBy(s1[b], p.sessions, d.mutation2)], a, b))
  }

  lemma PairStepCross(store: seq<Individual>, refs: seq<nat>, p: Problem, d: BreedDraw, kids: (Individual, Individual))
    requires HerdOk(Herd(store, refs), |p.groups|) && DrawFits(d, |refs|, |p.groups|) && d.cross
    requires FirstValid(store[refs[d.parent1]], store[refs[d.parent2]], d.cuts) == Some(kids)
    ensures PairStep(store, refs, p, d) ==
      Some((store + [MutatedBy(kids.0, p.sessions, d.mutation1), MutatedBy(kids.1, p.sessions, d.mutation2)], |store|, |store| + 1))
  {
  }

  lemma PairStepKeep(store: seq<Individual>, refs: seq<nat>, p: Problem, d: BreedDraw)
    requires HerdOk(Herd(store, refs), |p.groups|) && DrawFits(d, |refs|, |p.groups|) && !d.cross
    ensures var a, b := refs[d.parent1], refs[d.parent2];
      var s1 := store[a := MutatedBy(store[a], p.sessions, d.mutation1)];
      PairStep(store, refs, p, d) == Some((s1[b := MutatedBy(s1[b], p.sessions, d.mutation2)], a, b))
  {
  }

  /** A parent drawn for both children without crossover: both children
      are that list, mutated by both draws. */
  lemma SameParentTwice(store: seq<Individual>, refs: seq<nat>, p: Problem, d: BreedDraw)
    requires HerdOk(Herd(store, refs), |p.groups|) && DrawFits(d, |refs|, |p.groups|)
    requires !d.cross && d.parent1 == d.parent2
    ensures PairStep(store, refs, p, d).Some?
    ensures var r := PairStep(store, refs, p, d).value;
      var a := refs[d.parent1];
      r.1 == r.2 == a && r.0[a] == MutatedBy(MutatedBy(store[a], p.sessions, d.mutation1), p.sessions, d.mutation2)
  {
  }

  /** The store and the children's objects after the passes `draws`, in
      order, or None once a crossover runs out of cut points. */
  function Bred(store: seq<Individual>, refs: seq<nat>, p: Problem, draws: seq<BreedDraw>): (r: Option<(seq<Individual>, seq<nat>)>)
    requires HerdOk(Herd(store, refs), |p.groups|)
    requires forall k | 0 <= k < |draws| :: DrawFits(draws[k], |refs|, |p.groups|)
    ensures r.Some? ==> HerdOk(Herd(r.value.0, refs), |p.groups|) && HerdOk(Herd(r.value.0, r.value.1), |p.groups|)
    ensures r.Some? ==> |r.value.1| == 2 * |draws| && |store| <= |r.value.0|
  {
    if draws == [] then Some((store, []))
    else
      match Bred(store, refs, p, draws[..|draws| - 1])
      case None => None
      case Some(part) =>
        match PairStep(part.0, refs, p, draws[|draws| - 1])
        case None => None
        case Some(step) =>
          HerdGrows(part.0, step.0, refs, part.1, step.1, step.2, |p.groups|);
          Some((step.0, part.1 + [step.1, step.2]))
  }

  /** Two children referring into a grown store keep a population well formed. */
  lemma HerdGrows(store: seq<Individual>, store': seq<Individual>, refs: seq<nat>, kids: seq<nat>, a: nat, b: nat, n: nat)
    requires HerdOk(Herd(store, kids), n) && HerdOk(Herd(store', refs), n)
    requires |store| <= |store'| && a < |store'| && b < |store'|
    ensures HerdOk(Herd(store', kids + [a, b]), n)
  {
  }

  /** The next generation (lines 182-196): its members are the children. */
  function NextHerd(h: Herd, p: Problem, draws: seq<BreedDraw>): (r: Option<Herd>)
    requires HerdOk(h, |p.groups|)
    requires forall k | 0 <= k < |draws| :: DrawFits(draws[k], |h.refs|, |p.groups|)
    ensures r.Some? ==> HerdOk(r.value, |p.groups|) && |r.value.refs| == 2 * |draws|
  {
    match Bred(h.store, h.refs, p, draws)
    case None => None
    case Some(b) => Some(Herd(b.0, b.1))
  }

  /** The arrays `objs` are different objects holding `store`. */
  ghost predicate Holds(objs: seq<array<Gene>>, store: seq<Individual>)
    reads objs
  {
    && |objs| == |store|
    && (forall k | 0 <= k < |objs| :: objs[k][..] == store[k])
    && (forall k, l | 0 <= k < l < |objs| :: objs[k] != objs[l])
  }

  /** Member i of `pop` is the object objs[refs[i]]. */
  predicate Points(pop: seq<array<Gene>>, objs: seq<array<Gene>>, refs: seq<nat>)
  {
    && |pop| == |refs|
    && forall i | 0 <= i < |pop| :: refs[i] < |objs| && pop[i] == objs[refs[i]]
  }

  /** One child pair (lines 184-192): crossover builds new lists; without
      crossover the children are the parents themselves; then each child is
      mutated in place. */
  method BreedPair(pop: seq<array<Gene>>, p: Problem, d: BreedDraw,
                   ghost objs: seq<array<Gene>>, ghost store: seq<Individual>, ghost refs: seq<nat>)
    returns (r: Result<(array<Gene>, array<Gene>), SlotError>,
             ghost objs': seq<array<Gene>>, ghost store': seq<Individual>, ghost a: nat, ghost b: nat)
    requires WellFormed(p) && AllGood(pop, p)
    requires DrawFits(d, |pop|, |p.groups|)
    requires HerdOk(Herd(store, refs), |p.groups|) && Holds(objs, store) && Points(pop, objs, refs)
    modifies set x | x in pop
    ensures AllGood(pop, p)
    ensures r.Ok? ==> Good(r.value.0[..], p.sessions, p.groups) && Good(r.value.1[..], p.sessions, p.groups)
    ensures r.Ok? ==> (r.value.0 in pop || fresh(r.value.0)) && (r.value.1 in pop || fresh(r.value.1))
    ensures r.Ok? && !d.cross ==> r.value.0 == pop[d.parent1] && r.value.1 == pop[d.parent2]
    ensures r.Err? ==> d.cross && r.error == CutsExhausted
    ensures r.Ok? <==> PairStep(store, refs, p, d).Some?
    ensures r.Ok? ==> PairStep(store, refs, p, d) == Some((store', a, b))
    ensures r.Ok? ==> Holds(objs', store') && |objs| <= |objs'| && objs'[..|objs|] == objs
    ensures r.Ok? ==> a < |objs'| && b < |objs'| && r.value.0 == objs'[a] && r.value.1 == objs'[b]
  {
    if d.cross {
      r, objs', store', a, b := CrossPair(pop, p, d, objs, store, refs);
    } else {
      r, objs', store', a, b := KeepPair(pop, p, d, objs, store, refs);
    }
  }

  /** BreedPair when crossover fires: two new lists, each mutated. */
  method CrossPair(pop: seq<array<Gene>>, p: Problem, d: BreedDraw,
                   ghost objs: seq<array<Gene>>, ghost store: seq<Individual>, ghost refs: seq<nat>)
    returns (r: Result<(array<Gene>, array<Gene>), SlotError>,
             ghost objs': seq<array<Gene>>, ghost store': seq<Individual>, ghost a: nat, ghost b: nat)
    requires WellFormed(p) && AllGood(pop, p) && d.cross
    requires DrawFits(d, |pop|, |p.groups|)
    requires HerdOk(Herd(store, refs), |p.groups|) && Holds(objs, store) && Points(pop, objs, refs)
    modifies set x | x in pop
    ensures AllGood(pop, p)
    ensures r.Ok? ==> Good(r.value.0[..], p.sessions, p.groups) && Good(r.value.1[..], p.sessions, p.groups)
    ensures r.Ok? ==> fresh(r.value.0) && fresh(r.value.1)
    ensures r.Err? ==> r.error == CutsExhausted
    ensures r.Ok? <==> PairStep(store, refs, p, d).Some?
    ensures r.Ok? ==> PairStep(store, refs, p, d) == Some((store', a, b))
    ensures r.Ok? ==> Holds(objs', store') && |objs| <= |objs'| && objs'[..|objs|] == objs
    ensures r.Ok? ==> a < |objs'| && b < |objs'| && r.value.0 == objs'[a] && r.value.1 == objs'[b]
  {
    ghost var a0, b0 := refs[d.parent1], refs[d.parent2];
    var kids := CrossChildren(pop[d.parent1][..], pop[d.parent2][..], p, d.cuts);
    assert pop[d.parent1][..] == store[a0] && pop[d.parent2][..] == store[b0];
    if kids.None? {
      return Err(CutsExhausted), objs, store, 0, 0;
    }
    var c1, c2 := NewPair(pop, p, kids.value, d.mutation1, d.mutation2, objs, store);
    objs', store', a, b := objs + [c1, c2], store + [c1[..], c2[..]], |store|, |store| + 1;
    PairStepCross(store, refs, p, d, kids.value);
    r := Ok((c1, c2));
  }

  /** BreedPair without crossover: the children are the parent lists,
      mutated in place one after the other. */
  method KeepPair(pop: seq<array<Gene>>, p: Problem, d: BreedDraw,
                  ghost objs: seq<array<Gene>>, ghost store: seq<Individual>, ghost refs: seq<nat>)
    returns (r: Result<(array<Gene>, array<Gene>), SlotError>,
             ghost objs': seq<array<Gene>>, ghost store': seq<Individual>, ghost a: nat, ghost b: nat)
    requires WellFormed(p) && AllGood(pop, p) && !d.cross
    requires DrawFits(d, |pop|, |p.groups|)
    requires HerdOk(Herd(store, refs), |p.groups|) && Holds(objs, store) && Points(pop, objs, refs)
    modifies set x | x in pop
    ensures AllGood(pop, p) && r.Ok?
    ensures r.value.0 == pop[d.parent1] && r.value.1 == pop[d.parent2]
    ensures PairStep(store, refs, p, d) == Some((store', a, b))
    ensures Holds(objs', store') && objs' == objs
    ensures a < |objs'| && b < |objs'| && r.value.0 == objs'[a] && r.value.1 == objs'[b]
  {
    var c1, c2 := pop[d.parent1], pop[d.parent2];
    objs', store', a, b := objs, store, refs[d.parent1], refs[d.parent2];
    store' := MutateHeld(pop, c1, p, d.mutation1, objs', store', a);
    store' := MutateHeld(pop, c2, p, d.mutation2, objs', store', b);
    PairStepKeep(store, refs, p, d);
    r := Ok((c1, c2));
  }

  /** The two children of a crossover as new lists, each mutated. */
  method NewPair(pop: seq<array<Gene>>, p: Problem, kids: (Individual, Individual), m1: MutationDraw, m2: MutationDraw,
                 ghost objs: seq<array<Gene>>, ghost store: seq<Individual>)
    returns (c1: array<Gene>, c2: array<Gene>)
    requires WellFormed(p) && AllGood(pop, p) && Holds(objs, store)
    requires Good(kids.0, p.sessions, p.groups) && Good(kids.1, p.sessions, p.groups)
    requires (m1.fires ==> m1.index < |p.groups|) && (m2.fires ==> m2.index < |p.groups|)
    ensures fresh(c1) && fresh(c2) && AllGood(pop, p)
    ensures Good(c1[..], p.sessions, p.groups) && Good(c2[..], p.sessions, p.groups)
    ensures c1[..] == MutatedBy(kids.0, p.sessions, m1) && c2[..] == MutatedBy(kids.1, p.sessions, m2)
    ensures Holds(objs + [c1, c2], store + [c1[..], c2[..]]) && (objs + [c1, c2])[..|objs|] == objs
  {
    c1 := FromSeq(kids.0);
    MutateTracked(pop, c1, p, m1);
    c2 := FromSeq(kids.1);
    MutateTracked(pop, c2, p, m2);
    HoldsAppend(objs, store, c1, c2);
  }

  /** Two more lists, new to the objects. */
  lemma HoldsAppend(objs: seq<array<Gene>>, store: seq<Individual>, c1: array<Gene>, c2: array<Gene>)
    requires Holds(objs, store) && c1 != c2 && c1 !in objs && c2 !in objs
    ensures Holds(objs + [c1, c2], store + [c1[..], c2[..]])
    ensures (objs + [c1, c2])[..|objs|] == objs
  {
  }

  /** Mutates the object objs[k] in place: only its contents change, and
      every individual of `pop` stays good. */
  method MutateHeld(pop: seq<array<Gene>>, c: array<Gene>, p: Problem, m: MutationDraw,
                    ghost objs: seq<array<Gene>>, ghost store: seq<Individual>, ghost k: nat)
    returns (ghost store': seq<Individual>)
    requires WellFormed(p) && AllGood(pop, p)
    requires Holds(objs, store) && k < |objs| && c == objs[k] && Good(c[..], p.sessions, p.groups)
    requires m.fires ==> m.index < |p.groups|
    modifies c
    ensures AllGood(pop, p) && Good(c[..], p.sessions, p.groups)
    ensures store' == store[k := MutatedBy(store[k], p.sessions, m)] && Holds(objs, store')
  {
    MutateTracked(pop, c, p, m);
    store' := store[k := MutatedBy(store[k], p.sessions, m)];
    forall j | 0 <= j < |objs| ensures objs[j][..] == store'[j] {
      if j != k {
        assert objs[j] != objs[k];
      }
    }
  }

  /** The retry loop of crossover on two good parents; its children are
      good. */
  method CrossChildren(p1: Individual, p2: Individual, p: Problem, cuts: seq<nat>)
    returns (kids: Option<(Individual, Individual)>)
    requires Good(p1, p.sessions, p.groups) && Good(p2, p.sessions, p.groups)
    requires forall j | 0 <= j < |cuts| :: cuts[j] < |p.groups|
    ensures kids.Some? ==> Good(kids.value.0, p.sessions, p.groups) && Good(kids.value.1, p.sessions, p.groups)
    ensures kids == FirstValid(p1, p2, cuts)
  {
    kids := CrossoverUntilValid(p1, p2, cuts);
    if kids.Some? {
      var j :| 0 <= j < |cuts| && Crossover(p1, p2, cuts[j]) == kids;
      CrossoverKeepsGood(p1, p2, p.sessions, p.groups, cuts[j]);
    }
  }

  /** Mutates `c` in place; every individual of `pop`, aliased to `c` or
      not, stays good. */
  method MutateTracked(pop: seq<array<Gene>>, c: array<Gene>, p: Problem, m: MutationDraw)
    requires WellFormed(p) && AllGood(pop, p) && Good(c[..], p.sessions, p.groups)
    requires m.fires ==> m.index < |p.groups|
    modifies c
    ensures AllGood(pop, p) && Good(c[..], p.sessions, p.groups)
    ensures c[..] == MutatedBy(old(c[..]), p.sessions, m)
  {
    ghost var before := c[..];
    Mutate(c, p.sessions, m);
    if m.fires {
      MutatedKeepsGood(before, p.sessions, p.groups, m.index, m.pick);
    }
    forall a | a in pop ensures Good(a[..], p.sessions, p.groups) {
      if a == c {
      } else {
        assert a[..] == old(a[..]);
      }
    }
  }

  /** The new population of one generation (lines 182-196). */
  method Breed(pop: seq<array<Gene>>, p: Problem, draws: seq<BreedDraw>, ghost objs: seq<array<Gene>>, ghost h: Herd)
    returns (r: Result<seq<array<Gene>>, SlotError>, ghost objs': seq<array<Gene>>)
    requires WellFormed(p) && AllGood(pop, p)
    requires forall k | 0 <= k < |draws| :: DrawFits(draws[k], |pop|, |p.groups|)
    requires HerdOk(h, |p.groups|) && Holds(objs, h.store) && Points(pop, objs, h.refs)
    modifies set a | a in pop
    ensures AllGood(pop, p)
    ensures r.Ok? ==> |r.value| == 2 * |draws| && AllGood(r.value, p)
    ensures r.Ok? ==> forall a | a in r.value :: a in pop || fresh(a)
    ensures r.Err? ==> r.error == CutsExhausted
    ensures r.Ok? <==> NextHerd(h, p, draws).Some?
    ensures r.Ok? ==> Holds(objs', NextHerd(h, p, draws).value.store)
    ensures r.Ok? ==> Points(r.value, objs', NextHerd(h, p, draws).value.refs)
  {
    var next: seq<array<Gene>> := [];
    ghost var store, kids, cur := h.store, [], objs;
    var k := 0;
    while k < |draws|
      invariant 0 <= k <= |draws| && |next| == 2 * k
      invariant AllGood(pop, p) && AllGood(next, p)
      invariant forall a | a in next :: a in pop || fresh(a)
      invariant Bred(h.store, h.refs, p, draws[..k]) == Some((store, kids))
      invariant Holds(cur, store) && Points(pop, cur, h.refs) && Points(next, cur, kids)
    {
      var step;
      step, store, kids, cur := BreedStep(pop, p, draws, k, next, h, store, kids, cur);
      if step.Err? {
        BredStaysNone(h.store, h.refs, p, draws, k + 1);
        return Err(step.error), cur;
      }
      next := step.value;
      k := k + 1;
    }
    assert draws[..k] == draws;
    return Ok(next), cur;
  }

  /** One pass of Breed's loop: the children of draws[k] join `next`. */
  method BreedStep(pop: seq<array<Gene>>, p: Problem, draws: seq<BreedDraw>, k: nat, next: seq<array<Gene>>,
                   ghost h: Herd, ghost store: seq<Individual>, ghost kids: seq<nat>, ghost cur: seq<array<Gene>>)
    returns (r: Result<seq<array<Gene>>, SlotError>,
             ghost store': seq<Individual>, ghost kids': seq<nat>, ghost cur': seq<array<Gene>>)
    requires WellFormed(p) && k < |draws| && HerdOk(h, |p.groups|)
    requires forall j | 0 <= j < |draws| :: DrawFits(draws[j], |pop|, |p.groups|)
    requires AllGood(pop, p) && AllGood(next, p) && |pop| == |h.refs|
    requires Bred(h.store, h.refs, p, draws[..k]) == Some((store, kids))
    requires Holds(cur, store) && Points(pop, cur, h.refs) && Points(next, cur, kids)
    modifies set a | a in pop
    ensures AllGood(pop, p)
    ensures r.Err? ==> r.error == CutsExhausted && Bred(h.store, h.refs, p, draws[..k + 1]).None?
    ensures r.Ok? ==> Bred(h.store, h.refs, p, draws[..k + 1]) == Some((store', kids'))
    ensures r.Ok? ==> Holds(cur', store') && Points(pop, cur', h.refs) && Points(r.value, cur', kids')
    ensures r.Ok? ==> |r.value| == |next| + 2 && AllGood(r.value, p)
    ensures r.Ok? ==> forall a | a in r.value :: a in next || a in pop || fresh(a)
  {
    BredSnoc(h.store, h.refs, p, draws, k, store, kids);
    var pair, objs2, store2, a, b := BreedPair(pop, p, draws[k], cur, store, h.refs);
    if pair.Err? {
      return Err(pair.error), store, kids, cur;
    }
    PointsGrow(pop, cur, objs2, h.refs);
    PointsGrow(next, cur, objs2, kids);
    PointsSnoc(next, objs2, kids, a, b);
    forall x | x in next ensures Good(x[..], p.sessions, p.groups) {
      if x !in pop {
        assert x[..] == old(x[..]);
      }
    }
    r := Ok(next + [pair.value.0, pair.value.1]);
    store', kids', cur' := store2, kids + [a, b], objs2;
  }

  /** One more pass of the selection loop. */
  lemma BredSnoc(store: seq<Individual>, refs: seq<nat>, p: Problem, draws: seq<BreedDraw>, k: nat,
                 part: seq<Individual>, kids: seq<nat>)
    requires HerdOk(Herd(store, refs), |p.groups|)
    requires forall j | 0 <= j < |draws| :: DrawFits(draws[j], |refs|, |p.groups|)
    requires k < |draws| && Bred(store, refs, p, draws[..k]) == Some((part, kids))
    ensures Bred(store, refs, p, draws[..k + 1]) ==
      match PairStep(part, refs, p, draws[k])
      case None => None
      case Some(step) => Some((step.0, kids + [step.1, step.2]))
  {
    assert draws[..k + 1][..k] == draws[..k];
  }

  lemma PointsGrow(pop: seq<array<Gene>>, objs: seq<array<Gene>>, objs': seq<array<Gene>>, refs: seq<nat>)
    requires Points(pop, objs, refs) && |objs| <= |objs'| && objs'[..|objs|] == objs
    ensures Points(pop, objs', refs)
  {
    forall i | 0 <= i < |pop| ensures refs[i] < |objs'| && pop[i] == objs'[refs[i]] {
      assert objs'[..|objs|][refs[i]] == objs'[refs[i]];
    }
  }

  lemma PointsSnoc(pop: seq<array<Gene>>, objs: seq<array<Gene>>, refs: seq<nat>, a: nat, b: nat)
    requires Points(pop, objs, refs) && a < |objs| && b < |objs|
    ensures Points(pop + [objs[a], objs[b]], objs, refs + [a, b])
  {
  }

  /** Once a pass fails, every longer run of passes fails. */
  lemma {:induction false} BredStaysNone(store: seq<Individual>, refs: seq<nat>, p: Problem, draws: seq<BreedDraw>, k: nat)
    requires HerdOk(Herd(store, refs), |p.groups|)
    requires forall j | 0 <= j < |draws| :: DrawFits(draws[j], |refs|, |p.groups|)
    requires 0 < k <= |draws|
    requires Bred(store, refs, p, draws[..k]).None?
    ensures Bred(store, refs, p, draws).None?
    decreases |draws| - k
  {
    if k < |draws| {
      assert draws[..k + 1][..k] == draws[..k];
      BredStaysNone(store, refs, p, draws, k + 1);
    } else {
      assert draws[..k] == draws;
    }
  }

  method ToArrays(vals: seq<Individual>) returns (pop: seq<array<Gene>>)
    ensures |pop| == |vals|
    ensures forall i | 0 <= i < |pop| :: fresh(pop[i]) && pop[i][..] == vals[i]
    ensures Holds(pop, vals)
  {
    pop := [];
    var i := 0;
    while i < |vals|
      invariant 0 <= i <= |vals| && |pop| == i
      invariant forall j | 0 <= j < i :: fresh(pop[j]) && pop[j][..] == vals[j]
      invariant Holds(pop, vals[..i])
    {
      var a := FromSeq(vals[i]);
      pop := pop + [a];
      i := i + 1;
    }
  }

  /** One list of draws per generation, population_size // 2 pairs each. */
  predicate DrawsFit(draws: seq<seq<BreedDraw>>, n: nat)
  {
    && |draws| == Generations
    && forall g | 0 <= g < |draws| ::
         && |draws[g]| == PopulationSize / 2
         && forall k | 0 <= k < |draws[g]| :: DrawFits(draws[g][k], PopulationSize, n)
  }

  /** generate_initial_population, each individual as a new list. */
  method InitialPopulation(p: Problem, picks: seq<seq<nat>>)
    returns (r: Result<seq<array<Gene>>, SlotError>, ghost vals: seq<Individual>)
    requires |picks| == PopulationSize && forall q | q in picks :: |q| == |p.groups|
    ensures r.Ok? ==> |r.value| == PopulationSize && AllGood(r.value, p)
    ensures r.Ok? ==> forall a | a in r.value :: fresh(a)
    ensures r.Ok? ==> |vals| == PopulationSize && GrownAll(p.sessions, p.groups, picks, vals)
    ensures r.Ok? ==> Holds(r.value, vals) && HerdOk(Unshared(vals), |p.groups|)
    ensures r.Err? <==> |p.groups| > Cap * |SessionSet(p.sessions)|
    ensures r.Err? ==> r.error == NoSessionUnderCap
  {
    var init := GenerateInitialPopulation(p.sessions, p.groups, picks);
    if init.Err? {
      return Err(init.error), [];
    }
    var pop := ToArrays(init.value);
    HeldGood(pop, init.value, p);
    return Ok(pop), init.value;
  }

  /** Arrays holding good individuals, each its own list. */
  lemma HeldGood(pop: seq<array<Gene>>, vals: seq<Individual>, p: Problem)
    requires Holds(pop, vals) && forall ind | ind in vals :: Good(ind, p.sessions, p.groups)
    ensures AllGood(pop, p) && HerdOk(Unshared(vals), |p.groups|)
  {
    forall a | a in pop ensures Good(a[..], p.sessions, p.groups) {
      var i :| 0 <= i < |pop| && pop[i] == a;
      assert vals[i] in vals;
    }
    forall k | 0 <= k < |vals| ensures |vals[k]| == |p.groups| {
      assert vals[k] in vals;
    }
  }

  /** population_fitness and its sorted head (lines 173-174): the current
      contents and fitness of every individual, and the first fittest. */
  method Evaluate(pop: seq<array<Gene>>, p: Problem) returns (vals: seq<Individual>, scores: seq<int>, top: nat)
    requires WellFormed(p) && AllGood(pop, p) && |pop| > 0
    ensures |vals| == |pop| == |scores| && top < |pop|
    ensures forall i | 0 <= i < |pop| :: vals[i] == pop[i][..] && Good(vals[i], p.sessions, p.groups)
    ensures forall i | 0 <= i < |pop| :: scores[i] == Score(vals[i], p) <= scores[top]
    ensures forall i | 0 <= i < top :: scores[i] < scores[top]
  {
    vals := Snapshot(pop);
    assert forall i | 0 <= i < |pop| :: pop[i] in pop;
    scores := Scores(vals, p);
    top := FittestIndex(scores);
  }

  /** genetic_algorithm as written: it records a REFERENCE to the fittest
      list (line 178) and returns that list at the end. The list it returns
      is a good individual, but later generations may have mutated it in
      place since its fitness was recorded (see StoredBestDrifts). */
  method GeneticAlgorithm(p: Problem, picks: seq<seq<nat>>, draws: seq<seq<BreedDraw>>)
    returns (r: Result<array<Gene>, SlotError>)
    requires WellFormed(p)
    requires |picks| == PopulationSize && forall q | q in picks :: |q| == |p.groups|
    requires DrawsFit(draws, |p.groups|)
    ensures r.Ok? ==> Good(r.value[..], p.sessions, p.groups)
    ensures r == Err(NoSessionUnderCap) <==> |p.groups| > Cap * |SessionSet(p.sessions)|
  {
    var init, vals0 := InitialPopulation(p, picks);
    if init.Err? {
      return Err(init.error);
    }
    var pop := init.value;
    ghost var objs, h := pop, Unshared(vals0);
    var best: array?<Gene> := null;
    var bestFitness := 0;  // stands for float('-inf') while best is null
    var g := 0;
    while g < Generations
      invariant 0 <= g <= Generations
      invariant |pop| == PopulationSize && AllGood(pop, p)
      invariant forall a | a in pop :: fresh(a)
      invariant |p.groups| <= Cap * |SessionSet(p.sessions)|
      invariant g > 0 ==> best != null
      invariant best != null ==> fresh(best) && Good(best[..], p.sessions, p.groups)
      invariant HerdOk(h, |p.groups|) && Holds(objs, h.store) && Points(pop, objs, h.refs)
    {
      var vals, scores, top := Evaluate(pop, p);
      if best == null || scores[top] > bestFitness {
        best, bestFitness := pop[top], scores[top];
      }
      label Gen:
      var next, objs' := Breed(pop, p, draws[g], objs, h);
      if next.Err? {
        return Err(next.error);
      }
      if best !in pop {
        assert best[..] == old@Gen(best[..]);
      }
      pop, objs, h := next.value, objs', NextHerd(h, p, draws[g]).value;
      g := g + 1;
    }
    return Ok(best);
  }

  /** `at` is the first greatest entry of `xs`. */
  predicate FirstMax(xs: seq<int>, at: nat)
  {
    at < |xs| && forall i | 0 <= i < |xs| :: xs[i] <= xs[at] && (i < at ==> xs[i] < xs[at])
  }

  /** The first greatest entry once the scores `ys` of one more generation
      are appended: it moves to that generation's own first greatest only
      when that one is strictly greater (line 177). */
  lemma FirstMaxGrows(xs: seq<int>, ys: seq<int>, at: nat, top: nat) returns (at': nat)
    requires FirstMax(ys, top)
    requires xs != [] ==> FirstMax(xs, at)
    ensures at' == if xs == [] || ys[top] > xs[at] then |xs| + top else at
    ensures FirstMax(xs + ys, at')
  {
    at' := if xs == [] || ys[top] > xs[at] then |xs| + top else at;
    var all := xs + ys;
    forall i | 0 <= i < |all| ensures all[i] <= all[at'] && (i < at' ==> all[i] < all[at']) {
      if i >= |xs| {
        assert all[i] == ys[i - |xs|];
      }
      if at' >= |xs| {
        assert all[at'] == ys[top];
      }
    }
  }

  lemma ScoresAppend(xs: seq<Individual>, ys: seq<Individual>, p: Problem)
    requires WellFormed(p)
    requires forall i | 0 <= i < |xs| :: Good(xs[i], p.sessions, p.groups)
    requires forall i | 0 <= i < |ys| :: Good(ys[i], p.sessions, p.groups)
    ensures forall i | 0 <= i < |xs + ys| :: Good((xs + ys)[i], p.sessions, p.groups)
    ensures Scores(xs + ys, p) == Scores(xs, p) + Scores(ys, p)
  {
    GoodAppend(xs, ys, p);
    var all, left, right := Scores(xs + ys, p), Scores(xs, p), Scores(ys, p);
    forall i | 0 <= i < |all| ensures all[i] == (left + right)[i] {
      if i < |xs| {
        assert (xs + ys)[i] == xs[i];
      } else {
        assert (xs + ys)[i] == ys[i - |xs|];
      }
    }
  }

  lemma GoodAppend(xs: seq<Individual>, ys: seq<Individual>, p: Problem)
    requires forall i | 0 <= i < |xs| :: Good(xs[i], p.sessions, p.groups)
    requires forall i | 0 <= i < |ys| :: Good(ys[i], p.sessions, p.groups)
    ensures forall i | 0 <= i < |xs + ys| :: Good((xs + ys)[i], p.sessions, p.groups)
  {
    var all := xs + ys;
    forall i | 0 <= i < |all| ensures Good(all[i], p.sessions, p.groups) {
      if i >= |xs| {
        assert all[i] == ys[i - |xs|];
      }
    }
  }

  /** Every individual of the evaluated generations, generation after
      generation, each in population order. */
  function Seen(gens: seq<Herd>): (r: seq<Individual>)
    requires forall g | 0 <= g < |gens| :: RefsOk(gens[g])
  {
    if gens == [] then [] else Seen(gens[..|gens| - 1]) + Members(gens[|gens| - 1])
  }

  /** `gens` are the populations the search evaluates, in order: the first
      holds the generated individuals, each in its own list, and each next
      one is bred from the one before with that generation's draws. */
  predicate Evolution(gens: seq<Herd>, p: Problem, picks: seq<seq<nat>>, draws: seq<seq<BreedDraw>>)
    requires DrawsFit(draws, |p.groups|)
  {
    && 0 < |gens| <= Generations
    && (forall g | 0 <= g < |gens| :: HerdOk(gens[g], |p.groups|) && |gens[g].refs| == PopulationSize)
    && gens[0] == Unshared(gens[0].store) && |gens[0].store| == PopulationSize
    && GrownAll(p.sessions, p.groups, picks, gens[0].store)
    && forall g | 0 <= g < |gens| - 1 :: NextHerd(gens[g], p, draws[g]) == Some(gens[g + 1])
  }

  lemma EvolutionGrows(gens: seq<Herd>, h: Herd, p: Problem, picks: seq<seq<nat>>, draws: seq<seq<BreedDraw>>)
    requires DrawsFit(draws, |p.groups|)
    requires |gens| < Generations && HerdOk(h, |p.groups|) && |h.refs| == PopulationSize
    requires gens == [] ==> h == Unshared(h.store) && |h.store| == PopulationSize && GrownAll(p.sessions, p.groups, picks, h.store)
    requires gens != [] ==> Evolution(gens, p, picks, draws) && NextHerd(gens[|gens| - 1], p, draws[|gens| - 1]) == Some(h)
    ensures Evolution(gens + [h], p, picks, draws)
  {
    var all := gens + [h];
    if gens == [] {
      assert all == [h];
    } else {
      assert all[0] == gens[0];
      forall g | 0 <= g < |all| ensures HerdOk(all[g], |p.groups|) && |all[g].refs| == PopulationSize {
        if g < |gens| {
          assert all[g] == gens[g];
        }
      }
      forall g | 0 <= g < |all| - 1 ensures NextHerd(all[g], p, draws[g]) == Some(all[g + 1]) {
        assert all[g] == gens[g];
        if g + 1 < |gens| {
          assert all[g + 1] == gens[g + 1];
        }
      }
    }
  }

  lemma SeenSnoc(gens: seq<Herd>, h: Herd)
    requires forall g | 0 <= g < |gens| :: RefsOk(gens[g])
    requires RefsOk(h)
    ensures Seen(gens + [h]) == Seen(gens) + Members(h)
  {
    assert (gens + [h])[..|gens|] == gens;
  }

  /** The members of a population are what its arrays hold. */
  lemma MembersHeld(pop: seq<array<Gene>>, objs: seq<array<Gene>>, h: Herd)
    requires RefsOk(h) && Holds(objs, h.store) && Points(pop, objs, h.refs)
    ensures forall i | 0 <= i < |pop| :: pop[i][..] == Members(h)[i]
  {
  }

  /** Evaluates one generation and records its first fittest individual
      when it beats the best so far (lines 173-179, with the copy). */
  method Record(pop: seq<array<Gene>>, p: Problem, first: bool, best: Individual, bestFitness: int,
                ghost objs: seq<array<Gene>>, ghost h: Herd, ghost seen: seq<Individual>, ghost at: nat)
    returns (best': Individual, bestFitness': int, ghost at': nat)
    requires WellFormed(p) && AllGood(pop, p) && |pop| > 0
    requires RefsOk(h) && Holds(objs, h.store) && Points(pop, objs, h.refs)
    requires forall i | 0 <= i < |seen| :: Good(seen[i], p.sessions, p.groups)
    requires first ==> seen == []
    requires !first ==> FirstMax(Scores(seen, p), at) && best == seen[at] && bestFitness == Score(best, p)
    ensures forall i | 0 <= i < |seen + Members(h)| :: Good((seen + Members(h))[i], p.sessions, p.groups)
    ensures FirstMax(Scores(seen + Members(h), p), at')
    ensures best' == (seen + Members(h))[at'] && bestFitness' == Score(best', p)
  {
    var vals, scores, top := Evaluate(pop, p);
    MembersHeld(pop, objs, h);
    assert vals == Members(h);
    assert scores == Scores(vals, p);
    assert !first ==> Scores(seen, p)[at] == Score(seen[at], p);
    ScoresAppend(seen, vals, p);
    best', bestFitness', at' := Promote(vals, scores, top, first, best, bestFitness, seen, Scores(seen, p), at);
  }

  /** The comparison of line 177 on one evaluated generation, over the
      fitness values `marks` of the earlier generations and `scores` of
      this one. */
  method Promote(vals: seq<Individual>, scores: seq<int>, top: nat, first: bool, best: Individual, bestFitness: int,
                 ghost seen: seq<Individual>, ghost marks: seq<int>, ghost at: nat)
    returns (best': Individual, bestFitness': int, ghost at': nat)
    requires |scores| == |vals| && FirstMax(scores, top)
    requires |marks| == |seen| && (first ==> seen == [])
    requires !first ==> FirstMax(marks, at) && best == seen[at] && bestFitness == marks[at]
    ensures FirstMax(marks + scores, at')
    ensures at' < |seen + vals| && best' == (seen + vals)[at'] && bestFitness' == (marks + scores)[at']
  {
    at' := FirstMaxGrows(marks, scores, at, top);
    if first || scores[top] > bestFitness {
      best', bestFitness' := vals[top], scores[top];
      assert (seen + vals)[at'] == vals[top];
      assert (marks + scores)[at'] == scores[top];
    } else {
      best', bestFitness' := best, bestFitness;
      assert (seen + vals)[at'] == seen[at];
      assert (marks + scores)[at'] == marks[at];
    }
  }

  /** What the Elitist knows after `g` generations: `gens` are the
      populations it evaluated, `h` is the one it evaluates next, and `best`
      is the first fittest individual evaluated so far. */
  predicate Searched(p: Problem, picks: seq<seq<nat>>, draws: seq<seq<BreedDraw>>, g: nat, gens: seq<Herd>, h: Herd,
                     best: Individual, bestFitness: int, at: nat)
    requires WellFormed(p) && DrawsFit(draws, |p.groups|)
  {
    && |gens| == g <= Generations && HerdOk(h, |p.groups|) && |h.refs| == PopulationSize
    && (g == 0 ==> h == Unshared(h.store) && |h.store| == PopulationSize && GrownAll(p.sessions, p.groups, picks, h.store))
    && (g > 0 ==> Evolution(gens, p, picks, draws) && NextHerd(gens[g - 1], p, draws[g - 1]) == Some(h))
    && (forall i | 0 <= i < |Seen(gens)| :: Good(Seen(gens)[i], p.sessions, p.groups))
    && (g > 0 ==> FirstMax(Scores(Seen(gens), p), at) && best == Seen(gens)[at] && bestFitness == Score(best, p))
  }

  /** The arrays `pop` are the members of `h`, held by the objects `objs`. */
  ghost predicate Tracks(pop: seq<array<Gene>>, objs: seq<array<Gene>>, h: Herd, p: Problem)
    reads pop, objs
  {
    |pop| == PopulationSize && AllGood(pop, p) && Holds(objs, h.store) && Points(pop, objs, h.refs)
  }

  /** genetic_algorithm with the best individual copied when it is recorded,
      as the supervisor search does with deepcopy (line 423). `gens` are the
      populations it evaluated, each bred from the one before; the result is
      the first individual of greatest fitness among them all, in the order
      they were evaluated. */
  method GeneticAlgorithmElitist(p: Problem, picks: seq<seq<nat>>, draws: seq<seq<BreedDraw>>)
    returns (r: Result<Individual, SlotError>, ghost gens: seq<Herd>, ghost at: nat)
    requires WellFormed(p)
    requires |picks| == PopulationSize && forall q | q in picks :: |q| == |p.groups|
    requires DrawsFit(draws, |p.groups|)
    ensures r == Err(NoSessionUnderCap) <==> |p.groups| > Cap * |SessionSet(p.sessions)|
    ensures r != Err(NoSessionUnderCap) ==> Evolution(gens, p, picks, draws)
    ensures r != Err(NoSessionUnderCap) ==> (NextHerd(gens[|gens| - 1], p, draws[|gens| - 1]).Some? <==> r.Ok?)
    ensures r.Ok? ==> |gens| == Generations
    ensures r != Err(NoSessionUnderCap) ==> forall i | 0 <= i < |Seen(gens)| :: Good(Seen(gens)[i], p.sessions, p.groups)
    ensures r.Ok? ==> FirstMax(Scores(Seen(gens), p), at) && r.value == Seen(gens)[at]
  {
    var init, vals0 := InitialPopulation(p, picks);
    if init.Err? {
      return Err(init.error), [], 0;
    }
    r, gens, at := Search(init.value, p, picks, draws, init.value, Unshared(vals0));
  }

  /** The generation loop of the Elitist, from the initial population. */
  method Search(pop: seq<array<Gene>>, p: Problem, picks: seq<seq<nat>>, draws: seq<seq<BreedDraw>>,
                ghost objs: seq<array<Gene>>, ghost h: Herd)
    returns (r: Result<Individual, SlotError>, ghost gens: seq<Herd>, ghost at: nat)
    requires WellFormed(p) && DrawsFit(draws, |p.groups|)
    requires Searched(p, picks, draws, 0, [], h, [], 0, 0) && Tracks(pop, objs, h, p)
    modifies set a | a in pop
    ensures r.Err? ==> r.error == CutsExhausted
    ensures Evolution(gens, p, picks, draws)
    ensures NextHerd(gens[|gens| - 1], p, draws[|gens| - 1]).Some? <==> r.Ok?
    ensures r.Ok? ==> |gens| == Generations
    ensures forall i | 0 <= i < |Seen(gens)| :: Good(Seen(gens)[i], p.sessions, p.groups)
    ensures r.Ok? ==> FirstMax(Scores(Seen(gens), p), at) && r.value == Seen(gens)[at]
  {
    gens, at := [], 0;
    var cur := pop;
    ghost var objs, h := objs, h;
    var best: Individual := [];
    var bestFitness := 0;
    var g := 0;
    while g < Generations
      invariant Searched(p, picks, draws, g, gens, h, best, bestFitness, at)
      invariant Tracks(cur, objs, h, p)
      invariant forall a | a in cur :: a in pop || fresh(a)
    {
      var next;
      next, best, bestFitness, objs, h, gens, at := Generation(cur, p, picks, draws, g, best, bestFitness, objs, h, gens, at);
      if next.Err? {
        return Err(next.error), gens, at;
      }
      cur := next.value;
      g := g + 1;
    }
    SearchedAll(p, picks, draws, gens, h, best, bestFitness, at);
    return Ok(best), gens, at;
  }

  /** After the last generation. */
  lemma SearchedAll(p: Problem, picks: seq<seq<nat>>, draws: seq<seq<BreedDraw>>, gens: seq<Herd>, h: Herd,
                    best: Individual, bestFitness: int, at: nat)
    requires WellFormed(p) && DrawsFit(draws, |p.groups|)
    requires Searched(p, picks, draws, Generations, gens, h, best, bestFitness, at)
    ensures Evolution(gens, p, picks, draws) && |gens| == Generations
    ensures NextHerd(gens[|gens| - 1], p, draws[|gens| - 1]).Some?
    ensures forall i | 0 <= i < |Seen(gens)| :: Good(Seen(gens)[i], p.sessions, p.groups)
    ensures FirstMax(Scores(Seen(gens), p), at) && best == Seen(gens)[at]
  {
  }

  /** One pass of the Elitist's generation loop: evaluate, record, breed. */
  method Generation(pop: seq<array<Gene>>, p: Problem, picks: seq<seq<nat>>, draws: seq<seq<BreedDraw>>, g: nat,
                    best: Individual, bestFitness: int,
                    ghost objs: seq<array<Gene>>, ghost h: Herd, ghost gens: seq<Herd>, ghost at: nat)
    returns (r: Result<seq<array<Gene>>, SlotError>, best': Individual, bestFitness': int,
             ghost objs': seq<array<Gene>>, ghost h': Herd, ghost gens': seq<Herd>, ghost at': nat)
    requires WellFormed(p) && DrawsFit(draws, |p.groups|) && g < Generations
    requires Searched(p, picks, draws, g, gens, h, best, bestFitness, at) && Tracks(pop, objs, h, p)
    modifies set a | a in pop
    ensures r.Err? ==> r.error == CutsExhausted && Evolution(gens', p, picks, draws) && |gens'| == g + 1
    ensures r.Err? ==> NextHerd(gens'[g], p, draws[g]).None?
    ensures r.Err? ==> forall i | 0 <= i < |Seen(gens')| :: Good(Seen(gens')[i], p.sessions, p.groups)
    ensures r.Ok? ==> Searched(p, picks, draws, g + 1, gens', h', best', bestFitness', at')
    ensures r.Ok? ==> Tracks(r.value, objs', h', p) && forall a | a in r.value :: a in pop || fresh(a)
  {
    best', bestFitness', at' := Record(pop, p, g == 0, best, bestFitness, objs, h, Seen(gens), at);
    EvolutionGrows(gens, h, p, picks, draws);
    SeenSnoc(gens, h);
    gens' := gens + [h];
    var next;
    next, objs' := Breed(pop, p, draws[g], objs, h);
    if next.Err? {
      return Err(next.error), best', bestFitness', objs', h, gens', at';
    }
    h' := NextHerd(h, p, draws[g]).value;
    r := Ok(next.value);
  }

  /** The aliasing behind GeneticAlgorithm on a concrete input: two lab
      courses of one semester, sessions Mon 08, Tue 08 and Tue 10, the
      individual [L1 on Tue 08, L2 on Mon 08]. It is recorded as the best
      (fitness 0, line 178); next generation it is drawn as a parent, skips
      crossover, so the child is the same list (line 189), and mutate moves
      L1 to Mon 08 (line 191). The recorded best now holds two lab exams on
      a one-session day: its fitness is -10. */
  const DriftSessions: seq<Session> := [Session("Mon", "08"), Session("Tue", "08"), Session("Tue", "10")]
  const DriftProblem: Problem :=
    Problem(DriftSessions, [CourseGroup("L1", 1), CourseGroup("L2", 1)], [1], {"L1", "L2"})
  const DriftBefore: Individual := [Gene(DriftSessions[1], "L1", 1), Gene(DriftSessions[0], "L2", 1)]
  const DriftAfter: Individual := [Gene(DriftSessions[0], "L1", 1), Gene(DriftSessions[0], "L2", 1)]

  lemma DriftWellFormed()
    ensures WellFormed(DriftProblem)
  {
  }

  lemma DriftBeforeGood()
    ensures Good(DriftBefore, DriftSessions, DriftProblem.groups)
  {
    assert DriftBefore[..1] == [Gene(DriftSessions[1], "L1", 1)];
  }

  lemma DriftMutation()
    ensures Mutated(DriftBefore, DriftSessions, 0, 0) == DriftAfter
  {
    var mon, tue8, tue10 := DriftSessions[0], DriftSessions[1], DriftSessions[2];
    assert DriftBefore[..1] == [Gene(tue8, "L1", 1)];
    assert Occupancy(DriftBefore, mon) == 1;
    assert Occupancy(DriftBefore, tue8) == 1;
    assert Occupancy(DriftBefore, tue10) == 0;
    UnderCapAllFree(DriftBefore, DriftSessions);
  }

  lemma DriftScores()
    ensures Good(DriftAfter, DriftSessions, DriftProblem.groups)
    ensures Score(DriftBefore, DriftProblem) == 0
    ensures Score(DriftAfter, DriftProblem) == -10
  {
    DriftSheet();
    DriftBeforeScore();
    DriftAfterScore();
    DriftAfterGood();
  }

  lemma DriftAfterGood()
    ensures Good(DriftAfter, DriftSessions, DriftProblem.groups)
  {
    var mon := DriftSessions[0];
    assert DriftAfter[..1] == [Gene(mon, "L1", 1)];
    assert Occupancy(DriftAfter, mon) == 2;
  }

  /** The facts about the drift problem's sheets that both scores use. */
  lemma DriftSheet()
    ensures Unique(DriftProblem.courseSemesters) == [1]
    ensures SessionsOnDay(DriftSessions, "Mon") == 1
    ensures SessionsOnDay(DriftSessions, "Tue") == 2
    ensures Unique(DaysOf(DriftSessions)) == ["Mon", "Tue"]
  {
    assert DriftSessions[..2] == [DriftSessions[0], DriftSessions[1]] && DriftSessions[..1] == [DriftSessions[0]];
    assert DaysOf(DriftSessions) == ["Mon", "Tue", "Tue"];
    var days := DaysOf(DriftSessions);
    assert days[..2] == ["Mon", "Tue"] && days[..1] == ["Mon"];
    assert Unique(["Mon"]) == ["Mon"];
    assert Unique(["Mon", "Tue"]) == ["Mon", "Tue"];
  }

  lemma DriftBeforeScore()
    requires Unique(DriftProblem.courseSemesters) == [1]
    requires SessionsOnDay(DriftSessions, "Mon") == 1
    requires SessionsOnDay(DriftSessions, "Tue") == 2
    ensures Score(DriftBefore, DriftProblem) == 0
  {
    var p := DriftProblem;
    assert DriftBefore[..1] == [DriftBefore[0]];
    assert SemesterCount(DriftBefore, 1) == 2;
    assert CountValues(DriftBefore, [1]) == {2};
    assert BalanceBonus(DriftBefore, p.courseSemesters) == 0;
    assert LabLoad(DriftBefore, p.labCourses, "Mon") == 1;
    assert LabLoad(DriftBefore, p.labCourses, "Tue") == 1;
  }

  lemma DriftAfterScore()
    requires Unique(DriftProblem.courseSemesters) == [1]
    requires SessionsOnDay(DriftSessions, "Mon") == 1
    requires SessionsOnDay(DriftSessions, "Tue") == 2
    requires Unique(DaysOf(DriftSessions)) == ["Mon", "Tue"]
    ensures Score(DriftAfter, DriftProblem) == -10
  {
    var p := DriftProblem;
    assert DriftAfter[..1] == [DriftAfter[0]];
    assert SemesterCount(DriftAfter, 1) == 2;
    assert CountValues(DriftAfter, [1]) == {2};
    assert BalanceBonus(DriftAfter, p.courseSemesters) == 0;
    assert LabLoad(DriftAfter, p.labCourses, "Mon") == 2;
    assert LabLoad(DriftAfter, p.labCourses, "Tue") == 0;
    assert SemesterPenalty(DriftAfter, [1]) == 0;
    assert LabPenalty(DriftAfter, DriftSessions, p.labCourses, ["Mon"]) == 10;
    assert LabPenalty(DriftAfter, DriftSessions, p.labCourses, ["Mon", "Tue"]) == 10;
  }

  method StoredBestDrifts() returns (recorded: int, current: int)
    ensures recorded == 0 && current == -10
  {
    DriftWellFormed();
    DriftBeforeGood();
    DriftMutation();
    DriftScores();
    var individual := FromSeq(DriftBefore);
    var best := individual;
    recorded := Score(best[..], DriftProblem);
    var child := individual;
    Mutate(child, DriftSessions, MutationDraw(true, 0, 0));
    current := Score(best[..], DriftProblem);
  }
}
