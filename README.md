# Exam timetabling core of ujiandsb.py

This project models the scheduling core of `ujiandsb.py`, a tool that builds a
university exam timetable in four stages, and proves properties of that model.

1. **Session assignment.** A genetic algorithm gives every course an exam
   session (day and time). No session may hold more than two courses. A
   fitness function scores each candidate timetable. Modules:
   `SlotSchedule`, `SlotFitness`, `SlotGenetic`.
2. **Room packing.** Each (day, time, course) group of students goes into
   rooms. Lab courses fill lab rooms first and then other rooms. Other
   courses fill the other rooms first and then the labs. Rooms are taken
   largest first. A room already used in that session is skipped. The
   packing is scored, and the best of five runs is kept. Module:
   `RoomPacking`.
3. **Supervisors.** Each exam row gets as many supervisors as its room asks
   for. They are drawn from instructors who are not yet supervising in that
   session, the course's own teachers first. Crossover and mutation of
   these assignments are modelled too. Module: `Supervision`.
4. **Reporting and allocation.**
   - `Tally` counts, per instructor and day, how often each one supervises.
   - `StudentAllocation` divides each room's head count among the course's
     class groups. A group whose remaining size equals the head count is
     used whole. Otherwise the largest groups are taken first.

Shared definitions live in `Common` (sessions, `Option`/`Result`, distinct
sequences, `Unique` for pandas `unique()`) and `Sorting` (a stable
insertion sort that stands for `sort_values(ascending=False)` and
`sorted(key=-x)`).

**Randomness.** Every random draw is a parameter.
- `random.choice(xs)` is `xs[pick % |xs|]`.
- `randint` crossover points are a finite sequence of cuts.
- `random.random() < rate` is a boolean in a draw record.
- `random.sample(pool, k)` is any `k` distinct elements of the pool (the
  `IsSample` predicate), chosen with `:|`.

**Mutable state.** The data the source updates in place is modelled as mutable state:
- the slot GA's individuals are `array<Gene>`s that `mutate` changes in place and that the population shares by reference;
- the supervisor book is the class `SupervisorBook`;
- the per-course remaining class sizes are the class `Ledger`.

**Points where the code decides, and the model follows the code:**
- The exact-match rule in `alokasi_mahasiswa` uses a class only when its remaining size equals the head count and is positive (ujiandsb.py:528). It does not require the class to be untouched.
- A timetable row whose course has no class entry is skipped (ujiandsb.py:518-519). It is not reported as an error.
- The comment at ujiandsb.py:108 speaks of "the same day", but the code counts exams per semester over the whole timetable (ujiandsb.py:101, 109-111). The model counts per semester.
- The slot search stores its best timetable by reference (ujiandsb.py:177-179), and a later in-place mutation can change it (see Findings). The supervisor search stores its best with `deepcopy` (ujiandsb.py:423), and the corrected slot search keeps an independent value in the same way.

## Model

| member | source | states |
|---|---|---|
| Common.Unique | ujiandsb.py:93-94 | `unique()` returns each element of its input exactly once and nothing else |
| Sorting.SortDesc | ujiandsb.py:245-246 | sorting by capacity, largest first, returns a permutation of the rooms in non-increasing key order |
| Sorting.SortDescStable | ujiandsb.py:540 | the sort is stable: for each key value, the elements with that key keep their input order |
| SlotSchedule.IsValidSchedule | ujiandsb.py:133-144 | true exactly when no session holds more than two genes; the early `return False` at the first overfull slot agrees with this whole-timetable condition |
| SlotSchedule.CountSessions | ujiandsb.py:152-156 | for every listed session, the count equals the number of genes in that session |
| SlotSchedule.UnderCap | ujiandsb.py:159-160 | the valid sessions are exactly the listed sessions holding fewer than two genes |
| SlotSchedule.FreeSessions | ujiandsb.py:159-160 | the loop's list of sessions under the cap equals `UnderCap` |
| SlotSchedule.UnderCapAllFree | ujiandsb.py:77-78 | on an empty individual every listed session is valid |
| SlotSchedule.WithinCapEverySession | ujiandsb.py:141-142 | a valid timetable puts at most two genes in any session |
| SlotSchedule.CapBound | ujiandsb.py:77-81 | a valid timetable over sessions S has at most 2·\|S\| genes |
| SlotSchedule.FullBound | ujiandsb.py:77-81 | an individual with no session under the cap has at least 2·\|S\| genes |
| SlotSchedule.GenerateIndividual | ujiandsb.py:71-87 | the individual is the one the picks grow (`Grown`): one gene per course, each in a listed session, none over the cap; it fails (the empty `random.choice`) exactly when there are more courses than twice the distinct sessions |
| SlotSchedule.GenerateInitialPopulation | ujiandsb.py:67-89 | 50 individuals, each the one its picks grow and valid, with the same failure condition |
| SlotSchedule.GrownStaysNone | ujiandsb.py:77-81 | once a course finds no session under the cap, growing the rest of the sheet fails too |
| SlotSchedule.GrownAllSnoc | ujiandsb.py:67-89 | the population grown from one more pick list is the old one plus that list's individual |
| SlotSchedule.Mutated | ujiandsb.py:148-165 | only gene `idx` changes; it keeps its course and semester, and its new session is one of the sessions under the cap; with no such session nothing changes |
| SlotSchedule.MutatedKeepsGood | ujiandsb.py:146-165 | mutation keeps an individual valid and within its course sheet |
| SlotSchedule.Mutate | ujiandsb.py:146-165 | the array becomes `Mutated` of its old contents when the draw fires, and is otherwise unchanged |
| SlotSchedule.Splice | ujiandsb.py:126-127 | position i comes from the first parent before the cut and from the second from the cut on |
| SlotSchedule.Crossover | ujiandsb.py:125-131 | children are returned exactly when both splices are valid; each position of each child comes from one parent |
| SlotSchedule.CrossoverKeepsGood | ujiandsb.py:126-131 | the children of valid parents are valid and keep the course sheet |
| SlotSchedule.SpliceFits | ujiandsb.py:126-127 | a splice of two parents for the same courses keeps each gene's course and stays in the listed sessions |
| SlotSchedule.CrossoverConservesGenes | ujiandsb.py:126-127 | the two children together hold exactly the parents' genes (multiset) |
| SlotSchedule.CrossoverAtZero | ujiandsb.py:124-131 | cut 0 swaps the parents, so valid parents always yield children |
| SlotSchedule.FirstValid | ujiandsb.py:123-131 | children found by the retry loop have the parents' length |
| SlotSchedule.CrossoverUntilValid | ujiandsb.py:123-131 | the result is `FirstValid`: the children of the first cut whose splices are both valid; it is None exactly when no cut qualifies, which cannot happen for valid parents once 0 is among the cuts |
| SlotFitness.Excess | ujiandsb.py:110-116 | the penalty is zero exactly when the count is within the limit, and otherwise ten per unit over |
| SlotFitness.SemesterPenalty | ujiandsb.py:109-111 | zero exactly when no semester has more than two exams |
| SlotFitness.LabPenalty | ujiandsb.py:114-116 | zero exactly when no day has more lab exams than sessions |
| SlotFitness.SemesterPenaltyOverSheet | ujiandsb.py:93-111 | counting over the distinct semesters is penalty-free exactly when every row of the course sheet is within the limit |
| SlotFitness.LabPenaltyOverSheet | ujiandsb.py:94-116 | counting over the distinct days is penalty-free exactly when every session's day is within its lab limit |
| SlotFitness.CountValuesSize | ujiandsb.py:119 | the distinct count values number between 1 and the number of semesters, and exactly 1 when all counts are equal |
| SlotFitness.BalanceBonus | ujiandsb.py:119 | the bonus is non-negative and below the number of distinct semesters; when every semester has the same count it is one less than that number |
| SlotFitness.FitnessFunction | ujiandsb.py:91-121 | fitness never exceeds the balance bonus, and equals it exactly when both penalty conditions hold |
| SlotGenetic.Scores | ujiandsb.py:173 | one score per individual |
| SlotGenetic.FittestIndex | ujiandsb.py:173-177 | the index of a highest score, the first such one (what the stable descending sort puts first) |
| SlotGenetic.MutatedBy | ujiandsb.py:191-192 | a child keeps its length whether the mutation draw fires or not |
| SlotGenetic.Unshared | ujiandsb.py:168 | a freshly generated population shares no object: member i is object i |
| SlotGenetic.Members | ujiandsb.py:182-196 | member i of a population is the contents of the object it refers to |
| SlotGenetic.PairStep | ujiandsb.py:184-192 | one breeding step keeps every object's length and adds none unless it crosses; the two children refer to objects of the new store |
| SlotGenetic.PairStepCross | ujiandsb.py:186-192 | with crossover the step appends the two mutated `FirstValid` children as new objects |
| SlotGenetic.PairStepKeep | ujiandsb.py:189-192 | without crossover the step mutates the parent objects in place, the second draw after the first |
| SlotGenetic.SameParentTwice | ujiandsb.py:184-192 | when both `random.choice` draws pick one parent and there is no crossover, both children are that one object, mutated twice |
| SlotGenetic.Bred | ujiandsb.py:182-196 | breeding over a list of draws yields two children per draw, all referring to objects of the store |
| SlotGenetic.NextHerd | ujiandsb.py:182-196 | the next population has two members per draw and stays well formed |
| SlotGenetic.BredStaysNone | ujiandsb.py:184-188 | once a draw runs out of cuts the whole generation fails |
| SlotGenetic.CrossPair | ujiandsb.py:186-192 | the crossover branch: fresh valid children, matching `PairStep` |
| SlotGenetic.KeepPair | ujiandsb.py:189-192 | the no-crossover branch: the parents themselves, mutated in place, matching `PairStep` |
| SlotGenetic.NewPair | ujiandsb.py:186-192 | two fresh arrays holding the mutated children, added to the tracked objects |
| SlotGenetic.MutateHeld | ujiandsb.py:191-192 | mutating a tracked object replaces its stored contents by `MutatedBy` and nothing else |
| SlotGenetic.BreedStep | ujiandsb.py:183-196 | one pass of the breeding loop extends the new population as `Bred` does for one more draw |
| SlotGenetic.BreedPair | ujiandsb.py:184-192 | two valid children, the parent arrays themselves (no crossover) or fresh ones; the contents of every object afterwards are `PairStep` of the contents before, so a parent drawn twice is one object mutated by both draws; it fails only when the finite cuts run out |
| SlotGenetic.CrossChildren | ujiandsb.py:186-187 | the crossover retry loop returns `FirstValid` of the parents, and its children are valid |
| SlotGenetic.MutateTracked | ujiandsb.py:191-192 | the child's new contents are `MutatedBy` of its old ones; it and every individual of the population stay valid, aliasing included |
| SlotGenetic.Breed | ujiandsb.py:182-196 | the new population succeeds exactly when `NextHerd` does; its arrays then point into objects whose contents are `NextHerd`'s store, two per draw, all valid, each a parent or fresh |
| SlotGenetic.InitialPopulation | ujiandsb.py:168 | 50 fresh valid arrays holding the individuals the picks grow (`GrownAll`), no two shared, with the same failure condition as generation |
| SlotGenetic.HeldGood | ujiandsb.py:168 | arrays holding valid individuals form a valid unshared population |
| SlotGenetic.Evaluate | ujiandsb.py:173-177 | scores match the individuals, and `top` is the first highest score, the one the stable descending sort puts first |
| SlotGenetic.GeneticAlgorithm | ujiandsb.py:167-198 | the source's loop: the stored best is a reference to a population array, so only validity survives; it fails for infeasible sheets exactly |
| SlotGenetic.GeneticAlgorithmElitist | ujiandsb.py:167-198 | corrected loop: the generations are the ones the picks and draws produce (`Evolution`); on success the returned timetable is the first best-scoring individual over every generation seen, and all of them are valid |
| SlotGenetic.Search | ujiandsb.py:170-198 | the generation loop: `Evolution` of the draws, and on success the first best over everything seen |
| SlotGenetic.Generation | ujiandsb.py:171-196 | one generation extends the evolution by one population and keeps the first best over all seen |
| SlotGenetic.SearchedAll | ujiandsb.py:170-198 | after the last generation the loop state gives the search's result |
| SlotGenetic.Record | ujiandsb.py:173-179 | the stored best becomes the first best of everything seen, the new population included |
| SlotGenetic.Promote | ujiandsb.py:177-179 | a new best replaces the stored one only when it scores strictly higher, keeping the first maximum |
| SlotGenetic.FirstMaxGrows | ujiandsb.py:177-179 | the first maximum of a joined score list is the old one unless the new top is strictly higher |
| SlotGenetic.ScoresAppend | ujiandsb.py:173 | scoring two lists together is scoring each |
| SlotGenetic.EvolutionGrows | ujiandsb.py:170-196 | a population bred from the last one extends the evolution |
| SlotGenetic.SeenSnoc | ujiandsb.py:170-196 | the individuals seen grow by the members of each new population |
| SlotGenetic.DriftBeforeGood | ujiandsb.py:177-192 | the drift example's stored best is a valid timetable |
| SlotGenetic.DriftMutation | ujiandsb.py:177-192 | mutating its first gene moves it to a different session, giving the drift example's other timetable |
| SlotGenetic.DriftScores | ujiandsb.py:177-192 | that mutation changes its fitness from 0 to -10 |
| SlotGenetic.StoredBestDrifts | ujiandsb.py:177-192 | the recorded best fitness stays 0 while the stored array now scores -10 |
| RoomPacking.Partition | ujiandsb.py:245-246 | the lab (or non-lab) list holds exactly the rooms with (without) `Lab == 'y'` |
| RoomPacking.PartitionSplits | ujiandsb.py:245-246 | the two lists together are a permutation of the room sheet |
| RoomPacking.BookedMeans | ujiandsb.py:263-265 | a room is booked exactly when some earlier row uses it on that day and time |
| RoomPacking.BookedOther | ujiandsb.py:263-265 | rows in other rooms do not change whether a room is booked |
| RoomPacking.Open | ujiandsb.py:258-265 | the rooms a pass can use are rooms of the list, unbooked in the session, with seats |
| RoomPacking.OpenUnaffected | ujiandsb.py:263-265 | rows in other rooms leave a list's open rooms as they were |
| RoomPacking.OpenSorted | ujiandsb.py:245-246 | the open rooms of a list sorted by capacity are sorted too |
| RoomPacking.OpenLargestFirst | ujiandsb.py:245-246 | the open rooms of both lists are largest first |
| RoomPacking.FillRooms | ujiandsb.py:258-274 | the room loop equals the functional `Fill` |
| RoomPacking.FillShape | ujiandsb.py:267-274 | every appended row is in the group's session, uses one of the list's rooms, seats a positive count within capacity |
| RoomPacking.FillAccounts | ujiandsb.py:270-271 | the appended rows seat exactly the students taken off `remaining` |
| RoomPacking.FillPlaces | ujiandsb.py:258-274 | one pass seats min(students, free capacity of the list's unbooked rooms) |
| RoomPacking.FillInOrder | ujiandsb.py:258-274 | a pass fills the open rooms in list order, one row each, and uses all of them when students remain |
| RoomPacking.FillFullRows | ujiandsb.py:270-274 | every appended row but the last is full, and all are full if students remain |
| RoomPacking.FillNoClash | ujiandsb.py:263-265 | a pass never books a room twice in one session |
| RoomPacking.FillSound | ujiandsb.py:258-274 | a pass keeps the schedule clash-free with every row within capacity |
| RoomPacking.OnePass | ujiandsb.py:257-277 | when the first list suffices, its pass alone places the group |
| RoomPacking.TwoPassRows | ujiandsb.py:257-294 | first-pass rows are full and in the first list; second-pass rows follow, in the second list, full except the last |
| RoomPacking.FirstPass | ujiandsb.py:257-275 | the first pass seats min(students, free capacity of the first list); its rows sit in the list's open rooms in list order, one each, and use them all when students remain |
| RoomPacking.SecondPass | ujiandsb.py:277-294 | the overflow pass seats min(what is left, free capacity of the second list before the group), since the first pass used none of its rooms; its rows follow that list's open rooms in order |
| RoomPacking.TwoPasses | ujiandsb.py:257-294 | after both passes the group is placed in the required order (`GroupPlaced`) |
| RoomPacking.PackGroupPlaces | ujiandsb.py:251-334 | each group keeps earlier rows and seats min(students, free capacity); its rows fill the open rooms of its preferred list in list order (largest first), then the other list's in order; every added row is in the group's own session and course |
| RoomPacking.PackGroupShape | ujiandsb.py:267-294 | every row either pass adds carries the group's day, time and course and seats 0 < count <= capacity |
| RoomPacking.GenerateSchedule | ujiandsb.py:241-336 | the loop over groups equals the functional `Packing` |
| RoomPacking.PackingSound | ujiandsb.py:241-336 | the finished schedule books no room twice in a session and no row over capacity |
| RoomPacking.PackingExample | ujiandsb.py:252-294 | 40 lab students with a 30-seat lab and a 20-seat room give rows of 30 and 10 |
| RoomPacking.ExampleLists | ujiandsb.py:245-246 | the example's lab list puts the 30-seat lab before the 20-seat one |
| RoomPacking.LargestFirstExample | ujiandsb.py:245-274 | 25 students with labs of 30 and 20 seats go into the 30-seat lab alone |
| RoomPacking.FitnessBound | ujiandsb.py:215-238 | the score is at most the lab seats used, and equals them exactly when every room is full and no lab course sits outside a lab |
| RoomPacking.BestOfFive | ujiandsb.py:345-352 | the kept schedule is the packing and its score is its fitness |
| Supervision.Need | ujiandsb.py:377 | there is no count exactly when the room is not on the sheet |
| Supervision.NeedFirst | ujiandsb.py:377 | `values[0]`: the first sheet row with the room's name decides |
| Supervision.Free | ujiandsb.py:381 | candidates are exactly the instructors (not) teaching the course and not yet busy in the session |
| Supervision.FreeDistinct | ujiandsb.py:381 | the candidate list has no repeats |
| Supervision.Pool | ujiandsb.py:381-385 | teachers come first; others are added only when teachers are fewer than needed |
| Supervision.PoolDistinct | ujiandsb.py:381-385 | the pool has no repeats |
| Supervision.FreeCount | ujiandsb.py:381-385 | the two candidate lists together cover every free instructor |
| Supervision.PoolLargeEnough | ujiandsb.py:384-388 | the sample is possible exactly when the needed count plus the busy ones does not exceed the instructors |
| Supervision.SampleFacts | ujiandsb.py:381-388 | picked supervisors are known, not busy, distinct from the busy ones, and all teachers when teachers suffice |
| Supervision.SupervisorBook.constructor | ujiandsb.py:367 | the book starts empty |
| Supervision.SupervisorBook.Assign | ujiandsb.py:373-393 | an unknown room and a too-small pool are errors that leave the book alone; otherwise the picks are a sample of the pool and are appended to the session's list |
| Supervision.AssignAll | ujiandsb.py:364-371 | succeeds exactly when every room is known and no session needs more supervisors than there are instructors, and then every row is staffed and no one supervises twice in a session |
| Supervision.OwnTeachers | ujiandsb.py:373-393 | on the two-course example `OwnRows` (one supervisor per room, "A" teaching the first course and "B" the second), every possible draw gives each course its own teacher and the session has no clash |
| Supervision.CrossoverRows | ujiandsb.py:443-450 | the children swap the supervisor column from the cut on |
| Supervision.CrossoverStaffed | ujiandsb.py:443-450 | crossover keeps every row staffed |
| Supervision.CrossoverClash | ujiandsb.py:443-450 | crossover can break session exclusivity: two exclusive parents give a child with one instructor in two rooms |
| Supervision.MutateRow | ujiandsb.py:452-459 | as written: a copy with one row redrawn against an empty book |
| Supervision.MutationClash | ujiandsb.py:452-459 | that redraw can double-book an instructor |
| Supervision.TwoRowsAssigned | ujiandsb.py:364-393 | with one supervisor per row, the only samples for the two-row example are A for row 1 and then B for row 2, so the clash example starts from an assignment `assign_pengawas` can produce |
| Supervision.MutateRowExclusive | ujiandsb.py:452-459 | corrected: redraw against the session's other rows, keeping exclusivity |
| Tally.Occ | ujiandsb.py:472-474 | a name occurs zero times exactly when it is absent |
| Tally.DayCountAbsent | ujiandsb.py:466 | a day with no exam gets count zero |
| Tally.BumpCells | ujiandsb.py:473-474 | one increment adds one to the single (instructor, day) cell only |
| Tally.BumpedCells | ujiandsb.py:473-474 | a row adds its occurrences of each instructor to that day's cell |
| Tally.AddRow | ujiandsb.py:471-474 | the inner loop equals `Bumped` |
| Tally.Zero | ujiandsb.py:466 | the initial table has every instructor by every day |
| Tally.DaysOfRows | ujiandsb.py:466 | the distinct days are exactly the days of the rows |
| Tally.TableCells | ujiandsb.py:466-474 | every cell is the number of times that instructor supervises on that day |
| Tally.CountTable | ujiandsb.py:466-474 | the row loop builds `Table` |
| Tally.ReportCells | ujiandsb.py:465-478 | the table has the right shape and its cells count supervisions |
| Tally.TallyTotal | ujiandsb.py:482 | summing a row's days gives the instructor's total number of supervisions |
| Tally.RowTotalSums | ujiandsb.py:482 | the row sum over the table equals the day sum of counts |
| Tally.Totals | ujiandsb.py:482 | one total per instructor row |
| Tally.ReportTotals | ujiandsb.py:482 | the `Total` column is each instructor's total supervisions |
| Tally.Report | ujiandsb.py:465-482 | shape, per-day counts and totals together |
| StudentAllocation.ExactMatch | ujiandsb.py:526-535 | the first class whose positive remaining size equals the head count, or none |
| StudentAllocation.FindExact | ujiandsb.py:527-535 | the loop with `break` finds `ExactMatch` |
| StudentAllocation.ExactWhole | ujiandsb.py:528-533 | an exact match places that class whole and zeroes it |
| StudentAllocation.Order | ujiandsb.py:540 | the sorted order refers only to existing classes |
| StudentAllocation.OrderPos | ujiandsb.py:540 | sorting keeps every class and its positive size |
| StudentAllocation.TakesTotal | ujiandsb.py:541-556 | the greedy pass takes min(head count, positive remaining) |
| StudentAllocation.TakesBound | ujiandsb.py:545-556 | no class gives more than it has left |
| StudentAllocation.Fill | ujiandsb.py:540-556 | the greedy loop produces the placements and remaining sizes of `RowTakes` |
| StudentAllocation.RowSeated | ujiandsb.py:521-556 | a row seats min(head count, students still waiting) |
| StudentAllocation.RowDrawsDown | ujiandsb.py:521-556 | each class keeps name and semester, loses exactly what it gave, and stays non-negative |
| StudentAllocation.RowKeepsNonNegative | ujiandsb.py:521-556 | remaining sizes never go negative |
| StudentAllocation.AbsentUntouched | ujiandsb.py:518-519 | a row whose course has no classes gets no placements (`None`); `AbsentKeepsLedger` shows it changes no class size |
| StudentAllocation.AbsentKeepsLedger | ujiandsb.py:518-519 | the remaining class sizes after such a row are exactly those before it |
| StudentAllocation.RunNonNegative | ujiandsb.py:513-559 | over the whole timetable remaining sizes stay non-negative |
| StudentAllocation.Ledger.AllocateRow | ujiandsb.py:513-559 | one row updates the ledger and yields placements as `Step` says |
| StudentAllocation.Ledger.AllocateAll | ujiandsb.py:513-561 | the whole loop follows `Run` |

## Left out

- The Streamlit interface, Excel reading and writing, and the pandas merges, column renames and deletions around the core are not modelled. They are I/O and table plumbing.
- Random generation itself is not modelled. Every draw is a parameter, and `random.sample` is any valid sample.
- `calculate_fitness` (ujiandsb.py:396-407) is not modelled. It is a float `1 / (1 + std)`.
- The supervisor genetic loop (ujiandsb.py:410-441) is not modelled, because it relies on that float score. The same goes for the fitness-weighted `random.choices` (ujiandsb.py:426). Its crossover and mutate are modelled.
- `fixed_schedule` (ujiandsb.py:343) is not modelled. It is computed and never used.
- The `', '.join` / `split(', ')` strings are not modelled. Supervisor and teacher lists are sequences, and the `"{semester}{kelas} ({n})"` labels are `Placement` records. The constant 'Gabungan' label is dropped.
- The index alignment of `Jumlah Mahasiswa` in `jadwal_lengkap` (ujiandsb.py:485) is not modelled. Each row's head count is taken as given.
- The tie order of pandas `sort_values` (quicksort by default) on equal capacities is not modelled. `Sorting.SortDesc` keeps equal keys in input order.
- Sessions missing from the session sheet are not modelled. The source's dictionaries would raise `KeyError` for them; the model takes every gene's session from the sheet.
- SlotSchedule.CrossoverUntilValid: the source retries forever; the model walks a finite sequence of cut points and returns None when they run out.
- SlotGenetic.BreedPair: it fails with `CutsExhausted` when the finite cuts run out, where the source would keep looping.
- SlotGenetic.WellFormed: requires a non-empty course sheet; the source's `randint(0, -1)` raises on it (ujiandsb.py:125, 149).
- RoomPacking.FillPlaces: requires distinct room names. The source skips a repeated name as already booked (ujiandsb.py:263-265); the model does not state the seat count for such a sheet.
- RoomPacking.TwoPasses: requires distinct room names, for the same reason.
- RoomPacking.PackGroupPlaces: requires distinct room names across both lists, for the same reason.
- Supervision.MutateRow: it requires a non-empty timetable (`idx < |rows|`). On an empty one the source's `randint(0, -1)` raises.
- StudentAllocation: class labels within a course are assumed distinct, as dictionary keys are in the source. Head counts are natural numbers.
- Supervision.RoomStaff: the `Jumlah Pengawas` count is a natural number. A negative count, on which `random.sample` raises `ValueError` (ujiandsb.py:377, 388), is not modelled.
- Supervision.CrossoverRows and Supervision.MutateRow: the model assumes that the chained writes `child1['Pengawas'].iloc[i] = ...` (ujiandsb.py:448-449) and `mutated_schedule['Pengawas'].iloc[mutate_idx] = ...` (ujiandsb.py:458) change the copied frames, as they do in pandas without copy-on-write. Under copy-on-write these writes would leave the copies unchanged.
- Tally.Report: the pandas transpose into a data frame is not modelled. The result is a map from instructor to a map from day to count.

## Findings

| source | as written | input that shows it | evidently intended | confidence | as-written member | corrected member |
|---|---|---|---|---|---|---|
| ujiandsb.py:177-192 | `best_individual` stores a reference to a population list, and `mutate` later changes that list in place when it is chosen as an un-crossed child | the drift example: a stored best with fitness 0 is mutated into a timetable scoring -10, while `best_fitness` still says 0 | return a timetable that scores the recorded best fitness (store a copy) | not executed | SlotGenetic.GeneticAlgorithm, SlotGenetic.StoredBestDrifts | SlotGenetic.GeneticAlgorithmElitist |
| ujiandsb.py:452-458 | `mutate` redraws one row's supervisors against a freshly built empty book | two rows in one session, supervised by A and B; redrawing row 2 may pick A | exclude the instructors already supervising in that session | not executed | Supervision.MutateRow, Supervision.MutationClash | Supervision.MutateRowExclusive |
