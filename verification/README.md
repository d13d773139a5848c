# Teacher room assignment, modelled in Dafny

The system plans hybrid-learning classrooms for an elementary school. A
run has three stages, and the first one that fails aborts it:

1. **Student limits.** Every student names the teacher they had last term.
   Each teacher's head count is raised by the students naming them. The
   teacher's student limit becomes half of that count, rounded up.
2. **Grade balancing.** Within each grade, one unit of limit at a time
   moves from a teacher with the largest limit to one with the smallest.
   This stops once the grade's spread is within its tolerance.
3. **Room assignment.** A cost matrix scores every (teacher, room) pair:
   - ten per student over capacity;
   - one per empty seat;
   - three for leaving last term's room;
   - 2^32 for a pair the validity policy refuses.

   The search starts from the assignment where every teacher keeps the
   room numbered as last term's. A random hill climb then repeatedly picks
   two positions and swaps their rooms when that lowers the pair's
   combined cost. Finally every teacher is given their room, unless some
   room would be overfilled.

## Modules

- `Roster` (`roster.dfy`) holds the records (`Student`, `Room`,
  `Teacher`), the tuning constants, `Option`, `Result`, and the `Fault`
  that aborts a run.
- `Limits` (`limits.dfy`) is the limit calculation. The name-keyed
  teacher dictionary is modelled as last-wins.
- `Balance` (`balance.dfy`) is grade balancing. A sum-of-squares measure
  proves that the loop terminates.
- `Scoring` (`scoring.dfy`) is the pair cost, with the validity policy as
  a parameter.
- `RoomSearch` (`search.dfy`) holds:
  - the cost matrix;
  - the initial assignment (`Stays`, a reference definition the loop is
    proved against);
  - the swap step, and `Climb`, the search as a function of the draws;
  - the facts about one-to-one assignments.
- `RoomOptimizer` (`optimize.dfy`) holds the capacity check and
  installation loop, and `optimize_room_assignments` as a whole.
- `Pipeline` (`pipeline.dfy`) is `assign_teachers_to_rooms`.

Faults: a student naming a missing teacher gives `UnknownTeacher`. A
grade with no tolerance gives `UnknownGrade`. A random draw over fewer
than two positions gives `NoSwapCandidates`. An overfilled room gives
`OverCapacity`.

Random numbers come in as a sequence of `Draw`s, one per search
iteration. Each draw holds two raw naturals. They are reduced into the
ranges the two `randint` calls use. `RoomSearch.EveryPairDrawable` shows
that every pair of distinct positions is some draw's pick, so a property
proved for all draw sequences holds for every sequence of swaps the
generator could propose.

## Model

| member | source | states |
|---|---|---|
| Limits.Lookup | hybridlearning/roomswap.py:41-46 | The lookup fails exactly when no teacher has the name. Otherwise it finds the teacher the dictionary keeps, which is the last one with that name. |
| Limits.HolderIsUnique | hybridlearning/roomswap.py:41-43 | At most one teacher holds a given name in the dictionary. |
| Limits.TallyIsMultiplicity | hybridlearning/roomswap.py:45-47 | A teacher's running tally over the first n students equals how often the name occurs among those students' teacher names. |
| Limits.EnrolledStep | hybridlearning/roomswap.py:45-47 | Counting one more student raises the count of exactly one teacher, the holder of that student's teacher name. |
| Limits.CountStep | hybridlearning/roomswap.py:45-47 | Bumping the holder's count keeps every teacher's count equal to its starting count plus the students routed to it so far. |
| Limits.CountStudents | hybridlearning/roomswap.py:45-47 | It fails exactly when some student names a missing teacher, and the error names the first such student's teacher. On success, each count is the starting count plus the students naming the teacher, and only the last teacher of a duplicated name gets students. |
| Limits.CeilHalf | hybridlearning/roomswap.py:50 | h is ceil(k/2) for every integer k, characterised by k <= 2h <= k+1. |
| Limits.ComputeStudentLimits | hybridlearning/roomswap.py:40-50 | It has the same fault as the tally. On success every teacher's count is updated, its limit is ceil(count/2), and no other field changes. |
| Balance.TransferConserves | hybridlearning/roomswap.py:68-69 | Moving one unit between two teachers of a grade keeps every grade's limit total. It changes no other field and no third teacher. |
| Balance.TransferShrinksSquares | hybridlearning/roomswap.py:60-69 | When the spread is at least two, a transfer strictly lowers the grade's sum of squared limits. This is why the loop ends. |
| Balance.TransferStaysInside | hybridlearning/roomswap.py:61-69 | A transfer from a largest to a smallest limit keeps every limit of the grade inside any range that held all of them before. |
| Balance.Extremes | hybridlearning/roomswap.py:61-63 | It returns a teacher holding the grade's smallest limit and one holding its largest. These are the first minimum and the last maximum in roster order, the two ends of a stable sort by limit. |
| Balance.ReachesBack | hybridlearning/roomswap.py:60-69 | A roster reached after one transfer from a largest to a smallest holder of an unsettled grade is reached from the roster before the transfer. |
| Balance.TrioStep | hybridlearning/roomswap.py:60-69 | From three limits whose first is the only largest and more than three above a smallest one, the loop's next step moves one unit from the first to a smallest holder, either one under a tie. |
| Balance.TenFourFourEndsAtEightFiveFive | hybridlearning/roomswap.py:60-69 | With tolerance 3, limits 10, 4 and 4 always end at 8, 5 and 5, whichever tie-break the sort makes. A roster such as 6, 6, 6, which keeps the total and the tolerance, is not a possible outcome. |
| Balance.BalanceGrade | hybridlearning/roomswap.py:60-69 | The result is a roster the loop reaches from the input under some choice of smallest and largest holders at each step. The loop ends with the grade's spread within tolerance. Other grades and all non-limit fields are unchanged. Every grade total is kept, and limits never leave the grade's original range. |
| Balance.UntouchedGrades | hybridlearning/roomswap.py:58-69 | Balancing one grade keeps every other grade settled and bounded. |
| Balance.BalanceNext | hybridlearning/roomswap.py:53-69 | Handling the next teacher balances its grade on the grade's first appearance. All grades seen so far stay settled, with their totals and ranges kept. |
| Balance.OnTrackStep | hybridlearning/roomswap.py:53-69 | Handling one more teacher, by balancing its grade on first appearance or passing it by, keeps every roster the outer loop can still end with among those it can end with from the start. |
| Balance.AdjustGradeLevelImbalance | hybridlearning/roomswap.py:52-69 | It fails exactly when some teacher's grade has no tolerance, naming the first such grade. On success the result is a roster the outer loop reaches, each grade balanced by some run of its loop in order of first appearance. Only limits change, every grade total is kept, every grade's spread is within its tolerance, and every limit stays in its grade's original range. |
| Roster.DefaultTolerancesPositive | hybridlearning/roomswap.py:24-31 | The shipped tolerance table covers all six grade levels and every tolerance is at least one, so it meets the run's precondition. |
| Scoring.DefaultPolicyNeverRefuses | hybridlearning/roomswap.py:73-91 | Under the shipped always-valid policy a pair whose gap is within 429496729 costs less than the invalid sentinel. |
| Scoring.PairSumExact | hybridlearning/roomswap.py:119-121 | When every gap between limit and capacity is below 2^48, each pair sum the search compares lies in [0, 2^53), where float64 arithmetic is exact. |
| Scoring.ScoreTeacherRoomAssignment | hybridlearning/roomswap.py:71-91 | A refused pair costs 2^32. Otherwise the cost is ten per student over capacity or one per empty seat, plus three when the room is not last term's. The cost is never negative, and it is zero exactly for a valid, exact-fit, same-room pair. A valid pair whose gap is under 429496729 costs less than the sentinel. |
| RoomSearch.BuildScores | hybridlearning/roomswap.py:94-106 | The matrix holds the score of every pair. The initial assignment holds exactly the pairs whose room number is the teacher's old room number, in teacher-then-room order. The initial score is that assignment's total cost. |
| RoomSearch.Stays | hybridlearning/roomswap.py:96-106 | Every slot of the initial assignment pairs a teacher with a room carrying last term's room number. |
| RoomSearch.ScanCell | hybridlearning/roomswap.py:100-106 | Scanning one cell keeps the collected slots equal to the reference initial assignment up to that cell, and the running score equal to their cost. |
| RoomSearch.SkipCell | hybridlearning/roomswap.py:104-106 | Skipping a cell that is not the teacher's old room keeps every kept slot before the scan point, with none missed. |
| RoomSearch.KeepCell | hybridlearning/roomswap.py:104-106 | Appending the teacher's old room keeps the slots complete and in scan order. |
| RoomSearch.ExchangeCost | hybridlearning/roomswap.py:117-123 | Swapping two positions' rooms changes the total cost by exactly the mutation minus the baseline. So the local comparison is the global one. |
| RoomSearch.ExchangePermutes | hybridlearning/roomswap.py:121-123 | A swap keeps the teacher at every position and the multiset of rooms. It touches no third position. |
| RoomSearch.SwapStep | hybridlearning/roomswap.py:117-123 | One iteration swaps exactly when that lowers the total cost. It changes the assignment exactly when the cost drops, and it never raises the cost. |
| RoomSearch.Pick | hybridlearning/roomswap.py:114-115 | A draw yields two distinct positions below n. |
| RoomSearch.EveryPairDrawable | hybridlearning/roomswap.py:114-115 | Every ordered pair of distinct positions is produced by some draw. |
| RoomSearch.ExchangeKeepsBijection | hybridlearning/roomswap.py:121-123 | Swapping two rooms keeps a one-to-one teacher-to-room assignment one-to-one. |
| RoomSearch.BijectionUsesEveryRoomOnce | hybridlearning/roomswap.py:108-123 | In a one-to-one assignment of n teachers to n rooms, every room is used by exactly one teacher. |
| RoomSearch.ClimbCommits | hybridlearning/roomswap.py:113-123 | Each draw's swap is committed exactly when it lowers the total cost of the assignment reached so far; otherwise that assignment is kept. |
| RoomSearch.SwapStepKeeps | hybridlearning/roomswap.py:117-123 | One swap attempt keeps every position's teacher and the multiset of rooms, and keeps a one-to-one assignment one-to-one. |
| RoomSearch.ClimbKeeps | hybridlearning/roomswap.py:108-123 | For every draw sequence, the search's result keeps every position's teacher and the multiset of rooms, costs no more than the start, and stays one-to-one if the start was. |
| RoomSearch.Search | hybridlearning/roomswap.py:108-123 | The loop returns exactly the climb over the given draws, so the result is a function of the draws. Teachers stay at their positions and the rooms are a rearrangement of the initial ones. The total cost is no higher than the initial cost, and a one-to-one assignment stays one-to-one. |
| RoomOptimizer.LastFor | hybridlearning/roomswap.py:127-133 | It finds the last slot naming a teacher, or reports that no slot does. |
| RoomOptimizer.InstallStep | hybridlearning/roomswap.py:127-133 | Installing one more slot changes only the teacher that slot names. |
| RoomOptimizer.InstallNext | hybridlearning/roomswap.py:127-133 | Installing a slot that fits keeps the roster equal to the slots installed so far. |
| RoomOptimizer.AssignRooms | hybridlearning/roomswap.py:125-133 | It fails exactly when some slot's teacher plans for more students than the room seats. The error names the first such slot's teacher and that room's capacity. Otherwise each teacher gets the room of the last slot naming it, and nothing else changes. |
| RoomOptimizer.InstalledOnBijection | hybridlearning/roomswap.py:127-133 | On a one-to-one assignment every teacher ends up in the room of its own slot. |
| RoomOptimizer.RowStays | hybridlearning/roomswap.py:100-106 | With distinct room numbers, scanning a teacher's row keeps exactly the one room carrying its old number. |
| RoomOptimizer.StaysAreHome | hybridlearning/roomswap.py:98-106 | On a well-formed instance the initial assignment has one slot per teacher, in order, each in the room numbered as that teacher's old room. |
| RoomOptimizer.InitialIsBijection | hybridlearning/roomswap.py:96-106 | On a well-formed instance the initial assignment is one-to-one. |
| RoomOptimizer.TwoStaysIffTwoSlots | hybridlearning/roomswap.py:112-115 | The initial assignment has two positions to draw from exactly when two distinct pairs keep a teacher in last term's room. |
| RoomOptimizer.SeatOf | hybridlearning/roomswap.py:127-133 | Installing a one-to-one assignment that overfills nothing gives each teacher its own slot's room, and that room seats the teacher's students. |
| RoomOptimizer.BijectionSeatsEveryone | hybridlearning/roomswap.py:125-133 | Such an installation seats every teacher in a room that holds its students. No two teachers share a room, and every room is used. |
| RoomOptimizer.SearchedIsOutcome | hybridlearning/roomswap.py:93-123 | The search's result for the initial assignment keeps its teachers and rooms, costs no more, and is one-to-one on a well-formed instance. |
| RoomOptimizer.OptimizeRoomAssignments | hybridlearning/roomswap.py:93-133 | It reports `NoSwapCandidates` exactly when draws are requested but the initial assignment has fewer than two slots. Otherwise it fails exactly when the search's own result for the given draws overfills a room, naming the first such slot's teacher and room capacity. On success it installs that same result. |
| Pipeline.LimitsKeepGrades | hybridlearning/roomswap.py:49-50 | Computing limits changes no teacher's name, grade or old room. |
| Pipeline.WellFormedByOrigins | hybridlearning/roomswap.py:35-38 | Whether an instance is well formed depends only on where the teachers come from, which no stage changes. |
| Pipeline.TwoStaysByOrigins | hybridlearning/roomswap.py:35-38 | Whether two teachers can start in their old rooms depends only on where the teachers come from. |
| Pipeline.OriginsDecide | hybridlearning/roomswap.py:35-38 | Rosters with the same origins agree on well-formedness and on the draw-pool condition. |
| Pipeline.InstalledRunSeats | hybridlearning/roomswap.py:125-133 | Installing the search's result only assigns rooms. On a well-formed instance it seats every teacher in a distinct room that holds its students, and uses every room. |
| Pipeline.CompletedBy | hybridlearning/roomswap.py:35-38 | A successful room stage after the limit and balancing stages completes the run: the result is the balanced roster with the search's result installed. |
| Pipeline.AssignTeachersToRooms | hybridlearning/roomswap.py:35-38 | A missing teacher, a missing tolerance and an empty draw pool each abort the run exactly under their stage's condition, in stage order. The first two name the first unknown student's teacher and the first teacher's grade without a tolerance. An over-capacity fault names the first overfilled slot of the search's result for a roster the limit stage computes and some run of the balancing loop reaches from it. Such a roster keeps every grade's total, spread within tolerance and limits in range. A successful run installs that search result on the balanced roster, assigning only rooms. On a well-formed instance every teacher is seated in a distinct room that holds its students. |

## Left out

- The random generator (Mersenne Twister seeded with 42) is replaced by a caller-supplied sequence of draws. The model does not fix which sequence seed 42 produces.
- The iteration budget (2^25) is the length of the draw sequence. Nothing fixes that length.
- RoomSearch.BuildScores: the cost matrix is numpy float64 in the source and integer here. The model agrees with the source only while every gap between a limit and a capacity is below 2^48. Then every entry is below 2^52, and every two-entry sum compared at line 121 is below 2^53 and exact (`Scoring.PairSumExact`). The float total `initial_score` is never read. Larger gaps, where float rounding could change which swaps are taken, are not modelled.
- Limits.ComputeStudentLimits: the source rounds up the float quotient `count/2`. The model's integer ceiling agrees with it while the count stays below 2^53 in magnitude. Larger counts are not modelled.
- The unused `best_score` variable is not modelled. It is set once and never read.
- In-place mutation of the teacher objects becomes a returned roster. When a stage raises, the source leaves earlier teachers partly updated; the model returns only the fault.
- `teacher_room_assignment_is_valid` is the `valid` parameter. `Scoring.AlwaysValid` is the source's always-true policy.
- The tolerance table is a parameter, and `TolerancesPositive` requires every tolerance to be at least one. With tolerance zero the source loops forever once a grade's spread is one, so that configuration is not modelled.
- Balance.BalanceGrade: the source re-sorts the grade stably on every iteration, so under ties its choice of minimum and maximum depends on the previous iteration's order. The model always takes the first minimum and last maximum in roster order. Its contract (`Reaches`) allows any choice of extreme holders at every step, so the source's run is one of the runs it covers. Individual limits may still differ from the source's under ties.
- Pipeline.AssignTeachersToRooms: the over-capacity fault and the successful result are stated for the computed limits and for some roster a run of the balancing loop reaches from them. The run may make any choice of extreme holders at each step, and the source's run is one of these. The balanced roster is not pinned further because the source's tie-break depends on its sort order (see Balance.BalanceGrade).
- Pipeline.AssignTeachersToRooms: seating every teacher in a distinct room is proved only for well-formed instances. These have as many rooms as teachers, distinct room numbers, distinct old rooms, and every old room present. The source does not validate this. On other inputs the model follows the code: a teacher with no matching room gets no slot and keeps its previous assignment.
- RoomOptimizer.AssignRooms: the over-capacity error carries the room's capacity, as the code formats it, not the room's number.
- `ValueError` from `randint` when fewer than two positions can be drawn is modelled as the `NoSwapCandidates` fault.
