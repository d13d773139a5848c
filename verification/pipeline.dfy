/** assign_teachers_to_rooms: compute every teacher's student limit,
    even out the limits within each grade, then give every teacher a room.
    The first stage that fails aborts the run.
 */
module Pipeline {
  import opened Roster
  import opened Limits
  import opened Balance
  import opened RoomSearch
  import opened RoomOptimizer

  /** after is a roster the balancing loop can end with from before:
      only limits change, every grade keeps its total, every grade's spread
      is within its tolerance, and no limit leaves a range its grade
      started in. */
  ghost predicate Rebalanced(before: seq<Teacher>, after: seq<Teacher>, tolerance: map<int, int>)
  {
    && BalancesFrom(before, tolerance, 0, before, after)
    && SameExceptLimits(after, before)
    && (forall g :: GradeSum(after, g) == GradeSum(before, g))
    && (forall i :: 0 <= i < |before| ==>
          before[i].grade in tolerance && Settled(after, before[i].grade, tolerance[before[i].grade]))
    && forall g, lower, upper :: Bounded(before, g, lower, upper) ==> Bounded(after, g, lower, upper)
  }

  /** Two rosters whose teachers come from the same rooms in the same order. */
  predicate SameOrigins(a: seq<Teacher>, b: seq<Teacher>)
  {
    |a| == |b| && forall i :: 0 <= i < |a| ==> a[i].initialRoomNumber == b[i].initialRoomNumber
  }

  /** Well-formedness only looks at where the teachers come from. */
  lemma WellFormedByOrigins(a: seq<Teacher>, b: seq<Teacher>, rooms: seq<Room>)
    requires SameOrigins(a, b) && WellFormed(a, rooms)
    ensures WellFormed(b, rooms)
  {
    forall i, j | 0 <= i < j < |b|
      ensures b[i].initialRoomNumber != b[j].initialRoomNumber
    {
      assert a[i].initialRoomNumber != a[j].initialRoomNumber;
    }
    forall t | 0 <= t < |b|
      ensures HasRoom(rooms, b[t].initialRoomNumber)
    {
      assert a[t].initialRoomNumber == b[t].initialRoomNumber;
    }
  }

  /** Whether two teachers can start in their old rooms only looks at
      where the teachers come from. */
  lemma TwoStaysByOrigins(a: seq<Teacher>, b: seq<Teacher>, rooms: seq<Room>)
    requires SameOrigins(a, b)
    ensures TwoStays(a, rooms) <==> TwoStays(b, rooms)
  {
    assert forall s :: StartsIn(a, rooms, s) <==> StartsIn(b, rooms, s);
  }

  /** Well-formedness and the initial assignment only look at where the
      teachers come from. */
  lemma OriginsDecide(a: seq<Teacher>, b: seq<Teacher>, rooms: seq<Room>)
    requires SameOrigins(a, b)
    ensures WellFormed(a, rooms) <==> WellFormed(b, rooms)
    ensures TwoStays(a, rooms) <==> TwoStays(b, rooms)
  {
    if WellFormed(a, rooms) {
      WellFormedByOrigins(a, b, rooms);
    }
    if WellFormed(b, rooms) {
      WellFormedByOrigins(b, a, rooms);
    }
    TwoStaysByOrigins(a, b, rooms);
  }

  /** The grade of every teacher survives the limit calculation. */
  lemma LimitsKeepGrades(students: seq<Student>, teachers: seq<Teacher>, limited: seq<Teacher>)
    requires LimitsFromEnrolment(students, teachers, limited)
    ensures SameOrigins(teachers, limited)
    ensures forall i :: 0 <= i < |teachers| ==> limited[i].grade == teachers[i].grade && limited[i].name == teachers[i].name
  {
  }

  /** Installing the search's result only assigns rooms, and on a
      well-formed instance it seats every teacher in a room of its own. */
  lemma InstalledRunSeats(valid: (Teacher, Room) -> bool, teachers: seq<Teacher>, balanced: seq<Teacher>,
                          rooms: seq<Room>, draws: seq<Draw>, result: seq<Teacher>)
    requires SameOrigins(teachers, balanced)
    requires InstalledSearch(valid, balanced, rooms, draws, result)
    ensures forall t :: 0 <= t < |teachers| ==> result[t] == balanced[t].(assignedRoom := result[t].assignedRoom)
    ensures WellFormed(teachers, rooms) ==> SeatsEveryone(balanced, rooms, result)
  {
    var best := Searched(valid, balanced, rooms, draws);
    forall t | 0 <= t < |teachers|
      ensures result[t] == balanced[t].(assignedRoom := result[t].assignedRoom)
    {
      assert result[t] == Installed(balanced, rooms, best, t);
    }
    if WellFormed(teachers, rooms) {
      OriginsDecide(teachers, balanced, rooms);
      SearchedIsOutcome(valid, balanced, rooms, draws);
      BijectionSeatsEveryone(balanced, rooms, best, result);
    }
  }

  /** The run got past balancing with these limits and balanced limits,
      and the search's result for the balanced roster overfills a room:
      f names the first such slot's teacher and the room's capacity. */
  ghost predicate Overfilled(valid: (Teacher, Room) -> bool, students: seq<Student>, teachers: seq<Teacher>,
                             rooms: seq<Room>, tolerance: map<int, int>, draws: seq<Draw>, f: Fault)
  {
    exists limited: seq<Teacher>, balanced: seq<Teacher> ::
      && LimitsFromEnrolment(students, teachers, limited)
      && Rebalanced(limited, balanced, tolerance)
      && OverfillFault(valid, balanced, rooms, draws, f)
  }

  /** The run got past balancing with these limits and balanced limits,
      and result is the balanced roster with the search's result installed:
      only rooms are assigned, and on a well-formed instance every teacher
      sits in a room of its own that holds its students. */
  ghost predicate Completed(valid: (Teacher, Room) -> bool, students: seq<Student>, teachers: seq<Teacher>,
                            rooms: seq<Room>, tolerance: map<int, int>, draws: seq<Draw>, result: seq<Teacher>)
  {
    exists limited: seq<Teacher>, balanced: seq<Teacher> ::
      && LimitsFromEnrolment(students, teachers, limited)
      && Rebalanced(limited, balanced, tolerance)
      && InstalledSearch(valid, balanced, rooms, draws, result)
      && (forall t :: 0 <= t < |teachers| ==> result[t] == balanced[t].(assignedRoom := result[t].assignedRoom))
      && (WellFormed(teachers, rooms) ==> SeatsEveryone(balanced, rooms, result))
  }

  /** A successful room stage on limited and balanced rosters completes the run. */
  lemma CompletedBy(valid: (Teacher, Room) -> bool, students: seq<Student>, teachers: seq<Teacher>,
                    rooms: seq<Room>, tolerance: map<int, int>, draws: seq<Draw>,
                    limited: seq<Teacher>, balanced: seq<Teacher>, result: seq<Teacher>)
    requires LimitsFromEnrolment(students, teachers, limited) && Rebalanced(limited, balanced, tolerance)
    requires SameOrigins(teachers, balanced)
    requires InstalledSearch(valid, balanced, rooms, draws, result)
    ensures Completed(valid, students, teachers, rooms, tolerance, draws, result)
  {
    InstalledRunSeats(valid, teachers, balanced, rooms, draws, result);
  }

  /** The whole run. A student naming a missing teacher, a grade without a
      tolerance, an empty draw pool and an overfilled room each abort it,
      in that order of stages. The last two are decided by the search's
      own result for the balanced roster. */
  method AssignTeachersToRooms(valid: (Teacher, Room) -> bool, students: seq<Student>, teachers: seq<Teacher>,
                               rooms: seq<Room>, tolerance: map<int, int>, draws: seq<Draw>)
    returns (r: Result<seq<Teacher>>)
    requires TolerancesPositive(tolerance)
    ensures (r.Err? && r.fault.UnknownTeacher?) <==> SomeUnknownStudent(students, teachers)
    ensures r.Err? && r.fault.UnknownTeacher? ==>
              exists i :: FirstUnknownStudent(students, teachers, i)
                && r.fault == UnknownTeacher(students[i].initialTeacherName)
    ensures (r.Err? && r.fault.UnknownGrade?) <==>
              !SomeUnknownStudent(students, teachers) && exists i :: 0 <= i < |teachers| && teachers[i].grade !in tolerance
    ensures r.Err? && r.fault.UnknownGrade? ==>
              exists i :: 0 <= i < |teachers|
                && teachers[i].grade !in tolerance
                && (forall k :: 0 <= k < i ==> teachers[k].grade in tolerance)
                && r.fault == UnknownGrade(teachers[i].grade)
    ensures r == Err(NoSwapCandidates) <==>
              && !SomeUnknownStudent(students, teachers)
              && (forall i :: 0 <= i < |teachers| ==> teachers[i].grade in tolerance)
              && |draws| > 0 && !TwoStays(teachers, rooms)
    ensures r.Err? && r.fault.OverCapacity? ==> Overfilled(valid, students, teachers, rooms, tolerance, draws, r.fault)
    ensures r.Ok? ==> Completed(valid, students, teachers, rooms, tolerance, draws, r.value)
  {
    var limited := ComputeStudentLimits(students, teachers);
    if limited.Err? {
      return Err(limited.fault);
    }
    LimitsKeepGrades(students, teachers, limited.value);
    var balanced := AdjustGradeLevelImbalance(limited.value, tolerance);
    if balanced.Err? {
      return Err(balanced.fault);
    }
    assert SameOrigins(limited.value, balanced.value);
    OriginsDecide(teachers, limited.value, rooms);
    OriginsDecide(limited.value, balanced.value, rooms);
    assert Rebalanced(limited.value, balanced.value, tolerance);
    r := OptimizeRoomAssignments(valid, balanced.value, rooms, draws);
    if r.Err? && r.fault.OverCapacity? {
      assert r != Err(NoSwapCandidates);
      assert LimitsFromEnrolment(students, teachers, limited.value);
    } else if r.Ok? {
      CompletedBy(valid, students, teachers, rooms, tolerance, draws, limited.value, balanced.value, r.value);
    }
  }
}
