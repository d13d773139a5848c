/** The records every stage of the room-assignment pipeline reads and
    produces, the tuning constants, and the faults that abort a run.
 */
module Roster {

  /** The six grade levels, kindergarten through fifth grade. */
  const Kindergarten: int := 0
  const FirstGrade: int := 1
  const SecondGrade: int := 2
  const ThirdGrade: int := 3
  const FourthGrade: int := 4
  const FifthGrade: int := 5

  /** Largest permitted spread of student limits within a grade, per grade. */
  const DefaultTolerance: map<int, int> :=
    map[Kindergarten := 3, FirstGrade := 3, SecondGrade := 3,
        ThirdGrade := 3, FourthGrade := 3, FifthGrade := 3]

  /** Cost per student by which a teacher's limit exceeds a room's capacity. */
  const RoomCapacityExceededScalar: int := 10

  /** Cost of moving a teacher out of the room it had last term. */
  const RoomSwitchCost: int := 3

  /** Cost of a teacher/room pair the validity policy refuses (2^32). */
  const RoomAssignmentInvalid: int := 0x1_0000_0000

  datatype Option<T> = None | Some(value: T)

  /** A student only matters through the teacher it had last term. */
  datatype Student = Student(initialTeacherName: string)

  datatype Room = Room(number: int, capacity: int)

  datatype Teacher = Teacher(
    name: string,
    grade: int,
    initialStudentCount: int,
    studentLimit: int,
    initialRoomNumber: int,
    assignedRoom: Option<Room>)

  /** Why a run aborts. */
  datatype Fault =
      /** a student names a teacher that does not exist */
    | UnknownTeacher(name: string)
      /** a teacher's grade has no configured tolerance */
    | UnknownGrade(grade: int)
      /** the random draw has fewer than two positions to choose from */
    | NoSwapCandidates
      /** the final assignment overfills a room; carries the room's capacity */
    | OverCapacity(teacherName: string, roomCapacity: int)

  datatype Result<T> = Ok(value: T) | Err(fault: Fault)

  /** Every teacher field except the student limit is the same in both rosters. */
  predicate SameExceptLimits(a: seq<Teacher>, b: seq<Teacher>)
  {
    && |a| == |b|
    && forall i :: 0 <= i < |a| ==> a[i] == b[i].(studentLimit := a[i].studentLimit)
  }

  /** The configured tolerances allow the balancing loop to terminate. */
  predicate TolerancesPositive(tolerance: map<int, int>)
  {
    forall g :: g in tolerance ==> tolerance[g] >= 1
  }

  /** The shipped tolerance table covers every grade level and lets the
      balancing loop terminate. */
  lemma DefaultTolerancesPositive()
    ensures TolerancesPositive(DefaultTolerance)
    ensures forall g :: Kindergarten <= g <= FifthGrade ==> g in DefaultTolerance
  {
  }
}
