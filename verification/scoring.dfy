/** The cost of seating a teacher in a room. */
module Scoring {
  import opened Roster

  function Max(a: int, b: int): int
  {
    if a >= b then a else b
  }

  /** The default validity policy: every teacher may use every room. */
  predicate AlwaysValid(t: Teacher, room: Room)
  {
    true
  }

  /** Largest gap between a limit and a capacity for which a valid pair
      still costs less than the invalid sentinel: 10 * 429496729 + 3 < 2^32. */
  const SentinelSafeGap: int := 429_496_729

  /** A gap between a limit and a capacity below 2^48 keeps every matrix
      entry below 2^52: 10 * 2^48 + 3 < 2^52. */
  const FloatExactGap: int := 0x1_0000_0000_0000

  /** 2^53: every integer of smaller magnitude is a float64 exactly. */
  const FloatExactBound: int := 0x20_0000_0000_0000

  /** score_teacher_room_assignment: a pair the policy refuses costs the
      sentinel; otherwise every student over capacity costs ten, every empty
      seat costs one, and leaving last term's room costs three more. */
  function ScoreTeacherRoomAssignment(valid: (Teacher, Room) -> bool, t: Teacher, room: Room): (s: int)
    ensures s >= 0
    ensures !valid(t, room) ==> s == RoomAssignmentInvalid
    ensures valid(t, room) ==>
              s == Max(RoomCapacityExceededScalar * (t.studentLimit - room.capacity),
                       room.capacity - t.studentLimit)
                   + (if t.initialRoomNumber == room.number then 0 else RoomSwitchCost)
    ensures s == 0 <==>
              valid(t, room) && t.studentLimit == room.capacity && t.initialRoomNumber == room.number
    ensures valid(t, room) && -SentinelSafeGap <= t.studentLimit - room.capacity <= SentinelSafeGap ==>
              s < RoomAssignmentInvalid
  {
    if !valid(t, room) then RoomAssignmentInvalid
    else
      var fit :=
        if t.studentLimit > room.capacity then (t.studentLimit - room.capacity) * RoomCapacityExceededScalar
        else if t.studentLimit < room.capacity then room.capacity - t.studentLimit
        else 0;
      if t.initialRoomNumber != room.number then fit + RoomSwitchCost else fit
  }

  /** Under the shipped policy no pair is refused: a pair whose gap is
      within SentinelSafeGap always costs less than the sentinel. */
  lemma DefaultPolicyNeverRefuses(t: Teacher, room: Room)
    requires -SentinelSafeGap <= t.studentLimit - room.capacity <= SentinelSafeGap
    ensures ScoreTeacherRoomAssignment(AlwaysValid, t, room) < RoomAssignmentInvalid
  {
  }

  /** The search compares sums of two matrix entries held as float64. With
      every gap below 2^48 such a sum lies in [0, 2^53), where float64
      arithmetic is exact, so the integer model makes the same choice. */
  lemma PairSumExact(valid: (Teacher, Room) -> bool, t1: Teacher, room1: Room, t2: Teacher, room2: Room)
    requires -FloatExactGap < t1.studentLimit - room1.capacity < FloatExactGap
    requires -FloatExactGap < t2.studentLimit - room2.capacity < FloatExactGap
    ensures 0 <= ScoreTeacherRoomAssignment(valid, t1, room1) + ScoreTeacherRoomAssignment(valid, t2, room2)
               < FloatExactBound
  {
  }
}
