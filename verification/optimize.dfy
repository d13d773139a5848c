/** optimize_room_assignments end to end: build the matrix and the initial
    assignment, run the swap search, then install the rooms, refusing any
    room the final assignment overfills.
 */
module RoomOptimizer {
  import opened Roster
  import opened RoomSearch

  /** Every slot names an existing teacher and an existing room. */
  predicate Addresses(teachers: seq<Teacher>, rooms: seq<Room>, best: seq<Slot>)
  {
    forall k :: 0 <= k < |best| ==> best[k].teacher < |teachers| && best[k].room < |rooms|
  }

  /** The slot's teacher plans for more students than the room seats. */
  predicate Overfills(teachers: seq<Teacher>, rooms: seq<Room>, s: Slot)
    requires s.teacher < |teachers| && s.room < |rooms|
  {
    teachers[s.teacher].studentLimit > rooms[s.room].capacity
  }

  /** Slot k is the first of the assignment that overfills its room. */
  predicate FirstOverfill(teachers: seq<Teacher>, rooms: seq<Room>, best: seq<Slot>, k: int)
    requires Addresses(teachers, rooms, best)
  {
    && 0 <= k < |best|
    && Overfills(teachers, rooms, best[k])
    && forall j :: 0 <= j < k ==> !Overfills(teachers, rooms, best[j])
  }

  /** Some slot of the assignment overfills its room. */
  predicate SomeOverfill(teachers: seq<Teacher>, rooms: seq<Room>, best: seq<Slot>)
    requires Addresses(teachers, rooms, best)
  {
    exists k :: 0 <= k < |best| && Overfills(teachers, rooms, best[k])
  }

  /** The position of the last slot for teacher t, if any. */
  function LastFor(best: seq<Slot>, t: nat): (r: Option<nat>)
    ensures r.None? <==> forall k :: 0 <= k < |best| ==> best[k].teacher != t
    ensures r.Some? ==>
              && r.value < |best| && best[r.value].teacher == t
              && forall k :: r.value < k < |best| ==> best[k].teacher != t
  {
    if |best| == 0 then None
    else if best[|best| - 1].teacher == t then Some(|best| - 1)
    else LastFor(best[..|best| - 1], t)
  }

  /** Teacher t once the slots of best are installed in order: the last
      slot naming t decides its room; a teacher no slot names keeps its
      old assignment. */
  function Installed(teachers: seq<Teacher>, rooms: seq<Room>, best: seq<Slot>, t: nat): Teacher
    requires t < |teachers| && Addresses(teachers, rooms, best)
  {
    match LastFor(best, t)
    case None => teachers[t]
    case Some(k) => teachers[t].(assignedRoom := Some(rooms[best[k].room]))
  }

  /** Installing one more slot changes only the teacher it names. */
  lemma InstallStep(teachers: seq<Teacher>, rooms: seq<Room>, best: seq<Slot>, i: nat, t: nat)
    requires i < |best| && t < |teachers| && Addresses(teachers, rooms, best)
    ensures Addresses(teachers, rooms, best[..i]) && Addresses(teachers, rooms, best[..i + 1])
    ensures Installed(teachers, rooms, best[..i + 1], t)
            == if best[i].teacher == t then teachers[t].(assignedRoom := Some(rooms[best[i].room]))
               else Installed(teachers, rooms, best[..i], t)
  {
    assert best[..i + 1][..i] == best[..i];
  }

  /** current is the roster after installing the first i slots, none of
      which overfills its room. */
  ghost predicate InstalledUpTo(teachers: seq<Teacher>, rooms: seq<Room>, best: seq<Slot>, i: nat, current: seq<Teacher>)
    requires i <= |best| && Addresses(teachers, rooms, best)
  {
    && |current| == |teachers|
    && Addresses(teachers, rooms, best[..i])
    && (forall j :: 0 <= j < i ==> !Overfills(teachers, rooms, best[j]))
    && forall t :: 0 <= t < |teachers| ==> current[t] == Installed(teachers, rooms, best[..i], t)
  }

  /** Installing slot i, which fits its room. */
  method InstallNext(teachers: seq<Teacher>, rooms: seq<Room>, best: seq<Slot>, i: nat, current: seq<Teacher>)
    returns (next: seq<Teacher>)
    requires i < |best| && Addresses(teachers, rooms, best)
    requires InstalledUpTo(teachers, rooms, best, i, current)
    requires !Overfills(teachers, rooms, best[i])
    ensures InstalledUpTo(teachers, rooms, best, i + 1, next)
  {
    var s := best[i];
    forall t | 0 <= t < |teachers|
      ensures Installed(teachers, rooms, best[..i + 1], t)
              == if s.teacher == t then teachers[t].(assignedRoom := Some(rooms[s.room]))
                 else Installed(teachers, rooms, best[..i], t)
    {
      InstallStep(teachers, rooms, best, i, t);
    }
    next := current[s.teacher := current[s.teacher].(assignedRoom := Some(rooms[s.room]))];
  }

  /** The capacity check and installation loop of optimize_room_assignments:
      walk the assignment in order, fail on the first slot whose teacher
      plans for more students than the room seats, and otherwise give the
      teacher the room. */
  method AssignRooms(teachers: seq<Teacher>, rooms: seq<Room>, best: seq<Slot>)
    returns (r: Result<seq<Teacher>>)
    requires Addresses(teachers, rooms, best)
    ensures r.Err? <==> SomeOverfill(teachers, rooms, best)
    ensures r.Err? ==>
              exists k :: FirstOverfill(teachers, rooms, best, k)
                && r.fault == OverCapacity(teachers[best[k].teacher].name, rooms[best[k].room].capacity)
    ensures r.Ok? ==>
              && |r.value| == |teachers|
              && forall t :: 0 <= t < |teachers| ==> r.value[t] == Installed(teachers, rooms, best, t)
  {
    var current := teachers;
    for i := 0 to |best|
      invariant InstalledUpTo(teachers, rooms, best, i, current)
    {
      var s := best[i];
      if teachers[s.teacher].studentLimit > rooms[s.room].capacity {
        assert FirstOverfill(teachers, rooms, best, i);
        return Err(OverCapacity(teachers[s.teacher].name, rooms[s.room].capacity));
      }
      current := InstallNext(teachers, rooms, best, i, current);
    }
    assert best[..|best|] == best;
    return Ok(current);
  }

  /** On a one-to-one assignment, installation gives every teacher the
      room its own slot names and changes nothing else. */
  lemma InstalledOnBijection(teachers: seq<Teacher>, rooms: seq<Room>, best: seq<Slot>, t: nat)
    requires IsBijection(best, |teachers|) && |rooms| == |teachers| && t < |teachers|
    ensures Addresses(teachers, rooms, best)
    ensures Installed(teachers, rooms, best, t) == teachers[t].(assignedRoom := Some(rooms[best[t].room]))
  {
  }

  /** A roster and a room list the search can turn into a one-to-one
      assignment: as many rooms as teachers, no room number used twice, no
      two teachers coming from the same room, and every teacher's old room
      among the rooms. */
  predicate WellFormed(teachers: seq<Teacher>, rooms: seq<Room>)
  {
    && |teachers| == |rooms|
    && (forall i, j :: 0 <= i < j < |rooms| ==> rooms[i].number != rooms[j].number)
    && (forall i, j :: 0 <= i < j < |teachers| ==> teachers[i].initialRoomNumber != teachers[j].initialRoomNumber)
    && (forall t :: 0 <= t < |teachers| ==> HasRoom(rooms, teachers[t].initialRoomNumber))
  }

  /** Some room of the list carries the number. */
  predicate HasRoom(rooms: seq<Room>, number: int)
  {
    exists r :: 0 <= r < |rooms| && rooms[r].number == number
  }

  /** With distinct room numbers, the scan of row t keeps exactly the one
      room j that carries the teacher's old number, once it has passed j. */
  lemma {:induction false} RowStays(teachers: seq<Teacher>, rooms: seq<Room>, t: nat, j: nat, r: nat)
    requires forall i, i' :: 0 <= i < i' < |rooms| ==> rooms[i].number != rooms[i'].number
    requires t < |teachers| && j < |rooms| && r <= |rooms|
    requires rooms[j].number == teachers[t].initialRoomNumber
    ensures StaysBefore(teachers, rooms, t, r)
            == StaysBefore(teachers, rooms, t, 0) + (if j < r then [Slot(t, j)] else [])
  {
    if r > 0 {
      RowStays(teachers, rooms, t, j, r - 1);
      if r - 1 != j {
        assert !StartsIn(teachers, rooms, Slot(t, r - 1)) by {
          if r - 1 < j {
            assert rooms[r - 1].number != rooms[j].number;
          } else {
            assert rooms[j].number != rooms[r - 1].number;
          }
        }
      }
    }
  }

  /** a seats the first t teachers, in order, each in the room carrying
      its old room number. */
  predicate AtHome(teachers: seq<Teacher>, rooms: seq<Room>, a: seq<Slot>, t: nat)
    requires t <= |teachers|
  {
    && |a| == t
    && forall k :: 0 <= k < t ==>
         a[k].teacher == k && a[k].room < |rooms| && rooms[a[k].room].number == teachers[k].initialRoomNumber
  }

  /** Seating one more teacher in its old room extends a seating of the
      teachers before it. */
  lemma AtHomeStep(teachers: seq<Teacher>, rooms: seq<Room>, a: seq<Slot>, t: nat, j: nat)
    requires t < |teachers| && AtHome(teachers, rooms, a, t)
    requires j < |rooms| && rooms[j].number == teachers[t].initialRoomNumber
    ensures AtHome(teachers, rooms, a + [Slot(t, j)], t + 1)
  {
  }

  /** On a well-formed instance the first t rows keep one slot per teacher,
      in teacher order, each in the room with the teacher's old number. */
  lemma {:induction false} StaysAreHome(teachers: seq<Teacher>, rooms: seq<Room>, t: nat)
    requires WellFormed(teachers, rooms) && t <= |teachers|
    ensures AtHome(teachers, rooms, StaysBefore(teachers, rooms, t, 0), t)
  {
    if t > 0 {
      StaysAreHome(teachers, rooms, t - 1);
      assert HasRoom(rooms, teachers[t - 1].initialRoomNumber);
      var j :| 0 <= j < |rooms| && rooms[j].number == teachers[t - 1].initialRoomNumber;
      RowStays(teachers, rooms, t - 1, j, |rooms|);
      AtHomeStep(teachers, rooms, StaysBefore(teachers, rooms, t - 1, 0), t - 1, j);
      assert StaysBefore(teachers, rooms, t, 0) == StaysBefore(teachers, rooms, t - 1, |rooms|);
    }
  }

  /** On a well-formed instance the initial assignment is one-to-one: every
      teacher starts in its own old room. */
  lemma InitialIsBijection(teachers: seq<Teacher>, rooms: seq<Room>)
    requires WellFormed(teachers, rooms)
    ensures IsBijection(Stays(teachers, rooms), |teachers|)
  {
    var a := Stays(teachers, rooms);
    StaysAreHome(teachers, rooms, |teachers|);
    assert AtHome(teachers, rooms, a, |teachers|);
    forall k, l | 0 <= k < l < |teachers|
      ensures a[k].room != a[l].room
    {
      assert teachers[k].initialRoomNumber != teachers[l].initialRoomNumber;
    }
  }

  /** Two distinct pairs keep a teacher in a room numbered as last term's. */
  ghost predicate TwoStays(teachers: seq<Teacher>, rooms: seq<Room>)
  {
    exists p, q :: p != q && StartsIn(teachers, rooms, p) && StartsIn(teachers, rooms, q)
  }

  /** The initial assignment offers two positions to swap exactly when two
      distinct pairs keep a teacher in last term's room. */
  lemma TwoStaysIffTwoSlots(teachers: seq<Teacher>, rooms: seq<Room>, initial: seq<Slot>)
    requires forall k :: 0 <= k < |initial| ==> StartsIn(teachers, rooms, initial[k])
    requires forall t: nat, r: nat :: StartsIn(teachers, rooms, Slot(t, r)) ==> Slot(t, r) in initial
    requires forall k, l :: 0 <= k < l < |initial| ==> Precedes(initial[k], initial[l])
    ensures TwoStays(teachers, rooms) <==> |initial| >= 2
  {
    if |initial| >= 2 {
      assert Precedes(initial[0], initial[1]);
      assert initial[0] != initial[1];
      assert StartsIn(teachers, rooms, initial[0]) && StartsIn(teachers, rooms, initial[1]);
    }
    if TwoStays(teachers, rooms) {
      var p, q :| p != q && StartsIn(teachers, rooms, p) && StartsIn(teachers, rooms, q);
      assert p == Slot(p.teacher, p.room) && q == Slot(q.teacher, q.room);
      assert p in initial && q in initial;
    }
  }

  /** The search can run: it makes no draw at all, or the initial
      assignment offers two positions to draw from. */
  predicate CanDraw(teachers: seq<Teacher>, rooms: seq<Room>, draws: seq<Draw>)
  {
    |draws| == 0 || |Stays(teachers, rooms)| >= 2
  }

  /** The assignment the swap search ends with for these draws. */
  function Searched(valid: (Teacher, Room) -> bool, teachers: seq<Teacher>, rooms: seq<Room>,
                    draws: seq<Draw>): (best: seq<Slot>)
    requires CanDraw(teachers, rooms, draws)
    ensures Addresses(teachers, rooms, best)
  {
    Climb(ScoreMatrix(valid, teachers, rooms), |rooms|, Stays(teachers, rooms), draws)
  }

  /** The search's result for these draws overfills a room, and f names
      the first such slot's teacher and that room's capacity. */
  ghost predicate OverfillFault(valid: (Teacher, Room) -> bool, teachers: seq<Teacher>, rooms: seq<Room>,
                                draws: seq<Draw>, f: Fault)
  {
    && CanDraw(teachers, rooms, draws)
    && var best := Searched(valid, teachers, rooms, draws);
       exists k :: FirstOverfill(teachers, rooms, best, k)
         && f == OverCapacity(teachers[best[k].teacher].name, rooms[best[k].room].capacity)
  }

  /** result is the roster with the search's result for these draws
      installed, and that result overfills no room. */
  ghost predicate InstalledSearch(valid: (Teacher, Room) -> bool, teachers: seq<Teacher>, rooms: seq<Room>,
                                  draws: seq<Draw>, result: seq<Teacher>)
  {
    && CanDraw(teachers, rooms, draws)
    && !SomeOverfill(teachers, rooms, Searched(valid, teachers, rooms, draws))
    && |result| == |teachers|
    && forall t :: 0 <= t < |teachers| ==> result[t] == Installed(teachers, rooms, Searched(valid, teachers, rooms, draws), t)
  }

  /** What the swap search hands to the capacity check: same teachers at
      the same positions as the initial assignment, the same rooms
      rearranged, and a total cost no higher than the initial one. */
  ghost predicate SearchOutcome(valid: (Teacher, Room) -> bool, teachers: seq<Teacher>, rooms: seq<Room>,
                                best: seq<Slot>)
  {
    var scores := ScoreMatrix(valid, teachers, rooms);
    var initial := Stays(teachers, rooms);
    && |best| == |initial| && InRange(scores, |rooms|, best)
    && (forall k :: 0 <= k < |best| ==> best[k].teacher == initial[k].teacher)
    && multiset(Rooms(best)) == multiset(Rooms(initial))
    && Addresses(teachers, rooms, best)
    && InRange(scores, |rooms|, initial)
    && TotalCost(scores, best) <= TotalCost(scores, initial)
    && (WellFormed(teachers, rooms) ==> IsBijection(best, |teachers|))
  }

  /** The search's result keeps the initial teachers and rooms, costs no
      more than the initial assignment, and is one-to-one on a
      well-formed instance. */
  lemma SearchedIsOutcome(valid: (Teacher, Room) -> bool, teachers: seq<Teacher>, rooms: seq<Room>, draws: seq<Draw>)
    requires CanDraw(teachers, rooms, draws)
    ensures SearchOutcome(valid, teachers, rooms, Searched(valid, teachers, rooms, draws))
  {
    var scores := ScoreMatrix(valid, teachers, rooms);
    var initial := Stays(teachers, rooms);
    ClimbKeeps(scores, |rooms|, initial, draws);
    if WellFormed(teachers, rooms) {
      InitialIsBijection(teachers, rooms);
    }
  }

  /** Every teacher holds a room of the list that seats its planned
      students, and nothing but the room assignment changed. */
  ghost predicate EachSeated(teachers: seq<Teacher>, rooms: seq<Room>, result: seq<Teacher>)
  {
    && |result| == |teachers|
    && forall t :: 0 <= t < |teachers| ==>
         && result[t] == teachers[t].(assignedRoom := result[t].assignedRoom)
         && result[t].assignedRoom.Some?
         && result[t].assignedRoom.value in rooms
         && teachers[t].studentLimit <= result[t].assignedRoom.value.capacity
  }

  /** No two teachers share a room. */
  predicate NoSharing(result: seq<Teacher>)
  {
    forall i, j :: 0 <= i < j < |result| ==> result[i].assignedRoom != result[j].assignedRoom
  }

  /** Every room of the list is some teacher's. */
  ghost predicate AllRoomsUsed(rooms: seq<Room>, result: seq<Teacher>)
  {
    forall k :: 0 <= k < |rooms| ==> exists t :: 0 <= t < |result| && result[t].assignedRoom == Some(rooms[k])
  }

  /** Every teacher sits in a room of its own that seats its students, and
      every room is used. */
  ghost predicate SeatsEveryone(teachers: seq<Teacher>, rooms: seq<Room>, result: seq<Teacher>)
  {
    EachSeated(teachers, rooms, result) && NoSharing(result) && AllRoomsUsed(rooms, result)
  }

  /** What installing a one-to-one assignment gives teacher t. */
  lemma SeatOf(teachers: seq<Teacher>, rooms: seq<Room>, best: seq<Slot>, result: seq<Teacher>, t: nat)
    requires WellFormed(teachers, rooms) && IsBijection(best, |teachers|)
    requires Addresses(teachers, rooms, best) && !SomeOverfill(teachers, rooms, best)
    requires |result| == |teachers| && t < |teachers|
    requires forall t :: 0 <= t < |teachers| ==> result[t] == Installed(teachers, rooms, best, t)
    ensures result[t] == teachers[t].(assignedRoom := Some(rooms[best[t].room]))
    ensures teachers[t].studentLimit <= rooms[best[t].room].capacity
  {
    InstalledOnBijection(teachers, rooms, best, t);
    assert !Overfills(teachers, rooms, best[t]);
  }

  /** Installing a one-to-one assignment that overfills nothing seats
      every teacher in a room of its own. */
  lemma BijectionSeatsEveryone(teachers: seq<Teacher>, rooms: seq<Room>, best: seq<Slot>, result: seq<Teacher>)
    requires WellFormed(teachers, rooms) && IsBijection(best, |teachers|)
    requires Addresses(teachers, rooms, best) && !SomeOverfill(teachers, rooms, best)
    requires |result| == |teachers|
    requires forall t :: 0 <= t < |teachers| ==> result[t] == Installed(teachers, rooms, best, t)
    ensures SeatsEveryone(teachers, rooms, result)
  {
    forall t | 0 <= t < |teachers|
      ensures result[t].assignedRoom == Some(rooms[best[t].room])
      ensures result[t] == teachers[t].(assignedRoom := result[t].assignedRoom)
      ensures rooms[best[t].room] in rooms
      ensures teachers[t].studentLimit <= rooms[best[t].room].capacity
    {
      SeatOf(teachers, rooms, best, result, t);
    }
    assert EachSeated(teachers, rooms, result);
    forall i, j | 0 <= i < j < |teachers|
      ensures result[i].assignedRoom != result[j].assignedRoom
    {
      var ri, rj := best[i].room, best[j].room;
      assert ri != rj;
      if ri < rj {
        assert rooms[ri].number != rooms[rj].number;
      } else {
        assert rooms[rj].number != rooms[ri].number;
      }
    }
    BijectionUsesEveryRoomOnce(best, |teachers|);
    forall k | 0 <= k < |rooms|
      ensures exists t :: 0 <= t < |result| && result[t].assignedRoom == Some(rooms[k])
    {
      assert k in Rooms(best);
      var t :| 0 <= t < |teachers| && Rooms(best)[t] == k;
      assert result[t].assignedRoom == Some(rooms[k]);
    }
  }

  /** optimize_room_assignments: the random search needs two positions to
      draw from whenever it runs at all; the installation step fails on the
      first room the search's result overfills; on success every teacher
      holds the room that result gives it. */
  method OptimizeRoomAssignments(valid: (Teacher, Room) -> bool, teachers: seq<Teacher>, rooms: seq<Room>,
                                 draws: seq<Draw>)
    returns (r: Result<seq<Teacher>>)
    ensures r == Err(NoSwapCandidates) <==> !CanDraw(teachers, rooms, draws)
    ensures r == Err(NoSwapCandidates) <==> |draws| > 0 && !TwoStays(teachers, rooms)
    ensures r.Err? && r != Err(NoSwapCandidates) <==>
              CanDraw(teachers, rooms, draws) && SomeOverfill(teachers, rooms, Searched(valid, teachers, rooms, draws))
    ensures r.Err? && r != Err(NoSwapCandidates) ==> OverfillFault(valid, teachers, rooms, draws, r.fault)
    ensures r.Ok? ==> InstalledSearch(valid, teachers, rooms, draws, r.value)
  {
    var scores, initial, initialScore := BuildScores(valid, teachers, rooms);
    TwoStaysIffTwoSlots(teachers, rooms, initial);
    if |draws| > 0 && |initial| < 2 {
      return Err(NoSwapCandidates);
    }
    var best := Search(scores, |rooms|, initial, draws);
    assert best == Searched(valid, teachers, rooms, draws);
    r := AssignRooms(teachers, rooms, best);
  }
}
