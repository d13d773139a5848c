/** The room search: a cost matrix over (teacher, room), the assignment
    where every teacher keeps last term's room, and a random pairwise-swap
    hill climb.
 */
module RoomSearch {
  import opened Roster
  import opened Scoring

  /** One position of the assignment: a teacher index and a room index. */
  datatype Slot = Slot(teacher: nat, room: nat)

  /** The two raw random values one search iteration consumes. The first
      picks a position, the second a nonzero offset to the other one. */
  datatype Draw = Draw(first: nat, offset: nat)

  /** Every slot names an existing cell of the (possibly ragged) matrix. */
  predicate Within(scores: seq<seq<int>>, a: seq<Slot>)
  {
    forall k :: 0 <= k < |a| ==> a[k].teacher < |scores| && a[k].room < |scores[a[k].teacher]|
  }

  /** Every row of the matrix has one entry per room. */
  predicate Rectangular(scores: seq<seq<int>>, rooms: nat)
  {
    forall t :: 0 <= t < |scores| ==> |scores[t]| == rooms
  }

  /** Every slot names an existing teacher row and room column. */
  predicate InRange(scores: seq<seq<int>>, rooms: nat, a: seq<Slot>)
  {
    forall k :: 0 <= k < |a| ==> a[k].teacher < |scores| && a[k].room < rooms
  }

  function Cost(scores: seq<seq<int>>, s: Slot): int
    requires s.teacher < |scores| && s.room < |scores[s.teacher]|
  {
    scores[s.teacher][s.room]
  }

  /** Sum of the matrix entries the first n slots select. */
  function TotalCostUpTo(scores: seq<seq<int>>, a: seq<Slot>, n: nat): int
    requires n <= |a| && Within(scores, a)
  {
    if n == 0 then 0 else TotalCostUpTo(scores, a, n - 1) + Cost(scores, a[n - 1])
  }

  /** The cost of a whole assignment. */
  function TotalCost(scores: seq<seq<int>>, a: seq<Slot>): int
    requires Within(scores, a)
  {
    TotalCostUpTo(scores, a, |a|)
  }

  /** The room indices of an assignment, position by position. */
  function Rooms(a: seq<Slot>): seq<nat>
  {
    seq(|a|, k requires 0 <= k < |a| => a[k].room)
  }

  /** Two assignments whose first n slots select equal entries have equal
      costs up to n. */
  lemma {:induction false} CostsAgree(m1: seq<seq<int>>, a1: seq<Slot>, m2: seq<seq<int>>, a2: seq<Slot>, n: nat)
    requires n <= |a1| && n <= |a2| && Within(m1, a1) && Within(m2, a2)
    requires forall k :: 0 <= k < n ==> Cost(m1, a1[k]) == Cost(m2, a2[k])
    ensures TotalCostUpTo(m1, a1, n) == TotalCostUpTo(m2, a2, n)
  {
    if n > 0 {
      CostsAgree(m1, a1, m2, a2, n - 1);
    }
  }

  /** Replacing one slot changes the cost by exactly the difference of the
      two entries it selects. */
  lemma {:induction false} CostUpdate(scores: seq<seq<int>>, a: seq<Slot>, i: nat, s: Slot, n: nat)
    requires i < |a| && n <= |a| && Within(scores, a)
    requires s.teacher < |scores| && s.room < |scores[s.teacher]|
    ensures Within(scores, a[i := s])
    ensures TotalCostUpTo(scores, a[i := s], n)
            == TotalCostUpTo(scores, a, n) + (if i < n then Cost(scores, s) - Cost(scores, a[i]) else 0)
  {
    if n > 0 {
      CostUpdate(scores, a, i, s, n - 1);
    }
  }

  /** The assignment with the rooms at positions x and y exchanged. */
  function Exchange(a: seq<Slot>, x: nat, y: nat): seq<Slot>
    requires x < |a| && y < |a|
  {
    a[x := Slot(a[x].teacher, a[y].room)][y := Slot(a[y].teacher, a[x].room)]
  }

  /** Exchanging two rooms changes the total by the difference between the
      pair's cost after and before: the local comparison the search makes
      is the global one. */
  lemma ExchangeCost(scores: seq<seq<int>>, rooms: nat, a: seq<Slot>, x: nat, y: nat)
    requires Rectangular(scores, rooms) && InRange(scores, rooms, a)
    requires x < |a| && y < |a| && x != y
    ensures InRange(scores, rooms, Exchange(a, x, y))
    ensures TotalCost(scores, Exchange(a, x, y))
            == TotalCost(scores, a)
               - (scores[a[x].teacher][a[x].room] + scores[a[y].teacher][a[y].room])
               + (scores[a[x].teacher][a[y].room] + scores[a[y].teacher][a[x].room])
  {
    var a' := a[x := Slot(a[x].teacher, a[y].room)];
    CostUpdate(scores, a, x, Slot(a[x].teacher, a[y].room), |a|);
    CostUpdate(scores, a', y, Slot(a[y].teacher, a[x].room), |a|);
  }

  /** The exchange keeps the teacher at every position and the multiset of
      rooms, and touches no third position. */
  lemma ExchangePermutes(a: seq<Slot>, x: nat, y: nat)
    requires x < |a| && y < |a| && x != y
    ensures |Exchange(a, x, y)| == |a|
    ensures forall k :: 0 <= k < |a| ==> Exchange(a, x, y)[k].teacher == a[k].teacher
    ensures forall k :: 0 <= k < |a| && k != x && k != y ==> Exchange(a, x, y)[k] == a[k]
    ensures multiset(Rooms(Exchange(a, x, y))) == multiset(Rooms(a))
  {
    assert Rooms(Exchange(a, x, y)) == Rooms(a)[x := a[y].room][y := a[x].room];
  }

  /** One iteration of the hill climb: exchange the rooms at positions x
      and y exactly when that lowers the two positions' combined cost. */
  function SwapStep(scores: seq<seq<int>>, rooms: nat, a: seq<Slot>, x: nat, y: nat): (b: seq<Slot>)
    requires Rectangular(scores, rooms) && InRange(scores, rooms, a)
    requires x < |a| && y < |a| && x != y
    ensures InRange(scores, rooms, b)
    ensures b == if TotalCost(scores, Exchange(a, x, y)) < TotalCost(scores, a) then Exchange(a, x, y) else a
    ensures b != a <==> TotalCost(scores, b) < TotalCost(scores, a)
    ensures TotalCost(scores, b) <= TotalCost(scores, a)
  {
    var xt, xr := a[x].teacher, a[x].room;
    var yt, yr := a[y].teacher, a[y].room;
    var baseline := scores[xt][xr] + scores[yt][yr];
    var mutation := scores[xt][yr] + scores[yt][xr];
    ExchangeCost(scores, rooms, a, x, y);
    if mutation < baseline then Exchange(a, x, y) else a
  }

  /** The two distinct positions a draw selects among n: the first is
      uniform over all positions, the second lies a nonzero offset further
      round the assignment. */
  function Pick(d: Draw, n: nat): (p: (nat, nat))
    requires n >= 2
    ensures p.0 < n && p.1 < n && p.0 != p.1
  {
    var x := d.first % n;
    (x, (x + 1 + d.offset % (n - 1)) % n)
  }

  lemma ModBelow(a: int, b: int)
    requires 0 <= a < b
    ensures a % b == a
  {
  }

  lemma ModWrap(a: int, b: int)
    requires 0 <= a < b
    ensures (a + b) % b == a
  {
  }

  /** Every ordered pair of distinct positions is some draw's pick, so a
      statement about all draw sequences covers every sequence of swaps the
      random generator could propose. */
  lemma EveryPairDrawable(n: nat, x: nat, y: nat)
    requires n >= 2 && x < n && y < n && x != y
    ensures exists d :: Pick(d, n) == (x, y)
  {
    var offset: nat := if x < y then y - x - 1 else y + n - x - 1;
    ModBelow(offset, n - 1);
    ModBelow(x, n);
    if x < y {
      ModBelow(x + 1 + offset, n);
    } else {
      ModWrap(y, n);
    }
    assert Pick(Draw(x, offset), n) == (x, y);
  }

  /** A one-to-one assignment of n teachers to n rooms: position t holds
      teacher t, and no room is used twice. */
  predicate IsBijection(a: seq<Slot>, n: nat)
  {
    && |a| == n
    && (forall k :: 0 <= k < n ==> a[k].teacher == k && a[k].room < n)
    && (forall k, l :: 0 <= k < l < n ==> a[k].room != a[l].room)
  }

  /** Exchanging rooms keeps an assignment one-to-one. */
  lemma ExchangeKeepsBijection(a: seq<Slot>, n: nat, x: nat, y: nat)
    requires IsBijection(a, n) && x < n && y < n && x != y
    ensures IsBijection(Exchange(a, x, y), n)
  {
    var b := Exchange(a, x, y);
    forall k, l | 0 <= k < l < n
      ensures b[k].room != b[l].room
    {
      var k' := if k == x then y else if k == y then x else k;
      var l' := if l == x then y else if l == y then x else l;
      assert b[k].room == a[k'].room && b[l].room == a[l'].room;
      if k' < l' {
        assert a[k'].room != a[l'].room;
      } else {
        assert a[l'].room != a[k'].room;
      }
    }
  }

  /** Values distinct at distinct positions. */
  predicate Injective(s: seq<nat>)
  {
    forall i, j :: 0 <= i < j < |s| ==> s[i] != s[j]
  }

  /** Every value lies below n. */
  predicate Below(s: seq<nat>, n: nat)
  {
    forall i :: 0 <= i < |s| ==> s[i] < n
  }

  /** The sequence with position j removed. */
  function Without(s: seq<nat>, j: nat): (w: seq<nat>)
    requires j < |s|
    ensures |w| == |s| - 1
    ensures forall i :: 0 <= i < |w| ==> w[i] == s[if i < j then i else i + 1]
  {
    s[..j] + s[j + 1..]
  }

  /** Removing the position that holds the top value of an injection below
      n leaves an injection below n - 1. */
  lemma WithoutTop(s: seq<nat>, n: nat, j: nat)
    requires |s| == n && j < n && s[j] == n - 1
    requires Below(s, n) && Injective(s)
    ensures Injective(Without(s, j)) && Below(Without(s, j), n - 1)
  {
    var w := Without(s, j);
    forall i, i' | 0 <= i < i' < |w|
      ensures w[i] != w[i']
    {
      var a := if i < j then i else i + 1;
      var b := if i' < j then i' else i' + 1;
      assert s[a] != s[b];
    }
    forall i | 0 <= i < |w|
      ensures w[i] < n - 1
    {
      var a := if i < j then i else i + 1;
      if a < j {
        assert s[a] != s[j];
      } else {
        assert s[j] != s[a];
      }
    }
  }

  /** The last value of an injection does not occur before it. */
  lemma LastIsNew(s: seq<nat>)
    requires |s| > 0 && Injective(s)
    ensures s[|s| - 1] !in s[..|s| - 1]
  {
    var front := s[..|s| - 1];
    forall i | 0 <= i < |front|
      ensures front[i] != s[|s| - 1]
    {
      assert s[i] != s[|s| - 1];
    }
  }

  /** An injection of n positions below n must use the top value n - 1. */
  lemma {:induction false} TopIsUsed(s: seq<nat>, n: nat)
    requires |s| == n > 0 && Below(s, n) && Injective(s)
    ensures n - 1 in s
    decreases n, 0
  {
    if n - 1 !in s {
      var front := s[..n - 1];
      LastIsNew(s);
      assert Below(front, n - 1);
      assert Injective(front);
      InjectionIsOnto(front, n - 1);
      assert false;
    }
  }

  /** n distinct values below n take every value below n (pigeonhole). */
  lemma {:induction false} InjectionIsOnto(s: seq<nat>, n: nat)
    requires |s| == n && Below(s, n) && Injective(s)
    ensures forall v :: 0 <= v < n ==> v in s
    decreases n, 1
  {
    if n > 0 {
      TopIsUsed(s, n);
      var j :| 0 <= j < n && s[j] == n - 1;
      var w := Without(s, j);
      WithoutTop(s, n, j);
      InjectionIsOnto(w, n - 1);
      forall v | 0 <= v < n - 1
        ensures v in s
      {
        assert v in w;
        var i :| 0 <= i < n - 1 && w[i] == v;
        assert s[if i < j then i else i + 1] == v;
      }
    }
  }

  /** In a one-to-one assignment every room is used, by exactly one teacher. */
  lemma BijectionUsesEveryRoomOnce(a: seq<Slot>, n: nat)
    requires IsBijection(a, n)
    ensures forall r :: 0 <= r < n ==> r in Rooms(a)
    ensures forall k, l :: 0 <= k < n && 0 <= l < n && a[k].room == a[l].room ==> k == l
  {
    var rs := Rooms(a);
    forall i, j | 0 <= i < j < n
      ensures rs[i] != rs[j]
    {
      assert a[i].room != a[j].room;
    }
    InjectionIsOnto(rs, n);
    forall k, l | 0 <= k < n && 0 <= l < n && a[k].room == a[l].room
      ensures k == l
    {
    }
  }

  /** The assignment after one swap attempt per draw, draws taken in
      order: the hill climb of optimize_room_assignments as a function of
      the random values it consumes. */
  function Climb(scores: seq<seq<int>>, rooms: nat, a: seq<Slot>, draws: seq<Draw>): (b: seq<Slot>)
    requires Rectangular(scores, rooms) && InRange(scores, rooms, a)
    requires |draws| > 0 ==> |a| >= 2
    ensures |b| == |a| && InRange(scores, rooms, b)
    decreases |draws|
  {
    if |draws| == 0 then a
    else
      var p := Pick(draws[|draws| - 1], |a|);
      SwapStep(scores, rooms, Climb(scores, rooms, a, draws[..|draws| - 1]), p.0, p.1)
  }

  /** Each draw's swap is committed exactly when it lowers the total cost
      of the assignment reached so far. */
  lemma ClimbCommits(scores: seq<seq<int>>, rooms: nat, a: seq<Slot>, draws: seq<Draw>, d: Draw)
    requires Rectangular(scores, rooms) && InRange(scores, rooms, a) && |a| >= 2
    ensures var c := Climb(scores, rooms, a, draws);
            var p := Pick(d, |a|);
            Climb(scores, rooms, a, draws + [d])
            == if TotalCost(scores, Exchange(c, p.0, p.1)) < TotalCost(scores, c) then Exchange(c, p.0, p.1) else c
  {
    assert (draws + [d])[..|draws|] == draws;
  }

  /** One swap attempt keeps the teacher at every position and the
      multiset of rooms, and keeps a one-to-one assignment one-to-one. */
  lemma SwapStepKeeps(scores: seq<seq<int>>, rooms: nat, a: seq<Slot>, x: nat, y: nat)
    requires Rectangular(scores, rooms) && InRange(scores, rooms, a)
    requires x < |a| && y < |a| && x != y
    ensures forall k :: 0 <= k < |a| ==> SwapStep(scores, rooms, a, x, y)[k].teacher == a[k].teacher
    ensures multiset(Rooms(SwapStep(scores, rooms, a, x, y))) == multiset(Rooms(a))
    ensures IsBijection(a, |a|) ==> IsBijection(SwapStep(scores, rooms, a, x, y), |a|)
  {
    ExchangePermutes(a, x, y);
    if IsBijection(a, |a|) {
      ExchangeKeepsBijection(a, |a|, x, y);
    }
  }

  /** Whatever the draws, the climb keeps the teacher at every position
      and the multiset of rooms, never raises the total cost, and keeps a
      one-to-one assignment one-to-one. */
  lemma {:induction false} ClimbKeeps(scores: seq<seq<int>>, rooms: nat, a: seq<Slot>, draws: seq<Draw>)
    requires Rectangular(scores, rooms) && InRange(scores, rooms, a)
    requires |draws| > 0 ==> |a| >= 2
    ensures forall k :: 0 <= k < |a| ==> Climb(scores, rooms, a, draws)[k].teacher == a[k].teacher
    ensures multiset(Rooms(Climb(scores, rooms, a, draws))) == multiset(Rooms(a))
    ensures TotalCost(scores, Climb(scores, rooms, a, draws)) <= TotalCost(scores, a)
    ensures IsBijection(a, |a|) ==> IsBijection(Climb(scores, rooms, a, draws), |a|)
    decreases |draws|
  {
    if |draws| > 0 {
      var c := Climb(scores, rooms, a, draws[..|draws| - 1]);
      ClimbKeeps(scores, rooms, a, draws[..|draws| - 1]);
      var p := Pick(draws[|draws| - 1], |a|);
      SwapStepKeeps(scores, rooms, c, p.0, p.1);
    }
  }

  /** The random pairwise-swap search of optimize_room_assignments: one
      swap attempt per draw, starting from the initial assignment. */
  method Search(scores: seq<seq<int>>, rooms: nat, initial: seq<Slot>, draws: seq<Draw>)
    returns (best: seq<Slot>)
    requires Rectangular(scores, rooms) && InRange(scores, rooms, initial)
    requires |draws| > 0 ==> |initial| >= 2
    ensures best == Climb(scores, rooms, initial, draws)
    ensures |best| == |initial| && InRange(scores, rooms, best)
    ensures forall k :: 0 <= k < |best| ==> best[k].teacher == initial[k].teacher
    ensures multiset(Rooms(best)) == multiset(Rooms(initial))
    ensures TotalCost(scores, best) <= TotalCost(scores, initial)
    ensures IsBijection(initial, |initial|) ==> IsBijection(best, |initial|)
  {
    best := initial;
    var n := |initial|;
    for i := 0 to |draws|
      invariant best == Climb(scores, rooms, initial, draws[..i])
    {
      var (x, y) := Pick(draws[i], n);
      assert draws[..i + 1][..i] == draws[..i];
      best := SwapStep(scores, rooms, best, x, y);
    }
    assert draws[..|draws|] == draws;
    ClimbKeeps(scores, rooms, initial, draws);
  }

  /** Slot s pairs a teacher with the room it had last term. */
  predicate StartsIn(teachers: seq<Teacher>, rooms: seq<Room>, s: Slot)
  {
    s.teacher < |teachers| && s.room < |rooms| && rooms[s.room].number == teachers[s.teacher].initialRoomNumber
  }

  /** Slot p comes before slot q in (teacher, room) order. */
  predicate Precedes(p: Slot, q: Slot)
  {
    p.teacher < q.teacher || (p.teacher == q.teacher && p.room < q.room)
  }

  /** The slots a row-major scan keeps before position (t, r): every
      pair of a teacher with a room carrying last term's room number. */
  function StaysBefore(teachers: seq<Teacher>, rooms: seq<Room>, t: nat, r: nat): (a: seq<Slot>)
    requires r <= |rooms|
    ensures forall k :: 0 <= k < |a| ==> StartsIn(teachers, rooms, a[k])
    decreases t, r
  {
    if r > 0 then
      StaysBefore(teachers, rooms, t, r - 1) + (if StartsIn(teachers, rooms, Slot(t, r - 1)) then [Slot(t, r - 1)] else [])
    else if t > 0 then StaysBefore(teachers, rooms, t - 1, |rooms|)
    else []
  }

  /** The initial assignment: every teacher in a room numbered as last
      term's room, in teacher then room order. */
  function Stays(teachers: seq<Teacher>, rooms: seq<Room>): (a: seq<Slot>)
    ensures forall k :: 0 <= k < |a| ==> StartsIn(teachers, rooms, a[k])
  {
    StaysBefore(teachers, rooms, |teachers|, 0)
  }

  /** The cost matrix of optimize_room_assignments: one row per teacher,
      one column per room. */
  function ScoreMatrix(valid: (Teacher, Room) -> bool, teachers: seq<Teacher>, rooms: seq<Room>): (m: seq<seq<int>>)
    ensures |m| == |teachers| && Rectangular(m, |rooms|)
    ensures forall t, r :: 0 <= t < |teachers| && 0 <= r < |rooms| ==>
              m[t][r] == ScoreTeacherRoomAssignment(valid, teachers[t], rooms[r])
  {
    seq(|teachers|, t requires 0 <= t < |teachers| =>
      seq(|rooms|, r requires 0 <= r < |rooms| => ScoreTeacherRoomAssignment(valid, teachers[t], rooms[r])))
  }

  /** Slot s comes before position (t, r) of the row-major scan. */
  predicate Before(s: Slot, t: nat, r: nat)
  {
    Precedes(s, Slot(t, r))
  }

  /** Every kept slot keeps a teacher in last term's room and lies before
      position (t, r). */
  predicate KeptBefore(teachers: seq<Teacher>, rooms: seq<Room>, initial: seq<Slot>, t: nat, r: nat)
  {
    forall k :: 0 <= k < |initial| ==> StartsIn(teachers, rooms, initial[k]) && Before(initial[k], t, r)
  }

  /** Every slot before (t, r) that keeps a teacher in last term's room is kept. */
  ghost predicate AllKeptBefore(teachers: seq<Teacher>, rooms: seq<Room>, initial: seq<Slot>, t: nat, r: nat)
  {
    forall t': nat, r': nat :: Before(Slot(t', r'), t, r) && StartsIn(teachers, rooms, Slot(t', r')) ==>
      Slot(t', r') in initial
  }

  /** The kept slots are in scan order. */
  predicate InScanOrder(initial: seq<Slot>)
  {
    forall k, l :: 0 <= k < l < |initial| ==> Precedes(initial[k], initial[l])
  }

  /** initial holds, in scan order, exactly the slots before (t, r) that
      keep a teacher in last term's room, and initialScore is their cost. */
  ghost predicate ScannedTo(teachers: seq<Teacher>, rooms: seq<Room>, scores: seq<seq<int>>,
                            initial: seq<Slot>, initialScore: int, t: nat, r: nat)
  {
    && r <= |rooms|
    && initial == StaysBefore(teachers, rooms, t, r)
    && KeptBefore(teachers, rooms, initial, t, r)
    && AllKeptBefore(teachers, rooms, initial, t, r)
    && InScanOrder(initial)
    && Within(scores, initial) && initialScore == TotalCost(scores, initial)
  }

  /** Passing over a cell that is not the teacher's old room. */
  lemma SkipCell(teachers: seq<Teacher>, rooms: seq<Room>, initial: seq<Slot>, t: nat, r: nat)
    requires !StartsIn(teachers, rooms, Slot(t, r))
    requires KeptBefore(teachers, rooms, initial, t, r) && AllKeptBefore(teachers, rooms, initial, t, r)
    ensures KeptBefore(teachers, rooms, initial, t, r + 1) && AllKeptBefore(teachers, rooms, initial, t, r + 1)
  {
  }

  /** Keeping the cell that is the teacher's old room. */
  lemma KeepCell(teachers: seq<Teacher>, rooms: seq<Room>, initial: seq<Slot>, t: nat, r: nat)
    requires StartsIn(teachers, rooms, Slot(t, r))
    requires KeptBefore(teachers, rooms, initial, t, r) && AllKeptBefore(teachers, rooms, initial, t, r)
    requires InScanOrder(initial)
    ensures KeptBefore(teachers, rooms, initial + [Slot(t, r)], t, r + 1)
    ensures AllKeptBefore(teachers, rooms, initial + [Slot(t, r)], t, r + 1)
    ensures InScanOrder(initial + [Slot(t, r)])
  {
    var initial' := initial + [Slot(t, r)];
    forall s | s in initial
      ensures s in initial'
    {
    }
    forall k, l | 0 <= k < l < |initial'|
      ensures Precedes(initial'[k], initial'[l])
    {
      if l == |initial| {
        assert Before(initial[k], t, r);
      }
    }
  }

  /** Scanning position (t, r): keep it when it is the teacher's old room. */
  method ScanCell(teachers: seq<Teacher>, rooms: seq<Room>, scores: seq<seq<int>>,
                  initial: seq<Slot>, initialScore: int, t: nat, r: nat)
    returns (initial': seq<Slot>, initialScore': int)
    requires t < |teachers| && r < |rooms| && |scores| == |teachers| && Rectangular(scores, |rooms|)
    requires ScannedTo(teachers, rooms, scores, initial, initialScore, t, r)
    ensures ScannedTo(teachers, rooms, scores, initial', initialScore', t, r + 1)
  {
    initial', initialScore' := initial, initialScore;
    if rooms[r].number == teachers[t].initialRoomNumber {
      KeepCell(teachers, rooms, initial, t, r);
      initial' := initial + [Slot(t, r)];
      CostsAgree(scores, initial, scores, initial', |initial|);
      initialScore' := initialScore + scores[t][r];
    } else {
      SkipCell(teachers, rooms, initial, t, r);
    }
  }

  /** The cost matrix, the initial assignment and its cost, as the nested
      loop of optimize_room_assignments builds them. */
  method BuildScores(valid: (Teacher, Room) -> bool, teachers: seq<Teacher>, rooms: seq<Room>)
    returns (scores: seq<seq<int>>, initial: seq<Slot>, initialScore: int)
    ensures scores == ScoreMatrix(valid, teachers, rooms)
    ensures initial == Stays(teachers, rooms)
    ensures forall t: nat, r: nat :: StartsIn(teachers, rooms, Slot(t, r)) ==> Slot(t, r) in initial
    ensures forall k, l :: 0 <= k < l < |initial| ==> Precedes(initial[k], initial[l])
    ensures InRange(scores, |rooms|, initial)
    ensures initialScore == TotalCost(scores, initial)
  {
    scores := ScoreMatrix(valid, teachers, rooms);
    initial, initialScore := [], 0;
    for t := 0 to |teachers|
      invariant ScannedTo(teachers, rooms, scores, initial, initialScore, t, 0)
    {
      for r := 0 to |rooms|
        invariant ScannedTo(teachers, rooms, scores, initial, initialScore, t, r)
      {
        initial, initialScore := ScanCell(teachers, rooms, scores, initial, initialScore, t, r);
      }
      assert forall s: Slot :: Before(s, t, |rooms|) && s.room < |rooms| ==> Before(s, t + 1, 0);
    }
  }
}
