/** Grade balancing: within each grade, one unit of student limit at a time
    moves from a teacher holding the largest limit to one holding the
    smallest, until the spread is within the grade's tolerance.
 */
module Balance {
  import opened Roster

  predicate InGrade(ts: seq<Teacher>, g: int, i: int)
  {
    0 <= i < |ts| && ts[i].grade == g
  }

  /** Teacher i holds the smallest limit of grade g. */
  ghost predicate IsGradeMin(ts: seq<Teacher>, g: int, i: int)
  {
    && InGrade(ts, g, i)
    && forall j :: InGrade(ts, g, j) ==> ts[i].studentLimit <= ts[j].studentLimit
  }

  /** Teacher i holds the largest limit of grade g. */
  ghost predicate IsGradeMax(ts: seq<Teacher>, g: int, i: int)
  {
    && InGrade(ts, g, i)
    && forall j :: InGrade(ts, g, j) ==> ts[j].studentLimit <= ts[i].studentLimit
  }

  /** No two limits of grade g differ by more than the tolerance. */
  ghost predicate Settled(ts: seq<Teacher>, g: int, tolerance: int)
  {
    forall i, j :: InGrade(ts, g, i) && InGrade(ts, g, j) ==>
      ts[i].studentLimit - ts[j].studentLimit <= tolerance
  }

  /** Every limit of grade g lies in [lower, upper]. */
  ghost predicate Bounded(ts: seq<Teacher>, g: int, lower: int, upper: int)
  {
    forall i :: InGrade(ts, g, i) ==> lower <= ts[i].studentLimit <= upper
  }

  /** Sum of the student limits of grade g among the first n teachers. */
  function GradeSumUpTo(ts: seq<Teacher>, g: int, n: nat): int
    requires n <= |ts|
  {
    if n == 0 then 0
    else GradeSumUpTo(ts, g, n - 1) + (if ts[n - 1].grade == g then ts[n - 1].studentLimit else 0)
  }

  /** Sum of the student limits of grade g. */
  function GradeSum(ts: seq<Teacher>, g: int): int
  {
    GradeSumUpTo(ts, g, |ts|)
  }

  function Square(x: int): nat
  {
    x * x
  }

  lemma SquareStep(a: int)
    ensures Square(a + 1) == Square(a) + 2 * a + 1
  {
  }

  lemma SquareDown(a: int)
    ensures Square(a - 1) == Square(a) - 2 * a + 1
  {
  }

  /** Sum of the squared student limits of grade g among the first n
      teachers. */
  function SquareSumUpTo(ts: seq<Teacher>, g: int, n: nat): nat
    requires n <= |ts|
  {
    if n == 0 then 0
    else SquareSumUpTo(ts, g, n - 1) + (if ts[n - 1].grade == g then Square(ts[n - 1].studentLimit) else 0)
  }

  /** Sum of the squared student limits of grade g; every transfer between
      an extreme pair lowers it. */
  function SquareSum(ts: seq<Teacher>, g: int): nat
  {
    SquareSumUpTo(ts, g, |ts|)
  }

  /** Replacing one teacher by another of the same grade changes that
      grade's sum of limits by exactly the difference, and leaves every
      other grade's sum alone. */
  lemma {:induction false} GradeSumUpdate(ts: seq<Teacher>, i: nat, t: Teacher, g: int, n: nat)
    requires i < |ts| && n <= |ts|
    requires t.grade == ts[i].grade
    ensures GradeSumUpTo(ts[i := t], g, n)
            == GradeSumUpTo(ts, g, n) + (if i < n && t.grade == g then t.studentLimit - ts[i].studentLimit else 0)
  {
    if n > 0 {
      GradeSumUpdate(ts, i, t, g, n - 1);
    }
  }

  /** The same for the sum of squared limits. */
  lemma {:induction false} SquareSumUpdate(ts: seq<Teacher>, i: nat, t: Teacher, g: int, n: nat)
    requires i < |ts| && n <= |ts|
    requires t.grade == ts[i].grade
    ensures SquareSumUpTo(ts[i := t], g, n)
            == SquareSumUpTo(ts, g, n)
               + (if i < n && t.grade == g then Square(t.studentLimit) - Square(ts[i].studentLimit) else 0)
  {
    if n > 0 {
      SquareSumUpdate(ts, i, t, g, n - 1);
    }
  }

  /** One balancing step: the teacher at hi gives one unit of limit to the
      teacher at lo. */
  function Transfer(ts: seq<Teacher>, lo: nat, hi: nat): seq<Teacher>
    requires lo < |ts| && hi < |ts|
  {
    var ts' := ts[hi := ts[hi].(studentLimit := ts[hi].studentLimit - 1)];
    ts'[lo := ts'[lo].(studentLimit := ts'[lo].studentLimit + 1)]
  }

  /** A transfer between two teachers of one grade keeps every grade's sum
      of limits, changes no grade, and touches no third teacher. */
  lemma TransferConserves(ts: seq<Teacher>, lo: nat, hi: nat)
    requires lo < |ts| && hi < |ts| && lo != hi
    requires ts[lo].grade == ts[hi].grade
    ensures SameExceptLimits(Transfer(ts, lo, hi), ts)
    ensures forall i :: 0 <= i < |ts| && i != lo && i != hi ==> Transfer(ts, lo, hi)[i] == ts[i]
    ensures forall g :: GradeSum(Transfer(ts, lo, hi), g) == GradeSum(ts, g)
  {
    var ts' := ts[hi := ts[hi].(studentLimit := ts[hi].studentLimit - 1)];
    forall g
      ensures GradeSum(Transfer(ts, lo, hi), g) == GradeSum(ts, g)
    {
      GradeSumUpdate(ts, hi, ts[hi].(studentLimit := ts[hi].studentLimit - 1), g, |ts|);
      GradeSumUpdate(ts', lo, ts'[lo].(studentLimit := ts'[lo].studentLimit + 1), g, |ts|);
    }
  }

  /** A transfer from a limit at least two above the receiving one strictly
      lowers the grade's sum of squares, which bounds the number of steps. */
  lemma TransferShrinksSquares(ts: seq<Teacher>, lo: nat, hi: nat)
    requires lo < |ts| && hi < |ts| && lo != hi
    requires ts[lo].grade == ts[hi].grade
    requires ts[hi].studentLimit - ts[lo].studentLimit >= 2
    ensures SquareSum(Transfer(ts, lo, hi), ts[lo].grade) < SquareSum(ts, ts[lo].grade)
  {
    var g := ts[lo].grade;
    var big, small := ts[hi].studentLimit, ts[lo].studentLimit;
    var ts' := ts[hi := ts[hi].(studentLimit := ts[hi].studentLimit - 1)];
    SquareSumUpdate(ts, hi, ts[hi].(studentLimit := ts[hi].studentLimit - 1), g, |ts|);
    SquareSumUpdate(ts', lo, ts'[lo].(studentLimit := ts'[lo].studentLimit + 1), g, |ts|);
    SquareDown(big);
    SquareStep(small);
  }

  /** A transfer from a largest to a smallest limit, spread at least one,
      leaves every limit of the grade between the old smallest and largest. */
  lemma TransferStaysInside(ts: seq<Teacher>, g: int, lo: nat, hi: nat, lower: int, upper: int)
    requires IsGradeMin(ts, g, lo) && IsGradeMax(ts, g, hi)
    requires ts[hi].studentLimit - ts[lo].studentLimit >= 1
    requires Bounded(ts, g, lower, upper)
    ensures Bounded(Transfer(ts, lo, hi), g, lower, upper)
  {
  }

  /** r is a roster the balancing loop for grade g can end with when it
      starts from ts: either ts is settled and the loop stops at once, or
      some holder of the smallest limit takes one unit from some holder of
      the largest and the loop goes on from there. Any tie-break the sort
      could make is allowed. A spread of one with tolerance zero never
      settles, and then nothing is reached. */
  ghost predicate Reaches(ts: seq<Teacher>, g: int, tolerance: int, r: seq<Teacher>)
    decreases SquareSum(ts, g)
  {
    if Settled(ts, g, tolerance) then r == ts
    else exists lo: nat, hi: nat ::
      && IsGradeMin(ts, g, lo) && IsGradeMax(ts, g, hi)
      && ts[hi].studentLimit - ts[lo].studentLimit > tolerance
      && ts[hi].studentLimit - ts[lo].studentLimit >= 2
      && (TransferShrinksSquares(ts, lo, hi); Reaches(Transfer(ts, lo, hi), g, tolerance, r))
  }

  /** A roster reached after one transfer between extreme holders of an
      unsettled grade is reached from the roster before it. */
  lemma ReachesBack(ts: seq<Teacher>, g: int, tolerance: int, lo: nat, hi: nat, r: seq<Teacher>)
    requires IsGradeMin(ts, g, lo) && IsGradeMax(ts, g, hi)
    requires ts[hi].studentLimit - ts[lo].studentLimit > tolerance
    requires ts[hi].studentLimit - ts[lo].studentLimit >= 2
    requires Reaches(Transfer(ts, lo, hi), g, tolerance, r)
    ensures Reaches(ts, g, tolerance, r)
  {
    assert !Settled(ts, g, tolerance) by {
      assert InGrade(ts, g, hi) && InGrade(ts, g, lo);
    }
  }

  /** A grade-0 teacher with the given name, limit and old room. */
  function Sample(name: string, limit: int, room: int): Teacher
  {
    Teacher(name, 0, 0, limit, room, None)
  }

  /** Three grade-0 teachers holding limits a, b and c. */
  function Trio(a: int, b: int, c: int): seq<Teacher>
  {
    [Sample("a", a, 1), Sample("b", b, 2), Sample("c", c, 3)]
  }

  /** The holders of the smallest and largest limits of a trio whose
      first limit is the only largest one. */
  lemma TrioExtremes(a: int, b: int, c: int, lo: nat, hi: nat)
    requires a > b && a > c
    requires IsGradeMin(Trio(a, b, c), 0, lo) && IsGradeMax(Trio(a, b, c), 0, hi)
    ensures hi == 0 && 1 <= lo <= 2
    ensures b < c ==> lo == 1
    ensures c < b ==> lo == 2
  {
    var ts := Trio(a, b, c);
    assert InGrade(ts, 0, 0) && InGrade(ts, 0, 1) && InGrade(ts, 0, 2);
  }

  /** A transfer from the first teacher of a trio to the second or third. */
  lemma TrioTransfer(a: int, b: int, c: int, lo: nat)
    requires 1 <= lo <= 2
    ensures Transfer(Trio(a, b, c), lo, 0)
            == if lo == 1 then Trio(a - 1, b + 1, c) else Trio(a - 1, b, c + 1)
  {
  }

  /** One step from an unsettled trio whose first limit is the only
      largest one: the first teacher gives a unit to a smallest holder. */
  lemma TrioStep(a: int, b: int, c: int, r: seq<Teacher>)
    requires a > b && a > c && a - b > 3
    requires Reaches(Trio(a, b, c), 0, 3, r)
    ensures b <= c ==> Reaches(Trio(a - 1, b + 1, c), 0, 3, r) || (b == c && Reaches(Trio(a - 1, b, c + 1), 0, 3, r))
    ensures c < b ==> Reaches(Trio(a - 1, b, c + 1), 0, 3, r)
  {
    var ts := Trio(a, b, c);
    assert !Settled(ts, 0, 3) by {
      assert InGrade(ts, 0, 0) && InGrade(ts, 0, 1);
    }
    var lo: nat, hi: nat :| IsGradeMin(ts, 0, lo) && IsGradeMax(ts, 0, hi)
                            && Reaches(Transfer(ts, lo, hi), 0, 3, r);
    TrioExtremes(a, b, c, lo, hi);
    TrioTransfer(a, b, c, lo);
  }

  /** A trio whose limits are within three of each other is where the
      loop stops. */
  lemma TrioSettles(a: int, b: int, c: int, r: seq<Teacher>)
    requires -3 <= a - b <= 3 && -3 <= a - c <= 3 && -3 <= b - c <= 3
    requires Reaches(Trio(a, b, c), 0, 3, r)
    ensures r == Trio(a, b, c)
  {
    assert Settled(Trio(a, b, c), 0, 3);
  }

  /** With tolerance 3, limits 10, 4 and 4 always end at 8, 5 and 5,
      whichever smallest holder each step picks: the only largest holder
      gives one unit to each of the others. */
  lemma TenFourFourEndsAtEightFiveFive(r: seq<Teacher>)
    requires Reaches(Trio(10, 4, 4), 0, 3, r)
    ensures r == Trio(8, 5, 5)
  {
    TrioStep(10, 4, 4, r);
    if Reaches(Trio(9, 5, 4), 0, 3, r) {
      TrioStep(9, 5, 4, r);
    } else {
      TrioStep(9, 4, 5, r);
    }
    TrioSettles(8, 5, 5, r);
  }

  /** The first teacher (in roster order) holding the smallest limit of
      grade g, and the last one holding the largest: the two ends of the
      grade sorted stably by limit. */
  method Extremes(ts: seq<Teacher>, g: int) returns (lo: nat, hi: nat)
    requires exists k :: InGrade(ts, g, k)
    ensures IsGradeMin(ts, g, lo) && IsGradeMax(ts, g, hi)
    ensures forall j :: InGrade(ts, g, j) && j < lo ==> ts[lo].studentLimit < ts[j].studentLimit
    ensures forall j :: InGrade(ts, g, j) && hi < j ==> ts[j].studentLimit < ts[hi].studentLimit
  {
    var found := false;
    lo, hi := 0, 0;
    for i := 0 to |ts|
      invariant found <==> exists k :: InGrade(ts, g, k) && k < i
      invariant found ==> InGrade(ts, g, lo) && lo < i && InGrade(ts, g, hi) && hi < i
      invariant found ==> forall j :: InGrade(ts, g, j) && j < i ==>
                  ts[lo].studentLimit <= ts[j].studentLimit <= ts[hi].studentLimit
      invariant found ==> forall j :: InGrade(ts, g, j) && j < lo ==> ts[lo].studentLimit < ts[j].studentLimit
      invariant found ==> forall j :: InGrade(ts, g, j) && hi < j < i ==> ts[j].studentLimit < ts[hi].studentLimit
    {
      if ts[i].grade == g {
        assert InGrade(ts, g, i);
        if !found || ts[i].studentLimit < ts[lo].studentLimit {
          lo := i;
        }
        if !found || ts[hi].studentLimit <= ts[i].studentLimit {
          hi := i;
        }
        found := true;
      }
    }
  }

  /** The balancing loop for one grade (the inner loop of
      adjust_grade_level_student_imbalance). */
  method BalanceGrade(ts: seq<Teacher>, g: int, tolerance: int) returns (r: seq<Teacher>)
    requires tolerance >= 1
    requires exists k :: InGrade(ts, g, k)
    ensures SameExceptLimits(r, ts)
    ensures forall i :: 0 <= i < |ts| && ts[i].grade != g ==> r[i] == ts[i]
    ensures forall h :: GradeSum(r, h) == GradeSum(ts, h)
    ensures Settled(r, g, tolerance)
    ensures forall lower, upper :: Bounded(ts, g, lower, upper) ==> Bounded(r, g, lower, upper)
    ensures Reaches(ts, g, tolerance, r)
  {
    r := ts;
    while true
      invariant forall z :: Reaches(r, g, tolerance, z) ==> Reaches(ts, g, tolerance, z)
      invariant SameExceptLimits(r, ts)
      invariant exists k :: InGrade(r, g, k)
      invariant forall i :: 0 <= i < |ts| && ts[i].grade != g ==> r[i] == ts[i]
      invariant forall h :: GradeSum(r, h) == GradeSum(ts, h)
      invariant forall lower, upper :: Bounded(ts, g, lower, upper) ==> Bounded(r, g, lower, upper)
      decreases SquareSum(r, g)
    {
      var lo, hi := Extremes(r, g);
      if r[hi].studentLimit - r[lo].studentLimit <= tolerance {
        assert Reaches(r, g, tolerance, r);
        return;
      }
      forall z | Reaches(Transfer(r, lo, hi), g, tolerance, z)
        ensures Reaches(ts, g, tolerance, z)
      {
        ReachesBack(r, g, tolerance, lo, hi, z);
      }
      TransferConserves(r, lo, hi);
      TransferShrinksSquares(r, lo, hi);
      forall lower, upper | Bounded(ts, g, lower, upper)
        ensures Bounded(Transfer(r, lo, hi), g, lower, upper)
      {
        TransferStaysInside(r, g, lo, hi, lower, upper);
      }
      assert InGrade(Transfer(r, lo, hi), g, lo);
      r := Transfer(r, lo, hi);
    }
  }

  /** Balancing one grade keeps every fact about the other grades. */
  lemma UntouchedGrades(before: seq<Teacher>, after: seq<Teacher>, g: int)
    requires SameExceptLimits(after, before)
    requires forall i :: 0 <= i < |before| && before[i].grade != g ==> after[i] == before[i]
    ensures forall h, tolerance :: h != g && Settled(before, h, tolerance) ==> Settled(after, h, tolerance)
    ensures forall h, lower, upper :: h != g && Bounded(before, h, lower, upper) ==> Bounded(after, h, lower, upper)
  {
  }

  /** Teacher i is the first of its grade in roster order. */
  predicate OpensGrade(ts: seq<Teacher>, i: int)
    requires 0 <= i < |ts|
  {
    forall k :: 0 <= k < i ==> ts[k].grade != ts[i].grade
  }

  /** r is a roster the outer balancing loop can end with when it has
      handled the teachers before position i and holds current: each
      remaining grade is balanced, by some run of its loop, when its first
      teacher comes up. */
  ghost predicate BalancesFrom(teachers: seq<Teacher>, tolerance: map<int, int>, i: nat,
                               current: seq<Teacher>, r: seq<Teacher>)
    decreases |teachers| - i
  {
    if i >= |teachers| then r == current
    else if OpensGrade(teachers, i) then
      && teachers[i].grade in tolerance
      && exists next :: Reaches(current, teachers[i].grade, tolerance[teachers[i].grade], next)
                        && BalancesFrom(teachers, tolerance, i + 1, next, r)
    else BalancesFrom(teachers, tolerance, i + 1, current, r)
  }

  /** Every roster the loop can end with from current, after the first i
      teachers, is one it can end with from the start. */
  ghost predicate OnTrack(teachers: seq<Teacher>, tolerance: map<int, int>, i: nat, current: seq<Teacher>)
  {
    forall z :: BalancesFrom(teachers, tolerance, i, current, z) ==> BalancesFrom(teachers, tolerance, 0, teachers, z)
  }

  /** Handling teacher i, which balances its grade from current to next
      when the grade first appears there, keeps the loop on track. */
  lemma OnTrackStep(teachers: seq<Teacher>, tolerance: map<int, int>, i: nat, current: seq<Teacher>, next: seq<Teacher>)
    requires i < |teachers| && OnTrack(teachers, tolerance, i, current)
    requires OpensGrade(teachers, i) ==>
               teachers[i].grade in tolerance && Reaches(current, teachers[i].grade, tolerance[teachers[i].grade], next)
    requires !OpensGrade(teachers, i) ==> next == current
    ensures OnTrack(teachers, tolerance, i + 1, next)
  {
    forall z | BalancesFrom(teachers, tolerance, i + 1, next, z)
      ensures BalancesFrom(teachers, tolerance, 0, teachers, z)
    {
      assert BalancesFrom(teachers, tolerance, i, current, z);
    }
  }

  /** current is the roster with the grades of its first n teachers
      balanced: only limits changed, every grade's sum kept, every limit
      still inside any range its grade started in. */
  ghost predicate BalancedUpTo(teachers: seq<Teacher>, tolerance: map<int, int>, n: int, current: seq<Teacher>)
  {
    && 0 <= n <= |teachers|
    && SameExceptLimits(current, teachers)
    && (forall g :: GradeSum(current, g) == GradeSum(teachers, g))
    && (forall k :: 0 <= k < n ==> teachers[k].grade in tolerance)
    && (forall k :: 0 <= k < n ==> Settled(current, teachers[k].grade, tolerance[teachers[k].grade]))
    && (forall g, lower, upper :: Bounded(teachers, g, lower, upper) ==> Bounded(current, g, lower, upper))
    && OnTrack(teachers, tolerance, n, current)
  }

  /** One turn of the outer loop: balance teacher i's grade if this is the
      grade's first appearance, otherwise it is balanced already. */
  method BalanceNext(teachers: seq<Teacher>, tolerance: map<int, int>, i: nat, current: seq<Teacher>)
    returns (next: seq<Teacher>)
    requires TolerancesPositive(tolerance)
    requires i < |teachers| && teachers[i].grade in tolerance
    requires BalancedUpTo(teachers, tolerance, i, current)
    ensures BalancedUpTo(teachers, tolerance, i + 1, next)
  {
    var g := teachers[i].grade;
    if OpensGrade(teachers, i) {
      assert InGrade(current, g, i);
      next := BalanceGrade(current, g, tolerance[g]);
      UntouchedGrades(current, next, g);
    } else {
      next := current;
    }
    OnTrackStep(teachers, tolerance, i, current, next);
  }

  /** adjust_grade_level_student_imbalance: balance every grade, grades
      taken in order of first appearance. A grade without a configured
      tolerance aborts the run. */
  method AdjustGradeLevelImbalance(teachers: seq<Teacher>, tolerance: map<int, int>)
    returns (r: Result<seq<Teacher>>)
    requires TolerancesPositive(tolerance)
    ensures r.Err? <==> exists i :: 0 <= i < |teachers| && teachers[i].grade !in tolerance
    ensures r.Err? ==>
              exists i :: 0 <= i < |teachers|
                && teachers[i].grade !in tolerance
                && (forall k :: 0 <= k < i ==> teachers[k].grade in tolerance)
                && r.fault == UnknownGrade(teachers[i].grade)
    ensures r.Ok? ==> SameExceptLimits(r.value, teachers)
    ensures r.Ok? ==> forall g :: GradeSum(r.value, g) == GradeSum(teachers, g)
    ensures r.Ok? ==> forall i :: 0 <= i < |teachers| ==>
              Settled(r.value, teachers[i].grade, tolerance[teachers[i].grade])
    ensures r.Ok? ==> forall g, lower, upper :: Bounded(teachers, g, lower, upper) ==> Bounded(r.value, g, lower, upper)
    ensures r.Ok? ==> BalancesFrom(teachers, tolerance, 0, teachers, r.value)
  {
    var current := teachers;
    for i := 0 to |teachers|
      invariant BalancedUpTo(teachers, tolerance, i, current)
    {
      if teachers[i].grade !in tolerance {
        return Err(UnknownGrade(teachers[i].grade));
      }
      current := BalanceNext(teachers, tolerance, i, current);
    }
    assert BalancesFrom(teachers, tolerance, |teachers|, current, current);
    return Ok(current);
  }
}
