/** Limit calculation: every teacher plans for half of last term's
    students, rounded up.
 */
module Limits {
  import opened Roster

  function TeacherNames(teachers: seq<Teacher>): seq<string>
  {
    seq(|teachers|, i requires 0 <= i < |teachers| => teachers[i].name)
  }

  /** The teacher names the students give, in student order. */
  function NamedTeachers(students: seq<Student>): seq<string>
  {
    seq(|students|, i requires 0 <= i < |students| => students[i].initialTeacherName)
  }

  /** Teacher t is the one a name-keyed dictionary keeps for its name:
      no later teacher carries the same name. */
  predicate HoldsName(teachers: seq<Teacher>, t: int)
    requires 0 <= t < |teachers|
  {
    forall j :: t < j < |teachers| ==> teachers[j].name != teachers[t].name
  }

  /** Number of the first n students that name the given teacher. */
  function Tally(students: seq<Student>, n: nat, name: string): nat
    requires n <= |students|
  {
    if n == 0 then 0
    else Tally(students, n - 1, name) + (if students[n - 1].initialTeacherName == name then 1 else 0)
  }

  /** The running tally is the multiplicity of the name among the names
      the first n students give. */
  lemma {:induction false} TallyIsMultiplicity(students: seq<Student>, n: nat, name: string)
    requires n <= |students|
    ensures Tally(students, n, name) == multiset(NamedTeachers(students[..n]))[name]
  {
    if n > 0 {
      TallyIsMultiplicity(students, n - 1, name);
      assert NamedTeachers(students[..n])
             == NamedTeachers(students[..n - 1]) + [students[n - 1].initialTeacherName];
    }
  }

  /** The first n students routed to teacher t: those naming it, when t
      holds its name. */
  function Enrolled(students: seq<Student>, n: nat, teachers: seq<Teacher>, t: int): nat
    requires n <= |students| && 0 <= t < |teachers|
  {
    if HoldsName(teachers, t) then Tally(students, n, teachers[t].name) else 0
  }

  /** Looking a name up in the name-keyed dictionary: the dictionary is
      filled front to back, so a later teacher replaces an earlier one of
      the same name and the lookup finds the last teacher with that name. */
  function Lookup(teachers: seq<Teacher>, name: string): (r: Option<nat>)
    ensures r.None? <==> name !in TeacherNames(teachers)
    ensures r.Some? ==>
              && r.value < |teachers|
              && teachers[r.value].name == name
              && HoldsName(teachers, r.value)
  {
    if |teachers| == 0 then None
    else
      var last := |teachers| - 1;
      assert TeacherNames(teachers) == TeacherNames(teachers[..last]) + [teachers[last].name];
      if teachers[last].name == name then Some(last) else Lookup(teachers[..last], name)
  }

  /** ceil(k / 2) for every integer k. */
  function CeilHalf(k: int): (h: int)
    ensures k <= 2 * h <= k + 1
  {
    (k + 1) / 2
  }

  /** Only the last holder of a name is routed that name's students. */
  lemma HolderIsUnique(teachers: seq<Teacher>, t: int, u: int)
    requires 0 <= t < |teachers| && 0 <= u < |teachers|
    requires HoldsName(teachers, t) && HoldsName(teachers, u)
    requires teachers[t].name == teachers[u].name
    ensures t == u
  {
  }

  /** Counting one more student raises exactly the count of the teacher
      holding the name that student gives. */
  lemma EnrolledStep(students: seq<Student>, i: nat, teachers: seq<Teacher>, holder: nat, t: nat)
    requires i < |students| && holder < |teachers| && t < |teachers|
    requires teachers[holder].name == students[i].initialTeacherName
    requires HoldsName(teachers, holder)
    ensures Enrolled(students, i + 1, teachers, t)
            == Enrolled(students, i, teachers, t) + (if t == holder then 1 else 0)
  {
    if HoldsName(teachers, t) && teachers[t].name == students[i].initialTeacherName {
      HolderIsUnique(teachers, t, holder);
    }
  }

  /** counts holds every teacher's starting count plus the first n students
      routed to it. */
  predicate CountsSoFar(students: seq<Student>, n: nat, teachers: seq<Teacher>, counts: seq<int>)
    requires n <= |students|
  {
    && |counts| == |teachers|
    && forall t {:trigger counts[t]} :: 0 <= t < |teachers| ==>
         counts[t] == teachers[t].initialStudentCount + Enrolled(students, n, teachers, t)
  }

  /** Counts that are right for the first i students, with the holder of
      student i's teacher name bumped, are right for the first i + 1. */
  lemma CountStep(students: seq<Student>, i: nat, teachers: seq<Teacher>, holder: nat, counts: seq<int>)
    requires i < |students| && holder < |teachers|
    requires teachers[holder].name == students[i].initialTeacherName
    requires HoldsName(teachers, holder)
    requires CountsSoFar(students, i, teachers, counts)
    ensures CountsSoFar(students, i + 1, teachers, counts[holder := counts[holder] + 1])
  {
    forall t | 0 <= t < |teachers|
      ensures Enrolled(students, i + 1, teachers, t)
              == Enrolled(students, i, teachers, t) + (if t == holder then 1 else 0)
    {
      EnrolledStep(students, i, teachers, holder, t);
    }
  }

  /** Each teacher's count grows by the students routed to it, its limit is
      half the new count rounded up, and nothing else about it changes. */
  predicate LimitsFromEnrolment(students: seq<Student>, teachers: seq<Teacher>, result: seq<Teacher>)
  {
    && |result| == |teachers|
    && forall t :: 0 <= t < |teachers| ==>
         var count := teachers[t].initialStudentCount + Enrolled(students, |students|, teachers, t);
         && count <= 2 * result[t].studentLimit <= count + 1
         && result[t] == teachers[t].(initialStudentCount := count, studentLimit := result[t].studentLimit)
  }

  /** Student i is the first whose named teacher does not exist. */
  predicate FirstUnknownStudent(students: seq<Student>, teachers: seq<Teacher>, i: int)
  {
    && 0 <= i < |students|
    && students[i].initialTeacherName !in TeacherNames(teachers)
    && forall j :: 0 <= j < i ==> students[j].initialTeacherName in TeacherNames(teachers)
  }

  /** Some student names a teacher that does not exist. */
  predicate SomeUnknownStudent(students: seq<Student>, teachers: seq<Teacher>)
  {
    exists i :: 0 <= i < |students| && students[i].initialTeacherName !in TeacherNames(teachers)
  }

  /** The tallying half of compute_student_limits: look every student's
      teacher up by name and count it. The first student naming a teacher
      that does not exist aborts the tally. */
  method CountStudents(students: seq<Student>, teachers: seq<Teacher>)
    returns (r: Result<seq<int>>)
    ensures r.Err? <==> SomeUnknownStudent(students, teachers)
    ensures r.Err? ==>
              exists i :: FirstUnknownStudent(students, teachers, i)
                && r.fault == UnknownTeacher(students[i].initialTeacherName)
    ensures r.Ok? ==> CountsSoFar(students, |students|, teachers, r.value)
  {
    var counts := seq(|teachers|, t requires 0 <= t < |teachers| => teachers[t].initialStudentCount);
    var i := 0;
    while i < |students|
      invariant 0 <= i <= |students|
      invariant forall j :: 0 <= j < i ==> students[j].initialTeacherName in TeacherNames(teachers)
      invariant CountsSoFar(students, i, teachers, counts)
    {
      var found := Lookup(teachers, students[i].initialTeacherName);
      if found.None? {
        assert FirstUnknownStudent(students, teachers, i);
        return Err(UnknownTeacher(students[i].initialTeacherName));
      }
      var holder := found.value;
      CountStep(students, i, teachers, holder, counts);
      counts := counts[holder := counts[holder] + 1];
      i := i + 1;
    }
    assert !SomeUnknownStudent(students, teachers);
    return Ok(counts);
  }

  /** compute_student_limits: tally the students naming each teacher, then
      set each teacher's limit to half the tally rounded up. */
  method ComputeStudentLimits(students: seq<Student>, teachers: seq<Teacher>)
    returns (r: Result<seq<Teacher>>)
    ensures r.Err? <==> SomeUnknownStudent(students, teachers)
    ensures r.Err? ==>
              exists i :: FirstUnknownStudent(students, teachers, i)
                && r.fault == UnknownTeacher(students[i].initialTeacherName)
    ensures r.Ok? ==> LimitsFromEnrolment(students, teachers, r.value)
  {
    var tally := CountStudents(students, teachers);
    if tally.Err? {
      return Err(tally.fault);
    }
    var counts := tally.value;
    var updated := seq(|teachers|, t requires 0 <= t < |teachers| =>
      teachers[t].(initialStudentCount := counts[t], studentLimit := CeilHalf(counts[t])));
    return Ok(updated);
  }
}
