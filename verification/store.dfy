/** The database the route handlers read and write, as plain values: one
    sequence per table, in the table's storage order, and the lookups the
    handlers perform on it (`findUnique`, `findFirst`, `include`). */
module Store {
  import opened Common

  /** The output of `bcrypt.hash(plain, 10)`. Hashing is not modelled; the
      constructor only records which password was hashed. */
  datatype PasswordHash = Bcrypt(plain: string)

  datatype User = User(
    id: nat, name: string, email: Option<string>, studentId: Option<string>,
    role: string, passwordHash: PasswordHash, createdAt: int)

  datatype Enrollment = Enrollment(courseId: nat, userId: nat, roleInCourse: string)

  /** One uploaded file of a submission, as recorded in `filesJson`. */
  datatype StoredFile = StoredFile(filename: string, path: string)

  /** `filesJson` is the JSON text of a file list, or null when nothing was
      uploaded; it is modelled by the list it encodes. */
  datatype Submission = Submission(
    id: nat, assignmentId: nat, studentId: nat, version: int,
    filesJson: Option<seq<StoredFile>>, externalLink: Option<string>, submittedAt: int)

  datatype Grade = Grade(
    submissionId: nat, graderId: nat, score: int, feedbackText: string,
    rubricScoresJson: Option<string>)

  /** One teaching material of an assignment, as recorded in `materialsJson`. */
  datatype Material = Material(filename: string, path: string, size: nat, uploadedAt: string)

  /** The `materialsJson` column holds any JSON value; only an array is read as materials. */
  datatype MaterialsJson = MaterialArray(items: seq<Material>) | OtherJson

  datatype Assignment = Assignment(
    id: nat, courseId: nat, title: string, description: string, dueAt: int,
    allowLate: bool, maxPoints: int, materialsJson: MaterialsJson)

  datatype Db = Db(
    users: seq<User>, enrollments: seq<Enrollment>, assignments: seq<Assignment>,
    submissions: seq<Submission>, grades: seq<Grade>)

  /** `findFirst`: the first row, in storage order, that satisfies the filter. */
  function FirstWhere<T>(rows: seq<T>, p: T -> bool): (r: Option<T>)
    ensures r.None? <==> forall k :: 0 <= k < |rows| ==> !p(rows[k])
    ensures r.Some? ==> exists i :: (0 <= i < |rows| && rows[i] == r.value && p(r.value)
      && forall k :: 0 <= k < i ==> !p(rows[k]))
  {
    if rows == [] then None
    else if p(rows[0]) then Some(rows[0])
    else
      var r := FirstWhere(rows[1..], p);
      assert r.Some? ==> exists i :: (0 <= i < |rows| && rows[i] == r.value && p(r.value)
        && forall k :: 0 <= k < i ==> !p(rows[k])) by {
        if r.Some? {
          var i :| 0 <= i < |rows[1..]| && rows[1..][i] == r.value && p(r.value)
            && forall k :: 0 <= k < i ==> !p(rows[1..][k]);
          assert rows[i + 1] == r.value;
          assert forall k :: 0 <= k < i + 1 ==> !p(rows[k]) by {
            forall k | 0 <= k < i + 1 ensures !p(rows[k]) {
              if k > 0 { assert rows[k] == rows[1..][k - 1]; }
            }
          }
        }
      }
      r
  }

  function FindUser(users: seq<User>, id: nat): Option<User>
  {
    FirstWhere(users, (u: User) => u.id == id)
  }

  function FindAssignment(assignments: seq<Assignment>, id: nat): Option<Assignment>
  {
    FirstWhere(assignments, (a: Assignment) => a.id == id)
  }

  function FindSubmission(submissions: seq<Submission>, id: nat): Option<Submission>
  {
    FirstWhere(submissions, (s: Submission) => s.id == id)
  }

  function FindGrade(grades: seq<Grade>, submissionId: nat): Option<Grade>
  {
    FirstWhere(grades, (g: Grade) => g.submissionId == submissionId)
  }

  /** Looking up a grade in a table with one more row in front. */
  lemma FindGradeCons(g: Grade, grades: seq<Grade>, submissionId: nat)
    ensures FindGrade([g] + grades, submissionId)
      == if g.submissionId == submissionId then Some(g) else FindGrade(grades, submissionId)
  {
    assert ([g] + grades)[1..] == grades;
  }

  /** The course roles that may manage a course's work. */
  predicate IsStaffRole(role: string)
  {
    role == "TEACHER" || role == "TA" || role == "OWNER"
  }

  /** Some enrollment of `uid` in the course, whatever its role. */
  predicate IsMember(enrollments: seq<Enrollment>, courseId: nat, uid: nat)
  {
    exists k :: 0 <= k < |enrollments| && enrollments[k].courseId == courseId && enrollments[k].userId == uid
  }

  /** An enrollment of `uid` in the course as TEACHER, TA or OWNER. */
  predicate IsStaff(enrollments: seq<Enrollment>, courseId: nat, uid: nat)
  {
    exists k :: 0 <= k < |enrollments| && enrollments[k].courseId == courseId
      && enrollments[k].userId == uid && IsStaffRole(enrollments[k].roleInCourse)
  }

  /** `JSON.parse(filesJson || '[]')`: a submission without files has an empty list. */
  function FilesOf(s: Submission): (files: seq<StoredFile>)
    ensures s.filesJson.None? ==> files == []
  {
    match s.filesJson
    case None => []
    case Some(list) => list
  }

  /** `Array.isArray(materialsJson) ? materialsJson : []`. */
  function MaterialsOf(a: Assignment): (ms: seq<Material>)
    ensures a.materialsJson.OtherJson? ==> ms == []
  {
    match a.materialsJson
    case MaterialArray(items) => items
    case OtherJson => []
  }

  predicate IsSubmissionOf(s: Submission, assignmentId: nat, studentId: nat)
  {
    s.assignmentId == assignmentId && s.studentId == studentId
  }

  /** The submission a `findFirst` ordered by version descending yields: one of
      the highest version among the student's submissions to the assignment
      (the first such in storage order), or none. */
  function LatestSubmission(subs: seq<Submission>, assignmentId: nat, studentId: nat): (r: Option<Submission>)
    ensures r.None? <==> forall k :: 0 <= k < |subs| ==> !IsSubmissionOf(subs[k], assignmentId, studentId)
    ensures r.Some? ==> r.value in subs && IsSubmissionOf(r.value, assignmentId, studentId)
    ensures r.Some? ==> forall k :: (0 <= k < |subs| && IsSubmissionOf(subs[k], assignmentId, studentId)
      ==> subs[k].version <= r.value.version)
  {
    if subs == [] then None
    else
      var rest := LatestSubmission(subs[1..], assignmentId, studentId);
      assert forall k :: 1 <= k < |subs| ==> subs[k] == subs[1..][k - 1];
      if !IsSubmissionOf(subs[0], assignmentId, studentId) then rest
      else if rest.None? || rest.value.version <= subs[0].version then Some(subs[0])
      else rest
  }

  /** No two submissions of one student to one assignment share a version. */
  predicate VersionsUnique(subs: seq<Submission>)
  {
    forall i, j :: (0 <= i < j < |subs| && subs[i].assignmentId == subs[j].assignmentId
      && subs[i].studentId == subs[j].studentId) ==> subs[i].version != subs[j].version
  }

  /** Where versions are unique, the latest submission is the only one of its
      version: every other submission of the pair has a strictly lower one. */
  lemma LatestIsStrictMaximum(subs: seq<Submission>, assignmentId: nat, studentId: nat)
    requires VersionsUnique(subs)
    ensures var r := LatestSubmission(subs, assignmentId, studentId);
      r.Some? ==> forall k :: (0 <= k < |subs| && IsSubmissionOf(subs[k], assignmentId, studentId)
        && subs[k] != r.value) ==> subs[k].version < r.value.version
  {
    var r := LatestSubmission(subs, assignmentId, studentId);
    if r.Some? {
      var i :| 0 <= i < |subs| && subs[i] == r.value;
      forall k | 0 <= k < |subs| && IsSubmissionOf(subs[k], assignmentId, studentId) && subs[k] != r.value
        ensures subs[k].version < r.value.version
      {
        assert k != i;
        if k < i { assert subs[k].version != subs[i].version; }
        else { assert subs[i].version != subs[k].version; }
      }
    }
  }

  /** A student enrollment joined with its user (`include: { user: true }`). */
  datatype Student = Student(enrollment: Enrollment, user: User)

  predicate IsStudentEnrollment(e: Enrollment, courseId: nat)
  {
    e.courseId == courseId && e.roleInCourse == "STUDENT"
  }

  /** `enrollment.findMany({ where: { courseId, roleInCourse: "STUDENT" }, include: { user: true } })`:
      the course's STUDENT enrollments in storage order, each with its user. */
  function CourseStudents(db: Db, courseId: nat): (r: seq<Student>)
    ensures forall k :: 0 <= k < |r| ==> (IsStudentEnrollment(r[k].enrollment, courseId)
      && r[k].enrollment in db.enrollments && r[k].user.id == r[k].enrollment.userId)
  {
    StudentsAmong(db.enrollments, db.users, courseId)
  }

  function StudentsAmong(es: seq<Enrollment>, users: seq<User>, courseId: nat): (r: seq<Student>)
    ensures forall k :: 0 <= k < |r| ==> (IsStudentEnrollment(r[k].enrollment, courseId)
      && r[k].enrollment in es && r[k].user.id == r[k].enrollment.userId)
  {
    if es == [] then []
    else
      var init := StudentsAmong(es[..|es| - 1], users, courseId);
      var e := es[|es| - 1];
      if IsStudentEnrollment(e, courseId) then
        match FindUser(users, e.userId)
        case Some(u) => init + [Student(e, u)]
        case None => init
      else init
  }

  /** Every enrollment names an existing user (the schema's foreign key). */
  predicate EnrolledUsersExist(db: Db)
  {
    forall k :: 0 <= k < |db.enrollments| ==> FindUser(db.users, db.enrollments[k].userId).Some?
  }

  /** The indices of the rows that satisfy `p`, ascending: each such row
      once, in storage order (what a `findMany` with that filter visits). */
  function Positions<T>(rows: seq<T>, p: T -> bool): (pos: seq<nat>)
    ensures forall k :: 0 <= k < |pos| ==> pos[k] < |rows| && p(rows[pos[k]])
    ensures forall k, l :: 0 <= k < l < |pos| ==> pos[k] < pos[l]
    ensures forall j :: 0 <= j < |rows| && p(rows[j]) ==> j in pos
  {
    if rows == [] then []
    else
      var n := |rows| - 1;
      var init := Positions(rows[..n], p);
      assert forall j :: 0 <= j < n ==> rows[j] == rows[..n][j];
      if p(rows[n]) then init + [n] else init
  }

  /** The k-th output is `f` of the row at the k-th position. */
  ghost predicate MapsAt<T, U>(out: seq<U>, pos: seq<nat>, rows: seq<T>, f: T -> U)
  {
    |out| == |pos| && forall k :: 0 <= k < |out| ==> pos[k] < |rows| && out[k] == f(rows[pos[k]])
  }

  /** A correspondence with a prefix of the rows holds for all of them, and
      extends by the next row. */
  lemma MapsAtExtend<T, U>(out: seq<U>, pos: seq<nat>, rows: seq<T>, n: nat, f: T -> U)
    requires n < |rows| && MapsAt(out, pos, rows[..n], f)
    ensures MapsAt(out, pos, rows, f)
    ensures MapsAt(out + [f(rows[n])], pos + [n], rows, f)
  {
    forall k | 0 <= k < |out|
      ensures pos[k] < |rows| && out[k] == f(rows[pos[k]])
    {
      assert rows[..n][pos[k]] == rows[pos[k]];
    }
    var out', pos' := out + [f(rows[n])], pos + [n];
    forall k | 0 <= k < |out'|
      ensures pos'[k] < |rows| && out'[k] == f(rows[pos'[k]])
    {
      if k < |out| { assert out'[k] == out[k] && pos'[k] == pos[k]; }
    }
  }

  /** The positions of the course's STUDENT enrollments in the enrollment table. */
  function StudentPositions(es: seq<Enrollment>, courseId: nat): seq<nat>
  {
    Positions(es, (e: Enrollment) => IsStudentEnrollment(e, courseId))
  }

  /** Under the foreign key, the join drops no enrollment and reorders none:
      the k-th student is the k-th STUDENT enrollment of the course, in
      storage order, with the user it names. */
  lemma {:induction false} CourseStudentsComplete(db: Db, courseId: nat)
    requires EnrolledUsersExist(db)
    ensures var r := CourseStudents(db, courseId);
      var pos := StudentPositions(db.enrollments, courseId);
      |r| == |pos|
      && forall k :: 0 <= k < |r| ==> (r[k].enrollment == db.enrollments[pos[k]]
        && FindUser(db.users, r[k].enrollment.userId) == Some(r[k].user))
  {
    StudentsAmongComplete(db.enrollments, db.users, courseId);
  }

  /** The k-th student is the enrollment at the k-th position, joined with its user. */
  predicate Aligned(r: seq<Student>, pos: seq<nat>, es: seq<Enrollment>, users: seq<User>)
  {
    |r| == |pos|
    && forall k :: 0 <= k < |r| ==> (pos[k] < |es| && r[k].enrollment == es[pos[k]]
      && FindUser(users, r[k].enrollment.userId) == Some(r[k].user))
  }

  /** Alignment with a prefix of the table carries over to the whole table. */
  lemma AlignedExtends(r: seq<Student>, pos: seq<nat>, es: seq<Enrollment>, n: nat, users: seq<User>)
    requires n <= |es| && Aligned(r, pos, es[..n], users)
    ensures Aligned(r, pos, es, users)
  {
    forall k | 0 <= k < |r|
      ensures pos[k] < |es| && r[k].enrollment == es[pos[k]]
    {
      assert es[..n][pos[k]] == es[pos[k]];
    }
  }

  lemma AlignedAppend(r: seq<Student>, pos: seq<nat>, es: seq<Enrollment>, n: nat, users: seq<User>, u: User)
    requires n < |es| && Aligned(r, pos, es, users) && FindUser(users, es[n].userId) == Some(u)
    ensures Aligned(r + [Student(es[n], u)], pos + [n], es, users)
  {
    var r' := r + [Student(es[n], u)];
    var pos' := pos + [n];
    forall k | 0 <= k < |r'|
      ensures pos'[k] < |es| && r'[k].enrollment == es[pos'[k]]
        && FindUser(users, r'[k].enrollment.userId) == Some(r'[k].user)
    {
      if k < |r| { assert r'[k] == r[k] && pos'[k] == pos[k]; }
    }
  }

  lemma {:induction false} StudentsAmongComplete(es: seq<Enrollment>, users: seq<User>, courseId: nat)
    requires forall k :: 0 <= k < |es| ==> FindUser(users, es[k].userId).Some?
    ensures Aligned(StudentsAmong(es, users, courseId), StudentPositions(es, courseId), es, users)
  {
    if es != [] {
      var n := |es| - 1;
      var prefix := es[..n];
      assert forall k :: 0 <= k < n ==> prefix[k] == es[k];
      StudentsAmongComplete(prefix, users, courseId);
      var init := StudentsAmong(prefix, users, courseId);
      var initPos := StudentPositions(prefix, courseId);
      AlignedExtends(init, initPos, es, n, users);
      if IsStudentEnrollment(es[n], courseId) {
        var u := FindUser(users, es[n].userId).value;
        assert StudentsAmong(es, users, courseId) == init + [Student(es[n], u)];
        assert StudentPositions(es, courseId) == initPos + [n];
        AlignedAppend(init, initPos, es, n, users, u);
      } else {
        assert StudentsAmong(es, users, courseId) == init;
        assert StudentPositions(es, courseId) == initPos;
      }
    }
  }
}
