/** The submission routes: handing in files (with per-student version
    numbers), grading, a student's own history, the staff listing of the
    latest submission per student, and listing and downloading a
    submission's files. */
module Submissions {
  import opened Common
  import opened Strings
  import opened Sorting
  import opened Store
  import opened FileNames

  /** One part of a multipart request. `now` is the clock reading
      (`Date.now()`) taken when a file part is stored; an absent filename is
      the empty string. */
  datatype Part = FilePart(filename: string, now: nat) | FieldPart(fieldname: string, value: string)

  /** `uploadDir/courseId/assignmentId/uid`, where a student's uploads go. */
  function SubmissionDir(uploadDir: string, courseId: nat, assignmentId: nat, uid: nat): string
  {
    JoinPath(JoinPath(JoinPath(uploadDir, NatToString(courseId)), NatToString(assignmentId)), NatToString(uid))
  }

  /** The record of one stored file part: the sanitised name (`file` when the
      part has none) and the path `dir/<now>-<safe>`. */
  function SavedFile(dir: string, filename: string, now: nat): StoredFile
  {
    var safe := Sanitize(OrElse(filename, "file"));
    StoredFile(safe, JoinPath(dir, StoredName(now, safe)))
  }

  predicate IsFilePart(p: Part)
  {
    p.FilePart?
  }

  /** The record a part leaves when it is a file part (a field part leaves
      none, and is never at a file-part position). */
  function SavedPart(dir: string, p: Part): StoredFile
  {
    match p
    case FilePart(name, now) => SavedFile(dir, name, now)
    case FieldPart(_, _) => StoredFile("", "")
  }

  function SavedPartIn(dir: string): Part -> StoredFile
  {
    (p: Part) => SavedPart(dir, p)
  }

  /** The files the part loop records, one per file part, in upload order:
      each under a non-empty safe name and below `dir`; none exactly when no
      part is a file. */
  function SavedFiles(dir: string, parts: seq<Part>): (r: seq<StoredFile>)
    ensures r == [] <==> forall k :: 0 <= k < |parts| ==> !IsFilePart(parts[k])
    ensures forall k :: 0 <= k < |r| ==> (r[k].filename != [] && IsSafeName(r[k].filename)
      && StartsWith(r[k].path, dir + "/"))
  {
    if parts == [] then []
    else
      var init := SavedFiles(dir, parts[..|parts| - 1]);
      assert forall k :: 0 <= k < |parts| - 1 ==> parts[..|parts| - 1][k] == parts[k];
      match parts[|parts| - 1]
      case FilePart(name, now) => init + [SavedFile(dir, name, now)]
      case FieldPart(_, _) => init
  }

  /** The k-th record is that of the k-th file part: every file part is
      stored and recorded exactly once, in upload order. */
  lemma {:induction false} SavedFilesInOrder(dir: string, parts: seq<Part>)
    ensures MapsAt(SavedFiles(dir, parts), Positions(parts, IsFilePart), parts, SavedPartIn(dir))
  {
    if parts != [] {
      var n := |parts| - 1;
      var prefix := parts[..n];
      SavedFilesInOrder(dir, prefix);
      var init := SavedFiles(dir, prefix);
      var initPos := Positions(prefix, IsFilePart);
      MapsAtExtend(init, initPos, parts, n, SavedPartIn(dir));
      if IsFilePart(parts[n]) {
        assert SavedFiles(dir, parts) == init + [SavedPartIn(dir)(parts[n])];
        assert Positions(parts, IsFilePart) == initPos + [n];
      } else {
        assert SavedFiles(dir, parts) == init;
        assert Positions(parts, IsFilePart) == initPos;
      }
    }
  }

  predicate IsLinkField(p: Part)
  {
    p.FieldPart? && p.fieldname == "external_link"
  }

  /** The value of the last `external_link` field, if any: a later one
      overrides every earlier one. */
  function LastExternalLink(parts: seq<Part>): (r: Option<string>)
    ensures r.Some? ==> exists k :: (0 <= k < |parts| && parts[k] == FieldPart("external_link", r.value)
      && forall j :: k < j < |parts| ==> !IsLinkField(parts[j]))
    ensures r.None? <==> forall k :: 0 <= k < |parts| ==> !IsLinkField(parts[k])
  {
    if parts == [] then None
    else
      var n := |parts| - 1;
      var init := parts[..n];
      if IsLinkField(parts[n]) then Some(parts[n].value)
      else
        var r := LastExternalLink(init);
        assert forall k :: 0 <= k < n ==> init[k] == parts[k];
        assert r.Some? ==> exists k :: (0 <= k < |parts| && parts[k] == FieldPart("external_link", r.value)
          && forall j :: k < j < |parts| ==> !IsLinkField(parts[j])) by {
          if r.Some? {
            var k :| 0 <= k < n && init[k] == FieldPart("external_link", r.value)
              && forall j :: k < j < n ==> !IsLinkField(init[j]);
            assert forall j :: k < j < |parts| ==> !IsLinkField(parts[j]);
          }
        }
        r
  }

  /** The part loop of the hand-in handler: every file part is stored and
      recorded, and the last `external_link` field is kept. */
  method ReceiveParts(dir: string, parts: seq<Part>) returns (saved: seq<StoredFile>, externalLink: Option<string>)
    ensures saved == SavedFiles(dir, parts)
    ensures externalLink == LastExternalLink(parts)
  {
    saved, externalLink := [], None;
    var i := 0;
    while i < |parts|
      invariant 0 <= i <= |parts|
      invariant saved == SavedFiles(dir, parts[..i])
      invariant externalLink == LastExternalLink(parts[..i])
    {
      ghost var next := parts[..i + 1];
      assert next[..i] == parts[..i] && next[i] == parts[i];
      var part := parts[i];
      if part.FilePart? {
        saved := saved + [SavedFile(dir, part.filename, part.now)];
      } else if part.fieldname == "external_link" {
        externalLink := Some(part.value);
      }
      i := i + 1;
    }
    assert parts[..|parts|] == parts;
  }

  /** `(last?.version || 0) + 1`: one more than the student's highest version
      for the assignment, or 1 for a first hand-in. */
  function NextVersion(subs: seq<Submission>, assignmentId: nat, uid: nat): (v: int)
    ensures forall k :: 0 <= k < |subs| && IsSubmissionOf(subs[k], assignmentId, uid) ==> subs[k].version < v
    ensures v == 1 || exists k :: 0 <= k < |subs| && IsSubmissionOf(subs[k], assignmentId, uid) && subs[k].version == v - 1
  {
    match LatestSubmission(subs, assignmentId, uid)
    case None => 1
    case Some(last) =>
      assert exists k :: 0 <= k < |subs| && subs[k] == last;
      last.version + 1
  }

  predicate VersionsPositive(subs: seq<Submission>)
  {
    forall k :: 0 <= k < |subs| ==> subs[k].version >= 1
  }

  /** A submission recorded with the next version keeps every pair's versions
      distinct and positive. */
  lemma RecordingKeepsVersionsValid(subs: seq<Submission>, s: Submission)
    requires VersionsUnique(subs) && VersionsPositive(subs)
    requires s.version == NextVersion(subs, s.assignmentId, s.studentId)
    ensures VersionsUnique(subs + [s]) && VersionsPositive(subs + [s])
  {
    var t := subs + [s];
    forall i, j | 0 <= i < j < |t| && t[i].assignmentId == t[j].assignmentId && t[i].studentId == t[j].studentId
      ensures t[i].version != t[j].version
    {
      if j == |subs| {
        assert IsSubmissionOf(subs[i], s.assignmentId, s.studentId);
      }
    }
    if !(subs == [] || exists k :: 0 <= k < |subs| && IsSubmissionOf(subs[k], s.assignmentId, s.studentId)) {
      assert s.version == 1;
    }
  }

  /** The database row the hand-in handler creates. */
  function NewSubmission(
    subs: seq<Submission>, id: nat, assignmentId: nat, uid: nat,
    saved: seq<StoredFile>, externalLink: Option<string>, now: int): Submission
  {
    Submission(id, assignmentId, uid, NextVersion(subs, assignmentId, uid),
      if saved == [] then None else Some(saved), externalLink, now)
  }

  /** POST /assignments/:id/submissions. 404 for an unknown assignment, 403
      for a caller not enrolled in its course; otherwise the parts are stored
      and a submission row is created with the next version number.
      `newId` and `now` are the row's database-assigned id and time. */
  method Submit(
    db: Db, uploadDir: string, uid: nat, assignmentId: nat, parts: seq<Part>, newId: nat, now: int)
    returns (r: Response<Submission>)
    ensures FindAssignment(db.assignments, assignmentId).None? <==> r == Fail(NotFound)
    ensures var a := FindAssignment(db.assignments, assignmentId);
      a.Some? && !IsMember(db.enrollments, a.value.courseId, uid) ==> r == Fail(Forbidden)
    ensures var a := FindAssignment(db.assignments, assignmentId);
      a.Some? && IsMember(db.enrollments, a.value.courseId, uid) ==> r.Ok?
    ensures r.Ok? ==> (
      var a := FindAssignment(db.assignments, assignmentId).value;
      var saved := SavedFiles(SubmissionDir(uploadDir, a.courseId, assignmentId, uid), parts);
      && r.body.id == newId && r.body.assignmentId == assignmentId && r.body.studentId == uid
      && r.body.version == NextVersion(db.submissions, assignmentId, uid)
      && (r.body.filesJson.None? <==> forall k :: 0 <= k < |parts| ==> !IsFilePart(parts[k]))
      && (r.body.filesJson.Some? ==> r.body.filesJson.value == saved)
      && r.body.externalLink == LastExternalLink(parts)
      && r.body.submittedAt == now)
  {
    var found := FindAssignment(db.assignments, assignmentId);
    if found.None? {
      return Fail(NotFound);
    }
    var a := found.value;
    if !IsMember(db.enrollments, a.courseId, uid) {
      return Fail(Forbidden);
    }
    var saved, link := ReceiveParts(SubmissionDir(uploadDir, a.courseId, assignmentId, uid), parts);
    r := Ok(NewSubmission(db.submissions, newId, assignmentId, uid, saved, link, now));
  }

  /** `submission.findUnique({ include: { assignment: true } })`: the
      submission with the course of its assignment. */
  function SubmissionWithCourse(db: Db, id: nat): (r: Option<(Submission, nat)>)
    ensures r.Some? ==> r.value.0.id == id && r.value.0 in db.submissions
  {
    match FindSubmission(db.submissions, id)
    case None => None
    case Some(s) =>
      match FindAssignment(db.assignments, s.assignmentId)
      case None => None
      case Some(a) =>
        assert exists i :: 0 <= i < |db.submissions| && db.submissions[i] == s;
        Some((s, a.courseId))
  }

  datatype GradeBody = GradeBody(score: Option<int>, feedbackText: Option<string>, rubricScoresJson: Option<string>)

  predicate GradesUnique(grades: seq<Grade>)
  {
    forall i, j :: 0 <= i < j < |grades| ==> grades[i].submissionId != grades[j].submissionId
  }

  /** `grade.upsert({ where: { submissionId } })`: the submission's grade gets
      the new score, feedback and rubric (keeping its grader), or a grade by
      `graderId` is added when it has none. Grades of other submissions stay. */
  function UpsertGrade(
    grades: seq<Grade>, submissionId: nat, graderId: nat, score: int, feedbackText: string,
    rubric: Option<string>): (r: seq<Grade>)
    ensures var g := FindGrade(r, submissionId);
      && g.Some? && g.value.score == score && g.value.feedbackText == feedbackText
      && g.value.rubricScoresJson == rubric
      && g.value.graderId == (match FindGrade(grades, submissionId)
                              case Some(prev) => prev.graderId
                              case None => graderId)
    ensures forall k :: 0 <= k < |grades| && grades[k].submissionId != submissionId ==> grades[k] in r
    ensures forall k :: 0 <= k < |r| && r[k].submissionId != submissionId ==> r[k] in grades
    ensures |r| == if FindGrade(grades, submissionId).Some? then |grades| else |grades| + 1
  {
    if grades == [] then [Grade(submissionId, graderId, score, feedbackText, rubric)]
    else
      var head, tail := grades[0], grades[1..];
      assert grades == [head] + tail;
      FindGradeCons(head, tail, submissionId);
      if head.submissionId == submissionId then
        var updated := head.(score := score, feedbackText := feedbackText, rubricScoresJson := rubric);
        FindGradeCons(updated, tail, submissionId);
        ReplaceHeadMembers(head, updated, tail, submissionId);
        [updated] + tail
      else
        var rest := UpsertGrade(tail, submissionId, graderId, score, feedbackText, rubric);
        FindGradeCons(head, rest, submissionId);
        ConsMembers(head, tail, rest, submissionId);
        [head] + rest
  }

  /** Replacing the first grade, which is the submission's, keeps the others. */
  lemma ReplaceHeadMembers(head: Grade, updated: Grade, tail: seq<Grade>, submissionId: nat)
    requires head.submissionId == submissionId && updated.submissionId == submissionId
    ensures var before, after := [head] + tail, [updated] + tail;
      && (forall k :: 0 <= k < |before| && before[k].submissionId != submissionId ==> before[k] in after)
      && (forall k :: 0 <= k < |after| && after[k].submissionId != submissionId ==> after[k] in before)
  {
    var before, after := [head] + tail, [updated] + tail;
    forall k | 0 <= k < |before| && before[k].submissionId != submissionId
      ensures before[k] in after
    {
      assert k > 0 && before[k] == after[k];
    }
    forall k | 0 <= k < |after| && after[k].submissionId != submissionId
      ensures after[k] in before
    {
      assert k > 0 && after[k] == before[k];
    }
  }

  /** Putting the same grade in front of two tables that agree on the other
      submissions' grades keeps them in agreement. */
  lemma ConsMembers(head: Grade, tail: seq<Grade>, rest: seq<Grade>, submissionId: nat)
    requires forall k :: 0 <= k < |tail| && tail[k].submissionId != submissionId ==> tail[k] in rest
    requires forall k :: 0 <= k < |rest| && rest[k].submissionId != submissionId ==> rest[k] in tail
    ensures var before, after := [head] + tail, [head] + rest;
      && (forall k :: 0 <= k < |before| && before[k].submissionId != submissionId ==> before[k] in after)
      && (forall k :: 0 <= k < |after| && after[k].submissionId != submissionId ==> after[k] in before)
  {
    var before, after := [head] + tail, [head] + rest;
    forall k | 0 <= k < |before| && before[k].submissionId != submissionId
      ensures before[k] in after
    {
      if k > 0 {
        assert before[k] == tail[k - 1];
        var j :| 0 <= j < |rest| && rest[j] == tail[k - 1];
        assert after[j + 1] == rest[j];
      }
    }
    forall k | 0 <= k < |after| && after[k].submissionId != submissionId
      ensures after[k] in before
    {
      if k > 0 {
        assert after[k] == rest[k - 1];
        var j :| 0 <= j < |tail| && tail[j] == rest[k - 1];
        assert before[j + 1] == tail[j];
      }
    }
  }

  /** A grade of a submission no other grade belongs to can go in front. */
  lemma ConsUnique(head: Grade, rest: seq<Grade>)
    requires GradesUnique(rest)
    requires forall k :: 0 <= k < |rest| ==> rest[k].submissionId != head.submissionId
    ensures GradesUnique([head] + rest)
  {
    var r := [head] + rest;
    forall i, j | 0 <= i < j < |r|
      ensures r[i].submissionId != r[j].submissionId
    {
      assert r[j] == rest[j - 1];
      if i > 0 { assert r[i] == rest[i - 1]; }
    }
  }

  /** In a table without duplicates, the first grade's submission has no
      other grade. */
  lemma UniqueHead(head: Grade, tail: seq<Grade>)
    requires GradesUnique([head] + tail)
    ensures GradesUnique(tail)
    ensures forall k :: 0 <= k < |tail| ==> tail[k].submissionId != head.submissionId
  {
    var g := [head] + tail;
    forall k | 0 <= k < |tail|
      ensures tail[k].submissionId != head.submissionId
    {
      assert g[0] == head && g[k + 1] == tail[k];
    }
    forall i, j | 0 <= i < j < |tail|
      ensures tail[i].submissionId != tail[j].submissionId
    {
      assert g[i + 1] == tail[i] && g[j + 1] == tail[j];
    }
  }

  /** Grading never gives a submission a second grade. */
  lemma {:induction false} UpsertGradeKeepsUnique(
    grades: seq<Grade>, submissionId: nat, graderId: nat, score: int, feedbackText: string,
    rubric: Option<string>)
    requires GradesUnique(grades)
    ensures GradesUnique(UpsertGrade(grades, submissionId, graderId, score, feedbackText, rubric))
  {
    if grades != [] {
      var head, tail := grades[0], grades[1..];
      assert grades == [head] + tail;
      UniqueHead(head, tail);
      if head.submissionId == submissionId {
        var updated := head.(score := score, feedbackText := feedbackText, rubricScoresJson := rubric);
        ConsUnique(updated, tail);
      } else {
        var rest := UpsertGrade(tail, submissionId, graderId, score, feedbackText, rubric);
        UpsertGradeKeepsUnique(tail, submissionId, graderId, score, feedbackText, rubric);
        forall k | 0 <= k < |rest|
          ensures rest[k].submissionId != head.submissionId
        {
          if rest[k].submissionId != submissionId {
            var j :| 0 <= j < |tail| && tail[j] == rest[k];
          }
        }
        ConsUnique(head, rest);
      }
    }
  }

  datatype Graded = Graded(grade: Grade, grades: seq<Grade>)

  /** POST /submissions/:id/grade. 404 for an unknown submission; 403 unless
      the caller is TEACHER, TA or OWNER of the course (a global ADMIN role
      does not count); otherwise the grade is upserted. Missing body fields
      default to score 0, empty feedback and no rubric. */
  function GradeSubmission(db: Db, uid: nat, submissionId: nat, body: GradeBody): (r: Response<Graded>)
    ensures SubmissionWithCourse(db, submissionId).None? <==> r == Fail(NotFound)
    ensures var f := SubmissionWithCourse(db, submissionId);
      f.Some? ==> (r == Fail(Forbidden) <==> !IsStaff(db.enrollments, f.value.1, uid))
    ensures var f := SubmissionWithCourse(db, submissionId);
      f.Some? && IsStaff(db.enrollments, f.value.1, uid) ==> r.Ok?
    ensures r.Ok? ==> (
      && r.body.grades == UpsertGrade(db.grades, submissionId, uid, r.body.grade.score,
           r.body.grade.feedbackText, body.rubricScoresJson)
      && FindGrade(r.body.grades, submissionId) == Some(r.body.grade)
      && r.body.grade.score == (if body.score.Some? then body.score.value else 0)
      && r.body.grade.feedbackText == (if body.feedbackText.Some? then body.feedbackText.value else "")
      && r.body.grade.rubricScoresJson == body.rubricScoresJson)
  {
    match SubmissionWithCourse(db, submissionId)
    case None => Fail(NotFound)
    case Some((sub, courseId)) =>
      if !IsStaff(db.enrollments, courseId, uid) then Fail(Forbidden)
      else
        var score := if body.score.Some? then body.score.value else 0;
        var feedback := if body.feedbackText.Some? then body.feedbackText.value else "";
        var grades := UpsertGrade(db.grades, sub.id, uid, score, feedback, body.rubricScoresJson);
        Ok(Graded(FindGrade(grades, sub.id).value, grades))
  }

  /** The submission as the history and listing routes show it, with its
      file list read from `filesJson`. */
  datatype SubmissionView = SubmissionView(
    id: nat, version: int, submittedAt: int, grade: Option<Grade>,
    files: seq<StoredFile>, externalLink: Option<string>)

  function ViewOf(db: Db, s: Submission): SubmissionView
  {
    SubmissionView(s.id, s.version, s.submittedAt, FindGrade(db.grades, s.id), FilesOf(s), s.externalLink)
  }

  function SubmissionsOf(subs: seq<Submission>, assignmentId: nat, uid: nat): (r: seq<Submission>)
    ensures forall k :: 0 <= k < |r| ==> IsSubmissionOf(r[k], assignmentId, uid) && r[k] in subs
    ensures forall k :: 0 <= k < |subs| && IsSubmissionOf(subs[k], assignmentId, uid) ==> subs[k] in r
  {
    if subs == [] then []
    else
      var rest := SubmissionsOf(subs[1..], assignmentId, uid);
      assert forall k :: 1 <= k < |subs| ==> subs[k] == subs[1..][k - 1];
      if IsSubmissionOf(subs[0], assignmentId, uid) then [subs[0]] + rest else rest
  }

  function ByVersionDescending(s: Submission): int
  {
    -s.version
  }

  /** The caller's submissions to the assignment, highest version first. */
  function HistoryOf(db: Db, uid: nat, assignmentId: nat): seq<Submission>
  {
    SortBy(SubmissionsOf(db.submissions, assignmentId, uid), ByVersionDescending)
  }

  /** GET /assignments/:id/my-submissions: the caller's submission history. */
  function MySubmissions(db: Db, uid: nat, assignmentId: nat): (r: seq<SubmissionView>)
    ensures |r| == |HistoryOf(db, uid, assignmentId)|
    ensures forall k :: 0 <= k < |r| ==> r[k] == ViewOf(db, HistoryOf(db, uid, assignmentId)[k])
  {
    var sorted := HistoryOf(db, uid, assignmentId);
    seq(|sorted|, k requires 0 <= k < |sorted| => ViewOf(db, sorted[k]))
  }

  /** The history holds exactly the caller's submissions to the assignment. */
  lemma HistoryMembers(db: Db, uid: nat, assignmentId: nat, s: Submission)
    ensures s in HistoryOf(db, uid, assignmentId) <==> s in db.submissions && IsSubmissionOf(s, assignmentId, uid)
  {
    var mine := SubmissionsOf(db.submissions, assignmentId, uid);
    assert multiset(HistoryOf(db, uid, assignmentId)) == multiset(mine);
    assert s in HistoryOf(db, uid, assignmentId) <==> s in multiset(mine);
    if s in db.submissions && IsSubmissionOf(s, assignmentId, uid) {
      var i :| 0 <= i < |db.submissions| && db.submissions[i] == s;
    }
  }

  /** The history runs from the highest version down. */
  lemma HistoryDescending(db: Db, uid: nat, assignmentId: nat)
    ensures var h := HistoryOf(db, uid, assignmentId);
      forall i, j :: 0 <= i < j < |h| ==> h[i].version >= h[j].version
  {
    var h := HistoryOf(db, uid, assignmentId);
    forall i, j | 0 <= i < j < |h|
      ensures h[i].version >= h[j].version
    {
      assert ByVersionDescending(h[i]) <= ByVersionDescending(h[j]);
    }
  }

  /** The history is empty exactly when the student has no submission. */
  lemma HistoryEmpty(db: Db, uid: nat, assignmentId: nat)
    ensures HistoryOf(db, uid, assignmentId) == [] <==> LatestSubmission(db.submissions, assignmentId, uid).None?
  {
    var latest := LatestSubmission(db.submissions, assignmentId, uid);
    if latest.Some? {
      HistoryMembers(db, uid, assignmentId, latest.value);
    }
    var h := HistoryOf(db, uid, assignmentId);
    if h != [] {
      HistoryMembers(db, uid, assignmentId, h[0]);
      var i :| 0 <= i < |db.submissions| && db.submissions[i] == h[0];
    }
  }

  /** A non-empty list holding exactly the pair's submissions, highest version
      first, starts with the version of the latest submission. */
  lemma HeadIsLatest(h: seq<Submission>, subs: seq<Submission>, assignmentId: nat, uid: nat)
    requires h != []
    requires forall s :: s in h <==> s in subs && IsSubmissionOf(s, assignmentId, uid)
    requires forall i, j :: 0 <= i < j < |h| ==> h[i].version >= h[j].version
    ensures LatestSubmission(subs, assignmentId, uid).Some?
    ensures h[0].version == LatestSubmission(subs, assignmentId, uid).value.version
  {
    assert h[0] in h;
    var i :| 0 <= i < |subs| && subs[i] == h[0];
    var latest := LatestSubmission(subs, assignmentId, uid).value;
    assert h[0].version <= latest.version;
    var k :| 0 <= k < |h| && h[k] == latest;
    assert h[0].version >= h[k].version;
  }

  /** A non-empty history starts with the version the staff listing shows. */
  lemma HistoryHead(db: Db, uid: nat, assignmentId: nat)
    requires HistoryOf(db, uid, assignmentId) != []
    ensures LatestSubmission(db.submissions, assignmentId, uid).Some?
    ensures HistoryOf(db, uid, assignmentId)[0].version == LatestSubmission(db.submissions, assignmentId, uid).value.version
  {
    var h := HistoryOf(db, uid, assignmentId);
    forall s
      ensures s in h <==> s in db.submissions && IsSubmissionOf(s, assignmentId, uid)
    {
      HistoryMembers(db, uid, assignmentId, s);
    }
    HistoryDescending(db, uid, assignmentId);
    HeadIsLatest(h, db.submissions, assignmentId, uid);
  }

  /** The history runs from the highest version down, and it is empty exactly
      when the student has no submission; otherwise it starts with the version
      the staff listing shows for them. */
  lemma {:induction false} MySubmissionsOrdered(db: Db, uid: nat, assignmentId: nat)
    ensures var r := MySubmissions(db, uid, assignmentId);
      && (forall i, j :: 0 <= i < j < |r| ==> r[i].version >= r[j].version)
      && (r == [] <==> LatestSubmission(db.submissions, assignmentId, uid).None?)
      && (r != [] ==> r[0].version == LatestSubmission(db.submissions, assignmentId, uid).value.version)
  {
    var h := HistoryOf(db, uid, assignmentId);
    var r := MySubmissions(db, uid, assignmentId);
    HistoryDescending(db, uid, assignmentId);
    assert forall k :: 0 <= k < |r| ==> r[k].version == h[k].version;
    HistoryEmpty(db, uid, assignmentId);
    if h != [] {
      HistoryHead(db, uid, assignmentId);
    }
  }

  datatype StudentView = StudentView(id: nat, studentId: Option<string>, name: string, email: Option<string>)

  datatype SubmissionSummary = SubmissionSummary(
    id: nat, version: int, submittedAt: int, files: seq<StoredFile>, externalLink: Option<string>)

  datatype ListingRow = ListingRow(student: StudentView, submission: Option<SubmissionSummary>, grade: Option<Grade>)

  /** The listing row of one student: their highest-version submission to the
      assignment (or none) and that submission's grade (or none). */
  function RowFor(db: Db, assignmentId: nat, st: Student): (row: ListingRow)
    ensures row.student == StudentView(st.enrollment.userId, st.user.studentId, st.user.name, st.user.email)
    ensures row.submission.None? <==> forall k :: 0 <= k < |db.submissions| ==> !IsSubmissionOf(db.submissions[k], assignmentId, st.enrollment.userId)
    ensures row.submission.Some? ==> exists s :: (s in db.submissions
      && IsSubmissionOf(s, assignmentId, st.enrollment.userId)
      && row.submission.value == SubmissionSummary(s.id, s.version, s.submittedAt, FilesOf(s), s.externalLink)
      && row.grade == FindGrade(db.grades, s.id)
      && forall k :: 0 <= k < |db.submissions| && IsSubmissionOf(db.submissions[k], assignmentId, st.enrollment.userId)
           ==> db.submissions[k].version <= s.version)
    ensures row.submission.None? ==> row.grade.None?
  {
    var u := st.user;
    var student := StudentView(st.enrollment.userId, u.studentId, u.name, u.email);
    match LatestSubmission(db.submissions, assignmentId, st.enrollment.userId)
    case None => ListingRow(student, None, None)
    case Some(s) =>
      ListingRow(student, Some(SubmissionSummary(s.id, s.version, s.submittedAt, FilesOf(s), s.externalLink)),
        FindGrade(db.grades, s.id))
  }

  /** GET /assignments/:id/submissions. 404 for an unknown assignment, 403
      unless the caller is course staff; otherwise one row per STUDENT
      enrollment of the course, in enrollment order. */
  method ListSubmissions(db: Db, uid: nat, assignmentId: nat) returns (r: Response<seq<ListingRow>>)
    ensures FindAssignment(db.assignments, assignmentId).None? <==> r == Fail(NotFound)
    ensures var a := FindAssignment(db.assignments, assignmentId);
      a.Some? ==> (r == Fail(Forbidden) <==> !IsStaff(db.enrollments, a.value.courseId, uid))
    ensures var a := FindAssignment(db.assignments, assignmentId);
      a.Some? && IsStaff(db.enrollments, a.value.courseId, uid) ==> r.Ok?
    ensures r.Ok? ==> (
      var students := CourseStudents(db, FindAssignment(db.assignments, assignmentId).value.courseId);
      && |r.body| == |students|
      && forall k :: 0 <= k < |students| ==> r.body[k] == RowFor(db, assignmentId, students[k]))
  {
    var found := FindAssignment(db.assignments, assignmentId);
    if found.None? {
      return Fail(NotFound);
    }
    if !IsStaff(db.enrollments, found.value.courseId, uid) {
      return Fail(Forbidden);
    }
    var students := CourseStudents(db, found.value.courseId);
    ghost var want := seq(|students|, k requires 0 <= k < |students| => RowFor(db, assignmentId, students[k]));
    var rows: seq<ListingRow> := [];
    for i := 0 to |students|
      invariant rows == want[..i]
    {
      var row := RowFor(db, assignmentId, students[i]);
      assert want[..i + 1] == want[..i] + [row];
      rows := rows + [row];
    }
    assert want[..|students|] == want;
    r := Ok(rows);
  }

  predicate MayReadSubmission(db: Db, sub: Submission, courseId: nat, uid: nat)
  {
    sub.studentId == uid || IsStaff(db.enrollments, courseId, uid)
  }

  datatype FileEntry = FileEntry(idx: nat, filename: string)

  /** GET /submissions/:id/files. 404 for an unknown submission, 403 unless the
      caller owns it or is course staff; otherwise each file's position and name. */
  function ListFiles(db: Db, uid: nat, submissionId: nat): (r: Response<seq<FileEntry>>)
    ensures SubmissionWithCourse(db, submissionId).None? <==> r == Fail(NotFound)
    ensures var f := SubmissionWithCourse(db, submissionId);
      f.Some? ==> (r == Fail(Forbidden) <==> !MayReadSubmission(db, f.value.0, f.value.1, uid))
    ensures var f := SubmissionWithCourse(db, submissionId);
      f.Some? && MayReadSubmission(db, f.value.0, f.value.1, uid) ==> r.Ok?
    ensures r.Ok? ==> (
      var files := FilesOf(SubmissionWithCourse(db, submissionId).value.0);
      && |r.body| == |files|
      && forall k :: 0 <= k < |files| ==> r.body[k] == FileEntry(k, files[k].filename))
  {
    match SubmissionWithCourse(db, submissionId)
    case None => Fail(NotFound)
    case Some((sub, courseId)) =>
      if !MayReadSubmission(db, sub, courseId, uid) then Fail(Forbidden)
      else
        var files := FilesOf(sub);
        Ok(seq(|files|, k requires 0 <= k < |files| => FileEntry(k, files[k].filename)))
  }

  /** What a download sends: the resolved file and its `Content-Disposition`. */
  datatype Served = Served(path: string, contentDisposition: string)

  /** GET /submissions/:id/files/:idx/download. The checks run in a fixed order:
      unknown submission 404, neither owner nor staff 403, index out of range
      404, resolved path not starting with the resolved upload root 403;
      otherwise the file is served. `resolve` stands for `path.resolve`. */
  function DownloadFile(
    db: Db, uid: nat, uploadDir: string, resolve: string -> string, submissionId: nat, idx: int): (r: Response<Served>)
    ensures var f := SubmissionWithCourse(db, submissionId);
      r == Fail(NotFound) <==> (f.None? || (MayReadSubmission(db, f.value.0, f.value.1, uid) && !(0 <= idx < |FilesOf(f.value.0)|)))
    ensures var f := SubmissionWithCourse(db, submissionId);
      r == Fail(Forbidden) <==> (f.Some? && (!MayReadSubmission(db, f.value.0, f.value.1, uid)
        || (0 <= idx < |FilesOf(f.value.0)| && !PathAllowed(resolve(FilesOf(f.value.0)[idx].path), resolve(uploadDir)))))
    ensures var f := SubmissionWithCourse(db, submissionId);
      (f.Some? && MayReadSubmission(db, f.value.0, f.value.1, uid) && 0 <= idx < |FilesOf(f.value.0)|
        && PathAllowed(resolve(FilesOf(f.value.0)[idx].path), resolve(uploadDir))) ==> r.Ok?
    ensures r.Ok? ==> (
      var f := SubmissionWithCourse(db, submissionId).value;
      && MayReadSubmission(db, f.0, f.1, uid) && 0 <= idx < |FilesOf(f.0)|
      && var file := FilesOf(f.0)[idx];
      && PathAllowed(r.body.path, resolve(uploadDir))
      && r.body == Served(resolve(file.path), ContentDisposition(file.filename)))
  {
    match SubmissionWithCourse(db, submissionId)
    case None => Fail(NotFound)
    case Some((sub, courseId)) =>
      if !MayReadSubmission(db, sub, courseId, uid) then Fail(Forbidden)
      else
        var files := FilesOf(sub);
        if !(0 <= idx < |files|) then Fail(NotFound)
        else
          var filePath := resolve(files[idx].path);
          if !PathAllowed(filePath, resolve(uploadDir)) then Fail(Forbidden)
          else Ok(Served(filePath, ContentDisposition(files[idx].filename)))
  }
}
