/** GET /courses/:courseId/gradebook: a student × assignment matrix of the
    scores on each student's latest submission, answered as JSON or rendered
    as comma-separated text. */
module Gradebook {
  import opened Common
  import opened Strings
  import opened Sorting
  import opened Store
  import opened Assignments

  /** `studentId || email || id`: the first non-empty of the user's student
      number and email, else the numeric user id. */
  datatype RowKey = ByText(text: string) | ById(id: nat)

  function RowKeyOf(u: User): (k: RowKey)
    ensures OrEmpty(u.studentId) != [] ==> k == ByText(u.studentId.value)
    ensures OrEmpty(u.studentId) == [] && OrEmpty(u.email) != [] ==> k == ByText(u.email.value)
    ensures k.ById? <==> OrEmpty(u.studentId) == [] && OrEmpty(u.email) == []
    ensures k.ById? ==> k.id == u.id
    ensures k.ByText? ==> k.text != []
  {
    if OrEmpty(u.studentId) != [] then ByText(u.studentId.value)
    else if OrEmpty(u.email) != [] then ByText(u.email.value)
    else ById(u.id)
  }

  /** `sub?.grade?.score ?? ""`: a score, or the empty cell. */
  datatype Cell = Score(score: int) | Blank

  /** The cell of one student and one assignment: the grade of the student's
      highest-version submission; blank when there is no submission or that
      one is ungraded, whatever grades earlier versions carry. */
  function CellFor(db: Db, assignmentId: nat, studentId: nat): (c: Cell)
    ensures c.Score? <==> (var l := LatestSubmission(db.submissions, assignmentId, studentId);
      l.Some? && FindGrade(db.grades, l.value.id).Some?)
    ensures c.Score? ==> exists s, g :: (s in db.submissions && IsSubmissionOf(s, assignmentId, studentId)
      && g in db.grades && g.submissionId == s.id && c.score == g.score
      && (forall k :: 0 <= k < |db.submissions| && IsSubmissionOf(db.submissions[k], assignmentId, studentId)
            ==> db.submissions[k].version <= s.version))
  {
    match LatestSubmission(db.submissions, assignmentId, studentId)
    case None => Blank
    case Some(s) =>
      match FindGrade(db.grades, s.id)
      case None => Blank
      case Some(g) => Score(g.score)
  }

  /** One row of the matrix: the key, the name, one cell per column. */
  datatype GradebookRow = GradebookRow(key: RowKey, name: string, cells: seq<Cell>)

  function RowOf(db: Db, cols: seq<Assignment>, s: Student): GradebookRow
  {
    GradebookRow(RowKeyOf(s.user), s.user.name,
      seq(|cols|, j requires 0 <= j < |cols| => CellFor(db, cols[j].id, s.enrollment.userId)))
  }

  function AssignmentId(a: Assignment): int
  {
    a.id
  }

  /** The course's assignments ordered by ascending id: the columns. */
  function Columns(db: Db, courseId: nat): seq<Assignment>
  {
    SortBy(InCourse(db.assignments, courseId), AssignmentId)
  }

  /** The inner loop: one cell per column, in column order. */
  method BuildCells(db: Db, s: Student, cols: seq<Assignment>) returns (cells: seq<Cell>)
    ensures |cells| == |cols|
    ensures forall j :: 0 <= j < |cols| ==> cells[j] == CellFor(db, cols[j].id, s.enrollment.userId)
  {
    ghost var want := seq(|cols|, i requires 0 <= i < |cols| => CellFor(db, cols[i].id, s.enrollment.userId));
    cells := [];
    for j := 0 to |cols|
      invariant cells == want[..j]
    {
      var cell := LookUpCell(db, cols[j].id, s.enrollment.userId);
      assert want[..j + 1] == want[..j] + [cell];
      cells := cells + [cell];
    }
    assert want[..|cols|] == want;
  }

  /** The body of the inner loop: the score of the student's latest
      submission's grade, or a blank. */
  method LookUpCell(db: Db, assignmentId: nat, uid: nat) returns (cell: Cell)
    ensures cell == CellFor(db, assignmentId, uid)
  {
    var sub := LatestSubmission(db.submissions, assignmentId, uid);
    cell := Blank;
    if sub.Some? {
      var grade := FindGrade(db.grades, sub.value.id);
      if grade.Some? {
        cell := Score(grade.value.score);
      }
    }
  }

  /** The nested loops: for each student, one cell per column, then the row is pushed. */
  method BuildRows(db: Db, students: seq<Student>, cols: seq<Assignment>) returns (rows: seq<GradebookRow>)
    ensures |rows| == |students|
    ensures forall k :: 0 <= k < |students| ==> (rows[k].key == RowKeyOf(students[k].user)
      && rows[k].name == students[k].user.name && |rows[k].cells| == |cols|
      && forall j :: 0 <= j < |cols| ==> rows[k].cells[j] == CellFor(db, cols[j].id, students[k].enrollment.userId))
    ensures forall k :: 0 <= k < |students| ==> rows[k] == RowOf(db, cols, students[k])
  {
    rows := [];
    for k := 0 to |students|
      invariant |rows| == k
      invariant forall i :: 0 <= i < k ==> rows[i] == RowOf(db, cols, students[i])
    {
      var s := students[k];
      var cells := BuildCells(db, s, cols);
      var row := GradebookRow(RowKeyOf(s.user), s.user.name, cells);
      assert row == RowOf(db, cols, s);
      rows := rows + [row];
    }
  }

  /** The text of a row key, cell and column header in the CSV. */
  function KeyField(k: RowKey): string
  {
    match k
    case ByText(t) => t
    case ById(id) => NatToString(id)
  }

  function CellField(c: Cell): (r: string)
    ensures forall i :: 0 <= i < |r| ==> IsDigit(r[i]) || r[i] == '-'
  {
    match c
    case Score(x) => IntToString(x)
    case Blank => ""
  }

  function ColumnName(a: Assignment): (r: string)
    ensures forall i :: 0 <= i < |r| ==> IsDigit(r[i]) || r[i] == 'A' || r[i] == '#'
  {
    "A#" + NatToString(a.id)
  }

  function HeaderFields(cols: seq<Assignment>): seq<string>
  {
    ["studentId", "name"] + seq(|cols|, j requires 0 <= j < |cols| => ColumnName(cols[j]))
  }

  function RowFields(row: GradebookRow): seq<string>
  {
    [KeyField(row.key), row.name] + seq(|row.cells|, j requires 0 <= j < |row.cells| => CellField(row.cells[j]))
  }

  /** The header line followed by one line per row, each its fields joined
      by commas with no quoting. */
  function CsvLines(cols: seq<Assignment>, rows: seq<GradebookRow>): seq<string>
  {
    [Join(HeaderFields(cols), ',')] + seq(|rows|, k requires 0 <= k < |rows| => Join(RowFields(rows[k]), ','))
  }

  /** The CSV branch: `lines` starts with the header and gets one line pushed
      per row; the answer is the lines joined by newlines. */
  method RenderCsv(cols: seq<Assignment>, rows: seq<GradebookRow>) returns (text: string)
    ensures text == Join(CsvLines(cols, rows), '\n')
  {
    var lines := [Join(HeaderFields(cols), ',')];
    for k := 0 to |rows|
      invariant lines == CsvLines(cols, rows[..k])
    {
      lines := lines + [Join(RowFields(rows[k]), ',')];
    }
    assert rows[..|rows|] == rows;
    text := Join(lines, '\n');
  }

  /** `(format || "json").toLowerCase() === "csv"`. */
  predicate WantsCsv(format: Option<string>)
  {
    ToLower(OrElse(OrEmpty(format), "json")) == "csv"
  }

  /** The JSON view of a column. */
  datatype ColumnInfo = ColumnInfo(id: nat, title: string, maxPoints: int)

  datatype GradebookOutput =
    | JsonBook(assignments: seq<ColumnInfo>, rows: seq<GradebookRow>)
    | CsvBook(text: string, contentDisposition: string)

  function RowsOf(db: Db, courseId: nat): seq<GradebookRow>
  {
    var students := CourseStudents(db, courseId);
    var cols := Columns(db, courseId);
    seq(|students|, k requires 0 <= k < |students| => RowOf(db, cols, students[k]))
  }

  /** What a member of the course receives: it depends on the course and the
      format only, not on who asks or with what course role. */
  function GradebookOf(db: Db, courseId: nat, format: Option<string>): GradebookOutput
  {
    var cols := Columns(db, courseId);
    var rows := RowsOf(db, courseId);
    if WantsCsv(format) then
      CsvBook(Join(CsvLines(cols, rows), '\n'), "attachment; filename=gradebook-course-" + NatToString(courseId) + ".csv")
    else
      JsonBook(seq(|cols|, j requires 0 <= j < |cols| => ColumnInfo(cols[j].id, cols[j].title, cols[j].maxPoints)), rows)
  }

  /** The handler: 403 for a caller with no enrollment in the course; any
      member, staff or student, gets the same whole matrix. */
  method GetGradebook(db: Db, uid: nat, courseId: nat, format: Option<string>) returns (r: Response<GradebookOutput>)
    ensures r == Fail(Forbidden) <==> !IsMember(db.enrollments, courseId, uid)
    ensures IsMember(db.enrollments, courseId, uid) ==> r.Ok?
    ensures r.Ok? ==> r.body == GradebookOf(db, courseId, format)
  {
    if !IsMember(db.enrollments, courseId, uid) {
      return Fail(Forbidden);
    }
    var students := CourseStudents(db, courseId);
    var cols := Columns(db, courseId);
    var rows := BuildRows(db, students, cols);
    assert rows == RowsOf(db, courseId);
    if WantsCsv(format) {
      var text := RenderCsv(cols, rows);
      r := Ok(CsvBook(text, "attachment; filename=gradebook-course-" + NatToString(courseId) + ".csv"));
    } else {
      r := Ok(JsonBook(seq(|cols|, j requires 0 <= j < |cols| => ColumnInfo(cols[j].id, cols[j].title, cols[j].maxPoints)), rows));
    }
  }

  /** The columns are the course's assignments, each once, by ascending id;
      every row has one cell per column; under the enrollment foreign key
      the k-th row is that of the k-th STUDENT enrollment of the course, in
      storage order, so each student appears exactly once. */
  lemma GradebookShape(db: Db, courseId: nat)
    ensures var cols := Columns(db, courseId);
      && (forall i, j :: 0 <= i < j < |cols| ==> cols[i].id <= cols[j].id)
      && multiset(cols) == multiset(InCourse(db.assignments, courseId))
      && (forall k :: 0 <= k < |cols| ==> cols[k] in db.assignments && cols[k].courseId == courseId)
    ensures forall k :: 0 <= k < |RowsOf(db, courseId)| ==> |RowsOf(db, courseId)[k].cells| == |Columns(db, courseId)|
    ensures EnrolledUsersExist(db) ==> (var rows := RowsOf(db, courseId);
      var pos := StudentPositions(db.enrollments, courseId);
      |rows| == |pos|
      && forall k :: 0 <= k < |rows| ==> (var e := db.enrollments[pos[k]];
        rows[k] == RowOf(db, Columns(db, courseId), Student(e, FindUser(db.users, e.userId).value))))
  {
    var mine := InCourse(db.assignments, courseId);
    var cols := Columns(db, courseId);
    forall i, j | 0 <= i < j < |cols|
      ensures cols[i].id <= cols[j].id
    {
      assert AssignmentId(cols[i]) <= AssignmentId(cols[j]);
    }
    forall k | 0 <= k < |cols|
      ensures cols[k] in db.assignments && cols[k].courseId == courseId
    {
      assert cols[k] in multiset(mine);
    }
    if EnrolledUsersExist(db) {
      CourseStudentsComplete(db, courseId);
    }
  }

  /** A character missing from every piece is missing from their join. */
  lemma {:induction false} JoinAvoids(xs: seq<string>, sep: char, c: char)
    requires c != sep
    requires forall k :: 0 <= k < |xs| ==> c !in xs[k]
    ensures c !in Join(xs, sep)
  {
    if |xs| > 1 {
      JoinAvoids(xs[1..], sep, c);
    }
  }

  /** The fields of a row carry no newline when its key and name carry none. */
  lemma RowLineHasNoNewline(row: GradebookRow)
    requires '\n' !in KeyField(row.key) && '\n' !in row.name
    ensures '\n' !in Join(RowFields(row), ',')
  {
    var fs := RowFields(row);
    forall k | 0 <= k < |fs|
      ensures '\n' !in fs[k]
    {
      if k >= 2 {
        var f := CellField(row.cells[k - 2]);
        assert fs[k] == f;
        assert forall i :: 0 <= i < |f| ==> f[i] != '\n';
      }
    }
    JoinAvoids(fs, ',', '\n');
  }

  lemma HeaderHasNoNewlineOrComma(cols: seq<Assignment>)
    ensures '\n' !in Join(HeaderFields(cols), ',')
    ensures forall k :: 0 <= k < |HeaderFields(cols)| ==> ',' !in HeaderFields(cols)[k]
  {
    var fs := HeaderFields(cols);
    forall k | 0 <= k < |fs|
      ensures '\n' !in fs[k] && ',' !in fs[k]
    {
      if k >= 2 {
        var f := ColumnName(cols[k - 2]);
        assert fs[k] == f;
        assert forall i :: 0 <= i < |f| ==> f[i] != '\n' && f[i] != ',';
      }
    }
    JoinAvoids(fs, ',', '\n');
  }

  /** When no key or name holds a newline, the CSV text splits back into
      exactly its lines: the header, then one line per row. */
  lemma CsvLineCount(cols: seq<Assignment>, rows: seq<GradebookRow>)
    requires forall k :: 0 <= k < |rows| ==> '\n' !in KeyField(rows[k].key) && '\n' !in rows[k].name
    ensures Split(Join(CsvLines(cols, rows), '\n'), '\n') == CsvLines(cols, rows)
    ensures |Split(Join(CsvLines(cols, rows), '\n'), '\n')| == 1 + |rows|
  {
    var lines := CsvLines(cols, rows);
    HeaderHasNoNewlineOrComma(cols);
    forall k | 0 <= k < |lines|
      ensures '\n' !in lines[k]
    {
      if k >= 1 {
        RowLineHasNoNewline(rows[k - 1]);
      }
    }
    SplitJoin(lines, '\n');
  }

  /** The fields of a row whose key and name hold no comma hold none. */
  lemma RowFieldsHaveNoComma(row: GradebookRow)
    requires ',' !in KeyField(row.key) && ',' !in row.name
    ensures forall i :: 0 <= i < |RowFields(row)| ==> ',' !in RowFields(row)[i]
  {
    var fs := RowFields(row);
    forall i | 0 <= i < |fs|
      ensures ',' !in fs[i]
    {
      if i >= 2 {
        var f := CellField(row.cells[i - 2]);
        assert fs[i] == f;
        assert forall m :: 0 <= m < |f| ==> f[m] != ',';
      }
    }
  }

  /** The header line has two fields plus one per column. */
  lemma HeaderFieldCount(cols: seq<Assignment>)
    ensures |Split(Join(HeaderFields(cols), ','), ',')| == 2 + |cols|
  {
    HeaderHasNoNewlineOrComma(cols);
    SplitJoin(HeaderFields(cols), ',');
  }

  /** When no key or name holds a comma, every line of a well-formed matrix
      has as many comma-separated fields as the header: two plus one per column. */
  lemma CsvFieldCounts(cols: seq<Assignment>, rows: seq<GradebookRow>, k: nat)
    requires k < |rows| && |rows[k].cells| == |cols|
    requires ',' !in KeyField(rows[k].key) && ',' !in rows[k].name
    ensures |Split(Join(HeaderFields(cols), ','), ',')| == 2 + |cols|
    ensures |Split(Join(RowFields(rows[k]), ','), ',')| == 2 + |cols|
  {
    HeaderFieldCount(cols);
    RowFieldsHaveNoComma(rows[k]);
    SplitJoin(RowFields(rows[k]), ',');
  }

  /** The line of a row without cells whose name is `first,last` is the key,
      `first` and `last` joined by commas. */
  lemma CommaNameLine(key: RowKey, first: string, last: string)
    ensures Join(RowFields(GradebookRow(key, first + "," + last, [])), ',') == Join([KeyField(key), first, last], ',')
  {
    var k, name := KeyField(key), first + "," + last;
    assert RowFields(GradebookRow(key, name, [])) == [k] + [name];
    JoinCons(k, [name], ',');
    assert [first] + [last] == [first, last] && [k] + [first, last] == [k, first, last];
    JoinCons(first, [last], ',');
    JoinCons(k, [first, last], ',');
  }

  /** The fields are not quoted: a name holding a comma, such as `Doe, Jane`,
      turns into two fields, so the line of a course without assignments has
      one field more than its header. */
  lemma CommaInNameAddsField(key: RowKey, first: string, last: string)
    requires ',' !in KeyField(key) && ',' !in first && ',' !in last
    ensures var row := GradebookRow(key, first + "," + last, []);
      && |Split(Join(HeaderFields([]), ','), ',')| == 2
      && |Split(Join(RowFields(row), ','), ',')| == 3
  {
    HeaderFieldCount([]);
    CommaNameLine(key, first, last);
    ThreeFields(KeyField(key), first, last);
  }

  /** Three comma-free fields joined by commas split back into three. */
  lemma ThreeFields(a: string, b: string, c: string)
    requires ',' !in a && ',' !in b && ',' !in c
    ensures |Split(Join([a, b, c], ','), ',')| == 3
  {
    var three := [a, b, c];
    assert forall i :: 0 <= i < |three| ==> ',' !in three[i];
    SplitJoin(three, ',');
  }
}
