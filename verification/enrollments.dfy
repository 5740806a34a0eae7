/** POST /courses/:courseId/enrollments:import: a course's staff upload a CSV
    roster; each kept row finds or creates its user and enrols that user in
    the course, inserting or updating the (course, user) enrollment. */
module Enrollments {
  import opened Common
  import opened Strings
  import opened Store

  /** One parsed CSV record: its fields by header name. */
  datatype RosterRecord = RosterRecord(fields: map<string, string>)

  /** A field, the empty string when the record lacks it. */
  function Field(r: RosterRecord, name: string): string
  {
    if name in r.fields then r.fields[name] else ""
  }

  /** A record after trimming; `studentId` falls back to the `sid` column and
      `roleInCourse` defaults to STUDENT before it is trimmed. */
  datatype RosterRow = RosterRow(studentId: string, name: string, email: string, roleInCourse: string)

  function NormaliseRecord(r: RosterRecord): RosterRow
  {
    RosterRow(
      Trim(OrElse(Field(r, "studentId"), Field(r, "sid"))),
      Trim(Field(r, "name")),
      Trim(Field(r, "email")),
      Trim(OrElse(Field(r, "roleInCourse"), "STUDENT")))
  }

  /** Each field is the trimmed column; the student number comes from `sid`
      when `studentId` is empty; a missing role is STUDENT. */
  lemma NormaliseRecordFields(r: RosterRecord)
    ensures var row := NormaliseRecord(r);
      && (Field(r, "studentId") != "" ==> row.studentId == Trim(Field(r, "studentId")))
      && (Field(r, "studentId") == "" ==> row.studentId == Trim(Field(r, "sid")))
      && row.name == Trim(Field(r, "name")) && row.email == Trim(Field(r, "email"))
      && (Field(r, "roleInCourse") == "" ==> row.roleInCourse == "STUDENT")
      && (Field(r, "roleInCourse") != "" ==> row.roleInCourse == Trim(Field(r, "roleInCourse")))
  {
    TrimFixedPoint("STUDENT");
  }

  /** Rows without a student number or a name are skipped. */
  predicate Kept(row: RosterRow)
  {
    row.studentId != "" && row.name != ""
  }

  /** The enrollment role a roster role maps to: TEACHER and TA as they are,
      anything else (lower case included) STUDENT. */
  function CourseRole(roleInCourse: string): (role: string)
    ensures role == "TEACHER" || role == "TA" || role == "STUDENT"
    ensures role == "TEACHER" <==> roleInCourse == "TEACHER"
    ensures role == "TA" <==> roleInCourse == "TA"
  {
    if roleInCourse == "TEACHER" then "TEACHER" else if roleInCourse == "TA" then "TA" else "STUDENT"
  }

  /** The global role of a user the import creates: STUDENT exactly for the
      roster role STUDENT, TA for every other one. */
  function GlobalRoleFor(roleInCourse: string): (role: string)
    ensures role == "STUDENT" <==> roleInCourse == "STUDENT"
    ensures role != "STUDENT" ==> role == "TA"
  {
    if roleInCourse == "STUDENT" then "STUDENT" else "TA"
  }

  /** The two role mappings disagree on a lower-case `student`: the enrollment
      is STUDENT but a newly created user becomes a TA globally; and a TEACHER
      row creates a global TA. */
  lemma RoleMappingsDiffer()
    ensures CourseRole("student") == "STUDENT" && GlobalRoleFor("student") == "TA"
    ensures CourseRole("TEACHER") == "TEACHER" && GlobalRoleFor("TEACHER") == "TA"
  {
  }

  /** The lookup `OR: [{ studentId }, { email }]`; the email is compared even
      when it is empty, and then matches only a user whose email is the empty
      string. */
  predicate MatchesRoster(u: User, row: RosterRow)
  {
    u.studentId == Some(row.studentId) || u.email == Some(row.email)
  }

  function FindRosterUser(users: seq<User>, row: RosterRow): (r: Option<User>)
    ensures r.None? <==> forall k :: 0 <= k < |users| ==> !MatchesRoster(users[k], row)
    ensures r.Some? ==> r.value in users && MatchesRoster(r.value, row)
  {
    FirstWhere(users, (u: User) => MatchesRoster(u, row))
  }

  predicate IsPair(e: Enrollment, courseId: nat, userId: nat)
  {
    e.courseId == courseId && e.userId == userId
  }

  predicate HasPair(es: seq<Enrollment>, courseId: nat, userId: nat)
  {
    exists k :: 0 <= k < |es| && IsPair(es[k], courseId, userId)
  }

  /** The table's unique key `(courseId, userId)`. */
  predicate PairsUnique(es: seq<Enrollment>)
  {
    forall i, j :: 0 <= i < j < |es| ==> !(es[i].courseId == es[j].courseId && es[i].userId == es[j].userId)
  }

  /** `upsert` on the key (courseId, userId): the pair's enrollment takes the
      role, or a new enrollment is appended when the pair has none. */
  function UpsertEnrollment(es: seq<Enrollment>, courseId: nat, userId: nat, role: string): (r: seq<Enrollment>)
    ensures |r| == if HasPair(es, courseId, userId) then |es| else |es| + 1
    ensures forall k :: 0 <= k < |es| && !IsPair(es[k], courseId, userId) ==> r[k] == es[k]
    ensures forall k :: 0 <= k < |r| && IsPair(r[k], courseId, userId) ==> r[k].roleInCourse == role
    ensures Enrollment(courseId, userId, role) in r
  {
    if HasPair(es, courseId, userId) then
      var r := seq(|es|, k requires 0 <= k < |es| =>
        if IsPair(es[k], courseId, userId) then es[k].(roleInCourse := role) else es[k]);
      var k :| 0 <= k < |es| && IsPair(es[k], courseId, userId);
      assert r[k] == Enrollment(courseId, userId, role);
      r
    else
      var r := es + [Enrollment(courseId, userId, role)];
      assert r[|es|] == Enrollment(courseId, userId, role);
      r
  }

  /** Upserting never makes a second enrollment for a pair: the key stays unique. */
  lemma UpsertKeepsPairsUnique(es: seq<Enrollment>, courseId: nat, userId: nat, role: string)
    requires PairsUnique(es)
    ensures PairsUnique(UpsertEnrollment(es, courseId, userId, role))
  {
    var r := UpsertEnrollment(es, courseId, userId, role);
    if !HasPair(es, courseId, userId) {
      forall i, j | 0 <= i < j < |r|
        ensures !(r[i].courseId == r[j].courseId && r[i].userId == r[j].userId)
      {
        if j == |es| {
          assert !IsPair(es[i], courseId, userId);
        }
      }
    }
  }

  datatype RosterState = RosterState(
    users: seq<User>, enrollments: seq<Enrollment>, nextId: nat, entries: seq<RosterRow>)

  /** The user a row creates: `email || null`, the row's global role and the
      default password `pass1234`, hashed. */
  function RosterUser(id: nat, row: RosterRow, now: int): User
  {
    User(id, row.name, if row.email == "" then None else Some(row.email), Some(row.studentId),
      GlobalRoleFor(row.roleInCourse), Bcrypt("pass1234"), now)
  }

  /** One normalised row: skipped, or its user found (and left as it is) or
      created, then enrolled with the mapped role and the row recorded. */
  function RosterStep(st: RosterState, row: RosterRow, courseId: nat, now: int): RosterState
  {
    if !Kept(row) then st
    else
      var found := FindRosterUser(st.users, row);
      var user := if found.Some? then found.value else RosterUser(st.nextId, row, now);
      var users := if found.Some? then st.users else st.users + [user];
      var nextId := if found.Some? then st.nextId else st.nextId + 1;
      RosterState(users, UpsertEnrollment(st.enrollments, courseId, user.id, CourseRole(row.roleInCourse)),
        nextId, st.entries + [row])
  }

  function RosterAll(st: RosterState, records: seq<RosterRecord>, courseId: nat, now: int): RosterState
  {
    if records == [] then st
    else RosterStep(RosterAll(st, records[..|records| - 1], courseId, now), NormaliseRecord(records[|records| - 1]), courseId, now)
  }

  predicate KeptRecord(r: RosterRecord)
  {
    Kept(NormaliseRecord(r))
  }

  /** The normalised rows that are kept, in record order. */
  function KeptRows(records: seq<RosterRecord>): (rows: seq<RosterRow>)
    ensures |rows| <= |records|
    ensures forall k :: 0 <= k < |rows| ==> Kept(rows[k])
  {
    if records == [] then []
    else
      var row := NormaliseRecord(records[|records| - 1]);
      KeptRows(records[..|records| - 1]) + (if Kept(row) then [row] else [])
  }

  /** Every kept record is imported exactly once, in record order: the kept
      rows are the normalised records at the ascending positions of the kept
      records. */
  lemma {:induction false} KeptRowsInOrder(records: seq<RosterRecord>)
    ensures MapsAt(KeptRows(records), Positions(records, KeptRecord), records, NormaliseRecord)
  {
    if records != [] {
      var n := |records| - 1;
      var prefix := records[..n];
      KeptRowsInOrder(prefix);
      var init := KeptRows(prefix);
      var initPos := Positions(prefix, KeptRecord);
      MapsAtExtend(init, initPos, records, n, NormaliseRecord);
      if KeptRecord(records[n]) {
        assert KeptRows(records) == init + [NormaliseRecord(records[n])];
        assert Positions(records, KeptRecord) == initPos + [n];
      } else {
        assert KeptRows(records) == init;
        assert Positions(records, KeptRecord) == initPos;
      }
    }
  }

  datatype RosterReport = RosterReport(imported: nat, entries: seq<RosterRow>, users: seq<User>, enrollments: seq<Enrollment>)

  /** The handler: 403 unless the caller is course staff, checked before the
      upload is read; 400 without a file; otherwise the loop over the records.
      `nextId` and `now` stand for the ids and time the database assigns. */
  method ImportRoster(
    db: Db, uid: nat, courseId: nat, file: Option<seq<RosterRecord>>, nextId: nat, now: int)
    returns (r: Response<RosterReport>)
    ensures r == Fail(Forbidden) <==> !IsStaff(db.enrollments, courseId, uid)
    ensures IsStaff(db.enrollments, courseId, uid) ==> (r == Fail(BadRequest) <==> file.None?)
    ensures IsStaff(db.enrollments, courseId, uid) && file.Some? ==> r.Ok?
    ensures r.Ok? ==> (
      var st := RosterAll(RosterState(db.users, db.enrollments, nextId, []), file.value, courseId, now);
      && r.body == RosterReport(|st.entries|, st.entries, st.users, st.enrollments))
  {
    if !IsStaff(db.enrollments, courseId, uid) {
      return Fail(Forbidden);
    }
    if file.None? {
      return Fail(BadRequest);
    }
    var records := file.value;
    var start := RosterState(db.users, db.enrollments, nextId, []);
    var st := start;
    for i := 0 to |records|
      invariant st == RosterAll(start, records[..i], courseId, now)
    {
      st := ImportRosterRecord(st, records[i], courseId, now);
      RosterAllExtends(start, records, i, courseId, now);
    }
    assert records[..|records|] == records;
    r := Ok(RosterReport(|st.entries|, st.entries, st.users, st.enrollments));
  }

  /** Folding one more record is one more `RosterStep`. */
  lemma RosterAllExtends(st: RosterState, records: seq<RosterRecord>, i: nat, courseId: nat, now: int)
    requires i < |records|
    ensures RosterAll(st, records[..i + 1], courseId, now)
      == RosterStep(RosterAll(st, records[..i], courseId, now), NormaliseRecord(records[i]), courseId, now)
  {
    assert records[..i + 1][..i] == records[..i];
  }

  /** The body of the loop for one record. */
  method ImportRosterRecord(st: RosterState, record: RosterRecord, courseId: nat, now: int) returns (next: RosterState)
    ensures next == RosterStep(st, NormaliseRecord(record), courseId, now)
  {
    var row := NormaliseRecord(record);
    next := EnrolRow(st, row, courseId, now);
  }

  /** One normalised row: find or create its user, then upsert the enrollment. */
  method EnrolRow(st: RosterState, row: RosterRow, courseId: nat, now: int) returns (next: RosterState)
    ensures next == RosterStep(st, row, courseId, now)
  {
    if !Kept(row) {
      return st;
    }
    var found := FindRosterUser(st.users, row);
    var users, nextId := st.users, st.nextId;
    var user;
    if found.Some? {
      user := found.value;
    } else {
      user := RosterUser(nextId, row, now);
      users := users + [user];
      nextId := nextId + 1;
    }
    var enrollments := UpsertEnrollment(st.enrollments, courseId, user.id, CourseRole(row.roleInCourse));
    next := RosterState(users, enrollments, nextId, st.entries + [row]);
  }

  /** The entries are the kept rows in record order, so `imported` counts them. */
  lemma {:induction false} RosterEntriesAreKeptRows(st: RosterState, records: seq<RosterRecord>, courseId: nat, now: int)
    ensures RosterAll(st, records, courseId, now).entries == st.entries + KeptRows(records)
  {
    if records != [] {
      RosterEntriesAreKeptRows(st, records[..|records| - 1], courseId, now);
    }
  }

  /** Importing keeps the enrollment key unique, however often a roster is
      imported. */
  lemma {:induction false} RosterKeepsPairsUnique(st: RosterState, records: seq<RosterRecord>, courseId: nat, now: int)
    requires PairsUnique(st.enrollments)
    ensures PairsUnique(RosterAll(st, records, courseId, now).enrollments)
  {
    if records != [] {
      var mid := RosterAll(st, records[..|records| - 1], courseId, now);
      RosterKeepsPairsUnique(st, records[..|records| - 1], courseId, now);
      RosterStepKeepsPairsUnique(mid, NormaliseRecord(records[|records| - 1]), courseId, now);
    }
  }

  lemma RosterStepKeepsPairsUnique(st: RosterState, row: RosterRow, courseId: nat, now: int)
    requires PairsUnique(st.enrollments)
    ensures PairsUnique(RosterStep(st, row, courseId, now).enrollments)
  {
    if Kept(row) {
      var found := FindRosterUser(st.users, row);
      var user := if found.Some? then found.value else RosterUser(st.nextId, row, now);
      UpsertKeepsPairsUnique(st.enrollments, courseId, user.id, CourseRole(row.roleInCourse));
    }
  }

  /** A kept row leaves a user matching it in the table, enrolled in the
      course with the mapped role; a skipped row changes nothing. */
  lemma RosterStepEnrols(st: RosterState, row: RosterRow, courseId: nat, now: int)
    ensures var next := RosterStep(st, row, courseId, now);
      && (!Kept(row) ==> next == st)
      && (Kept(row) ==> exists u :: (u in next.users && MatchesRoster(u, row)
            && Enrollment(courseId, u.id, CourseRole(row.roleInCourse)) in next.enrollments))
  {
    if Kept(row) {
      var next := RosterStep(st, row, courseId, now);
      var found := FindRosterUser(st.users, row);
      var user := if found.Some? then found.value else RosterUser(st.nextId, row, now);
      if found.None? {
        assert next.users[|st.users|] == user;
      }
      assert user in next.users && MatchesRoster(user, row);
    }
  }
}
