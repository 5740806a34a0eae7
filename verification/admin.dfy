/** The administrator's user management: listing with a filter, creating and
    updating a user, and the bulk import of a spreadsheet of users. Every
    route answers 403 to a caller whose global role is not ADMIN. */
module Admin {
  import opened Common
  import opened Strings
  import opened Sorting
  import opened Store

  /** The four global roles. */
  predicate IsRole(role: string)
  {
    role == "ADMIN" || role == "TEACHER" || role == "TA" || role == "STUDENT"
  }

  /** The `adminOnly` pre-handler. */
  predicate IsAdmin(callerRole: string)
  {
    callerRole == "ADMIN"
  }

  // ----- GET /admin/users -----

  /** The `where` object of the listing: an optional exact role and an
      optional text that one of name, email or student number must contain. */
  datatype UserQuery = UserQuery(role: Option<string>, text: Option<string>)

  /** A nullable column contains a text only when it is set. */
  predicate FieldContains(field: Option<string>, text: string)
  {
    field.Some? && Contains(field.value, text)
  }

  predicate Selects(where: UserQuery, u: User)
  {
    && (where.role.Some? ==> u.role == where.role.value)
    && (where.text.Some? ==> (Contains(u.name, where.text.value)
         || FieldContains(u.email, where.text.value) || FieldContains(u.studentId, where.text.value)))
  }

  /** The filter the query string asks for: the role only when it is one of
      the four, the text trimmed and only when something is left. */
  function WhereOf(role: Option<string>, q: Option<string>): (where: UserQuery)
    ensures forall u :: Selects(where, u) <==> (
      && (role.Some? && IsRole(role.value) ==> u.role == role.value)
      && (Trim(OrEmpty(q)) != "" ==> (Contains(u.name, Trim(OrEmpty(q)))
           || FieldContains(u.email, Trim(OrEmpty(q))) || FieldContains(u.studentId, Trim(OrEmpty(q))))))
  {
    UserQuery(
      if role.Some? && role.value != "" && IsRole(role.value) then role else None,
      if Trim(OrEmpty(q)) != "" then Some(Trim(OrEmpty(q))) else None)
  }

  function Filter(users: seq<User>, where: UserQuery): (r: seq<User>)
    ensures forall k :: 0 <= k < |r| ==> r[k] in users && Selects(where, r[k])
    ensures forall k :: 0 <= k < |users| && Selects(where, users[k]) ==> users[k] in r
  {
    if users == [] then []
    else
      var rest := Filter(users[1..], where);
      assert forall k :: 1 <= k < |users| ==> users[k] == users[1..][k - 1];
      if Selects(where, users[0]) then [users[0]] + rest else rest
  }

  function NewestFirst(u: User): int
  {
    -u.createdAt
  }

  /** The largest number of users one listing returns. */
  const ListLimit: nat := 500

  /** A listed user, without the password hash. */
  datatype UserView = UserView(
    id: nat, name: string, email: Option<string>, studentId: Option<string>, role: string, createdAt: int)

  function ViewOfUser(u: User): UserView
  {
    UserView(u.id, u.name, u.email, u.studentId, u.role, u.createdAt)
  }

  /** The selected users, newest first, at most `ListLimit` of them. */
  function Listing(users: seq<User>, where: UserQuery): seq<UserView>
  {
    var sorted := SortBy(Filter(users, where), NewestFirst);
    var taken := if |sorted| <= ListLimit then sorted else sorted[..ListLimit];
    seq(|taken|, k requires 0 <= k < |taken| => ViewOfUser(taken[k]))
  }

  /** The handler builds `where` field by field and answers the listing. */
  method ListUsers(users: seq<User>, callerRole: string, role: Option<string>, q: Option<string>)
    returns (r: Response<seq<UserView>>)
    ensures r == Fail(Forbidden) <==> !IsAdmin(callerRole)
    ensures IsAdmin(callerRole) ==> r.Ok?
    ensures r.Ok? ==> r.body == Listing(users, WhereOf(role, q))
  {
    if !IsAdmin(callerRole) {
      return Fail(Forbidden);
    }
    var text := Trim(OrEmpty(q));
    var where := UserQuery(None, None);
    if role.Some? && role.value != "" && IsRole(role.value) {
      where := where.(role := role);
    }
    if text != "" {
      where := where.(text := Some(text));
    }
    r := Ok(Listing(users, where));
  }

  /** Sorting the selected users keeps exactly the selected users. */
  lemma SortedSelection(users: seq<User>, where: UserQuery)
    ensures forall u :: u in SortBy(Filter(users, where), NewestFirst) <==> u in users && Selects(where, u)
  {
    var selected := Filter(users, where);
    var sorted := SortBy(selected, NewestFirst);
    forall u
      ensures u in sorted <==> u in users && Selects(where, u)
    {
      assert u in sorted <==> u in multiset(selected);
      if u in selected {
        var k :| 0 <= k < |selected| && selected[k] == u;
      }
      if u in users && Selects(where, u) {
        var i :| 0 <= i < |users| && users[i] == u;
      }
    }
  }

  /** Every listed user exists and passes the filter, and the list holds at
      most `ListLimit` users. */
  lemma ListingSound(users: seq<User>, where: UserQuery)
    ensures var r := Listing(users, where);
      && |r| <= ListLimit
      && forall k :: 0 <= k < |r| ==> exists u :: u in users && Selects(where, u) && r[k] == ViewOfUser(u)
  {
    var sorted := SortBy(Filter(users, where), NewestFirst);
    var r := Listing(users, where);
    ListingTakesSorted(users, where);
    SortedSelection(users, where);
    forall k | 0 <= k < |r|
      ensures exists u :: u in users && Selects(where, u) && r[k] == ViewOfUser(u)
    {
      var u := sorted[k];
      assert u in sorted;
      assert u in users && Selects(where, u) && r[k] == ViewOfUser(u);
    }
  }

  /** The listing shows the first `ListLimit` sorted users, in order. */
  lemma ListingTakesSorted(users: seq<User>, where: UserQuery)
    ensures var sorted, r := SortBy(Filter(users, where), NewestFirst), Listing(users, where);
      && |r| <= ListLimit && |r| <= |sorted|
      && (|sorted| <= ListLimit ==> |r| == |sorted|)
      && forall k :: 0 <= k < |r| ==> r[k] == ViewOfUser(sorted[k])
  {
  }

  /** The list is ordered by creation time, newest first. */
  lemma ListingNewestFirst(users: seq<User>, where: UserQuery)
    ensures var r := Listing(users, where);
      forall i, j :: 0 <= i < j < |r| ==> r[i].createdAt >= r[j].createdAt
  {
    var sorted := SortBy(Filter(users, where), NewestFirst);
    var r := Listing(users, where);
    forall i, j | 0 <= i < j < |r|
      ensures r[i].createdAt >= r[j].createdAt
    {
      assert r[i] == ViewOfUser(sorted[i]) && r[j] == ViewOfUser(sorted[j]);
      assert NewestFirst(sorted[i]) <= NewestFirst(sorted[j]);
    }
  }

  /** When no more than `ListLimit` users pass the filter, every one of them is listed. */
  lemma ListingComplete(users: seq<User>, where: UserQuery)
    requires |Filter(users, where)| <= ListLimit
    ensures forall u :: u in users && Selects(where, u) ==> ViewOfUser(u) in Listing(users, where)
  {
    var sorted := SortBy(Filter(users, where), NewestFirst);
    var r := Listing(users, where);
    SortedSelection(users, where);
    forall u | u in users && Selects(where, u)
      ensures ViewOfUser(u) in r
    {
      var k :| 0 <= k < |sorted| && sorted[k] == u;
      assert r[k] == ViewOfUser(u);
    }
  }

  // ----- POST /admin/users -----

  /** The JSON body of a create request; an absent field is `None`. */
  datatype NewUserBody = NewUserBody(
    name: Option<string>, email: Option<string>, studentId: Option<string>,
    role: Option<string>, password: Option<string>)

  /** What the create and update routes answer: the user without hash and time. */
  datatype UserSummary = UserSummary(id: nat, name: string, email: Option<string>, studentId: Option<string>, role: string)

  function SummaryOf(u: User): UserSummary
  {
    UserSummary(u.id, u.name, u.email, u.studentId, u.role)
  }

  /** A user needs a name and a way to be found: an email or a student number. */
  predicate IdentifiedBy(name: Option<string>, email: Option<string>, studentId: Option<string>)
  {
    OrEmpty(name) != "" && (OrEmpty(email) != "" || OrEmpty(studentId) != "")
  }

  /** The created user row: the given fields, role STUDENT and password
      `pass1234` when absent, the password hashed. `newId` and `now` stand for
      the id and time the database assigns. */
  function CreateUser(callerRole: string, body: NewUserBody, newId: nat, now: int): (r: Response<User>)
    ensures r == Fail(Forbidden) <==> !IsAdmin(callerRole)
    ensures IsAdmin(callerRole) ==> (r == Fail(BadRequest) <==> !IdentifiedBy(body.name, body.email, body.studentId))
    ensures IsAdmin(callerRole) && IdentifiedBy(body.name, body.email, body.studentId) ==> r.Ok?
    ensures r.Ok? ==> (
      && r.body.id == newId && r.body.name == body.name.value && r.body.name != ""
      && r.body.email == body.email && r.body.studentId == body.studentId
      && (OrEmpty(r.body.email) != "" || OrEmpty(r.body.studentId) != "")
      && r.body.role == (if body.role.Some? then body.role.value else "STUDENT")
      && r.body.passwordHash == Bcrypt(if body.password.Some? then body.password.value else "pass1234")
      && r.body.createdAt == now)
  {
    if !IsAdmin(callerRole) then Fail(Forbidden)
    else if !IdentifiedBy(body.name, body.email, body.studentId) then Fail(BadRequest)
    else
      Ok(User(newId, body.name.value, body.email, body.studentId,
        if body.role.Some? then body.role.value else "STUDENT",
        Bcrypt(if body.password.Some? then body.password.value else "pass1234"), now))
  }

  // ----- PUT /admin/users/:id -----

  /** The JSON body of an update. `None` is an absent field; for the nullable
      columns `Some(None)` is an explicit null. */
  datatype UserPatch = UserPatch(
    name: Option<string>, email: Option<Option<string>>, studentId: Option<Option<string>>,
    role: Option<string>, password: Option<string>)

  /** The row after `prisma.user.update` with the `data` the handler builds:
      each present field is written, a role only when it is one of the four,
      and a new hash only for a non-empty password. */
  function ApplyPatch(u: User, p: UserPatch): (r: User)
    ensures r.id == u.id && r.createdAt == u.createdAt
    ensures r.name == (if p.name.Some? then p.name.value else u.name)
    ensures r.email == (if p.email.Some? then p.email.value else u.email)
    ensures r.studentId == (if p.studentId.Some? then p.studentId.value else u.studentId)
    ensures p.role.Some? && IsRole(p.role.value) ==> r.role == p.role.value
    ensures !(p.role.Some? && IsRole(p.role.value)) ==> r.role == u.role
    ensures IsRole(u.role) ==> IsRole(r.role)
    ensures OrEmpty(p.password) != "" ==> r.passwordHash == Bcrypt(p.password.value)
    ensures OrEmpty(p.password) == "" ==> r.passwordHash == u.passwordHash
  {
    User(u.id,
      if p.name.Some? then p.name.value else u.name,
      if p.email.Some? then p.email.value else u.email,
      if p.studentId.Some? then p.studentId.value else u.studentId,
      if p.role.Some? && IsRole(p.role.value) then p.role.value else u.role,
      if OrEmpty(p.password) != "" then Bcrypt(p.password.value) else u.passwordHash,
      u.createdAt)
  }

  /** A body that names no field leaves the user as it is. */
  lemma EmptyPatchChangesNothing(u: User)
    ensures ApplyPatch(u, UserPatch(None, None, None, None, None)) == u
  {
  }

  /** The position of the first row with the id, as `update` by primary key finds it. */
  function IndexOfUser(users: seq<User>, id: nat): (r: Option<nat>)
    ensures r.None? <==> forall k :: 0 <= k < |users| ==> users[k].id != id
    ensures r.Some? ==> (r.value < |users| && users[r.value].id == id
      && forall k :: 0 <= k < r.value ==> users[k].id != id)
  {
    if users == [] then None
    else if users[0].id == id then Some(0)
    else
      var rest := IndexOfUser(users[1..], id);
      assert forall k :: 1 <= k < |users| ==> users[k] == users[1..][k - 1];
      if rest.None? then None else Some(rest.value + 1)
  }

  datatype Updated = Updated(users: seq<User>, summary: UserSummary)

  /** The handler: the `data` object is built field by field and applied to
      the user with the id; updating an id that has no row makes Prisma throw,
      which Fastify answers with 500. */
  method UpdateUser(users: seq<User>, callerRole: string, id: nat, p: UserPatch) returns (r: Response<Updated>)
    ensures r == Fail(Forbidden) <==> !IsAdmin(callerRole)
    ensures IsAdmin(callerRole) ==> (r == Fail(InternalError) <==> IndexOfUser(users, id).None?)
    ensures IsAdmin(callerRole) && IndexOfUser(users, id).Some? ==> r.Ok?
    ensures r.Ok? ==> (
      var k := IndexOfUser(users, id).value;
      && r.body.users == users[k := ApplyPatch(users[k], p)]
      && r.body.summary == SummaryOf(ApplyPatch(users[k], p)))
  {
    if !IsAdmin(callerRole) {
      return Fail(Forbidden);
    }
    var found := IndexOfUser(users, id);
    if found.None? {
      return Fail(InternalError);
    }
    var k := found.value;
    var u := users[k];
    if p.name.Some? { u := u.(name := p.name.value); }
    if p.email.Some? { u := u.(email := p.email.value); }
    if p.studentId.Some? { u := u.(studentId := p.studentId.value); }
    if p.role.Some? && IsRole(p.role.value) { u := u.(role := p.role.value); }
    if OrEmpty(p.password) != "" { u := u.(passwordHash := Bcrypt(p.password.value)); }
    r := Ok(Updated(users[k := u], SummaryOf(u)));
  }

  // ----- POST /admin/users:import -----

  /** One spreadsheet row: its cells by column header, as text. */
  datatype SheetRow = SheetRow(cells: map<string, string>)

  /** The cell of a column, the empty string when the row lacks it. */
  function Cell(row: SheetRow, column: string): string
  {
    if column in row.cells then row.cells[column] else ""
  }

  /** `r.<english> || r.<chinese> || fallback`. */
  function Column(row: SheetRow, english: string, chinese: string, fallback: string): (r: string)
    ensures Cell(row, english) != "" ==> r == Cell(row, english)
    ensures Cell(row, english) == "" && Cell(row, chinese) != "" ==> r == Cell(row, chinese)
    ensures Cell(row, english) == "" && Cell(row, chinese) == "" ==> r == fallback
  {
    OrElse(Cell(row, english), OrElse(Cell(row, chinese), fallback))
  }

  /** The Chinese column headers the import accepts beside the English ones:
      姓名 (name), 邮箱 (email), 学号 (student number), 角色 (role), 密码 (password). */
  const NameZh: string := "\U{59D3}\U{540D}"
  const EmailZh: string := "\U{90AE}\U{7BB1}"
  const StudentIdZh: string := "\U{5B66}\U{53F7}"
  const RoleZh: string := "\U{89D2}\U{8272}"
  const PasswordZh: string := "\U{5BC6}\U{7801}"

  /** A row after normalisation. */
  datatype ImportRow = ImportRow(
    name: string, email: Option<string>, studentId: Option<string>, role: string, password: string)

  /** A trimmed text, or null when nothing is left. */
  function NullIfEmpty(s: string): (r: Option<string>)
    ensures r.None? <==> s == ""
    ensures r.Some? ==> r.value == s
  {
    if s == "" then None else Some(s)
  }

  /** The role column trimmed and upper-cased; STUDENT unless that is one of the four. */
  function NormaliseRole(raw: string): (role: string)
    ensures IsRole(role)
    ensures IsRole(ToUpper(Trim(raw))) ==> role == ToUpper(Trim(raw))
    ensures !IsRole(ToUpper(Trim(raw))) ==> role == "STUDENT"
  {
    var upper := ToUpper(Trim(raw));
    if IsRole(upper) then upper else "STUDENT"
  }

  function NormaliseRow(row: SheetRow): ImportRow
  {
    ImportRow(
      Trim(Column(row, "name", NameZh, "")),
      NullIfEmpty(Trim(Column(row, "email", EmailZh, ""))),
      NullIfEmpty(Trim(Column(row, "studentId", StudentIdZh, ""))),
      NormaliseRole(Column(row, "role", RoleZh, "STUDENT")),
      Column(row, "password", PasswordZh, "pass1234"))
  }

  /** Trimmed name, email and student number (the last two null when empty);
      the role normalised, STUDENT when the column is missing; the password
      `pass1234` when missing, not trimmed, so never empty. */
  lemma NormaliseRowFields(row: SheetRow)
    ensures var r := NormaliseRow(row);
      && r.name == Trim(Column(row, "name", NameZh, ""))
      && (r.email.None? <==> Trim(Column(row, "email", EmailZh, "")) == "")
      && (r.email.Some? ==> r.email.value == Trim(Column(row, "email", EmailZh, "")))
      && (r.studentId.None? <==> Trim(Column(row, "studentId", StudentIdZh, "")) == "")
      && (r.studentId.Some? ==> r.studentId.value == Trim(Column(row, "studentId", StudentIdZh, "")))
      && IsRole(r.role)
      && (Cell(row, "role") == "" && Cell(row, RoleZh) == "" ==> r.role == "STUDENT")
      && r.password == Column(row, "password", PasswordZh, "pass1234") && r.password != ""
  {
    var raw := Column(row, "role", RoleZh, "STUDENT");
    if Cell(row, "role") == "" && Cell(row, RoleZh) == "" {
      assert raw == "STUDENT";
      TrimFixedPoint(raw);
      assert ToUpper(Trim(raw)) == "STUDENT";
    }
  }

  /** The skip rule: no name, or neither email nor student number. */
  predicate Skipped(r: ImportRow)
  {
    r.name == "" || (r.email.None? && r.studentId.None?)
  }

  /** The existing user a row is matched with: same email or same student number. */
  predicate MatchesRow(u: User, r: ImportRow)
  {
    (r.email.Some? && u.email == r.email) || (r.studentId.Some? && u.studentId == r.studentId)
  }

  /** `findFirst` with the row's email and student number as alternatives. */
  function FindExisting(users: seq<User>, r: ImportRow): (k: Option<nat>)
    ensures k.None? <==> forall i :: 0 <= i < |users| ==> !MatchesRow(users[i], r)
    ensures k.Some? ==> (k.value < |users| && MatchesRow(users[k.value], r)
      && forall i :: 0 <= i < k.value ==> !MatchesRow(users[i], r))
  {
    if users == [] then None
    else if MatchesRow(users[0], r) then Some(0)
    else
      var rest := FindExisting(users[1..], r);
      assert forall i :: 1 <= i < |users| ==> users[i] == users[1..][i - 1];
      if rest.None? then None else Some(rest.value + 1)
  }

  datatype Action = WasCreated | WasUpdated

  datatype ImportEntry = ImportEntry(action: Action, id: nat, studentId: Option<string>, email: Option<string>)

  /** The import's running state: the user table, the next id the database
      hands out, the three counters and the result list. */
  datatype ImportState = ImportState(
    users: seq<User>, nextId: nat, created: nat, updated: nat, skipped: nat, results: seq<ImportEntry>)

  /** The matched user with the row's name, email, student number and role;
      its id, password hash and creation time stay. */
  function Overwritten(u: User, r: ImportRow): User
  {
    u.(name := r.name, email := r.email, studentId := r.studentId, role := r.role)
  }

  /** The user a kept row creates, with the hashed password. */
  function Created(id: nat, r: ImportRow, now: int): User
  {
    User(id, r.name, r.email, r.studentId, r.role, Bcrypt(r.password), now)
  }

  /** One normalised row: skipped; or the first matching user is overwritten;
      or a user is created with the next id. */
  function ImportStep(st: ImportState, r: ImportRow, now: int): (next: ImportState)
  {
    if Skipped(r) then st.(skipped := st.skipped + 1)
    else
      match FindExisting(st.users, r)
      case Some(k) =>
        var u := Overwritten(st.users[k], r);
        st.(users := st.users[k := u], updated := st.updated + 1,
            results := st.results + [ImportEntry(WasUpdated, u.id, u.studentId, u.email)])
      case None =>
        var u := Created(st.nextId, r, now);
        st.(users := st.users + [u], nextId := st.nextId + 1, created := st.created + 1,
            results := st.results + [ImportEntry(WasCreated, u.id, u.studentId, u.email)])
  }

  /** The rows normalised and processed in order. */
  function ImportAll(st: ImportState, rows: seq<SheetRow>, now: int): ImportState
  {
    if rows == [] then st else ImportStep(ImportAll(st, rows[..|rows| - 1], now), NormaliseRow(rows[|rows| - 1]), now)
  }

  datatype ImportReport = ImportReport(
    created: nat, updated: nat, skipped: nat, total: nat, results: seq<ImportEntry>, users: seq<User>)

  /** The handler: 403 for a non-admin, 400 without a file, otherwise the loop
      over the sheet's rows. `nextId` and `now` stand for the ids and time the
      database assigns. */
  method ImportUsers(users: seq<User>, callerRole: string, file: Option<seq<SheetRow>>, nextId: nat, now: int)
    returns (r: Response<ImportReport>)
    ensures r == Fail(Forbidden) <==> !IsAdmin(callerRole)
    ensures IsAdmin(callerRole) ==> (r == Fail(BadRequest) <==> file.None?)
    ensures IsAdmin(callerRole) && file.Some? ==> r.Ok?
    ensures r.Ok? ==> (
      var st := ImportAll(ImportState(users, nextId, 0, 0, 0, []), file.value, now);
      && r.body == ImportReport(st.created, st.updated, st.skipped, |file.value|, st.results, st.users))
  {
    if !IsAdmin(callerRole) {
      return Fail(Forbidden);
    }
    if file.None? {
      return Fail(BadRequest);
    }
    var rows := file.value;
    var start := ImportState(users, nextId, 0, 0, 0, []);
    var st := start;
    for i := 0 to |rows|
      invariant st == ImportAll(start, rows[..i], now)
    {
      st := ImportOneRow(st, rows[i], now);
      ImportAllExtends(start, rows, i, now);
    }
    assert rows[..|rows|] == rows;
    r := Ok(ImportReport(st.created, st.updated, st.skipped, |rows|, st.results, st.users));
  }

  /** Folding one more sheet row is one more `ImportStep`. */
  lemma ImportAllExtends(st: ImportState, rows: seq<SheetRow>, i: nat, now: int)
    requires i < |rows|
    ensures ImportAll(st, rows[..i + 1], now) == ImportStep(ImportAll(st, rows[..i], now), NormaliseRow(rows[i]), now)
  {
    assert rows[..i + 1][..i] == rows[..i];
  }

  /** The body of the import loop for one sheet row. */
  method ImportOneRow(st: ImportState, sheetRow: SheetRow, now: int) returns (next: ImportState)
    ensures next == ImportStep(st, NormaliseRow(sheetRow), now)
  {
    var row := NormaliseRow(sheetRow);
    next := ApplyRow(st, row, now);
  }

  /** One normalised row: skip it, update the matching user or create a new
      one, moving one counter. */
  method ApplyRow(st: ImportState, row: ImportRow, now: int) returns (next: ImportState)
    ensures next == ImportStep(st, row, now)
  {
    if Skipped(row) {
      SkipStep(st, row, now);
      return st.(skipped := st.skipped + 1);
    }
    var existing := FindExisting(st.users, row);
    if existing.Some? {
      var u := Overwritten(st.users[existing.value], row);
      UpdateStep(st, row, now, existing.value);
      next := st.(users := st.users[existing.value := u], updated := st.updated + 1,
        results := st.results + [ImportEntry(WasUpdated, u.id, u.studentId, u.email)]);
    } else {
      var u := Created(st.nextId, row, now);
      CreateStep(st, row, now);
      next := st.(users := st.users + [u], nextId := st.nextId + 1, created := st.created + 1,
        results := st.results + [ImportEntry(WasCreated, u.id, u.studentId, u.email)]);
    }
  }

  /** The three outcomes of a step, one lemma each. These only unfold
      `ImportStep`'s branches for `ApplyRow`'s proof; the properties of a step
      are `ImportStepCounters`, `ImportStepKeepsPasswords` and
      `ImportStepOutcome`. */
  lemma SkipStep(st: ImportState, r: ImportRow, now: int)
    requires Skipped(r)
    ensures ImportStep(st, r, now) == st.(skipped := st.skipped + 1)
  {
  }

  lemma UpdateStep(st: ImportState, r: ImportRow, now: int, k: nat)
    requires !Skipped(r) && FindExisting(st.users, r) == Some(k)
    ensures var u := Overwritten(st.users[k], r);
      ImportStep(st, r, now) == st.(users := st.users[k := u], updated := st.updated + 1,
        results := st.results + [ImportEntry(WasUpdated, u.id, u.studentId, u.email)])
  {
  }

  lemma CreateStep(st: ImportState, r: ImportRow, now: int)
    requires !Skipped(r) && FindExisting(st.users, r).None?
    ensures var u := Created(st.nextId, r, now);
      ImportStep(st, r, now) == st.(users := st.users + [u], nextId := st.nextId + 1, created := st.created + 1,
        results := st.results + [ImportEntry(WasCreated, u.id, u.studentId, u.email)])
  {
  }

  /** One row moves exactly one counter and adds a result exactly when it is
      not skipped; only a created user lengthens the table. */
  lemma ImportStepCounters(st: ImportState, r: ImportRow, now: int)
    ensures var next := ImportStep(st, r, now);
      && next.created + next.updated + next.skipped == st.created + st.updated + st.skipped + 1
      && |next.results| - |st.results| == (next.created - st.created) + (next.updated - st.updated)
      && |next.users| == |st.users| + (next.created - st.created)
      && next.nextId == st.nextId + (next.created - st.created)
      && next.created >= st.created && next.updated >= st.updated
  {
  }

  /** Each row moves exactly one counter: created + updated + skipped is the
      number of rows, there is one result per created or updated row, the
      table grows by the created users only, and each created user takes the
      next id. */
  lemma {:induction false} ImportCounters(st: ImportState, rows: seq<SheetRow>, now: int)
    requires st.created == 0 && st.updated == 0 && st.skipped == 0 && st.results == []
    ensures var end := ImportAll(st, rows, now);
      && end.created + end.updated + end.skipped == |rows|
      && |end.results| == end.created + end.updated
      && |end.users| == |st.users| + end.created
      && end.nextId == st.nextId + end.created
  {
    if rows != [] {
      ImportCounters(st, rows[..|rows| - 1], now);
      ImportStepCounters(ImportAll(st, rows[..|rows| - 1], now), NormaliseRow(rows[|rows| - 1]), now);
    }
  }

  lemma ImportStepKeepsPasswords(st: ImportState, r: ImportRow, now: int)
    ensures var next := ImportStep(st, r, now);
      && |next.users| >= |st.users|
      && forall k :: 0 <= k < |st.users| ==> (next.users[k].passwordHash == st.users[k].passwordHash
           && next.users[k].id == st.users[k].id && next.users[k].createdAt == st.users[k].createdAt)
  {
  }

  /** An import never changes an existing user's password hash, id or creation
      time. */
  lemma {:induction false} ImportKeepsPasswords(st: ImportState, rows: seq<SheetRow>, now: int)
    ensures var end := ImportAll(st, rows, now);
      && |end.users| >= |st.users|
      && forall k :: 0 <= k < |st.users| ==> (end.users[k].passwordHash == st.users[k].passwordHash
           && end.users[k].id == st.users[k].id && end.users[k].createdAt == st.users[k].createdAt)
  {
    if rows != [] {
      var mid := ImportAll(st, rows[..|rows| - 1], now);
      ImportKeepsPasswords(st, rows[..|rows| - 1], now);
      ImportStepKeepsPasswords(mid, NormaliseRow(rows[|rows| - 1]), now);
    }
  }

  /** A skipped row changes nothing but the skip counter; a row that is kept
      always leaves a user with its normalised fields in the table. */
  lemma ImportStepOutcome(st: ImportState, r: ImportRow, now: int)
    ensures var next := ImportStep(st, r, now);
      && (Skipped(r) ==> next == st.(skipped := st.skipped + 1))
      && (!Skipped(r) ==> exists u :: (u in next.users && u.name == r.name && u.email == r.email
            && u.studentId == r.studentId && u.role == r.role))
  {
    if !Skipped(r) {
      var next := ImportStep(st, r, now);
      match FindExisting(st.users, r)
      case Some(k) =>
        assert next.users[k] == Overwritten(st.users[k], r);
      case None =>
        assert next.users[|st.users|] == Created(st.nextId, r, now);
    }
  }
}
