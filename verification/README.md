# Classflow route handlers and client helper, modelled in Dafny

Classflow is a classroom-management application: a Fastify server over a
Prisma database plus a single-page web client. This project models the
deterministic rules inside six of its source files:

- **Submissions** (`app/server/src/routes/submissions.js`):
  - a student submits files and an external link as a new version;
  - staff grade a submission;
  - a student lists their own history, and staff list the latest version of every student;
  - files are listed and downloaded behind the upload-root path guard.
- **Assignments** (`app/server/src/routes/assignments.js`):
  - creating, reading and listing assignments;
  - uploading, listing and downloading teaching materials.
- **Gradebook** (`app/server/src/routes/gradebook.js`): the matrix of latest graded scores, as JSON or CSV.
- **Admin** (`app/server/src/routes/admin.js`): listing, creating and updating users, and the spreadsheet import.
- **Enrollments** (`app/server/src/routes/enrollments.js`): the CSV roster import.
- **Api** (`app/web/src/api.js`): the client's session token, the headers and body of `req`, how `req` settles, and `extractFilename`.

## How the model is built

- **Handlers.** Each handler takes the database as an input value `Store.Db`, holding one sequence per table.
  - A handler that only reads returns `Response<T>`: an error status, or the payload.
  - A handler that writes returns the new rows alongside its answer.
  - Handlers whose source loops over rows or stream parts are methods. Each loop is proved against a prefix-recursive specification function, such as `Admin.ImportAll`, `Enrollments.RosterAll` or `Submissions.SavedFiles`.
- **Database queries.**
  - `findFirst` is the first matching row in table order.
  - `orderBy` is a stable insertion sort (`Sorting.SortBy`).
  - A unique `findUnique`/`upsert` key is a lookup by that key.
- **External values are parameters.** This covers:
  - the clock, the new row id and `path.resolve`;
  - `JSON.stringify`, and `new Date(...)`, whose Invalid Date is `None`;
  - the bytes of uploaded streams.
- **bcrypt.** Its output is the opaque value `Bcrypt(plain)`.
- **Strings.** A string is a sequence of Unicode characters.
  - `trim` removes the ECMAScript white-space and line-terminator set.
  - `toUpperCase` and `toLowerCase` map ASCII only.
  - The `i` flag of the two regular expressions in `extractFilename` folds ASCII letters only. ECMAScript's `Canonicalize` never maps a non-ASCII character onto an ASCII one, so this is exact for those patterns.
- **URI decoding.** `Uri.Decode` follows the Decode operation of ECMAScript (section 19.2.6 of ECMA-262) and the UTF-8 rules of section 3 of RFC 3629. `Uri.Encode` (`encodeURIComponent`) is its inverse, used to prove the round trip.

Points where the handlers behave differently from what one might assume:

- A global ADMIN is not course staff. Only the material upload, material listing and material download handlers accept ADMIN (assignments.js:59, 90, 101). Grading, submission listing, submission files and the roster import ignore the global role.
- Course students are listed in table order. The `findMany` that reads them has no `orderBy` (submissions.js:100, gradebook.js:13-16).
- Assignment creation, reading and listing check no enrollment beyond creation's staff check. Any authenticated user can read any assignment, and its stored material paths are still in the `...assignment` spread (`Assignments.DetailCarriesMaterialPaths`).
- The path guard is a text-prefix test. A sibling directory whose name starts with the upload root passes it (`FileNames.PathWithRootAsTextPrefixAllowed`).

## Model

| member | source | states |
|---|---|---|
| Sorting.SortBy | app/server/src/routes/assignments.js:44 | `orderBy` on an integer key: the result is sorted by the key and is a permutation of the input |
| Store.FirstWhere | app/server/src/routes/submissions.js:17 | `findFirst`: `None` exactly when no row matches; otherwise the first matching row in table order |
| Store.FilesOf | app/server/src/routes/submissions.js:121 | `JSON.parse(filesJson \|\| '[]')`: a submission without stored files lists none |
| Store.MaterialsOf | app/server/src/routes/assignments.js:34 | `materialsJson` that is not an array reads as no materials |
| Store.LatestSubmission | app/server/src/routes/submissions.js:43-46 | latest version by `orderBy version desc`: `None` iff the student has no submission for the assignment; otherwise one of theirs, with no other version greater |
| Store.LatestIsStrictMaximum | app/server/src/routes/submissions.js:43-47 | with unique versions per student and assignment, every other submission of the pair has a strictly smaller version |
| Store.CourseStudents | app/server/src/routes/submissions.js:100 | every listed student has a STUDENT enrollment in the course, and the row's user is that enrollment's user |
| Store.Positions | app/server/src/routes/submissions.js:100 | a `findMany` filter visits the matching rows once each, in table order: the positions are ascending, every one matches, and every matching row's position is listed |
| Store.CourseStudentsComplete | app/server/src/routes/submissions.js:100 | when every enrollment's user exists, the k-th listed student is the enrollment at the k-th ascending position of the course's STUDENT enrollments (`Store.StudentPositions`), joined with the user it names: each such enrollment appears exactly once, in table order |
| Strings.TrimIsSlice | app/server/src/routes/enrollments.js:20-23 | `trim()` returns a contiguous slice of the input whose first and last characters are not white space, dropping only white space around it |
| Strings.TrimIdempotent | app/server/src/routes/admin.js:86-89 | trimming twice is trimming once |
| Strings.SplitJoin | app/server/src/routes/gradebook.js:43 | joining non-empty lists of separator-free pieces and splitting again gives back the pieces |
| Strings.NatToStringValue | app/server/src/routes/gradebook.js:36 | `String(n)` is all digits, and its digits read back as `n` |
| FileNames.Sanitize | app/server/src/routes/submissions.js:4-6 | `sanitizeFilename` keeps the length, keeps each safe character in place and replaces each other character by `_`, so every result is safe |
| FileNames.SanitizeKeepsSafeNames | app/server/src/routes/submissions.js:4-6 | a name made of `[A-Za-z0-9._-]` is unchanged |
| FileNames.SanitizeIdempotent | app/server/src/routes/submissions.js:4-6 | sanitising twice is sanitising once |
| FileNames.JoinPath | app/server/src/routes/submissions.js:27-29 | `join(dir, name)` lies under `dir + "/"` |
| FileNames.Basename | app/server/src/routes/submissions.js:140 | `basename` yields no `/` |
| FileNames.BasenameOfSafeName | app/server/src/routes/submissions.js:140 | the basename of a sanitised name is the name itself |
| FileNames.PathBelowRootAllowed | app/server/src/routes/submissions.js:137-139 | a path joined under the resolved upload root passes the guard |
| FileNames.PathWithRootAsTextPrefixAllowed | app/server/src/routes/submissions.js:139 | any path that textually begins with the root passes, including a sibling such as `/srv/uploads-old` |
| FileNames.PathOutsideRootRefused | app/server/src/routes/submissions.js:139 | a path that differs from the root at some position within the root's length is refused |
| FileNames.GuardExamples | app/server/src/routes/assignments.js:107 | `/etc/passwd` is refused under `/srv/uploads`; `/srv/uploads-old/x` passes |
| Submissions.SavedFiles | app/server/src/routes/submissions.js:24-36 | each stored file has a non-empty safe name and a path under the submission directory; none are stored iff no part is a file |
| Submissions.SavedFilesInOrder | app/server/src/routes/submissions.js:24-36 | the k-th stored file is that of the k-th file part: name `sanitizeFilename(filename \|\| "file")`, path `dir/<now>-<safe>`; every file part once, in upload order |
| Submissions.LastExternalLink | app/server/src/routes/submissions.js:37-39 | the link is the value of an `external_link` field part that no later `external_link` part follows (the last one wins), and is absent iff there is no such part |
| Submissions.ReceiveParts | app/server/src/routes/submissions.js:24-40 | the part loop stores exactly `SavedFiles` and keeps exactly `LastExternalLink` |
| Submissions.NextVersion | app/server/src/routes/submissions.js:42-47 | the new version exceeds every version of the student's earlier submissions, and is 1 or one more than an existing version |
| Submissions.RecordingKeepsVersionsValid | app/server/src/routes/submissions.js:42-58 | recording a submission with that version keeps versions unique per student and assignment, and positive |
| Submissions.Submit | app/server/src/routes/submissions.js:10-60 | 404 iff the assignment is missing; otherwise 403 iff the caller is not enrolled, and success when they are; the submission has the next version, the saved files (none stored iff there is no file part), the last link and the clock's time |
| Submissions.SubmissionWithCourse | app/server/src/routes/submissions.js:66 | a found submission has the requested id and is stored |
| Submissions.UpsertGrade | app/server/src/routes/submissions.js:73-77 | afterwards the submission's grade carries the new score, feedback and rubric; `graderId` is kept on update and set on create; other grades are unchanged; one row is added iff none existed |
| Submissions.UpsertGradeKeepsUnique | app/server/src/routes/submissions.js:73-77 | the upsert keeps at most one grade per submission |
| Submissions.GradeSubmission | app/server/src/routes/submissions.js:63-79 | 404 iff the submission is missing; otherwise 403 iff the caller is not TEACHER/TA/OWNER in its course, and success when they are; the new grade table is `UpsertGrade` of the old one with the caller as grader, and the returned grade is the submission's, with defaults 0 and "" for an absent score and feedback |
| Submissions.SubmissionsOf | app/server/src/routes/submissions.js:84-85 | exactly the caller's submissions for the assignment |
| Submissions.HistoryMembers | app/server/src/routes/submissions.js:84-88 | a submission is in the history iff it is stored and is the caller's for the assignment |
| Submissions.MySubmissions | app/server/src/routes/submissions.js:82-90 | one view per history entry, in the same order |
| Submissions.MySubmissionsOrdered | app/server/src/routes/submissions.js:84-89 | versions do not increase down the list; the list is empty iff there is no latest submission; otherwise it starts with the latest version |
| Submissions.RowFor | app/server/src/routes/submissions.js:102-108 | the row's student is the user's id, student number, name and e-mail; the row shows no submission iff the student has none, otherwise the id, version, submission time, files and external link of one of the greatest version, with that submission's grade; no submission means no grade |
| Submissions.ListSubmissions | app/server/src/routes/submissions.js:93-111 | 404 iff the assignment is missing; otherwise 403 iff the caller is not staff, and success when they are; one `RowFor` row per listed course student, in the same order |
| Submissions.ListFiles | app/server/src/routes/submissions.js:114-123 | 404 iff the submission is missing; otherwise 403 iff the caller is neither its owner nor staff, and success when they are; one `(idx, filename)` entry per stored file, idx counting from 0 |
| Submissions.DownloadFile | app/server/src/routes/submissions.js:126-142 | 404 iff the submission is missing or the index is out of range for a permitted caller; 403 iff the caller is neither owner nor staff, or the resolved path fails the guard; success when all checks pass; served files always pass the guard and carry `attachment; filename="<basename>"` |
| Assignments.CreateAssignment | app/server/src/routes/assignments.js:10-27 | 400 iff title, description or due date is missing or empty; otherwise 403 iff the caller is not staff; for staff, 500 iff the due date does not parse (an Invalid Date makes the create throw), and success when it does; the new assignment carries the fields, with defaults true and 100, and no materials |
| Assignments.Project | app/server/src/routes/assignments.js:37 | one material view per stored material: idx is its position, and filename, size and upload time are copied (the path is not) |
| Assignments.GetAssignment | app/server/src/routes/assignments.js:30-39 | 404 iff the assignment does not exist; no enrollment check; otherwise the stored row with that id and the projection of its materials (`DetailOf`) |
| Assignments.DetailCarriesMaterialPaths | app/server/src/routes/assignments.js:35-38 | the `...assignment` spread still exposes each material's stored path next to its view |
| Assignments.InCourse | app/server/src/routes/assignments.js:44 | exactly the assignments of the course |
| Assignments.ListCourseAssignments | app/server/src/routes/assignments.js:42-51 | one entry per stored assignment of the course (the count matches), none of another course, every one of the course present, sorted by due date, each with the projection of its materials |
| Assignments.StreamSize | app/server/src/routes/assignments.js:70-73 | the `data` handler's running total is the byte length of the whole stream |
| Assignments.NewMaterials | app/server/src/routes/assignments.js:66-79 | each new material has a non-empty safe name and a path under the materials directory |
| Assignments.NewMaterialsInOrder | app/server/src/routes/assignments.js:66-79 | the k-th new material is that of the k-th file part: name `sanitizeFilename(filename \|\| "material")`, path `dir/<now>-<safe>`, size the byte count of its stream, its upload time; every file part once, in upload order |
| Assignments.SaveMaterials | app/server/src/routes/assignments.js:62-79 | the part loop appends exactly `NewMaterials` to the existing list |
| Assignments.UploadMaterials | app/server/src/routes/assignments.js:54-83 | 404 iff the assignment is missing; otherwise 403 iff the caller is neither staff nor global ADMIN, and success when they are either; stored = old materials + new ones, and the answer is their projection |
| Assignments.UploadKeepsExistingMaterials | app/server/src/routes/assignments.js:62 | an upload keeps every earlier material, and its index, in front of the new ones |
| Assignments.ListMaterials | app/server/src/routes/assignments.js:85-93 | 404 iff the assignment is missing; otherwise 403 iff the caller is neither enrolled nor global ADMIN, and success when they are either; the projection of the stored materials |
| Assignments.DownloadMaterial | app/server/src/routes/assignments.js:95-110 | 404 iff the assignment is missing or the index is out of range for a permitted caller; 403 iff the caller is not permitted or the path fails the guard; success when all checks pass; served files pass the guard and carry the basename header |
| Gradebook.RowKeyOf | app/server/src/routes/gradebook.js:22 | the row key is the student number if non-empty, else the e-mail if non-empty, else the user id |
| Gradebook.CellFor | app/server/src/routes/gradebook.js:23-29 | a cell holds a score iff the latest submission exists and is graded; the score is the grade of a highest-version submission |
| Gradebook.BuildRows | app/server/src/routes/gradebook.js:20-32 | one row per student, with its key, name and one `CellFor` cell per column in column order |
| Gradebook.CellField | app/server/src/routes/gradebook.js:39 | a CSV score field holds only digits and `-` |
| Gradebook.ColumnName | app/server/src/routes/gradebook.js:36 | a column header `A#<id>` holds only `A`, `#` and digits |
| Gradebook.RenderCsv | app/server/src/routes/gradebook.js:34-43 | the loop produces the header line and one line per row, joined by newlines |
| Gradebook.GetGradebook | app/server/src/routes/gradebook.js:4-45 | 403 iff the caller is not enrolled, and success when they are; the same gradebook whatever the caller's course role, as CSV iff the format lower-cases to `csv` |
| Gradebook.GradebookShape | app/server/src/routes/gradebook.js:13-32 | columns are the course's assignments sorted by id (a permutation); every row has one cell per column; with consistent data the k-th row is that of the k-th STUDENT enrollment of the course, in table order, so each student has exactly one row |
| Gradebook.HeaderHasNoNewlineOrComma | app/server/src/routes/gradebook.js:36-37 | header fields contain no comma, and the header line no newline |
| Gradebook.RowLineHasNoNewline | app/server/src/routes/gradebook.js:39 | a row line has no newline when the key and name have none |
| Gradebook.CsvLineCount | app/server/src/routes/gradebook.js:37-43 | splitting the CSV at newlines gives back its lines: 1 + number of rows |
| Gradebook.CsvFieldCounts | app/server/src/routes/gradebook.js:36-40 | the header and each comma-free row both split into 2 + number of columns fields |
| Gradebook.CommaInNameAddsField | app/server/src/routes/gradebook.js:39 | fields are not quoted: for any name with one comma, such as `Doe, Jane`, the row of a course without assignments splits into three fields while its header splits into two |
| Admin.WhereOf | app/server/src/routes/admin.js:15-23 | a user is selected iff a valid role filter matches and the trimmed query, if non-empty, occurs in the name, e-mail or student number |
| Admin.Filter | app/server/src/routes/admin.js:24 | exactly the selected users |
| Admin.ListUsers | app/server/src/routes/admin.js:14-26 | 403 iff the caller is not ADMIN, and success when they are; the listing of the built query |
| Admin.ListingSound | app/server/src/routes/admin.js:24-25 | at most 500 views, each of a selected user |
| Admin.ListingNewestFirst | app/server/src/routes/admin.js:24 | creation times do not increase down the listing |
| Admin.ListingComplete | app/server/src/routes/admin.js:24 | when at most 500 users match, every matching user is listed |
| Admin.CreateUser | app/server/src/routes/admin.js:29-35 | 403 iff the caller is not ADMIN; otherwise 400 iff the name is missing, or both e-mail and student number are, and success otherwise; the user carries the fields, the role defaults to STUDENT and the password to `pass1234` |
| Admin.ApplyPatch | app/server/src/routes/admin.js:40-46 | given fields replace the user's; the role becomes a given valid role and otherwise stays; the hash becomes that of a given non-empty password and otherwise stays; id and creation time are kept |
| Admin.EmptyPatchChangesNothing | app/server/src/routes/admin.js:41-46 | an empty body changes nothing |
| Admin.IndexOfUser | app/server/src/routes/admin.js:47 | `None` iff no user has the id; otherwise the first such position |
| Admin.UpdateUser | app/server/src/routes/admin.js:38-49 | 403 iff not ADMIN; otherwise 500 iff there is no such user, and success when there is; only that user is replaced by the patched one, and its summary is returned |
| Admin.Column | app/server/src/routes/admin.js:86-91 | `r.english \|\| r.chinese \|\| fallback` on non-empty strings |
| Admin.NullIfEmpty | app/server/src/routes/admin.js:87-88 | `\|\| null`: absent iff empty |
| Admin.NormaliseRole | app/server/src/routes/admin.js:89-90 | the role is always one of the four; the trimmed, upper-cased cell is kept when valid, else STUDENT |
| Admin.NormaliseRowFields | app/server/src/routes/admin.js:85-91 | each imported field is the trimmed English or Chinese column, with null for empty e-mail and student number, and `pass1234` as the default password |
| Admin.FindExisting | app/server/src/routes/admin.js:95 | the first user matching the row's e-mail or student number, or `None` iff there is none |
| Admin.ImportOneRow | app/server/src/routes/admin.js:85-105 | one loop iteration is one `ImportStep` on the normalised row |
| Admin.ApplyRow | app/server/src/routes/admin.js:92-104 | a normalised row is skipped, updates the user it finds or creates one, exactly as `ImportStep` says |
| Admin.ImportStepCounters | app/server/src/routes/admin.js:83-105 | each row adds exactly one to created + updated + skipped; results and users grow accordingly |
| Admin.ImportCounters | app/server/src/routes/admin.js:83-106 | after the import, created + updated + skipped is the row count (`total`); one result per created or updated row; the users grow by `created` |
| Admin.ImportStepKeepsPasswords | app/server/src/routes/admin.js:97 | an update never touches an existing user's password hash, id or creation time |
| Admin.ImportKeepsPasswords | app/server/src/routes/admin.js:94-104 | the whole import keeps every existing user's password hash, id and creation time |
| Admin.ImportStepOutcome | app/server/src/routes/admin.js:92-104 | an unskipped row leaves a user with its name, e-mail, student number and role |
| Admin.ImportUsers | app/server/src/routes/admin.js:74-107 | 403 iff not ADMIN; otherwise 400 iff no file, and success with a file; the report of the rows folded through `ImportStep` |
| Enrollments.NormaliseRecordFields | app/server/src/routes/enrollments.js:20-23 | each roster field is the trimmed column (`studentId`, else `sid`), with STUDENT as the default role |
| Enrollments.CourseRole | app/server/src/routes/enrollments.js:34-35 | the course role is TEACHER or TA only for exactly that text, else STUDENT |
| Enrollments.GlobalRoleFor | app/server/src/routes/enrollments.js:29 | a new user is STUDENT iff the text is exactly STUDENT, else TA |
| Enrollments.RoleMappingsDiffer | app/server/src/routes/enrollments.js:29-35 | the two mappings disagree: `student` enrols as STUDENT but creates a global TA; TEACHER creates a global TA |
| Enrollments.FindRosterUser | app/server/src/routes/enrollments.js:26 | the first user with the row's student number or e-mail (an empty e-mail included); `None` iff none |
| Enrollments.UpsertEnrollment | app/server/src/routes/enrollments.js:32-36 | other enrollments are unchanged; the pair ends up with the mapped role; one row is added iff the pair had none |
| Enrollments.UpsertKeepsPairsUnique | app/server/src/routes/enrollments.js:32-36 | the upsert keeps one enrollment per (course, user) |
| Enrollments.KeptRows | app/server/src/routes/enrollments.js:19-24 | only rows with a student number and a name are imported |
| Enrollments.KeptRowsInOrder | app/server/src/routes/enrollments.js:19-37 | the k-th imported row is the normalised k-th record whose row is kept: every kept record once, in record order |
| Enrollments.ImportRosterRecord | app/server/src/routes/enrollments.js:19-38 | one loop iteration is one `RosterStep` on the normalised record |
| Enrollments.EnrolRow | app/server/src/routes/enrollments.js:25-37 | a normalised record is dropped, or its user is found or created and enrolled, exactly as `RosterStep` says |
| Enrollments.RosterEntriesAreKeptRows | app/server/src/routes/enrollments.js:19-39 | the reported entries are exactly the kept rows, in order |
| Enrollments.RosterStepKeepsPairsUnique | app/server/src/routes/enrollments.js:32-36 | one row keeps enrollments unique per pair |
| Enrollments.RosterKeepsPairsUnique | app/server/src/routes/enrollments.js:19-38 | the whole import keeps enrollments unique per pair |
| Enrollments.RosterStepEnrols | app/server/src/routes/enrollments.js:26-36 | a skipped row changes nothing; a kept row leaves a matching user enrolled in the course with the mapped role |
| Enrollments.ImportRoster | app/server/src/routes/enrollments.js:5-39 | 403 iff the caller is not staff (checked before the file); otherwise 400 iff no file, and success with a file; the count and entries of the rows folded through `RosterStep` |
| Api.Restore | app/web/src/api.js:3 | the start-up token is the stored one, or empty when nothing is stored |
| Api.Persisted | app/web/src/api.js:5-9 | storage holds the token iff it is non-empty |
| Api.ReloadKeepsToken | app/web/src/api.js:3-9 | after `setToken(t)` a reload starts with `t` again |
| Api.Session.SetToken | app/web/src/api.js:5-9 | the token becomes `t`; the stored copy is set for a non-empty `t` and removed for an empty one |
| Api.Session.Prepare | app/web/src/api.js:12-15 | `Authorization: Bearer <token>` is added iff the token is non-empty; JSON Content-Type is added and the body stringified iff the body is truthy and not FormData; other headers are kept |
| Api.Session.DownloadHeaders | app/web/src/api.js:53 | direct downloads send only the bearer header, and only for a non-empty token |
| Api.FormIsNotJson | app/web/src/api.js:14-15 | a FormData body is sent as it is, without a JSON Content-Type |
| Api.FalsyBodyIsNotJson | app/web/src/api.js:14-15 | a falsy body is sent as it is, without a JSON Content-Type |
| Api.Settle | app/web/src/api.js:16-19 | throws iff the status is outside 200-299, with the non-empty `error` field or else the status text; otherwise JSON iff the Content-Type contains `application/json`, else text |
| Api.SettleExamples | app/web/src/api.js:17-18 | CSV comes back as text; the media-type test is case-sensitive; an error body's message is used |
| Api.RunFrom | app/web/src/api.js:24 | a greedy `[^...]` run: a slice free of the stop characters, ended by one or by the end of the header |
| Api.RunFromIs | app/web/src/api.js:26 | that run is unique: any such slice is the run |
| Api.MatchAt | app/web/src/api.js:24-26 | a pattern matches at a position iff the case-insensitive prefix is there and a non-stop character follows it (after an opening quote, in the quoted form); the capture is then the longest run of non-stop characters from there, so it is non-empty and free of `;` (and of `"` in the quoted form) |
| Api.FirstIsLeftmost | app/web/src/api.js:24-26 | `match` returns the capture at the leftmost position where the pattern matches |
| Api.ExtractFilename | app/web/src/api.js:22-29 | the leftmost extended match, URI-decoded, wins; otherwise the leftmost quoted match; otherwise `download`; it throws only when the extended form matches |
| Api.NoEqualsGivesDownload | app/web/src/api.js:28 | a header without `=` gives `download` |
| Api.ExtendedHeader | app/web/src/api.js:24-25 | `filename*=UTF-8''<v>` gives the URI-decoding of `v` |
| Api.QuotedHeader | app/web/src/api.js:26-27 | `attachment; filename="<v>"` gives `v` without the quotes, for a non-empty `v` free of `"`, `;`, `*` and `=` (with a `*` or `=` the extended form could match first) |
| Api.ContentDispositionRoundTrip | app/web/src/api.js:26-27 | the server's `attachment; filename="<name>"` header parses back to exactly the name, for every non-empty sanitised name |
| Api.ExtendedRoundTrip | app/web/src/api.js:24-25 | a percent-encoded name in the extended form parses back to the name |
| Api.MalformedExtendedThrows | app/web/src/api.js:25 | a value that does not URI-decode makes `extractFilename` throw |
| Uri.DecodeEncode | app/web/src/api.js:25 | `decodeURIComponent(encodeURIComponent(s)) === s` for every string |
| Uri.DecodeWithoutPercent | app/web/src/api.js:25 | a value without `%` decodes to itself |
| Uri.MalformedEscapesFail | app/web/src/api.js:25 | a lone `%`, a non-hex escape, a truncated sequence, a stray continuation octet and an overlong form all throw |

## Left out

- Authentication: the 401 from the JWT `preHandler` is not modelled. The caller's id and global role are inputs.
- Prisma failures: a unique-constraint violation makes `create` fail halfway through an import. The model has no unique constraint on e-mail or student number, so such a row is created as any other.
- Concurrency: two requests interleaving (for example two submissions racing for the same version number) are not modelled. Each handler runs alone on one database value.
- File system and streams:
  - Writing uploaded files, `mkdirp` and the read stream of a download are not modelled.
  - An upload part carries its bytes, timestamp and upload time as data.
  - `path.join` normalisation (`..`, repeated `/`) is not modelled. The joined parts are digits and sanitised names.
  - `path.resolve` is a parameter.
- JSON columns: `JSON.parse` of a malformed `filesJson` (which throws, giving 500) is not modelled. A stored file list is either absent or a list.
- Number coercion:
  - `Number(...)` of route parameters is not modelled: ids are naturals and indices integers.
  - `Number(idx)` of a non-numeric or fractional text (NaN, `1.5`), which makes `files[idx]` undefined and gives 404, is not modelled.
- Submissions.GradeSubmission: the score is an integer, so `Number(score)` of a fraction or of a non-numeric text (NaN) is not modelled.
- Prisma semantics:
  - The order of rows that tie under `orderBy` is the stable order of the table, where Prisma leaves it unspecified.
  - Whether `contains` is case-sensitive depends on the database. The model takes it as case-sensitive.
- Admin.CreateUser: `String(password)` of a non-string password is not modelled; the password is text.
- Submissions.SubmissionWithCourse: a submission whose assignment row is missing gives `None`, so the handlers answer 404. The source reads `submission.assignment.courseId` of a null relation there and throws, which Fastify answers with 500. The foreign key makes the case unreachable in a consistent database.
- The role given to `CreateUser` is not validated, as in the source. It is stored as given.
- Spreadsheet and CSV parsing (`XLSX.read`, `sheet_to_json`, `Papa.parse`) is not modelled. The input is the parsed rows as maps from column name to text, so numeric cells and `String(...)` of them are not modelled.
- bcrypt: salts and hashing cost are not modelled. A hash is the opaque `Bcrypt(plain)`.
- The user template route (admin.js:52-71) is file generation and is not modelled.
- Enrollments.UpsertEnrollment: the unique `courseId_userId` key lets at most one enrollment match. The model updates every row of the pair, which is the same under `Enrollments.PairsUnique`.
- Characters: JavaScript holds characters above U+FFFF as two UTF-16 code units. That changes string lengths (and `sanitizeFilename` turns such a character into two `_`), which the model does not reflect.
- Case mapping: `toUpperCase`/`toLowerCase` of non-ASCII letters (for example `ß` or `ı`) is not modelled.
- Client:
  - `fetch`, `localStorage` and `Blob` are stood in for by the `Session` fields and the inputs.
  - `req` mutates the caller's own `opts.headers` object. `Api.Session.Prepare` returns a new map instead, so that aliasing is not captured.
  - The endpoint table (api.js:31-92) only builds URLs and is not modelled.
- Api.Settle: a successful body that is not valid JSON (`res.json()` rejects) is not modelled. Neither is a non-string `error` member. The `error` member is given as an optional text.
- The export ZIP and plagiarism-check endpoints the client calls (api.js:75-81) have no server handler in these files, so they are not modelled.
- `app/web/src/App.jsx` and the course, user and auth routes are not part of this model.
