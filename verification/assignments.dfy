/** The assignment routes: creating an assignment, reading one or a course's
    list, and uploading, listing and downloading an assignment's teaching
    materials (kept in the `materialsJson` column). */
module Assignments {
  import opened Common
  import opened Strings
  import opened Sorting
  import opened Store
  import opened FileNames

  /** The JSON body of a create request; an absent field is `None`. */
  datatype AssignmentBody = AssignmentBody(
    title: Option<string>, description: Option<string>, dueAt: Option<string>,
    allowLate: Option<bool>, maxPoints: Option<int>)

  /** A required field is missing when it is absent or the empty string (both falsy). */
  predicate Missing(field: Option<string>)
  {
    field.None? || field.value == ""
  }

  /** POST /courses/:courseId/assignments. A missing title, description or due
      date is 400, checked before the caller's role; a caller who is not
      course staff gets 403; otherwise the assignment is created with
      `allowLate` true and `maxPoints` 100 unless given, and no materials.
      `parseDate` stands for `new Date(dueAt)`: `None` is an Invalid Date,
      which makes the create throw (500). `newId` is the new row's id. */
  function CreateAssignment(
    db: Db, uid: nat, courseId: nat, body: AssignmentBody, parseDate: string -> Option<int>, newId: nat): (r: Response<Assignment>)
    ensures r == Fail(BadRequest) <==> (Missing(body.title) || Missing(body.description) || Missing(body.dueAt))
    ensures !(Missing(body.title) || Missing(body.description) || Missing(body.dueAt)) ==>
      (r == Fail(Forbidden) <==> !IsStaff(db.enrollments, courseId, uid))
    ensures (!(Missing(body.title) || Missing(body.description) || Missing(body.dueAt))
      && IsStaff(db.enrollments, courseId, uid)) ==> (r == Fail(InternalError) <==> parseDate(body.dueAt.value).None?)
    ensures (!(Missing(body.title) || Missing(body.description) || Missing(body.dueAt))
      && IsStaff(db.enrollments, courseId, uid) && parseDate(body.dueAt.value).Some?) ==> r.Ok?
    ensures r.Ok? ==> (
      && r.body.id == newId && r.body.courseId == courseId
      && r.body.title == body.title.value && r.body.description == body.description.value
      && parseDate(body.dueAt.value) == Some(r.body.dueAt)
      && r.body.allowLate == (if body.allowLate.Some? then body.allowLate.value else true)
      && r.body.maxPoints == (if body.maxPoints.Some? then body.maxPoints.value else 100)
      && MaterialsOf(r.body) == [])
  {
    if Missing(body.title) || Missing(body.description) || Missing(body.dueAt) then Fail(BadRequest)
    else if !IsStaff(db.enrollments, courseId, uid) then Fail(Forbidden)
    else if parseDate(body.dueAt.value).None? then Fail(InternalError)
    else
      Ok(Assignment(newId, courseId, body.title.value, body.description.value, parseDate(body.dueAt.value).value,
        if body.allowLate.Some? then body.allowLate.value else true,
        if body.maxPoints.Some? then body.maxPoints.value else 100,
        OtherJson))
  }

  /** What the material routes show of a material: its position, name, size
      and upload time; the type has no place for the stored path. */
  datatype MaterialView = MaterialView(idx: nat, filename: string, size: nat, uploadedAt: string)

  /** `materials.map((m, idx) => ({ idx, filename, size, uploadedAt }))`. */
  function Project(ms: seq<Material>): (r: seq<MaterialView>)
    ensures |r| == |ms|
    ensures forall k :: 0 <= k < |ms| ==> (r[k].idx == k && r[k].filename == ms[k].filename
      && r[k].size == ms[k].size && r[k].uploadedAt == ms[k].uploadedAt)
  {
    seq(|ms|, k requires 0 <= k < |ms| => MaterialView(k, ms[k].filename, ms[k].size, ms[k].uploadedAt))
  }

  /** `{ ...assignment, materials }`: the whole row, the raw `materialsJson`
      column included, beside the projected materials. */
  datatype AssignmentDetail = AssignmentDetail(assignment: Assignment, materials: seq<MaterialView>)

  function DetailOf(a: Assignment): AssignmentDetail
  {
    AssignmentDetail(a, Project(MaterialsOf(a)))
  }

  /** GET /assignments/:id: 404 for an unknown assignment, otherwise its detail;
      no enrollment is checked. */
  function GetAssignment(db: Db, id: nat): (r: Response<AssignmentDetail>)
    ensures r.Fail? <==> FindAssignment(db.assignments, id).None?
    ensures r.Fail? ==> r.status == NotFound
    ensures r.Ok? ==> (r.body.assignment.id == id && r.body.assignment in db.assignments
      && r.body == DetailOf(FindAssignment(db.assignments, id).value))
  {
    match FindAssignment(db.assignments, id)
    case None => Fail(NotFound)
    case Some(a) =>
      assert exists i :: 0 <= i < |db.assignments| && db.assignments[i] == a;
      Ok(DetailOf(a))
  }

  /** The projection hides the stored path, but the spread row beside it still
      carries each material's path in its raw column. */
  lemma DetailCarriesMaterialPaths(a: Assignment, k: nat)
    requires k < |MaterialsOf(a)|
    ensures var d := DetailOf(a);
      d.assignment.materialsJson.MaterialArray? && d.assignment.materialsJson.items[k].path == MaterialsOf(a)[k].path
      && d.materials[k] == MaterialView(k, MaterialsOf(a)[k].filename, MaterialsOf(a)[k].size, MaterialsOf(a)[k].uploadedAt)
  {
  }

  function InCourse(assignments: seq<Assignment>, courseId: nat): (r: seq<Assignment>)
    ensures forall k :: 0 <= k < |r| ==> r[k].courseId == courseId && r[k] in assignments
    ensures forall k :: 0 <= k < |assignments| && assignments[k].courseId == courseId ==> assignments[k] in r
  {
    if assignments == [] then []
    else
      var rest := InCourse(assignments[1..], courseId);
      assert forall k :: 1 <= k < |assignments| ==> assignments[k] == assignments[1..][k - 1];
      if assignments[0].courseId == courseId then [assignments[0]] + rest else rest
  }

  function DueAt(a: Assignment): int
  {
    a.dueAt
  }

  /** The course's assignments sorted by due date: ascending, and holding
      exactly the course's assignments. */
  lemma CourseAssignmentsByDueDate(db: Db, courseId: nat)
    ensures var sorted := SortBy(InCourse(db.assignments, courseId), DueAt);
      && (forall i, j :: 0 <= i < j < |sorted| ==> sorted[i].dueAt <= sorted[j].dueAt)
      && (forall a :: a in sorted <==> a in db.assignments && a.courseId == courseId)
  {
    var mine := InCourse(db.assignments, courseId);
    var sorted := SortBy(mine, DueAt);
    forall i, j | 0 <= i < j < |sorted|
      ensures sorted[i].dueAt <= sorted[j].dueAt
    {
      assert DueAt(sorted[i]) <= DueAt(sorted[j]);
    }
    forall a
      ensures a in sorted <==> a in db.assignments && a.courseId == courseId
    {
      assert a in sorted <==> a in multiset(mine);
      InCourseMembers(db.assignments, courseId, a);
    }
  }

  /** The course's assignments are exactly the stored ones of that course. */
  lemma InCourseMembers(assignments: seq<Assignment>, courseId: nat, a: Assignment)
    ensures a in InCourse(assignments, courseId) <==> a in assignments && a.courseId == courseId
  {
    var mine := InCourse(assignments, courseId);
    if a in mine {
      var k :| 0 <= k < |mine| && mine[k] == a;
    }
    if a in assignments && a.courseId == courseId {
      var i :| 0 <= i < |assignments| && assignments[i] == a;
    }
  }

  /** GET /courses/:courseId/assignments: the course's assignments by due date,
      earliest first, each with its materials; no enrollment is checked. The
      list holds one detail per stored assignment of the course and no other. */
  function ListCourseAssignments(db: Db, courseId: nat): (r: seq<AssignmentDetail>)
    ensures |r| == |InCourse(db.assignments, courseId)|
    ensures forall k :: 0 <= k < |r| ==> r[k] == DetailOf(r[k].assignment)
    ensures forall i, j :: 0 <= i < j < |r| ==> r[i].assignment.dueAt <= r[j].assignment.dueAt
    ensures forall k :: 0 <= k < |r| ==> r[k].assignment in db.assignments && r[k].assignment.courseId == courseId
    ensures forall a :: a in db.assignments && a.courseId == courseId ==> exists k :: 0 <= k < |r| && r[k].assignment == a
  {
    var sorted := SortBy(InCourse(db.assignments, courseId), DueAt);
    var r := seq(|sorted|, k requires 0 <= k < |sorted| => DetailOf(sorted[k]));
    CourseAssignmentsByDueDate(db, courseId);
    CourseAssignmentsListed(db, courseId, sorted, r);
    r
  }

  /** The facts the list's contract states, from those of the sorted selection. */
  lemma CourseAssignmentsListed(db: Db, courseId: nat, sorted: seq<Assignment>, r: seq<AssignmentDetail>)
    requires |sorted| == |InCourse(db.assignments, courseId)|
    requires forall i, j :: 0 <= i < j < |sorted| ==> sorted[i].dueAt <= sorted[j].dueAt
    requires forall a :: a in sorted <==> a in db.assignments && a.courseId == courseId
    requires |r| == |sorted| && forall k :: 0 <= k < |r| ==> r[k] == DetailOf(sorted[k])
    ensures |r| == |InCourse(db.assignments, courseId)|
    ensures forall k :: 0 <= k < |r| ==> r[k] == DetailOf(r[k].assignment)
    ensures forall i, j :: 0 <= i < j < |r| ==> r[i].assignment.dueAt <= r[j].assignment.dueAt
    ensures forall k :: 0 <= k < |r| ==> r[k].assignment in db.assignments && r[k].assignment.courseId == courseId
    ensures forall a :: a in db.assignments && a.courseId == courseId ==> exists k :: 0 <= k < |r| && r[k].assignment == a
  {
    forall k | 0 <= k < |r|
      ensures r[k].assignment == sorted[k] && r[k] == DetailOf(r[k].assignment)
    {
    }
    forall i, j | 0 <= i < j < |r|
      ensures r[i].assignment.dueAt <= r[j].assignment.dueAt
    {
      assert r[i].assignment == sorted[i] && r[j].assignment == sorted[j];
    }
    forall k | 0 <= k < |r|
      ensures r[k].assignment in db.assignments && r[k].assignment.courseId == courseId
    {
      assert r[k].assignment == sorted[k] && sorted[k] in sorted;
    }
    forall a | a in db.assignments && a.courseId == courseId
      ensures exists k :: 0 <= k < |r| && r[k].assignment == a
    {
      var k :| 0 <= k < |sorted| && sorted[k] == a;
      assert r[k].assignment == a;
    }
  }

  /** One part of a material upload. A file part carries the clock reading
      for its name (`Date.now()`), its upload time (`new Date().toISOString()`)
      and the chunks its stream delivers. */
  datatype UploadPart =
    | FileUpload(filename: string, now: nat, uploadedAt: string, chunks: seq<seq<bv8>>)
    | FieldUpload

  /** The bytes a stream delivers, chunk after chunk. */
  function Concat(chunks: seq<seq<bv8>>): seq<bv8>
  {
    if chunks == [] then [] else Concat(chunks[..|chunks| - 1]) + chunks[|chunks| - 1]
  }

  /** The `data` listener: `size += chunk.length` for every chunk; the total is
      the number of bytes written to the file. */
  method StreamSize(chunks: seq<seq<bv8>>) returns (size: nat)
    ensures size == |Concat(chunks)|
  {
    size := 0;
    for j := 0 to |chunks|
      invariant size == |Concat(chunks[..j])|
    {
      assert chunks[..j + 1][..j] == chunks[..j];
      size := size + |chunks[j]|;
    }
    assert chunks[..|chunks|] == chunks;
  }

  /** `uploadDir/materials/courseId/assignmentId`. */
  function MaterialsDir(uploadDir: string, courseId: nat, assignmentId: nat): string
  {
    JoinPath(JoinPath(JoinPath(uploadDir, "materials"), NatToString(courseId)), NatToString(assignmentId))
  }

  /** The record of one uploaded material: its sanitised name (`material` when
      the part has none), where it is stored, and its byte count. */
  function NewMaterial(dir: string, p: UploadPart): Material
    requires p.FileUpload?
  {
    var safe := Sanitize(OrElse(p.filename, "material"));
    Material(safe, JoinPath(dir, StoredName(p.now, safe)), |Concat(p.chunks)|, p.uploadedAt)
  }

  /** The materials an upload adds, one per file part, in upload order. */
  function NewMaterials(dir: string, parts: seq<UploadPart>): (r: seq<Material>)
    ensures |r| <= |parts|
    ensures forall k :: 0 <= k < |r| ==> (r[k].filename != [] && IsSafeName(r[k].filename)
      && StartsWith(r[k].path, dir + "/"))
  {
    if parts == [] then []
    else
      var init := NewMaterials(dir, parts[..|parts| - 1]);
      var last := parts[|parts| - 1];
      if last.FileUpload? then init + [NewMaterial(dir, last)] else init
  }

  predicate IsFileUpload(p: UploadPart)
  {
    p.FileUpload?
  }

  /** The record of a part when it is a file (a field part is never at a
      file-part position). */
  function MaterialIn(dir: string): UploadPart -> Material
  {
    (p: UploadPart) => if p.FileUpload? then NewMaterial(dir, p) else Material("", "", 0, "")
  }

  /** One material per file part, in upload order: the k-th new material is
      the record of the k-th file part, with its sanitised name, its path
      under `dir` and the byte count of its stream. */
  lemma {:induction false} NewMaterialsInOrder(dir: string, parts: seq<UploadPart>)
    ensures MapsAt(NewMaterials(dir, parts), Positions(parts, IsFileUpload), parts, MaterialIn(dir))
  {
    if parts != [] {
      var n := |parts| - 1;
      var prefix := parts[..n];
      NewMaterialsInOrder(dir, prefix);
      var init := NewMaterials(dir, prefix);
      var initPos := Positions(prefix, IsFileUpload);
      MapsAtExtend(init, initPos, parts, n, MaterialIn(dir));
      if IsFileUpload(parts[n]) {
        assert NewMaterials(dir, parts) == init + [MaterialIn(dir)(parts[n])];
        assert Positions(parts, IsFileUpload) == initPos + [n];
      } else {
        assert NewMaterials(dir, parts) == init;
        assert Positions(parts, IsFileUpload) == initPos;
      }
    }
  }

  /** The materials one part adds: its record when it is a file, else none. */
  function AddedBy(dir: string, p: UploadPart): seq<Material>
  {
    if p.FileUpload? then [NewMaterial(dir, p)] else []
  }

  /** The materials of one more part are those of the parts before it and
      what that part adds. */
  lemma NewMaterialsExtends(dir: string, parts: seq<UploadPart>, i: nat)
    requires i < |parts|
    ensures NewMaterials(dir, parts[..i + 1]) == NewMaterials(dir, parts[..i]) + AddedBy(dir, parts[i])
  {
    var next := parts[..i + 1];
    assert next[..i] == parts[..i] && next[i] == parts[i];
  }

  /** The body of the loop: a file part is streamed to disk and recorded. */
  method SavePart(dir: string, part: UploadPart) returns (added: seq<Material>)
    ensures added == AddedBy(dir, part)
  {
    added := [];
    if part.FileUpload? {
      var safe := Sanitize(OrElse(part.filename, "material"));
      var size := StreamSize(part.chunks);
      added := [Material(safe, JoinPath(dir, StoredName(part.now, safe)), size, part.uploadedAt)];
    }
  }

  /** The loop over the request's parts: every file part is streamed to disk
      under `dir` and its record appended after `existing`; other parts are
      skipped. */
  method SaveMaterials(existing: seq<Material>, dir: string, parts: seq<UploadPart>) returns (materials: seq<Material>)
    ensures materials == existing + NewMaterials(dir, parts)
  {
    materials := existing;
    ghost var made: seq<Material> := [];
    for i := 0 to |parts|
      invariant made == NewMaterials(dir, parts[..i])
      invariant materials == existing + made
    {
      var added := SavePart(dir, parts[i]);
      NewMaterialsExtends(dir, parts, i);
      assert materials + added == existing + (made + added);
      made := made + added;
      materials := materials + added;
    }
    assert parts[..|parts|] == parts;
  }

  /** What a successful upload stores and answers. */
  datatype MaterialsUpload = MaterialsUpload(stored: seq<Material>, views: seq<MaterialView>)

  /** POST /assignments/:id/materials. 404 for an unknown assignment, 403
      unless the caller is course staff or a global ADMIN; otherwise the new
      materials are appended after the existing ones and the whole list is
      stored and answered in projected form. */
  method UploadMaterials(
    db: Db, uid: nat, callerRole: string, uploadDir: string, assignmentId: nat, parts: seq<UploadPart>)
    returns (r: Response<MaterialsUpload>)
    ensures FindAssignment(db.assignments, assignmentId).None? <==> r == Fail(NotFound)
    ensures var a := FindAssignment(db.assignments, assignmentId);
      a.Some? ==> (r == Fail(Forbidden) <==> !IsStaff(db.enrollments, a.value.courseId, uid) && callerRole != "ADMIN")
    ensures var a := FindAssignment(db.assignments, assignmentId);
      a.Some? && (IsStaff(db.enrollments, a.value.courseId, uid) || callerRole == "ADMIN") ==> r.Ok?
    ensures r.Ok? ==> (
      var a := FindAssignment(db.assignments, assignmentId).value;
      && r.body.stored == MaterialsOf(a) + NewMaterials(MaterialsDir(uploadDir, a.courseId, assignmentId), parts)
      && r.body.views == Project(r.body.stored))
  {
    var found := FindAssignment(db.assignments, assignmentId);
    if found.None? {
      return Fail(NotFound);
    }
    var a := found.value;
    if !IsStaff(db.enrollments, a.courseId, uid) && callerRole != "ADMIN" {
      return Fail(Forbidden);
    }
    var materials := SaveMaterials(MaterialsOf(a), MaterialsDir(uploadDir, a.courseId, assignmentId), parts);
    r := Ok(MaterialsUpload(materials, Project(materials)));
  }

  /** An upload leaves the existing materials where they were: the stored list
      starts with them, unchanged and in their old positions. */
  lemma UploadKeepsExistingMaterials(a: Assignment, dir: string, parts: seq<UploadPart>)
    ensures var stored := MaterialsOf(a) + NewMaterials(dir, parts);
      && |stored| >= |MaterialsOf(a)|
      && stored[..|MaterialsOf(a)|] == MaterialsOf(a)
      && Project(stored)[..|MaterialsOf(a)|] == Project(MaterialsOf(a))
  {
    var before := MaterialsOf(a);
    var stored := before + NewMaterials(dir, parts);
    assert stored[..|before|] == before;
  }

  predicate MayReadMaterials(db: Db, a: Assignment, uid: nat, callerRole: string)
  {
    IsMember(db.enrollments, a.courseId, uid) || callerRole == "ADMIN"
  }

  /** GET /assignments/:id/materials. 404 for an unknown assignment, 403
      unless the caller is enrolled in the course or a global ADMIN. */
  function ListMaterials(db: Db, uid: nat, callerRole: string, assignmentId: nat): (r: Response<seq<MaterialView>>)
    ensures FindAssignment(db.assignments, assignmentId).None? <==> r == Fail(NotFound)
    ensures var a := FindAssignment(db.assignments, assignmentId);
      a.Some? ==> (r == Fail(Forbidden) <==> !MayReadMaterials(db, a.value, uid, callerRole))
    ensures var a := FindAssignment(db.assignments, assignmentId);
      a.Some? && MayReadMaterials(db, a.value, uid, callerRole) ==> r.Ok?
    ensures r.Ok? ==> r.body == Project(MaterialsOf(FindAssignment(db.assignments, assignmentId).value))
  {
    match FindAssignment(db.assignments, assignmentId)
    case None => Fail(NotFound)
    case Some(a) =>
      if !MayReadMaterials(db, a, uid, callerRole) then Fail(Forbidden)
      else Ok(Project(MaterialsOf(a)))
  }

  /** What a material download sends: the resolved file and its header. */
  datatype ServedMaterial = ServedMaterial(path: string, contentDisposition: string)

  /** GET /assignments/:id/materials/:idx/download. Unknown assignment 404,
      neither enrolled nor ADMIN 403, index out of range 404, resolved path not
      starting with the resolved upload root 403; otherwise the file is served.
      `resolve` stands for `path.resolve`. */
  function DownloadMaterial(
    db: Db, uid: nat, callerRole: string, uploadDir: string, resolve: string -> string,
    assignmentId: nat, idx: int): (r: Response<ServedMaterial>)
    ensures var a := FindAssignment(db.assignments, assignmentId);
      r == Fail(NotFound) <==> (a.None? || (MayReadMaterials(db, a.value, uid, callerRole) && !(0 <= idx < |MaterialsOf(a.value)|)))
    ensures var a := FindAssignment(db.assignments, assignmentId);
      r == Fail(Forbidden) <==> (a.Some? && (!MayReadMaterials(db, a.value, uid, callerRole)
        || (0 <= idx < |MaterialsOf(a.value)| && !PathAllowed(resolve(MaterialsOf(a.value)[idx].path), resolve(uploadDir)))))
    ensures var a := FindAssignment(db.assignments, assignmentId);
      (a.Some? && MayReadMaterials(db, a.value, uid, callerRole) && 0 <= idx < |MaterialsOf(a.value)|
        && PathAllowed(resolve(MaterialsOf(a.value)[idx].path), resolve(uploadDir))) ==> r.Ok?
    ensures r.Ok? ==> (
      var a := FindAssignment(db.assignments, assignmentId).value;
      && 0 <= idx < |MaterialsOf(a)|
      && PathAllowed(r.body.path, resolve(uploadDir))
      && r.body == ServedMaterial(resolve(MaterialsOf(a)[idx].path), ContentDisposition(MaterialsOf(a)[idx].filename)))
  {
    match FindAssignment(db.assignments, assignmentId)
    case None => Fail(NotFound)
    case Some(a) =>
      if !MayReadMaterials(db, a, uid, callerRole) then Fail(Forbidden)
      else
        var ms := MaterialsOf(a);
        if !(0 <= idx < |ms|) then Fail(NotFound)
        else
          var filePath := resolve(ms[idx].path);
          if !PathAllowed(filePath, resolve(uploadDir)) then Fail(Forbidden)
          else Ok(ServedMaterial(filePath, ContentDisposition(ms[idx].filename)))
  }
}
