/** The Complaints table and its handlers (`createComplaint`,
    `getComplaints`, `getUserComplaints`, `getComplaint`, `deleteComplaint`,
    `updateComplaint`). A complaint refers to a department, an issue and the
    user who filed it; the listings join those tables. */
module Complaints {
  import opened Http
  import opened Text
  import opened Registry
  import ErrorMiddleware
  import Departments
  import Issues
  import Users

  /** A stored row. */
  datatype Complaint = Complaint(departmentId: int, issueId: int, userId: int, detail: string, status: string)

  /** A row as the listings return it: the complaint joined with the name of
      its department and the type of its issue. */
  datatype ComplaintView = ComplaintView(id: int, detail: string, status: string, departmentName: string, issueType: string)

  /** A row of the caller's own listing: the view plus the filer's name. */
  datatype UserComplaintView = UserComplaintView(view: ComplaintView, userName: Option<string>)

  const Missing: ApiError := ApiError(400, "department_id, issue_id and complaint_detail are required")
  const EmptyDetail: ApiError := ApiError(400, "complaint_detail cannot be empty")
  const NothingToUpdate: ApiError := ApiError(400, "At least one field is required to update")
  const NotFound: ApiError := ApiError(404, "Complaint not found")
  const NoneForUser: ApiError := ApiError(404, "No complaints found for this user")

  /** The status a new complaint receives when none is given. */
  const DefaultStatus: string := "Pending"

  /** The first check of `createComplaint`: department, issue and detail in
      the body and the caller's id are all truthy. */
  predicate CreateSupplied(caller: Identity, departmentId: Option<int>, issueId: Option<int>, detail: Option<string>) {
    GivenId(departmentId) && GivenId(issueId) && Given(detail) && caller.id != 0
  }

  /** `if (!status) status = "Pending"` */
  function StatusOrDefault(status: Option<string>): (s: string)
    ensures s != ""
    ensures Given(status) ==> s == status.value
    ensures !Given(status) ==> s == DefaultStatus
  {
    if Given(status) then status.value else DefaultStatus
  }

  /** One entry of the `SET` list `updateComplaint` builds. */
  datatype Assignment =
    | SetDepartment(departmentId: int)
    | SetIssue(issueId: int)
    | SetDetail(detail: string)
    | SetStatus(status: string)

  function Assign(c: Complaint, a: Assignment): Complaint {
    match a
    case SetDepartment(d) => c.(departmentId := d)
    case SetIssue(i) => c.(issueId := i)
    case SetDetail(t) => c.(detail := t)
    case SetStatus(s) => c.(status := s)
  }

  /** The row after `UPDATE ... SET` with these assignments, in list order. */
  function ApplyAll(c: Complaint, sets: seq<Assignment>): Complaint
    decreases |sets|
  {
    if sets == [] then c else ApplyAll(Assign(c, sets[0]), sets[1..])
  }

  /** Appending an assignment applies it after the others. */
  lemma {:induction false} ApplyAllAppend(c: Complaint, sets: seq<Assignment>, a: Assignment)
    ensures ApplyAll(c, sets + [a]) == Assign(ApplyAll(c, sets), a)
    decreases |sets|
  {
    if sets == [] {
      assert [] + [a] == [a];
      assert [a][1..] == [];
    } else {
      assert (sets + [a])[0] == sets[0];
      assert (sets + [a])[1..] == sets[1..] + [a];
      ApplyAllAppend(Assign(c, sets[0]), sets[1..], a);
    }
  }

  /** A field of a partial update: the supplied value, or the stored one when
      the field is absent from the body. */
  function Or<T>(given: Option<T>, stored: T): T {
    if given.Some? then given.value else stored
  }

  /** The row `updateComplaint` leaves behind: each field present in the body
      replaced (the detail trimmed), every other column kept. */
  function Patched(c: Complaint, departmentId: Option<int>, issueId: Option<int>, detail: Option<string>, status: Option<string>): Complaint {
    Complaint(Or(departmentId, c.departmentId), Or(issueId, c.issueId), c.userId,
              if detail.Some? then Trim(detail.value) else c.detail, Or(status, c.status))
  }

  /** A partial update never changes who filed the complaint, keeps every
      field that was not sent, and stores a trimmed detail. */
  lemma PatchKeepsUnsent(c: Complaint, departmentId: Option<int>, issueId: Option<int>, detail: Option<string>, status: Option<string>)
    requires IsTrimmed(c.detail)
    ensures var p := Patched(c, departmentId, issueId, detail, status);
      && p.userId == c.userId
      && (departmentId.None? ==> p.departmentId == c.departmentId)
      && (issueId.None? ==> p.issueId == c.issueId)
      && (detail.None? ==> p.detail == c.detail)
      && (status.None? ==> p.status == c.status)
      && IsTrimmed(p.detail)
  {
  }

  /** Sending the same update twice leaves the row as sending it once. */
  lemma PatchIdempotent(c: Complaint, departmentId: Option<int>, issueId: Option<int>, detail: Option<string>, status: Option<string>)
    ensures var p := Patched(c, departmentId, issueId, detail, status);
      Patched(p, departmentId, issueId, detail, status) == p
  {
    if detail.Some? {
      TrimIdempotent(detail.value);
    }
  }

  /** Unlike creation, an update may store an empty detail: a detail of
      blanks is trimmed to `""` and written. */
  lemma UpdateMayBlankDetail(c: Complaint, blanks: string)
    requires AllSpace(blanks)
    ensures Patched(c, None, None, Some(blanks), None).detail == ""
  {
  }

  /** The joined view of row `id`. */
  function ViewOf(id: int, c: Complaint, departmentName: string, issueType: string): ComplaintView {
    ComplaintView(id, c.detail, c.status, departmentName, issueType)
  }

  /** The Complaints table: `complaint_id` to its row, and the identity value
      the next insert receives. */
  class ComplaintTable {
    var rows: map<int, Complaint>
    var nextId: int

    /** Every id was handed out before, and every stored detail is
        trimmed. */
    ghost predicate Valid()
      reads this
    {
      && IdsBelow(rows, nextId)
      && forall id | id in rows :: IsTrimmed(rows[id].detail)
    }

    constructor ()
      ensures Valid() && rows == map[]
    {
      rows := map[];
      nextId := 1;
    }

    /** `createComplaint`: 400 unless department, issue, detail and caller
        are all given, then 400 when the detail is blank; otherwise one new
        row filed under the caller, with the trimmed detail and the status
        defaulting to "Pending". Department and issue are not looked up. */
    method Create(caller: Identity, departmentId: Option<int>, issueId: Option<int>, detail: Option<string>, status: Option<string>)
      returns (r: Result<Ack>)
      requires Valid()
      modifies this
      ensures Valid()
      ensures !CreateSupplied(caller, departmentId, issueId, detail) ==> r == Err(Missing)
      ensures CreateSupplied(caller, departmentId, issueId, detail) && AllSpace(detail.value) ==> r == Err(EmptyDetail)
      ensures r.Ok? <==> CreateSupplied(caller, departmentId, issueId, detail) && !AllSpace(detail.value)
      ensures r.Err? ==> rows == old(rows) && nextId == old(nextId)
      ensures r.Ok? ==> && r.value == Ack(200, "Complaint created successfully")
                        && old(nextId) !in old(rows)
                        && rows == old(rows)[old(nextId) := Complaint(departmentId.value, issueId.value, caller.id,
                                                                      Trim(detail.value), StatusOrDefault(status))]
    {
      if !GivenId(departmentId) || !GivenId(issueId) || !Given(detail) || caller.id == 0 {
        return Err(Missing);
      }
      var trimmed := Trim(detail.value);
      if |trimmed| == 0 {
        return Err(EmptyDetail);
      }
      var st := StatusOrDefault(status);
      InsertNext(rows, nextId, Complaint(departmentId.value, issueId.value, caller.id, trimmed, st));
      rows := rows[nextId := Complaint(departmentId.value, issueId.value, caller.id, trimmed, st)];
      nextId := nextId + 1;
      r := Ok(Ack(200, "Complaint created successfully"));
    }

    /** `getComplaints`: exactly the rows whose department and issue exist
        (inner joins), each with the department's name and the issue's
        type. */
    method List(departments: Departments.DepartmentTable, issues: Issues.IssueTable) returns (views: map<int, ComplaintView>)
      ensures forall id :: id in views <==> id in rows && rows[id].departmentId in departments.rows && rows[id].issueId in issues.rows
      ensures forall id | id in views ::
                views[id] == ViewOf(id, rows[id], departments.rows[rows[id].departmentId], issues.rows[rows[id].issueId])
    {
      views := map id | id in rows && rows[id].departmentId in departments.rows && rows[id].issueId in issues.rows
                 :: ViewOf(id, rows[id], departments.rows[rows[id].departmentId], issues.rows[rows[id].issueId]);
    }

    /** `getUserComplaints`: the caller's own complaints whose department,
        issue and user exist, each with the filer's name; 404 when there are
        none. */
    method ListForUser(caller: Identity, departments: Departments.DepartmentTable, issues: Issues.IssueTable, users: Users.UserTable)
      returns (r: Result<map<int, UserComplaintView>>)
      ensures r.Err? ==> r.error == NoneForUser
      ensures r.Err? <==> forall id | id in rows && rows[id].userId == caller.id ::
                            rows[id].departmentId !in departments.rows || rows[id].issueId !in issues.rows || caller.id !in users.rows
      ensures r.Ok? ==> forall id :: id in r.value <==>
                          && id in rows && rows[id].userId == caller.id
                          && rows[id].departmentId in departments.rows && rows[id].issueId in issues.rows
                          && caller.id in users.rows
      ensures r.Ok? ==> forall id | id in r.value ::
                          r.value[id] == UserComplaintView(
                            ViewOf(id, rows[id], departments.rows[rows[id].departmentId], issues.rows[rows[id].issueId]),
                            users.rows[caller.id].name)
    {
      var found := map id | id in rows && rows[id].userId == caller.id
                            && rows[id].departmentId in departments.rows && rows[id].issueId in issues.rows
                            && rows[id].userId in users.rows
                     :: UserComplaintView(
                          ViewOf(id, rows[id], departments.rows[rows[id].departmentId], issues.rows[rows[id].issueId]),
                          users.rows[rows[id].userId].name);
      if |found| == 0 {
        assert forall id | id in rows && rows[id].userId == caller.id && rows[id].departmentId in departments.rows &&
                           rows[id].issueId in issues.rows && caller.id in users.rows :: id in found;
        return Err(NoneForUser);
      }
      r := Ok(found);
    }

    /** `getComplaint` as written: the query text lacks its `SELECT`, so the
        database refuses it on every call; the driver's error has a message
        but no status code, and the reporter answers 500 whatever the id. */
    method GetAsWritten(id: int, driverMessage: string) returns (r: Result<ComplaintView>)
      ensures r == Err(ApiError(500, ErrorMiddleware.ResolvedMessage(Some(driverMessage))))
    {
      var thrown := ErrorMiddleware.Report(Some(driverMessage), None);
      r := Err(ApiError(thrown.status, thrown.message));
    }

    /** `getComplaint` with the `SELECT` in place: the joined row, or 404 when
        the row, its department or its issue is missing. */
    method Get(departments: Departments.DepartmentTable, issues: Issues.IssueTable, id: int) returns (r: Result<ComplaintView>)
      ensures r.Ok? <==> id in rows && rows[id].departmentId in departments.rows && rows[id].issueId in issues.rows
      ensures r.Ok? ==> r.value == ViewOf(id, rows[id], departments.rows[rows[id].departmentId], issues.rows[rows[id].issueId])
      ensures r.Err? ==> r.error == NotFound
    {
      if id in rows && rows[id].departmentId in departments.rows && rows[id].issueId in issues.rows {
        r := Ok(ViewOf(id, rows[id], departments.rows[rows[id].departmentId], issues.rows[rows[id].issueId]));
      } else {
        r := Err(NotFound);
      }
    }

    /** `deleteComplaint`: removes that one row, or 404. */
    method Delete(id: int) returns (r: Result<Ack>)
      requires Valid()
      modifies this
      ensures Valid()
      ensures nextId == old(nextId)
      ensures id in old(rows) ==> r == Ok(Ack(200, "Complaint deleted successfully"))
      ensures id !in old(rows) ==> r == Err(NotFound)
      ensures rows == old(rows) - {id}
    {
      var affected := if id in rows then 1 else 0;
      rows := rows - {id};
      if affected == 0 {
        return Err(NotFound);
      }
      r := Ok(Ack(200, "Complaint deleted successfully"));
    }

    /** `updateComplaint`: 400 when no field is sent; otherwise the `SET` list
        holds one assignment per field sent, and the row, if it exists,
        becomes `Patched` (404 when it does not). Nothing else changes. */
    method Update(id: int, departmentId: Option<int>, issueId: Option<int>, detail: Option<string>, status: Option<string>)
      returns (r: Result<Ack>)
      requires Valid()
      modifies this
      ensures Valid()
      ensures nextId == old(nextId)
      ensures departmentId.None? && issueId.None? && detail.None? && status.None? ==> r == Err(NothingToUpdate)
      ensures (!(departmentId.None? && issueId.None? && detail.None? && status.None?) && id !in old(rows)) ==>
                r == Err(NotFound)
      ensures r.Ok? <==> !(departmentId.None? && issueId.None? && detail.None? && status.None?) && id in old(rows)
      ensures r.Err? ==> rows == old(rows)
      ensures r.Ok? ==> && r.value == Ack(200, "Complaint updated successfully")
                        && rows == old(rows)[id := Patched(old(rows)[id], departmentId, issueId, detail, status)]
    {
      if departmentId.None? && issueId.None? && detail.None? && status.None? {
        return Err(NothingToUpdate);
      }
      var sets: seq<Assignment> := [];
      ghost var c := if id in rows then rows[id] else Complaint(0, 0, 0, "", "");
      if departmentId.Some? {
        ApplyAllAppend(c, sets, SetDepartment(departmentId.value));
        sets := sets + [SetDepartment(departmentId.value)];
      }
      assert ApplyAll(c, sets) == c.(departmentId := Or(departmentId, c.departmentId));
      if issueId.Some? {
        ApplyAllAppend(c, sets, SetIssue(issueId.value));
        sets := sets + [SetIssue(issueId.value)];
      }
      assert ApplyAll(c, sets) == c.(departmentId := Or(departmentId, c.departmentId), issueId := Or(issueId, c.issueId));
      if detail.Some? {
        var trimmed := Trim(detail.value);
        ApplyAllAppend(c, sets, SetDetail(trimmed));
        sets := sets + [SetDetail(trimmed)];
      }
      assert ApplyAll(c, sets) == Patched(c, departmentId, issueId, detail, None);
      if status.Some? {
        ApplyAllAppend(c, sets, SetStatus(status.value));
        sets := sets + [SetStatus(status.value)];
      }
      assert ApplyAll(c, sets) == Patched(c, departmentId, issueId, detail, status);
      var affected := if id in rows then 1 else 0;
      if affected == 1 {
        rows := rows[id := ApplyAll(rows[id], sets)];
      }
      if affected == 0 {
        return Err(NotFound);
      }
      r := Ok(Ack(200, "Complaint updated successfully"));
    }
  }
}
