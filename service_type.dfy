/** The ServiceTypes table and its handlers (`createServiceType`,
    `getServiceTypes`, `getServiceType`, `deleteServiceType`,
    `updateServiceType`). Each service type belongs to an issue; names are
    unique per issue, not globally. */
module ServiceTypes {
  import opened Http
  import opened Text
  import opened Registry
  import Issues

  /** A stored row: the issue it belongs to and its normalised name. */
  datatype ServiceType = ServiceType(issueId: int, serviceName: string)

  /** A row as the list and the single get return it: `s.*` joined with the
      `issue_type` of its issue. */
  datatype ServiceTypeView = ServiceTypeView(id: int, issueId: int, serviceName: string, issueType: string)

  const Missing: ApiError := ApiError(400, "issue_id and service_name required.")
  const IssueNotFound: ApiError := ApiError(404, "Issue not found.")
  const Duplicate: ApiError := ApiError(409, "Service type already exists for this issue.")
  const NotFound: ApiError := ApiError(404, "Service type not found.")

  /** Both body fields are truthy (`issue_id && service_name`). A name made
      of whitespace passes. */
  predicate Supplied(issueId: Option<int>, serviceName: Option<string>) {
    GivenId(issueId) && Given(serviceName)
  }

  /** The row a create or update would store. */
  function Candidate(issueId: Option<int>, serviceName: Option<string>): (st: ServiceType)
    requires Supplied(issueId, serviceName)
    ensures st.issueId == issueId.value && Normalized(st.serviceName)
    ensures st.serviceName == "" <==> AllSpace(serviceName.value)
  {
    ServiceType(issueId.value, Normalize(serviceName.value))
  }

  /** The joined view of row `id`. */
  function ViewOf(id: int, st: ServiceType, issueType: string): ServiceTypeView {
    ServiceTypeView(id, st.issueId, st.serviceName, issueType)
  }

  /** The ServiceTypes table: `service_id` to its row, and the identity value
      the next insert receives. */
  class ServiceTypeTable {
    var rows: map<int, ServiceType>
    var nextId: int

    /** Names are stored normalised, no two rows share both issue and name,
        and every id was handed out before. */
    ghost predicate Valid()
      reads this
    {
      && Unique(rows)
      && IdsBelow(rows, nextId)
      && forall id | id in rows :: Normalized(rows[id].serviceName)
    }

    constructor ()
      ensures Valid() && rows == map[]
    {
      rows := map[];
      nextId := 1;
    }

    /** `createServiceType`: 400 unless both fields are given, then 404 when
        the issue does not exist, then 409 when that issue already has a
        service type of that name; otherwise 201 and one new row. */
    method Create(issues: Issues.IssueTable, issueId: Option<int>, serviceName: Option<string>) returns (r: Result<Ack>)
      requires Valid()
      modifies this
      ensures Valid()
      ensures !Supplied(issueId, serviceName) ==> r == Err(Missing)
      ensures Supplied(issueId, serviceName) && issueId.value !in issues.rows ==> r == Err(IssueNotFound)
      ensures (Supplied(issueId, serviceName) && issueId.value in issues.rows &&
               Held(old(rows), Candidate(issueId, serviceName))) ==> r == Err(Duplicate)
      ensures r.Ok? <==> Supplied(issueId, serviceName) && issueId.value in issues.rows &&
                         !Held(old(rows), Candidate(issueId, serviceName))
      ensures r.Err? ==> rows == old(rows) && nextId == old(nextId)
      ensures r.Ok? ==> r.value == Ack(201, "Service type created.")
      ensures r.Ok? ==> old(nextId) !in old(rows) && rows == old(rows)[old(nextId) := Candidate(issueId, serviceName)]
    {
      if issueId.None? || issueId.value == 0 || serviceName.None? || serviceName.value == "" {
        return Err(Missing);
      }
      var name := Normalize(serviceName.value);
      var issueFound := issueId.value in issues.rows;
      if !issueFound {
        return Err(IssueNotFound);
      }
      var existing := Held(rows, ServiceType(issueId.value, name));
      if existing {
        return Err(Duplicate);
      }
      rows := rows[nextId := ServiceType(issueId.value, name)];
      nextId := nextId + 1;
      r := Ok(Ack(201, "Service type created."));
    }

    /** `getServiceTypes`: exactly the rows whose issue exists (inner join),
        each with that issue's type. */
    method List(issues: Issues.IssueTable) returns (views: map<int, ServiceTypeView>)
      ensures forall id :: id in views <==> id in rows && rows[id].issueId in issues.rows
      ensures forall id | id in views :: views[id] == ViewOf(id, rows[id], issues.rows[rows[id].issueId])
    {
      views := map id | id in rows && rows[id].issueId in issues.rows :: ViewOf(id, rows[id], issues.rows[rows[id].issueId]);
    }

    /** `getServiceType`: the joined row, or 404 when the row or its issue is
        missing. */
    method Get(issues: Issues.IssueTable, id: int) returns (r: Result<ServiceTypeView>)
      ensures r.Ok? <==> id in rows && rows[id].issueId in issues.rows
      ensures r.Ok? ==> r.value == ViewOf(id, rows[id], issues.rows[rows[id].issueId])
      ensures r.Err? ==> r.error == NotFound
    {
      if id in rows && rows[id].issueId in issues.rows {
        r := Ok(ViewOf(id, rows[id], issues.rows[rows[id].issueId]));
      } else {
        r := Err(NotFound);
      }
    }

    /** `deleteServiceType`: removes that one row, or 404. */
    method Delete(id: int) returns (r: Result<Ack>)
      requires Valid()
      modifies this
      ensures Valid()
      ensures nextId == old(nextId)
      ensures id in old(rows) ==> r == Ok(Ack(200, "Service type deleted successfully."))
      ensures id !in old(rows) ==> r == Err(NotFound)
      ensures rows == old(rows) - {id}
    {
      var affected := if id in rows then 1 else 0;
      rows := rows - {id};
      if affected == 0 {
        return Err(NotFound);
      }
      r := Ok(Ack(200, "Service type deleted successfully."));
    }

    /** `updateServiceType`: 400, then 404 for a missing issue, then 409 when
        another row of that issue has the name, then 404 for a missing row;
        otherwise only that row changes, to the new issue and name. */
    method Update(issues: Issues.IssueTable, id: int, issueId: Option<int>, serviceName: Option<string>) returns (r: Result<Ack>)
      requires Valid()
      modifies this
      ensures Valid()
      ensures nextId == old(nextId)
      ensures !Supplied(issueId, serviceName) ==> r == Err(Missing)
      ensures Supplied(issueId, serviceName) && issueId.value !in issues.rows ==> r == Err(IssueNotFound)
      ensures (Supplied(issueId, serviceName) && issueId.value in issues.rows &&
               HeldByOther(old(rows), Candidate(issueId, serviceName), id)) ==> r == Err(Duplicate)
      ensures (Supplied(issueId, serviceName) && issueId.value in issues.rows &&
               !HeldByOther(old(rows), Candidate(issueId, serviceName), id) && id !in old(rows)) ==> r == Err(NotFound)
      ensures r.Ok? <==> Supplied(issueId, serviceName) && issueId.value in issues.rows &&
                         !HeldByOther(old(rows), Candidate(issueId, serviceName), id) && id in old(rows)
      ensures r.Err? ==> rows == old(rows)
      ensures r.Ok? ==> r.value == Ack(200, "Service type updated successfully.")
      ensures r.Ok? ==> rows == old(rows)[id := Candidate(issueId, serviceName)]
    {
      if issueId.None? || issueId.value == 0 || serviceName.None? || serviceName.value == "" {
        return Err(Missing);
      }
      var name := Normalize(serviceName.value);
      var issueFound := issueId.value in issues.rows;
      if !issueFound {
        return Err(IssueNotFound);
      }
      var duplicate := HeldByOther(rows, ServiceType(issueId.value, name), id);
      if duplicate {
        return Err(Duplicate);
      }
      var affected := if id in rows then 1 else 0;
      if affected == 1 {
        rows := rows[id := ServiceType(issueId.value, name)];
      }
      if affected == 0 {
        return Err(NotFound);
      }
      r := Ok(Ack(200, "Service type updated successfully."));
    }
  }

  /** Uniqueness is per issue: storing a name under one issue does not
      change whether that name is taken under another. */
  lemma SameNameOtherIssue(rows: map<int, ServiceType>, k: int, i: int, j: int, n: string)
    requires k !in rows && i != j
    ensures Held(rows[k := ServiceType(j, n)], ServiceType(i, n)) <==> Held(rows, ServiceType(i, n))
  {
    var after := rows[k := ServiceType(j, n)];
    if Held(after, ServiceType(i, n)) {
      var id :| id in after && after[id] == ServiceType(i, n);
      assert id != k && id in rows;
    }
    if Held(rows, ServiceType(i, n)) {
      var id :| id in rows && rows[id] == ServiceType(i, n);
      assert id in after && after[id] == ServiceType(i, n);
    }
  }
}
