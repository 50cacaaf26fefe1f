/** The Issues table and its handlers (`createIssue`, `getIssue`,
    `deleteIssue`, `updateIssue`). */
module Issues {
  import opened Http
  import opened Text
  import opened Registry

  /** A row as `getIssue` returns it. */
  datatype Issue = Issue(id: int, issueType: string)

  const NotFound: ApiError := ApiError(404, "Issue not found")

  /** The Issues table: `issue_id` to `issue_type`, and the identity value
      the next insert receives. */
  class IssueTable {
    var rows: map<int, string>
    var nextId: int

    /** Types are stored normalised and non-empty, no two rows share a type,
        and every id was handed out before. */
    ghost predicate Valid()
      reads this
    {
      && Unique(rows)
      && IdsBelow(rows, nextId)
      && forall id | id in rows :: rows[id] != "" && Normalized(rows[id])
    }

    constructor ()
      ensures Valid() && rows == map[]
    {
      rows := map[];
      nextId := 1;
    }

    /** `createIssue`: 400 for a blank type, then 409 when the normalised
        type is already stored, otherwise one new row under a fresh id. */
    method Create(rawType: Option<string>) returns (r: Result<Ack>)
      requires Valid()
      modifies this
      ensures Valid()
      ensures Blank(rawType) ==> r == Err(ApiError(400, "issue_type is required and must be valid"))
      ensures !Blank(rawType) && Held(old(rows), Normalize(rawType.value)) ==> r == Err(ApiError(409, "Issue type already exists"))
      ensures r.Ok? <==> !Blank(rawType) && !Held(old(rows), Normalize(rawType.value))
      ensures r.Err? ==> rows == old(rows) && nextId == old(nextId)
      ensures r.Ok? ==> r.value == Ack(200, "Issue created successfully")
      ensures r.Ok? ==> old(nextId) !in old(rows) && rows == old(rows)[old(nextId) := Normalize(rawType.value)]
    {
      if rawType.None? || Trim(rawType.value) == "" {
        return Err(ApiError(400, "issue_type is required and must be valid"));
      }
      var issueType := Normalize(rawType.value);
      var existing := Held(rows, issueType);
      if existing {
        return Err(ApiError(409, "Issue type already exists"));
      }
      InsertFreshKeepsUnique(rows, nextId, issueType);
      rows := rows[nextId := issueType];
      nextId := nextId + 1;
      r := Ok(Ack(200, "Issue created successfully"));
    }

    /** `getIssue`: the row with that id, or 404. */
    method Get(id: int) returns (r: Result<Issue>)
      ensures id in rows ==> r == Ok(Issue(id, rows[id]))
      ensures id !in rows ==> r == Err(NotFound)
    {
      if id in rows {
        r := Ok(Issue(id, rows[id]));
      } else {
        r := Err(NotFound);
      }
    }

    /** `deleteIssue`: removes that one row, or 404 when no row was
        affected. */
    method Delete(id: int) returns (r: Result<Ack>)
      requires Valid()
      modifies this
      ensures Valid()
      ensures nextId == old(nextId)
      ensures id in old(rows) ==> r == Ok(Ack(200, "Issue deleted successfully"))
      ensures id !in old(rows) ==> r == Err(NotFound)
      ensures rows == old(rows) - {id}
    {
      var affected := if id in rows then 1 else 0;
      rows := rows - {id};
      if affected == 0 {
        return Err(NotFound);
      }
      r := Ok(Ack(200, "Issue deleted successfully"));
    }

    /** `updateIssue`: 400 for a blank type, then 409 when another row holds
        the normalised type, then 404 when no row has that id; otherwise
        only that row's type changes. */
    method Update(id: int, rawType: Option<string>) returns (r: Result<Ack>)
      requires Valid()
      modifies this
      ensures Valid()
      ensures nextId == old(nextId)
      ensures Blank(rawType) ==> r == Err(ApiError(400, "issue_type is required and must be valid"))
      ensures !Blank(rawType) && HeldByOther(old(rows), Normalize(rawType.value), id) ==>
                r == Err(ApiError(409, "Another issue with the same type already exists"))
      ensures !Blank(rawType) && !HeldByOther(old(rows), Normalize(rawType.value), id) && id !in old(rows) ==>
                r == Err(NotFound)
      ensures r.Ok? <==> !Blank(rawType) && !HeldByOther(old(rows), Normalize(rawType.value), id) && id in old(rows)
      ensures r.Err? ==> rows == old(rows)
      ensures r.Ok? ==> r.value == Ack(200, "Issue updated successfully")
      ensures r.Ok? ==> rows == old(rows)[id := Normalize(rawType.value)]
    {
      if rawType.None? || Trim(rawType.value) == "" {
        return Err(ApiError(400, "issue_type is required and must be valid"));
      }
      var issueType := Normalize(rawType.value);
      var duplicate := HeldByOther(rows, issueType, id);
      if duplicate {
        return Err(ApiError(409, "Another issue with the same type already exists"));
      }
      var affected := if id in rows then 1 else 0;
      if affected == 1 {
        OverwriteKeepsUnique(rows, id, issueType);
        rows := rows[id := issueType];
      }
      if affected == 0 {
        return Err(NotFound);
      }
      r := Ok(Ack(200, "Issue updated successfully"));
    }
  }
}
