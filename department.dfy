/** The Departments table and its handlers (`createDepartment`,
    `getDepartment`, `deleteDepartment`, `updateDepartment`). */
module Departments {
  import opened Http
  import opened Text
  import opened Registry

  /** A row as `getDepartment` returns it. */
  datatype Department = Department(id: int, name: string)

  const NotFound: ApiError := ApiError(404, "Department not found")

  /** The Departments table: `deptt_id` to `deptt_name`, and the identity
      value the next insert receives. */
  class DepartmentTable {
    var rows: map<int, string>
    var nextId: int

    /** Names are stored normalised and non-empty, no two rows share a name,
        and every id was handed out before. */
    ghost predicate Valid()
      reads this
    {
      && Unique(rows)
      && IdsBelow(rows, nextId)
      && forall id | id in rows :: rows[id] != "" && Normalized(rows[id])
    }

    constructor ()
      ensures Valid() && rows == map[]
    {
      rows := map[];
      nextId := 1;
    }

    /** `createDepartment`: 400 for a blank name, then 409 when the normalised
        name is already stored, otherwise one new row under a fresh id. */
    method Create(name: Option<string>) returns (r: Result<Ack>)
      requires Valid()
      modifies this
      ensures Valid()
      ensures Blank(name) ==> r == Err(ApiError(400, "Department name is required and must be valid"))
      ensures !Blank(name) && Held(old(rows), Normalize(name.value)) ==> r == Err(ApiError(409, "Department name already exists"))
      ensures r.Ok? <==> !Blank(name) && !Held(old(rows), Normalize(name.value))
      ensures r.Err? ==> rows == old(rows) && nextId == old(nextId)
      ensures r.Ok? ==> r.value == Ack(200, "Department created successfully")
      ensures r.Ok? ==> old(nextId) !in old(rows) && rows == old(rows)[old(nextId) := Normalize(name.value)]
    {
      if name.None? || Trim(name.value) == "" {
        return Err(ApiError(400, "Department name is required and must be valid"));
      }
      var deptName := Normalize(name.value);
      var existing := Held(rows, deptName);
      if existing {
        return Err(ApiError(409, "Department name already exists"));
      }
      InsertFreshKeepsUnique(rows, nextId, deptName);
      rows := rows[nextId := deptName];
      nextId := nextId + 1;
      r := Ok(Ack(200, "Department created successfully"));
    }

    /** `getDepartment`: the row with that id, or 404. */
    method Get(id: int) returns (r: Result<Department>)
      ensures id in rows ==> r == Ok(Department(id, rows[id]))
      ensures id !in rows ==> r == Err(NotFound)
    {
      if id in rows {
        r := Ok(Department(id, rows[id]));
      } else {
        r := Err(NotFound);
      }
    }

    /** `deleteDepartment`: removes that one row, or 404 when no row was
        affected. */
    method Delete(id: int) returns (r: Result<Ack>)
      requires Valid()
      modifies this
      ensures Valid()
      ensures nextId == old(nextId)
      ensures id in old(rows) ==> r == Ok(Ack(200, "Department deleted successfully"))
      ensures id !in old(rows) ==> r == Err(NotFound)
      ensures rows == old(rows) - {id}
    {
      var affected := if id in rows then 1 else 0;
      rows := rows - {id};
      if affected == 0 {
        return Err(NotFound);
      }
      r := Ok(Ack(200, "Department deleted successfully"));
    }

    /** `updateDepartment`: 400 for a blank name, then 409 when another row
        holds the normalised name, then 404 when no row has that id;
        otherwise only that row's name changes. */
    method Update(id: int, name: Option<string>) returns (r: Result<Ack>)
      requires Valid()
      modifies this
      ensures Valid()
      ensures nextId == old(nextId)
      ensures Blank(name) ==> r == Err(ApiError(400, "Department name is required to update"))
      ensures !Blank(name) && HeldByOther(old(rows), Normalize(name.value), id) ==>
                r == Err(ApiError(409, "Another department with the same name already exists"))
      ensures !Blank(name) && !HeldByOther(old(rows), Normalize(name.value), id) && id !in old(rows) ==>
                r == Err(NotFound)
      ensures r.Ok? <==> !Blank(name) && !HeldByOther(old(rows), Normalize(name.value), id) && id in old(rows)
      ensures r.Err? ==> rows == old(rows)
      ensures r.Ok? ==> r.value == Ack(200, "Department updated successfully")
      ensures r.Ok? ==> rows == old(rows)[id := Normalize(name.value)]
    {
      if name.None? || Trim(name.value) == "" {
        return Err(ApiError(400, "Department name is required to update"));
      }
      var deptName := Normalize(name.value);
      var duplicate := HeldByOther(rows, deptName, id);
      if duplicate {
        return Err(ApiError(409, "Another department with the same name already exists"));
      }
      var affected := if id in rows then 1 else 0;
      if affected == 1 {
        OverwriteKeepsUnique(rows, id, deptName);
        rows := rows[id := deptName];
      }
      if affected == 0 {
        return Err(NotFound);
      }
      r := Ok(Ack(200, "Department updated successfully"));
    }
  }
}
