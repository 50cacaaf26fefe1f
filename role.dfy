/** The Roles table and its handlers (`createRole`, `getRole`,
    `deleteRole`, `updateRole`). */
module Roles {
  import opened Http
  import opened Text
  import opened Registry

  /** A row as `getRole` returns it. */
  datatype Role = Role(id: int, roleName: string)

  /** The role-name rule of create and update: present, and letters only once
      trimmed (`validator.isAlpha(role_name.trim())`). */
  predicate ValidRoleName(name: Option<string>) {
    Given(name) && IsAlpha(Trim(name.value))
  }

  /** A stored role name: one or more upper-case ASCII letters. */
  predicate StoredRoleName(s: string) {
    IsAlpha(s) && NoLower(s)
  }

  /** An accepted name is stored as upper-case letters only. */
  lemma {:induction false} AcceptedNameStoredAsLetters(name: Option<string>)
    requires ValidRoleName(name)
    ensures StoredRoleName(Normalize(name.value))
  {
    var t := Trim(name.value);
    var n := Normalize(name.value);
    assert n == Upper(t);
    forall i | 0 <= i < |n|
      ensures IsAsciiLetter(n[i])
    {
      assert n[i] == UpperChar(t[i]);
    }
  }

  /** Conversely, a name of letters only is accepted, and stored upper-cased
      with nothing trimmed. */
  lemma LettersAccepted(s: string)
    requires IsAlpha(s)
    ensures ValidRoleName(Some(s))
    ensures Normalize(s) == Upper(s)
  {
    assert !IsSpace(s[0]) && !IsSpace(s[|s| - 1]);
    TrimPadded([], s, []);
    assert [] + s + [] == s;
  }

  /** A name that still holds a space once trimmed is refused, however it
      is padded. */
  lemma InnerSpaceRefused(s: string)
    requires ' ' in Trim(s)
    ensures !ValidRoleName(Some(s))
  {
    var t := Trim(s);
    var k :| 0 <= k < |t| && t[k] == ' ';
    assert !IsAsciiLetter(t[k]);
  }

  /** Two words with a space between them are refused, whatever their
      letters and padding: `"sales manager"` yields 400. */
  lemma TwoWordsRefused(pre: string, a: string, b: string, post: string)
    requires IsAlpha(a) && IsAlpha(b) && AllSpace(pre) && AllSpace(post)
    ensures !ValidRoleName(Some(pre + (a + " " + b) + post))
  {
    var s := a + " " + b;
    assert s[0] == a[0];
    assert s[|s| - 1] == b[|b| - 1];
    assert s[|a|] == ' ';
    TrimPadded(pre, s, post);
    InnerSpaceRefused(pre + s + post);
  }

  const NotFound: ApiError := ApiError(404, "Role not found.")

  /** The Roles table: `role_id` to `role_name`, and the identity value the
      next insert receives. */
  class RoleTable {
    var rows: map<int, string>
    var nextId: int

    /** Names are stored as upper-case letters, no two rows share a name,
        and every id was handed out before. */
    ghost predicate Valid()
      reads this
    {
      && Unique(rows)
      && IdsBelow(rows, nextId)
      && forall id | id in rows :: StoredRoleName(rows[id])
    }

    constructor ()
      ensures Valid() && rows == map[]
    {
      rows := map[];
      nextId := 1;
    }

    /** `createRole`: 400 unless the trimmed name is letters only, then 409
        when the normalised name is already stored, otherwise 201 and one new
        row under a fresh id. */
    method Create(name: Option<string>) returns (r: Result<Ack>)
      requires Valid()
      modifies this
      ensures Valid()
      ensures !ValidRoleName(name) ==> r == Err(ApiError(400, "Role name required and should be valid."))
      ensures ValidRoleName(name) && Held(old(rows), Normalize(name.value)) ==> r == Err(ApiError(409, "Role name already exists."))
      ensures r.Ok? <==> ValidRoleName(name) && !Held(old(rows), Normalize(name.value))
      ensures r.Err? ==> rows == old(rows) && nextId == old(nextId)
      ensures r.Ok? ==> r.value == Ack(201, "Role created.")
      ensures r.Ok? ==> old(nextId) !in old(rows) && rows == old(rows)[old(nextId) := Normalize(name.value)]
    {
      if name.None? || name.value == "" || !IsAlpha(Trim(name.value)) {
        return Err(ApiError(400, "Role name required and should be valid."));
      }
      var roleName := Normalize(name.value);
      AcceptedNameStoredAsLetters(name);
      var existing := Held(rows, roleName);
      if existing {
        return Err(ApiError(409, "Role name already exists."));
      }
      InsertFreshKeepsUnique(rows, nextId, roleName);
      rows := rows[nextId := roleName];
      nextId := nextId + 1;
      r := Ok(Ack(201, "Role created."));
    }

    /** `getRole`: the row with that id, or 404. */
    method Get(id: int) returns (r: Result<Role>)
      ensures id in rows ==> r == Ok(Role(id, rows[id]))
      ensures id !in rows ==> r == Err(NotFound)
    {
      if id in rows {
        r := Ok(Role(id, rows[id]));
      } else {
        r := Err(NotFound);
      }
    }

    /** `deleteRole`: removes that one row, or 404 when no row was
        affected. */
    method Delete(id: int) returns (r: Result<Ack>)
      requires Valid()
      modifies this
      ensures Valid()
      ensures nextId == old(nextId)
      ensures id in old(rows) ==> r == Ok(Ack(200, "Role deleted successfully."))
      ensures id !in old(rows) ==> r == Err(NotFound)
      ensures rows == old(rows) - {id}
    {
      var affected := if id in rows then 1 else 0;
      rows := rows - {id};
      if affected == 0 {
        return Err(NotFound);
      }
      r := Ok(Ack(200, "Role deleted successfully."));
    }

    /** `updateRole`: 400 unless the trimmed name is letters only, then 409
        when another row holds the normalised name, then 404 when no row has that id;
        otherwise only that row's name changes. */
    method Update(id: int, name: Option<string>) returns (r: Result<Ack>)
      requires Valid()
      modifies this
      ensures Valid()
      ensures nextId == old(nextId)
      ensures !ValidRoleName(name) ==> r == Err(ApiError(400, "Role name required and should be valid."))
      ensures ValidRoleName(name) && HeldByOther(old(rows), Normalize(name.value), id) ==>
                r == Err(ApiError(409, "Role name already exists."))
      ensures ValidRoleName(name) && !HeldByOther(old(rows), Normalize(name.value), id) && id !in old(rows) ==>
                r == Err(NotFound)
      ensures r.Ok? <==> ValidRoleName(name) && !HeldByOther(old(rows), Normalize(name.value), id) && id in old(rows)
      ensures r.Err? ==> rows == old(rows)
      ensures r.Ok? ==> r.value == Ack(200, "Role updated successfully.")
      ensures r.Ok? ==> rows == old(rows)[id := Normalize(name.value)]
    {
      if name.None? || name.value == "" || !IsAlpha(Trim(name.value)) {
        return Err(ApiError(400, "Role name required and should be valid."));
      }
      var roleName := Normalize(name.value);
      AcceptedNameStoredAsLetters(name);
      var duplicate := HeldByOther(rows, roleName, id);
      if duplicate {
        return Err(ApiError(409, "Role name already exists."));
      }
      var affected := if id in rows then 1 else 0;
      if affected == 1 {
        rows := rows[id := roleName];
      }
      if affected == 0 {
        return Err(NotFound);
      }
      r := Ok(Ack(200, "Role updated successfully."));
    }
  }
}
