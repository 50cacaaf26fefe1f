/** Request sequences against fresh tables, each stating what the back end
    answers end to end: role names are compared case-insensitively, a blank
    rename is refused without a write, a complaint's detail is stored
    trimmed with the default status, and a failed login does not reveal
    whether the email is registered. */
module Scenarios {
  import opened Http
  import opened Text
  import opened Registry
  import Roles
  import Departments
  import Issues
  import Complaints
  import Users

  /** Both spellings are valid role names and normalise to `"MANAGER"`. */
  lemma ManagerNormalized(s: string)
    requires s == "manager" || s == "Manager"
    ensures Roles.ValidRoleName(Some(s)) && Normalize(s) == "MANAGER"
  {
    assert IsAlpha(s);
    Roles.LettersAccepted(s);
    var u := Upper(s);
    assert forall i | 0 <= i < 7 :: u[i] == "MANAGER"[i];
  }

  /** `"manager"` is accepted and stored as `"MANAGER"`; a later
      `"Manager"` is then refused as a duplicate. */
  method RoleNamesIgnoreCase() returns (first: Result<Ack>, stored: string, second: Result<Ack>)
    ensures first == Ok(Ack(201, "Role created."))
    ensures stored == "MANAGER"
    ensures second == Err(ApiError(409, "Role name already exists."))
  {
    var roles := new Roles.RoleTable();
    ManagerNormalized("manager");
    ManagerNormalized("Manager");
    first := roles.Create(Some("manager"));
    var id :| id in roles.rows;
    stored := roles.rows[id];
    second := roles.Create(Some("Manager"));
  }

  /** Renaming a department to `""` answers 400 and leaves the table as it
      was. */
  method BlankRenameRefused() returns (created: Result<Ack>, renamed: Result<Ack>, kept: bool)
    ensures created.Ok?
    ensures renamed == Err(ApiError(400, "Department name is required to update"))
    ensures kept
  {
    var departments := new Departments.DepartmentTable();
    assert !IsSpace("Sales"[0]);
    created := departments.Create(Some("Sales"));
    var id :| id in departments.rows;
    var before := departments.rows;
    renamed := departments.Update(id, Some(""));
    kept := departments.rows == before;
  }

  /** The detail of the complaint below, trimmed. */
  lemma LeakTrimmed(detail: string)
    requires detail == "  leak in roof  "
    ensures Trim(detail) == "leak in roof"
    ensures !AllSpace(detail)
  {
    TrimPadded("  ", "leak in roof", "  ");
    assert "  " + "leak in roof" + "  " == "  leak in roof  ";
  }

  /** A complaint with some non-blank detail and no status is stored with
      the detail trimmed, the status `"Pending"` and the caller as its
      author. */
  method ComplaintStored(caller: Identity, detail: string) returns (created: Result<Ack>, stored: Complaints.Complaint)
    requires caller.id != 0 && !AllSpace(detail)
    ensures created == Ok(Ack(200, "Complaint created successfully"))
    ensures stored == Complaints.Complaint(1, 2, caller.id, Trim(detail), "Pending")
    ensures IsTrimmed(stored.detail) && stored.detail != ""
  {
    var complaints := new Complaints.ComplaintTable();
    created := complaints.Create(caller, Some(1), Some(2), Some(detail), None);
    var id :| id in complaints.rows;
    stored := complaints.rows[id];
  }

  /** `"  leak in roof  "` is stored as `"leak in roof"`. */
  method LeakInRoof(caller: Identity) returns (created: Result<Ack>, stored: Complaints.Complaint)
    requires caller.id != 0
    ensures created == Ok(Ack(200, "Complaint created successfully"))
    ensures stored == Complaints.Complaint(1, 2, caller.id, "leak in roof", "Pending")
  {
    var detail := "  leak in roof  ";
    LeakTrimmed(detail);
    created, stored := ComplaintStored(caller, detail);
  }

  /** A wrong password and an unknown email get the same 401; a registered
      email without a password gets 500; the phone's last four digits, the
      initial password, sign in. */
  method LoginFailuresAlike(issuer: Users.Issuer)
    returns (wrongPassword: Result<Users.Session>, unknownEmail: Result<Users.Session>,
             noPassword: Result<Users.Session>, initial: Result<Users.Session>)
    ensures wrongPassword == unknownEmail == Err(ApiError(401, "Invalid credentials"))
    ensures noPassword.Err? && noPassword.error.status == 500
    ensures initial.Ok? && initial.value.name == Some("Ali")
  {
    var users := new Users.UserTable();
    var created := users.Create(Some("Ali"), Some("03001234567"), Some("ali@example.com"), Some(2), false);
    assert Users.InitialPassword("03001234567") == "4567";
    var id :| id in users.rows;
    assert forall other | other in users.rows :: other == id;
    wrongPassword := users.Login(Some("ali@example.com"), Some("0000"), issuer);
    unknownEmail := users.Login(Some("bob@example.com"), Some("4567"), issuer);
    noPassword := users.Login(Some("ali@example.com"), None, issuer);
    initial := users.Login(Some("ali@example.com"), Some("4567"), issuer);
  }
}
