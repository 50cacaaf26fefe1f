/** The Users table and its handlers (`createUser`, `getUserById`,
    `deleteUser`, `updateUser`, `login`, `refresh`). Token signing and
    verification are parameters: the model fixes what is signed and what is
    done with a verified payload, not how signatures work. */
module Users {
  import opened Http
  import opened Text
  import opened Registry
  import ErrorMiddleware

  /** A Users row. Columns a handler may leave NULL are options. */
  datatype User = User(
    name: Option<string>,
    phone: Option<string>,
    email: Option<string>,
    password: string,
    roleId: Option<int>,
    isTeamMember: int,
    refreshToken: Option<string>)

  /** `createUser`'s reply: 201 with the new `user_id`. */
  datatype Created = Created(status: int, message: string, userId: int)

  /** `login`'s reply: the access token (also set as cookie `accessToken`),
      the refresh token (set as cookie `rtk`) and the user's id and name. */
  datatype Session = Session(accessToken: string, refreshToken: string, userId: int, name: Option<string>)

  /** `generateAccessToken` and `generateRefreshToken`: a signed string for
      the row with the given id. */
  datatype Issuer = Issuer(access: (int, User) -> string, refresh: (int, User) -> string)

  /** What `jwt.verify` with the refresh secret makes of a token: the `id`
      of its payload, or the message of the error it throws. */
  datatype Verified = Decoded(id: int) | Failed(reason: string)

  const Missing: ApiError := ApiError(400, "Name, phone, and role are required.")
  const PhoneTaken: ApiError := ApiError(409, "Phone already registered.")
  const NotFound: ApiError := ApiError(404, "User not found")
  const InvalidCredentials: ApiError := ApiError(401, "Invalid credentials")
  const NoSession: ApiError := ApiError(401, "No session")
  const InvalidSession: ApiError := ApiError(401, "Invalid session")

  /** What the reporter answers when `validator.equals` is handed a missing
      password: the `TypeError` thrown by the package's string check has a
      message but no status code. The `validator` package is not part of this
      model; the message is the one its string check builds for `undefined`. */
  const PasswordNotString: ApiError :=
    ApiError(ErrorMiddleware.ResolvedStatus(None), ErrorMiddleware.ResolvedMessage(Some("Expected a string but received a undefined")))

  /** `phone.slice(-4)`: the last four characters of the phone number, or all
      of it when it is shorter. */
  function InitialPassword(phone: string): (p: string)
    ensures |p| == if |phone| < 4 then |phone| else 4
    ensures phone == phone[..|phone| - |p|] + p
  {
    if |phone| <= 4 then phone else phone[|phone| - 4..]
  }

  /** `is_team_member ? 1 : 0` */
  function Bit(flag: bool): (b: int)
    ensures b == 1 <==> flag
    ensures b == 0 || b == 1
  {
    if flag then 1 else 0
  }

  /** `WHERE phone = @phone` matches this row (a NULL column never matches). */
  predicate HasPhone(u: User, phone: string) {
    u.phone == Some(phone)
  }

  /** `WHERE email = @email` matches this row: NULL on either side never
      matches. */
  predicate HasEmail(u: User, email: Option<string>) {
    email.Some? && u.email == email
  }

  /** The Users table: `user_id` to its row, and the identity value the next
      insert receives. */
  class UserTable {
    var rows: map<int, User>
    var nextId: int

    ghost predicate Valid()
      reads this
    {
      IdsBelow(rows, nextId)
    }

    constructor ()
      ensures Valid() && rows == map[]
    {
      rows := map[];
      nextId := 1;
    }

    /** `createUser`: 400 unless name, phone and role are given, then 409 when
        the phone is registered; otherwise 201 and one new row whose password
        is the tail of the phone number and whose team flag is 1 exactly when
        the input flag is truthy. The email is optional. */
    method Create(name: Option<string>, phone: Option<string>, email: Option<string>, roleId: Option<int>, isTeamMember: bool)
      returns (r: Result<Created>)
      requires Valid()
      modifies this
      ensures Valid()
      ensures !(Given(name) && Given(phone) && GivenId(roleId)) ==> r == Err(Missing)
      ensures (Given(name) && Given(phone) && GivenId(roleId) &&
               exists id | id in old(rows) :: HasPhone(old(rows)[id], phone.value)) ==> r == Err(PhoneTaken)
      ensures r.Err? ==> rows == old(rows) && nextId == old(nextId)
      ensures r.Ok? ==> && r.value == Created(201, "User created successfully.", old(nextId))
                        && old(nextId) !in old(rows)
                        && rows == old(rows)[old(nextId) := User(name, phone, email, InitialPassword(phone.value), roleId, Bit(isTeamMember), None)]
      ensures r.Ok? <==> && Given(name) && Given(phone) && GivenId(roleId)
                         && forall id | id in old(rows) :: !HasPhone(old(rows)[id], phone.value)
    {
      if !Given(name) || !Given(phone) || !GivenId(roleId) {
        return Err(Missing);
      }
      var registered := exists id | id in rows :: HasPhone(rows[id], phone.value);
      if registered {
        return Err(PhoneTaken);
      }
      var password := InitialPassword(phone.value);
      var userId := nextId;
      rows := rows[userId := User(name, phone, email, password, roleId, Bit(isTeamMember), None)];
      nextId := nextId + 1;
      r := Ok(Created(201, "User created successfully.", userId));
    }

    /** `getUserById`: the row with that id, or 404. */
    method Get(id: int) returns (r: Result<User>)
      ensures id in rows ==> r == Ok(rows[id])
      ensures id !in rows ==> r == Err(NotFound)
    {
      if id in rows {
        r := Ok(rows[id]);
      } else {
        r := Err(NotFound);
      }
    }

    /** `deleteUser`: removes that one row, or 404. */
    method Delete(id: int) returns (r: Result<Ack>)
      requires Valid()
      modifies this
      ensures Valid()
      ensures nextId == old(nextId)
      ensures id in old(rows) ==> r == Ok(Ack(200, "User deleted successfully."))
      ensures id !in old(rows) ==> r == Err(NotFound)
      ensures rows == old(rows) - {id}
    {
      var affected := if id in rows then 1 else 0;
      rows := rows - {id};
      if affected == 0 {
        return Err(NotFound);
      }
      r := Ok(Ack(200, "User deleted successfully."));
    }

    /** `updateUser`: 404 when no row has that id; otherwise that row's name,
        phone, email, role and team flag are overwritten with the body's
        values, absent ones becoming NULL, with no uniqueness check on the
        phone. Password and refresh token are kept. */
    method Update(id: int, name: Option<string>, phone: Option<string>, email: Option<string>, roleId: Option<int>, isTeamMember: bool)
      returns (r: Result<Ack>)
      requires Valid()
      modifies this
      ensures Valid()
      ensures nextId == old(nextId)
      ensures id !in old(rows) ==> r == Err(NotFound) && rows == old(rows)
      ensures id in old(rows) ==> && r == Ok(Ack(200, "User updated successfully."))
                                  && rows == old(rows)[id := old(rows)[id].(name := name, phone := phone, email := email,
                                                                           roleId := roleId, isTeamMember := Bit(isTeamMember))]
    {
      if id !in rows {
        return Err(NotFound);
      }
      var existing := rows[id];
      rows := rows[id := existing.(name := name, phone := phone, email := email, roleId := roleId, isTeamMember := Bit(isTeamMember))];
      r := Ok(Ack(200, "User updated successfully."));
    }

    /** `login`: looks the user up by email and compares the password; an
        unknown email and a wrong password give the same 401 and change
        nothing. A request without a password that names a registered email
        reaches the comparison, which throws, and the reporter answers 500.
        On success both tokens are issued for that row and the refresh token
        is stored on that row only. Which row is found when several share the
        email is up to the database. */
    method Login(email: Option<string>, password: Option<string>, issuer: Issuer) returns (r: Result<Session>)
      requires Valid()
      modifies this
      ensures Valid()
      ensures nextId == old(nextId)
      ensures (forall id | id in old(rows) :: !HasEmail(old(rows)[id], email)) ==> r == Err(InvalidCredentials)
      ensures (exists id | id in old(rows) :: HasEmail(old(rows)[id], email)) && password.None? ==>
                r == Err(PasswordNotString)
      ensures password.Some? &&
              (forall id | id in old(rows) && HasEmail(old(rows)[id], email) :: old(rows)[id].password != password.value) ==>
                r == Err(InvalidCredentials)
      ensures ((exists id | id in old(rows) :: HasEmail(old(rows)[id], email)) && password.Some? &&
               (forall id | id in old(rows) && HasEmail(old(rows)[id], email) :: old(rows)[id].password == password.value)) ==>
                r.Ok?
      ensures r.Err? ==> rows == old(rows)
      ensures r.Err? ==> r.error == InvalidCredentials || (password.None? && r.error == PasswordNotString)
      ensures r.Ok? ==>
                var uid := r.value.userId;
                && uid in old(rows)
                && HasEmail(old(rows)[uid], email)
                && password == Some(old(rows)[uid].password)
                && r.value == Session(issuer.access(uid, old(rows)[uid]), issuer.refresh(uid, old(rows)[uid]), uid, old(rows)[uid].name)
                && rows == old(rows)[uid := old(rows)[uid].(refreshToken := Some(r.value.refreshToken))]
    {
      var found := exists id | id in rows :: HasEmail(rows[id], email);
      if !found {
        return Err(InvalidCredentials);
      }
      var uid :| uid in rows && HasEmail(rows[uid], email);
      var user := rows[uid];
      if password.None? {
        return Err(PasswordNotString);
      }
      if password.value != user.password {
        return Err(InvalidCredentials);
      }
      var accessToken := issuer.access(uid, user);
      var refreshToken := issuer.refresh(uid, user);
      rows := rows[uid := user.(refreshToken := Some(refreshToken))];
      r := Ok(Session(accessToken, refreshToken, uid, user.name));
    }

    /** `refresh`: 401 "No session" without a refresh cookie, 401 "Invalid
        session" when the token does not verify or names no user; otherwise
        a new access token for that user. The refresh token is not rotated
        and nothing is written. */
    method Refresh(cookie: Option<string>, verify: string -> Verified, issuer: Issuer) returns (r: Result<string>)
      ensures !Given(cookie) ==> r == Err(NoSession)
      ensures Given(cookie) && verify(cookie.value).Failed? ==> r == Err(InvalidSession)
      ensures r.Ok? <==> Given(cookie) && verify(cookie.value).Decoded? && verify(cookie.value).id in rows
      ensures r.Err? ==> r.error.status == 401
      ensures r.Ok? ==> var id := verify(cookie.value).id; r.value == issuer.access(id, rows[id])
    {
      if !Given(cookie) {
        return Err(NoSession);
      }
      var decoded := verify(cookie.value);
      if decoded.Failed? {
        return Err(InvalidSession);
      }
      if decoded.id !in rows {
        return Err(InvalidSession);
      }
      r := Ok(issuer.access(decoded.id, rows[decoded.id]));
    }

    /** `refresh` as written: `jwt.verify` throws on a bad or expired token,
        and the error it throws carries a message but no status code, so the
        error reporter answers 500 instead of 401. */
    method RefreshAsWritten(cookie: Option<string>, verify: string -> Verified, issuer: Issuer) returns (r: Result<string>)
      ensures !Given(cookie) ==> r == Err(NoSession)
      ensures Given(cookie) && verify(cookie.value).Failed? ==>
                r == Err(ApiError(500, ErrorMiddleware.ResolvedMessage(Some(verify(cookie.value).reason))))
      ensures r.Ok? <==> Given(cookie) && verify(cookie.value).Decoded? && verify(cookie.value).id in rows
      ensures r.Ok? ==> var id := verify(cookie.value).id; r.value == issuer.access(id, rows[id])
    {
      if !Given(cookie) {
        return Err(NoSession);
      }
      var decoded := verify(cookie.value);
      if decoded.Failed? {
        var thrown := ErrorMiddleware.Report(Some(decoded.reason), None);
        return Err(ApiError(thrown.status, thrown.message));
      }
      if decoded.id !in rows {
        return Err(InvalidSession);
      }
      r := Ok(issuer.access(decoded.id, rows[decoded.id]));
    }
  }
}
