# Complaint Management System — a verified model of its core

This project models, in Dafny, the core of a complaint-management web application.
The back end has six REST controllers over SQL Server tables: departments, issues, roles, service types, complaints and users.
It also has two Express middlewares: the central error reporter with its `TryCatch` wrapper, and the bearer-token check.
The front end contributes four pieces: the header's breadcrumbs and avatar initials, the sidebar's search filter, the route guard, and the session slice with its local-storage mirror.

How the model is built:

- **Tables.** Each table is a class whose `rows` field maps the row id to the row, with `nextId` as the identity counter.
  - Each handler is a method that changes the table in place.
  - Its contract gives the order of the error checks, says that a failed request writes nothing, and gives the exact new contents on success.
  - Names are stored trimmed and upper-cased (`Registry.Normalize`). The department, issue, role and service-type tables each have an invariant that no two rows share a name (per issue for service types). The user and complaint tables have no uniqueness invariant; theirs say only that every id is below the counter, and for complaints that every stored detail is trimmed.
- **Middlewares.** The error reporter mutates the error object. `TryCatch` is a function over a model of a handler run: the calls it made to `next`, and whether its promise settled.
- **Breadcrumbs.** They are built by a loop proved equal to a recursive specification. Lemmas about that specification give the trail's length, captions, links and current page.
- **Sidebar and route guard.** Both are pure functions, with lemmas for the properties the interface relies on: no redirect loop, case-insensitive search, and order-preserving filters.
- **Session slice.** It is a class whose invariant ties the signed-in flag to the user and token, and a signed-in state to what local storage holds.
- **Scenarios.** `Scenarios` (and three methods in `AuthSlice`) run short request sequences against fresh objects and state the end-to-end outcome.

Request bodies are optional fields. JavaScript truthiness is explicit: `Http.Given` is true for a present, non-empty string, and `Http.GivenId` for a present, non-zero number. Text handling uses ASCII whitespace, ASCII case and ASCII letters.

## Model

| member | source | states |
|---|---|---|
| Registry.Normalize | backend/src/controllers/department.controllers.ts:17 | a stored name is trimmed and has no lower-case letter; it is empty exactly when the input is all whitespace |
| Registry.NormalizeIdempotent | backend/src/controllers/department.controllers.ts:17 | normalising a stored name again leaves it unchanged, so duplicate checks compare like with like |
| Registry.OwnValueNoClash | backend/src/controllers/department.controllers.ts:89-99 | a row's own current name never counts as a clash for that row, so renaming a row to its own name is allowed |
| Registry.ClashWithAbsentId | backend/src/controllers/department.controllers.ts:81-112 | a name held by some row clashes for an id that is not in the table, so that update answers 409 rather than 404 |
| Departments.DepartmentTable.Create | backend/src/controllers/department.controllers.ts:7-35 | 400 for a blank name, then 409 when the normalised name is held; otherwise exactly one new row with the normalised name; failures write nothing and uniqueness is kept |
| Departments.DepartmentTable.Get | backend/src/controllers/department.controllers.ts:45-58 | the row with that id, or 404 |
| Departments.DepartmentTable.Delete | backend/src/controllers/department.controllers.ts:61-74 | removes only that row; 404 when it was absent |
| Departments.DepartmentTable.Update | backend/src/controllers/department.controllers.ts:77-115 | 400, then 409 only when another id holds the name, then 404; on success only that row changes, to the normalised name |
| Issues.IssueTable.Create | backend/src/controllers/issue.controllers.ts:6-27 | 400 for a blank issue type, then 409 for a held normalised type; otherwise one new row; failures write nothing |
| Issues.IssueTable.Get | backend/src/controllers/issue.controllers.ts:30-42 | the row with that id, or 404 |
| Issues.IssueTable.Delete | backend/src/controllers/issue.controllers.ts:52-64 | removes only that row; 404 when absent |
| Issues.IssueTable.Update | backend/src/controllers/issue.controllers.ts:67-99 | 400, then 409 only for a different id holding the type, then 404; only that row changes |
| Roles.AcceptedNameStoredAsLetters | backend/src/controllers/role.controllers.ts:8-11 | an accepted role name is stored as upper-case ASCII letters only |
| Roles.LettersAccepted | backend/src/controllers/role.controllers.ts:8-11 | conversely, any name of letters only is accepted and stored upper-cased |
| Roles.InnerSpaceRefused | backend/src/controllers/role.controllers.ts:8-9 | any name, padded or not, that still holds a space after trimming is refused |
| Roles.TwoWordsRefused | backend/src/controllers/role.controllers.ts:8-9 | two letter words with a space between them, such as "sales manager", are refused with any whitespace padding |
| Roles.RoleTable.Create | backend/src/controllers/role.controllers.ts:5-26 | 400 unless letters only once trimmed, then 409 for a held normalised name; otherwise 201 and exactly one new row |
| Roles.RoleTable.Get | backend/src/controllers/role.controllers.ts:34-43 | the row, or 404 |
| Roles.RoleTable.Delete | backend/src/controllers/role.controllers.ts:45-54 | removes only that row; 404 when absent |
| Roles.RoleTable.Update | backend/src/controllers/role.controllers.ts:56-83 | 400, then 409 excluding the role itself, then 404; only that row changes |
| ServiceTypes.Candidate | backend/src/controllers/serviceType.controllers.ts:8-12 | the row to store is the issue id with the normalised name; a whitespace-only name passes and is stored as "" |
| ServiceTypes.ServiceTypeTable.Create | backend/src/controllers/serviceType.controllers.ts:5-41 | 400, then 404 for a missing issue, then 409 when that issue already has the name; otherwise 201 and one new row |
| ServiceTypes.ServiceTypeTable.List | backend/src/controllers/serviceType.controllers.ts:43-51 | exactly the rows whose issue exists, each joined with its issue type |
| ServiceTypes.ServiceTypeTable.Get | backend/src/controllers/serviceType.controllers.ts:53-66 | the joined row, or 404 when the row or its issue is missing |
| ServiceTypes.ServiceTypeTable.Delete | backend/src/controllers/serviceType.controllers.ts:68-79 | removes only that row; 404 when absent |
| ServiceTypes.ServiceTypeTable.Update | backend/src/controllers/serviceType.controllers.ts:81-120 | 400, 404 for the issue, 409 excluding its own id, and only then 404 for the row; only that row changes |
| ServiceTypes.SameNameOtherIssue | backend/src/controllers/serviceType.controllers.ts:22-31 | adding a row with a name under one issue leaves unchanged whether that name is taken under any other issue |
| Complaints.StatusOrDefault | backend/src/controllers/complaint.controllers.ts:19 | a given status is kept; an absent or empty one becomes "Pending" |
| Complaints.ComplaintTable.Create | backend/src/controllers/complaint.controllers.ts:6-34 | 400 when a field or the caller id is falsy, then 400 for a blank detail; otherwise one new row with the trimmed detail, the default status and the caller as author |
| Complaints.ComplaintTable.List | backend/src/controllers/complaint.controllers.ts:37-48 | exactly the complaints whose department and issue exist, with their names |
| Complaints.ComplaintTable.ListForUser | backend/src/controllers/complaint.controllers.ts:50-70 | only the caller's complaints with existing department, issue and user; 404 exactly when there are none |
| Complaints.ComplaintTable.GetAsWritten | backend/src/controllers/complaint.controllers.ts:73-92 | the query as written fails on every call, so the answer is always 500 with the driver's message |
| Complaints.ComplaintTable.Get | backend/src/controllers/complaint.controllers.ts:73-92 | with the query repaired: the joined row, or 404 |
| Complaints.ComplaintTable.Delete | backend/src/controllers/complaint.controllers.ts:95-107 | removes only that row; 404 when absent |
| Complaints.ComplaintTable.Update | backend/src/controllers/complaint.controllers.ts:110-159 | 400 when no field is sent, then 404; otherwise the SET list built step by step yields the row with exactly the sent fields replaced |
| Complaints.ApplyAllAppend | backend/src/controllers/complaint.controllers.ts:127-144 | appending one more SET clause applies it after the ones already built |
| Complaints.PatchKeepsUnsent | backend/src/controllers/complaint.controllers.ts:114-144 | an update keeps the author and every unsent field, and the detail stays trimmed |
| Complaints.PatchIdempotent | backend/src/controllers/complaint.controllers.ts:127-144 | repeating the same update changes nothing more |
| Complaints.UpdateMayBlankDetail | backend/src/controllers/complaint.controllers.ts:136-140 | unlike create, update stores a whitespace-only detail as "" |
| Users.InitialPassword | backend/src/controllers/user.controllers.ts:24 | the last four characters of the phone, or all of it when shorter; always a suffix of the phone |
| Users.Bit | backend/src/controllers/user.controllers.ts:32 | the team flag is 1 exactly when the input is truthy |
| Users.UserTable.Create | backend/src/controllers/user.controllers.ts:8-44 | 400 without name, phone or role, then 409 for a registered phone; otherwise 201 with the new id and a row holding the initial password |
| Users.UserTable.Get | backend/src/controllers/user.controllers.ts:54-66 | the row, or 404 |
| Users.UserTable.Delete | backend/src/controllers/user.controllers.ts:68-78 | removes only that row; 404 when absent |
| Users.UserTable.Update | backend/src/controllers/user.controllers.ts:80-106 | 404 when absent; otherwise overwrites name, phone, email, role and team flag of that row only, with no phone check |
| Users.UserTable.Login | backend/src/controllers/user.controllers.ts:108-155 | unknown email and wrong password give the same 401 and write nothing; a registered email without a password gives 500 from the password comparison; success issues both tokens for a matching row and stores the refresh token on that row only |
| Users.UserTable.RefreshAsWritten | backend/src/controllers/user.controllers.ts:157-173 | as written, a token that fails verification answers 500 with the verifier's message |
| Users.UserTable.Refresh | backend/src/controllers/user.controllers.ts:157-173 | 401 "No session" without a cookie, 401 "Invalid session" for a bad token or unknown id; otherwise a new access token for that user; nothing is written |
| ErrorMiddleware.ResolvedMessage | backend/src/middlewares/error.middleware.ts:11 | an empty or missing message becomes "Internal Server Error"; a present one is kept |
| ErrorMiddleware.ResolvedStatus | backend/src/middlewares/error.middleware.ts:12 | a missing or zero status becomes 500; a present one is kept |
| ErrorMiddleware.Report | backend/src/middlewares/error.middleware.ts:11-16 | the reply always has success false, a non-zero status and a non-empty message |
| ErrorMiddleware.HandleError | backend/src/middlewares/error.middleware.ts:5-17 | the error object is updated in place to the resolved values, and the reply carries them |
| ErrorMiddleware.ReportsApiErrorAsThrown | backend/src/middlewares/error.middleware.ts:11-16 | an error thrown with a status and a message is reported exactly as thrown |
| ErrorMiddleware.ReportIdempotent | backend/src/middlewares/error.middleware.ts:11-12 | resolving defaults twice is resolving once |
| ErrorMiddleware.CatchWithNext | backend/src/middlewares/error.middleware.ts:22 | the wrapped promise always fulfils; a rejection adds exactly one call to `next`, with the reason |
| ErrorMiddleware.TryCatch | backend/src/middlewares/error.middleware.ts:19-23 | the wrapped handler never rejects; it makes the handler's own calls to `next`, then one more exactly when the handler rejected |
| ErrorMiddleware.TryCatchForwardsOnce | backend/src/middlewares/error.middleware.ts:19-23 | a failing handler's error reaches `next` exactly once more than the handler's own calls |
| ErrorMiddleware.TryCatchPassesSuccess | backend/src/middlewares/error.middleware.ts:19-23 | a succeeding handler's result is passed through and `next` is not called again |
| AuthMiddleware.BearerToken | backend/src/middlewares/auth.middleware.ts:21 | a token found is non-empty and has no space |
| AuthMiddleware.Authorize | backend/src/middlewares/auth.middleware.ts:16-30 | 401 "No token" without a header or second word, 401 "Invalid token" when verification fails; otherwise the decoded identity |
| AuthMiddleware.Authenticate | backend/src/middlewares/auth.middleware.ts:16-30 | forwards the error, or sets the request's user to the decoded identity and forwards nothing |
| AuthMiddleware.TokenIsSecondWord | backend/src/middlewares/auth.middleware.ts:21 | the token is exactly the second space-separated word |
| AuthMiddleware.SchemeIgnored | backend/src/middlewares/auth.middleware.ts:21 | the first word is never inspected: any scheme gives the same outcome |
| AuthMiddleware.MissingTokenRejected | backend/src/middlewares/auth.middleware.ts:21-23 | "Bearer" alone, or two spaces in a row, give 401 "No token" |
| HeaderNav.CapitalizeWord | frontend/components/header-nav.tsx:81 | the first character upper-cased, the rest unchanged |
| HeaderNav.Label | frontend/components/header-nav.tsx:77-82 | a segment without a fixed label gets its hyphen-separated words capitalised; every label is as long as its segment |
| HeaderNav.CapitalizedWords | frontend/components/header-nav.tsx:77-82 | a hyphenated segment is captioned with exactly its words, capitalised, joined by spaces |
| HeaderNav.NonEmptyPartsKeepsAll | frontend/components/header-nav.tsx:71 | the filter keeps every piece when none is empty |
| HeaderNav.Segments | frontend/components/header-nav.tsx:71 | segments are non-empty and slash-free |
| HeaderNav.PathStep | frontend/components/header-nav.tsx:76 | each step extends the current path by "/" and the next segment |
| HeaderNav.PathRoundTrip | frontend/components/header-nav.tsx:71-76 | a path built from segments splits back into the same segments |
| HeaderNav.TrailIndex | frontend/components/header-nav.tsx:75-89 | the trail has one crumb per segment, the i-th for segment i |
| HeaderNav.Breadcrumbs | frontend/components/header-nav.tsx:66-92 | one crumb for "/", otherwise one more crumb than there are segments |
| HeaderNav.GetBreadcrumbs | frontend/components/header-nav.tsx:66-92 | the loop builds exactly the specified trail |
| HeaderNav.OnlyLastCrumbCurrent | frontend/components/header-nav.tsx:66-89 | exactly the last crumb is current (a path of slashes only has none) |
| HeaderNav.CrumbsOfSegments | frontend/components/header-nav.tsx:72-88 | Home comes first and is not current; crumb i has segment i's label and links to "/" plus the first i segments |
| HeaderNav.CrumbLinksDistinct | frontend/components/header-nav.tsx:74-86 | links grow strictly along the trail, so they are distinct |
| HeaderNav.CrumbLinksToPrefix | frontend/components/header-nav.tsx:71-76 | each crumb's link splits into exactly the segments up to it |
| HeaderNav.FirstsOfWords | frontend/components/header-nav.tsx:58-60 | non-empty words contribute their first characters, in order |
| HeaderNav.UserInitials | frontend/components/header-nav.tsx:55-63 | "U" without a name; otherwise at most two characters, none lower-case |
| HeaderNav.InitialsOfWords | frontend/components/header-nav.tsx:55-63 | a name of words gets the upper-cased first letters of its first one or two words |
| HeaderNav.SpacesOnlyNameHasNoInitials | frontend/components/header-nav.tsx:56-62 | a name of spaces only is truthy but yields no initials |
| AppSidebar.FilterItems | frontend/components/app-sidebar.tsx:72-74 | keeps exactly the matching items, each as many times as it occurs, as an order-preserving subsequence |
| AppSidebar.NarrowSections | frontend/components/app-sidebar.tsx:69-75 | every section is kept with its title and url, its items filtered |
| AppSidebar.KeepNonEmpty | frontend/components/app-sidebar.tsx:76 | keeps exactly the sections with items, each as many times as it occurs, in order |
| AppSidebar.FilteredNavMain | frontend/components/app-sidebar.tsx:66-77 | the whole menu for a blank query; otherwise no more sections than the menu has, each with items, all of which match |
| AppSidebar.FilteredStandaloneItems | frontend/components/app-sidebar.tsx:80-86 | exactly the standalone links that match the query, or all of them when the query is blank |
| AppSidebar.BlankQueryShowsAll | frontend/components/app-sidebar.tsx:66-86 | a whitespace-only query leaves both menus unchanged |
| AppSidebar.SectionsOfQuery | frontend/components/app-sidebar.tsx:66-77 | a section is shown exactly when one of its items matches, with only its matching items, in menu order |
| AppSidebar.FilterIdempotent | frontend/components/app-sidebar.tsx:83-85 | filtering twice with the same query is filtering once |
| AppSidebar.FilterIgnoresCase | frontend/components/app-sidebar.tsx:73 | an upper-cased query filters the same as the query |
| AppSidebar.SpaceNeverMatches | frontend/components/app-sidebar.tsx:84 | a query with a space never matches a title without one |
| AppSidebar.PaddedQueryHidesStandalone | frontend/components/app-sidebar.tsx:80-86 | matching uses the untrimmed query, so a padded query hides every standalone link |
| Proxy.Guard | frontend/proxy.ts:10-35 | redirect to login with `from` exactly when there is no token and the path is not public; redirect home exactly when there is a token and the path is an auth route; otherwise pass through |
| Proxy.Target | frontend/proxy.ts:24-31 | the login redirect leads to /login, the other redirect to / |
| Proxy.RedirectTargetPassesThrough | frontend/proxy.ts:19-32 | the page a redirect leads to is let through with the same cookie, so there is no redirect loop |
| Proxy.PrefixMatchWidensPublic | frontend/proxy.ts:5-20 | any path starting with /login or /register, such as /login-help, is public and sends a signed-in user home |
| AuthSlice.AuthState.constructor | frontend/lib/features/auth-slice.ts:15-19 | no user, no token, not signed in |
| AuthSlice.AuthState.SetCredentials | frontend/lib/features/auth-slice.ts:25-35 | signed in with that user and token, both written to storage |
| AuthSlice.AuthState.Logout | frontend/lib/features/auth-slice.ts:36-46 | signed out and both storage keys removed |
| AuthSlice.AuthState.LoadFromStorage | frontend/lib/features/auth-slice.ts:47-58 | restores user and token exactly when a non-empty token and a user are stored; otherwise nothing changes |
| AuthSlice.SignInThenReload | frontend/lib/features/auth-slice.ts:25-58 | signing in and then reloading restores the same user and token, unless the token is empty |
| AuthSlice.SignOutThenReload | frontend/lib/features/auth-slice.ts:36-58 | signing out and then reloading leaves the app signed out |
| AuthSlice.ReloadTwice | frontend/lib/features/auth-slice.ts:47-58 | loading from storage twice is loading once |
| Scenarios.RoleNamesIgnoreCase | backend/src/controllers/role.controllers.ts:5-26 | "manager" gives 201 and is stored as "MANAGER"; "Manager" then gives 409 |
| Scenarios.BlankRenameRefused | backend/src/controllers/department.controllers.ts:77-85 | renaming a department to "" gives 400 and leaves the table as it was |
| Scenarios.ComplaintStored | backend/src/controllers/complaint.controllers.ts:6-34 | a non-blank detail without a status is stored trimmed and non-empty, with status "Pending" and the caller as author |
| Scenarios.LeakInRoof | backend/src/controllers/complaint.controllers.ts:14-19 | "  leak in roof  " is stored as "leak in roof" with status "Pending" |
| Scenarios.LoginFailuresAlike | backend/src/controllers/user.controllers.ts:108-129 | a wrong password and an unknown email give the same 401; a missing password gives 500; the phone's last four digits sign in |

## Left out

- Database driver, SQL text, timestamps and collation: tables are maps and ids come from a counter. SQL Server's case- and trailing-space-insensitive comparison is not modelled; names are compared after normalising.
- The check-then-write race between a duplicate check and its write: each handler is modelled as atomic.
- Token signing and verification: they are function parameters (`Users.Issuer`, the `verify` arguments). Cookie options and `res.cookie` are not modelled, including the cookie max-age the session slice writes.
- List endpoints that only return a whole table (`getDepartments`, `getIssues`, `getRoles`, `getAllUsers`) are not modelled. They select every row and have no branch.
- Route wiring: the user, role and service-type routers are not mounted in `app.ts`, and the user routes import a `logout` the controller does not export. The issue router (`backend/src/routes/issue.routes.ts:5-9`) wires only `createIssue`; the lines for getting, updating and deleting issues are commented out. The model treats every handler as reachable.
- Unicode: trimming, case mapping and `isAlpha` use ASCII only.
- Body fields of the wrong JSON type (a number where a string is expected makes `trim` throw) are not modelled; fields are typed.
- Complaints.ComplaintTable.Update: an absent field is `None`, and a field sent as JSON `null` is not modelled. The code counts `null` as sent: for `department_id`, `issue_id` and `status` it writes NULL, and for `complaint_detail` the call to `trim` throws and the answer is 500.
- Users.UserTable.Update follows the code: absent fields are written as NULL, not left unchanged.
- Users.UserTable.Login: the reply's `role` field and the cookie settings are not modelled. When several rows share an email, any of them may be the one found. A password sent as a non-string (a number, `null`) is not modelled; an absent password is, and gives 500.
- HeaderNav.Label: the label map is a plain map, so inherited object keys such as "constructor" are not treated as labels.
- The route guard's `matcher` pattern (which paths the guard runs on) is not modelled.
- AuthSlice: `document.cookie`, `cookieStore` and JSON parse failures are not modelled, and `window` is assumed to be defined. Storage holds parsed values.
- Logging (`console.log`) and React rendering, toasts and forms are not modelled.

## Findings

| source | as written | input that shows it | evidently intended | confidence | as-written member | corrected member |
|---|---|---|---|---|---|---|
| backend/src/controllers/complaint.controllers.ts:78-85 | the query text starts at the column list, with no `SELECT`, so the database rejects it | any id, including one whose complaint exists | the joined row for that id, or 404 "Complaint not found" | not executed | Complaints.ComplaintTable.GetAsWritten | Complaints.ComplaintTable.Get |
| backend/src/controllers/user.controllers.ts:161 | `jwt.verify` throws on a bad or expired refresh token, and the thrown error has no status code | an `rtk` cookie that fails verification | 401 "Invalid session", like an unknown user id | not executed | Users.UserTable.RefreshAsWritten | Users.UserTable.Refresh |
