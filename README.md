# Student registry with audit trail — a Dafny model

This project models the request handlers of a small student-management web
application. Without Flask and SQLAlchemy, the handlers are a state machine
over three tables:

- `users`: username, password hash and role (`admin` or `staff`);
- `students`: name, email, phone, course and enrollment date;
- `audit_logs`: one row per student added or deleted, attributed to the acting user.

The application comes in two versions, and each is modelled as its own class.

- `App.Registry` (`registry.dfy`) models `app.py`. It covers dashboard,
  login, logout, add_student, delete_student and the admin seeding in
  init_db. The class holds users, students, the audit log and the
  session. The user that Flask-Login loads for a request is passed to each
  handler as `actor`.
- `StudentRoutes.StudentTable` (`student_routes.dfy`) models the students
  blueprint in `app/routes/students.py`. It covers list, add, edit and
  delete on a single students table. This version has no audit log and no
  empty-field check, but it has edit.

Module `Query` (`query.dfy`) holds the two read patterns both versions use:
`filter_by(...).first()` (`FirstMatch`) and `order_by(stamp.desc())`
(`NewestFirst`), plus `.limit(n)` (`Limit`) and the removal of one row by
`session.delete` (`RemoveAt`).

Ids and timestamps assigned by the server come from counters that only grow.
Each table is therefore kept in insertion order, its stamps rise strictly
along the sequence, and "newest first" is the reverse of that order. The
password check is a function parameter `check(hash, password)`. The hash that
init_db stores for the seeded admin is a parameter too.

Each class states its table rules in a `Valid()` invariant that every handler
preserves:

- student emails are unique;
- usernames are unique;
- ids and stamps rise strictly along each table;
- every audit entry names an existing user;
- a session names an existing user.

Each mutating handler's postcondition gives its outcome status and the whole
new state: every table, the session, and the id and timestamp counters. Every
rejected request leaves all of it unchanged. Each successful
`AddStudent` or `DeleteStudent` appends exactly one audit entry, attributed
to `actor`.

Choices the model takes from the code:

- audit actions are `Added`/`Deleted`, and each entry records `student_name` (app.py:64-65, app.py:134, app.py:150);
- `add_student` rejects an empty name or email as well as a missing one (app.py:122);
- the dashboard orders students by `enrollment_date` (app.py:80);
- in `app.py`, `course` and `phone` may be absent (app.py:56-57);
- the blueprint answers an absent form field with 400 Bad Request, because it reads fields with `request.form[...]` (app/routes/students.py:18-20, app/routes/students.py:39-42).

## Model

| member | source | states |
|---|---|---|
| `Query.FirstMatch` | app.py:126 | the index of the first row the filter accepts: every earlier row is rejected; None exactly when no row matches |
| `Query.NewestFirst` | app.py:80 | the rows reversed: same length, row k of the result is row n-1-k of the table |
| `Query.RemoveAt` | app.py:147 | deleting the row at position k: one row fewer, the rows before k keep their position, the rows after k move down by one |
| `Query.Limit` | app.py:84 | `.limit(n)`: a prefix of the rows of length min(n, number of rows) |
| `App.NewUser` | app.py:44-49 | a users row keeps its id, username and password; without a role it gets the default 'staff' |
| `App.CheckAdd` | app.py:122-128 | add_student's decision: MissingField iff name or email is absent or empty; DuplicateEmail iff both are filled and some student holds the email; Ok iff both are filled and no student holds it |
| `App.Authenticate` | app.py:97-98 | a user is accepted iff the username and password are present, a user has that username, and the password check passes on that user's stored hash; the accepted user is in the table and has the requested username |
| `App.InsertKeepsStudentsTable` | app.py:126-131 | inserting a student with the next id, the current stamp and an email nobody holds keeps emails unique and ids and stamps increasing |
| `App.RemoveKeepsStudentsTable` | app.py:144-147 | removing any one student keeps emails unique and ids and stamps increasing |
| `App.RemoveDropsOnlyThatId` | app.py:144-147 | with increasing ids, removing position k drops exactly the students with that row's id and keeps every other student |
| `App.AppendKeepsAuditTable` | app.py:60-68 | appending an entry with the next id, the current stamp and an existing user keeps the audit table ordered and every entry attributed to an existing user |
| `App.InsertKeepsUsersTable` | app.py:163-166 | inserting a user with the next id and a new username keeps usernames unique and ids increasing; every user that existed still exists |
| `App.StudentsNewestFirst` | app.py:80 | listing students in reverse insertion order gives strictly decreasing enrollment dates |
| `App.AuditNewestFirst` | app.py:84 | listing audit entries in reverse insertion order gives strictly decreasing timestamps |
| `App.Registry.constructor` | app.py:161 | the schema starts with empty users, students and audit_logs tables and no session |
| `App.Registry.InitDb` | app.py:158-167 | afterwards a user named 'admin' exists; if one already existed, users are unchanged; otherwise exactly one user 'admin' with role 'admin' and the given hash is appended and only the user id counter advances; students, audit log, session and the other counters are unchanged |
| `App.InitDbTwice` | app.py:172-173 | running init_db at two server starts leaves exactly one 'admin' user and adds at most one user in total |
| `App.Registry.Login` | app.py:88-105 | if a user is already logged in, the request is ignored and the session is unchanged; otherwise the login succeeds iff Authenticate accepts, and the session is bound to that user or left empty; the tables and counters are unchanged |
| `App.Registry.Logout` | app.py:107-112 | the session is cleared; the tables and counters are unchanged |
| `App.Registry.Dashboard` | app.py:76-86 | every student, newest enrollment first; for a non-admin, no audit entries; for an admin, the min(20, n) newest entries, newest first |
| `App.Registry.AddStudent` | app.py:114-139 | the status is CheckAdd of the request; a rejected request changes neither the tables nor the counters; on success, exactly one student with the given name, email, phone and course is appended, plus exactly one "Added" entry whose user is the actor and whose student name is the name given, and the student id, log id and clock each advance by one; emails stay unique |
| `App.Registry.DeleteStudent` | app.py:141-155 | NotFound iff no student has the id, and then nothing changes, counters included; on success exactly that student is removed, the others keep their order, one "Deleted" entry by the actor records the name the student had before removal, and the log id and clock advance by one |
| `App.Registry.CommitDelete` | app.py:145-153 | the student at position k is removed (RemoveAt), and every student with another id stays; one "Deleted" entry by the actor, naming the student as read before removal, is appended; the log id and clock advance by one; users, session and the other counters are unchanged |
| `StudentRoutes.EmailConflict` | app/routes/students.py:44 | the duplicate test fires iff the submitted email differs from the student's current one and some student holds it; it never fires when the email is kept |
| `StudentRoutes.Overwrite` | app/routes/students.py:39-42 | the edited student gets the new name, email and course and keeps its id and created_at; every other student is unchanged |
| `StudentRoutes.EditKeepsTable` | app/routes/students.py:44-48 | an edit that passes the duplicate test keeps emails unique and ids and stamps increasing |
| `StudentRoutes.InsertKeepsTable` | app/routes/students.py:22-27 | inserting a student with the next id, the current stamp and an email nobody holds keeps the table well formed |
| `StudentRoutes.RemoveKeepsTable` | app/routes/students.py:57-58 | removing one student keeps the table well formed |
| `StudentRoutes.RemoveDropsOnlyThatId` | app/routes/students.py:57-58 | with increasing ids, removing position k drops exactly the students with that row's id and keeps every other student |
| `StudentRoutes.ListNewestFirst` | app/routes/students.py:11 | reverse insertion order gives strictly decreasing created_at |
| `StudentRoutes.StudentTable.constructor` | app/routes/students.py:4 | the students table starts empty, with its id and timestamp counters at zero |
| `StudentRoutes.StudentTable.List` | app/routes/students.py:8-12 | every student, in reverse insertion order, with strictly decreasing created_at |
| `StudentRoutes.StudentTable.Add` | app/routes/students.py:14-32 | BadRequest iff a field is absent; DuplicateEmail iff all fields are present and some student holds the email; either way nothing changes, counters included; on success exactly one student with the given name, email and course is appended, the id and clock advance by one, and no audit entry is written |
| `StudentRoutes.StudentTable.Edit` | app/routes/students.py:34-52 | NotFound iff no student has the id; BadRequest iff the id exists and a field is absent; DuplicateEmail only when EmailConflict holds; none of these changes anything; on success only that student's name, email and course are overwritten, and its id and every other student stay as they were; the counters never change |
| `StudentRoutes.StudentTable.Delete` | app/routes/students.py:54-61 | NotFound iff no student has the id, and then nothing changes; otherwise exactly that student is removed and the others keep their order; the counters never change |

## Left out

- Flask routing, templates, flash messages, redirects, `login_required` and `load_user` are not modelled. A handler that requires login takes the user Flask-Login would load as `actor`, and `actor` must be a row of `users`.
- The GET branches of login, add and edit are not modelled; they only render a form.
- Database configuration, SSL options and environment loading are not modelled (app.py:15-41). They are I/O configuration.
- `generate_password_hash` and `check_password_hash` are library calls. The check is the parameter `check`, and the seeded hash is the parameter `adminHash`.
- `App.Authenticate`: for an absent password the library call would raise. The model counts this as a failed login; either way no session is set.
- `App.Registry.InitDb`: a database error inside `init_db` is printed and swallowed. The model has no database errors, so that path is not modelled.
- The database-level unique constraint on `students.email`, and the race between the email pre-check and the insert, are not modelled. The model runs one request at a time, and uniqueness follows from the pre-check.
- `StudentRoutes.StudentTable.Edit`: SQLAlchemy autoflush is not modelled. The duplicate query sees the committed table, so an email held by the edited student itself is never reported. With autoflush, the query at app/routes/students.py:44 could flush the edited row first. Whether it does is ORM behaviour outside the model.
- `datetime.utcnow` stamps are counters. Two rows in one commit (a student and its audit entry) share a stamp. Ties between rows of the same table, and the database's order among equal stamps, are not modelled.
- Email and username equality is modelled as exact string equality. The lookups `filter_by(email=...)` (app.py:126, app/routes/students.py:22, app/routes/students.py:44) and `filter_by(username=...)` (app.py:97, app.py:163), and the unique indexes (app.py:47, app.py:55), compare under the MySQL/TiDB column collation. That collation may ignore letter case or trailing blanks, and it is not modelled. For example, if "a@b.c" is stored, the database treats "a@b.c " as a duplicate, but the model accepts it.
- String column lengths (`String(100)` and so on) are not enforced.
- `app.models` is not part of this model. The blueprint's student fields (id, name, email, course, created_at) are taken from how the routes use them.
- The blueprint's table has the same email-uniqueness invariant as `app.py`. The routes' pre-checks preserve it.
- The repair scripts, the browser script, `app_backup/routes/main.py` and `serve.py` are not part of this model. They are database I/O, UI or server start-up.
