/**
 * The student registry of app.py: users, students and the audit trail, kept
 * by the dashboard, login, logout, add_student, delete_student and init_db
 * handlers. The database is the state of one `Registry` object; the user
 * Flask-Login loads for a request is passed to each handler as `actor`.
 * Server-assigned ids and timestamps come from counters that only grow.
 */
module App {
  import opened Query

  const AdminRole: string := "admin"
  const StaffRole: string := "staff"
  const AdminUsername: string := "admin"
  /** The dashboard shows at most this many audit entries. */
  const AuditLimit: nat := 20

  datatype User = User(id: nat, username: string, password: string, role: string)

  /** `enrolled` is the server-assigned enrollment_date. */
  datatype Student = Student(
    id: nat, name: string, email: string,
    phone: Option<string>, course: Option<string>, enrolled: nat)

  datatype Action = Added | Deleted

  datatype AuditEntry = AuditEntry(
    id: nat, userId: nat, action: Action, studentName: string, timestamp: nat)

  datatype Status = Ok | MissingField | DuplicateEmail | NotFound

  /** A users row; a user created without a role gets the column default. */
  function NewUser(id: nat, username: string, password: string, role: Option<string>): (u: User)
    ensures u.id == id && u.username == username && u.password == password
    ensures role.None? ==> u.role == StaffRole
    ensures role.Some? ==> u.role == role.value
  {
    User(id, username, password, match role case Some(r) => r case None => StaffRole)
  }

  /** Python truthiness of a form field: absent and "" are both false. */
  predicate Filled(field: Option<string>) {
    field.Some? && field.value != ""
  }

  predicate IsAdmin(u: User) {
    u.role == AdminRole
  }

  ghost predicate EmailHeld(students: seq<Student>, email: string) {
    exists i :: 0 <= i < |students| && students[i].email == email
  }

  ghost predicate UniqueUsernames(users: seq<User>) {
    forall i, j :: 0 <= i < j < |users| ==> users[i].username != users[j].username
  }

  ghost predicate EnrolledAscending(students: seq<Student>) {
    forall i, j :: 0 <= i < j < |students| ==> students[i].enrolled < students[j].enrolled
  }

  ghost predicate EnrolledDescending(students: seq<Student>) {
    forall i, j :: 0 <= i < j < |students| ==> students[i].enrolled > students[j].enrolled
  }

  ghost predicate LoggedAscending(audit: seq<AuditEntry>) {
    forall i, j :: 0 <= i < j < |audit| ==> audit[i].timestamp < audit[j].timestamp
  }

  ghost predicate LoggedDescending(audit: seq<AuditEntry>) {
    forall i, j :: 0 <= i < j < |audit| ==> audit[i].timestamp > audit[j].timestamp
  }

  ghost predicate UserExists(users: seq<User>, id: nat) {
    exists i :: 0 <= i < |users| && users[i].id == id
  }

  /** The users table: unique usernames, autoincrement ids below the next one. */
  ghost predicate UsersTable(users: seq<User>, nextId: nat) {
    (forall i, j :: 0 <= i < j < |users| ==>
       users[i].username != users[j].username && users[i].id < users[j].id) &&
    (forall i :: 0 <= i < |users| ==> users[i].id < nextId)
  }

  /**
   * The students table in insertion order: unique emails, autoincrement
   * ids, enrollment stamps that grow with insertion and lie in the past.
   */
  ghost predicate StudentsTable(students: seq<Student>, nextId: nat, clock: nat) {
    (forall i, j :: 0 <= i < j < |students| ==>
       students[i].email != students[j].email && students[i].id < students[j].id &&
       students[i].enrolled < students[j].enrolled) &&
    (forall i :: 0 <= i < |students| ==> students[i].id < nextId && students[i].enrolled < clock)
  }

  /** The audit_logs table in insertion order. */
  ghost predicate AuditTable(audit: seq<AuditEntry>, nextId: nat, clock: nat) {
    (forall i, j :: 0 <= i < j < |audit| ==>
       audit[i].id < audit[j].id && audit[i].timestamp < audit[j].timestamp) &&
    (forall i :: 0 <= i < |audit| ==> audit[i].id < nextId && audit[i].timestamp < clock)
  }

  /** Every audit entry is attributed to an existing user (the foreign key). */
  ghost predicate Attributed(audit: seq<AuditEntry>, users: seq<User>) {
    forall i :: 0 <= i < |audit| ==> UserExists(users, audit[i].userId)
  }

  /**
   * The outcome add_student decides before touching the tables: the
   * mandatory-field check first, then the existing-email query.
   */
  function CheckAdd(students: seq<Student>, name: Option<string>, email: Option<string>): (r: Status)
    ensures r == MissingField <==> !Filled(name) || !Filled(email)
    ensures r == DuplicateEmail <==> Filled(name) && Filled(email) && EmailHeld(students, email.value)
    ensures r == Ok <==> Filled(name) && Filled(email) && !EmailHeld(students, email.value)
  {
    if !Filled(name) || !Filled(email) then MissingField
    else if FirstMatch(students, (s: Student) => s.email == email.value).Some? then DuplicateEmail
    else Ok
  }

  /**
   * login's lookup: the first user with the username, accepted only when
   * the password check passes on that user's stored hash. An absent
   * username matches no row (the column is non-null); an absent password
   * never passes.
   */
  function Authenticate(users: seq<User>, username: Option<string>, password: Option<string>,
                        check: (string, string) -> bool): (r: Option<User>)
    requires UniqueUsernames(users)
    ensures r.Some? ==> r.value in users && Some(r.value.username) == username
    ensures r.Some? <==>
      (username.Some? && password.Some? &&
       exists i :: 0 <= i < |users| && users[i].username == username.value &&
                   check(users[i].password, password.value))
  {
    if username.None? then None
    else
      match FirstMatch(users, (u: User) => u.username == username.value)
      case None => None
      case Some(i) =>
        if password.Some? && check(users[i].password, password.value) then Some(users[i]) else None
  }

  /**
   * Inserting a student with the next id, the current stamp and an email
   * nobody holds keeps the table well formed, emails unique included.
   */
  lemma InsertKeepsStudentsTable(students: seq<Student>, nextId: nat, clock: nat, s: Student)
    requires StudentsTable(students, nextId, clock)
    requires s.id == nextId && s.enrolled == clock && !EmailHeld(students, s.email)
    ensures StudentsTable(students + [s], nextId + 1, clock + 1)
  {
  }

  /** Removing any one student keeps the table well formed. */
  lemma RemoveKeepsStudentsTable(students: seq<Student>, nextId: nat, clock: nat, k: nat)
    requires StudentsTable(students, nextId, clock) && k < |students|
    ensures StudentsTable(RemoveAt(students, k), nextId, clock + 1)
  {
    var t := RemoveAt(students, k);
    forall i, j | 0 <= i < j < |t|
      ensures t[i].email != t[j].email && t[i].id < t[j].id && t[i].enrolled < t[j].enrolled
    {
      assert t[i] == students[if i < k then i else i + 1];
      assert t[j] == students[if j < k then j else j + 1];
    }
  }

  /** Since ids are unique, removing position k drops exactly the rows with that id. */
  lemma RemoveDropsOnlyThatId(students: seq<Student>, k: nat)
    requires k < |students|
    requires forall i, j :: 0 <= i < j < |students| ==> students[i].id < students[j].id
    ensures forall s :: s in RemoveAt(students, k) <==> s in students && s.id != students[k].id
  {
    var t := RemoveAt(students, k);
    forall s | s in students && s.id != students[k].id ensures s in t {
      var i :| 0 <= i < |students| && students[i] == s;
      assert t[if i < k then i else i - 1] == s;
    }
    forall s | s in t ensures s in students && s.id != students[k].id {
      var i :| 0 <= i < |t| && t[i] == s;
      assert students[if i < k then i else i + 1] == s;
    }
  }

  /**
   * Appending an entry with the next id, the current stamp and an existing
   * user keeps the audit table well formed and attributed.
   */
  lemma AppendKeepsAuditTable(audit: seq<AuditEntry>, users: seq<User>, nextId: nat, clock: nat, e: AuditEntry)
    requires AuditTable(audit, nextId, clock) && Attributed(audit, users)
    requires e.id == nextId && e.timestamp == clock && UserExists(users, e.userId)
    ensures AuditTable(audit + [e], nextId + 1, clock + 1) && Attributed(audit + [e], users)
  {
  }

  /**
   * Inserting a user with the next id and a fresh username keeps the users
   * table well formed, and every user that existed still exists.
   */
  lemma InsertKeepsUsersTable(users: seq<User>, nextId: nat, u: User)
    requires UsersTable(users, nextId)
    requires u.id == nextId && forall i :: 0 <= i < |users| ==> users[i].username != u.username
    ensures UsersTable(users + [u], nextId + 1)
    ensures forall id :: UserExists(users, id) ==> UserExists(users + [u], id)
  {
    var t := users + [u];
    assert forall i :: 0 <= i < |users| ==> t[i] == users[i];
    forall id | UserExists(users, id) ensures UserExists(t, id) {
      var k :| 0 <= k < |users| && users[k].id == id;
      assert t[k].id == id;
    }
  }

  lemma ActorExists(users: seq<User>, actor: User)
    requires actor in users
    ensures UserExists(users, actor.id)
  {
  }

  /** Reverse insertion order lists students newest enrollment first. */
  lemma StudentsNewestFirst(students: seq<Student>)
    requires EnrolledAscending(students)
    ensures EnrolledDescending(NewestFirst(students))
  {
    var r := NewestFirst(students);
    var n := |students|;
    forall i, j | 0 <= i < j < n ensures r[i].enrolled > r[j].enrolled {
      assert r[i] == students[n - 1 - i] && r[j] == students[n - 1 - j];
    }
  }

  /** Reverse insertion order lists audit entries newest first. */
  lemma AuditNewestFirst(audit: seq<AuditEntry>)
    requires LoggedAscending(audit)
    ensures LoggedDescending(NewestFirst(audit))
  {
    var r := NewestFirst(audit);
    var n := |audit|;
    forall i, j | 0 <= i < j < n ensures r[i].timestamp > r[j].timestamp {
      assert r[i] == audit[n - 1 - i] && r[j] == audit[n - 1 - j];
    }
  }

  class Registry {
    var users: seq<User>
    var students: seq<Student>
    var audit: seq<AuditEntry>
    /** The id of the user the session cookie is bound to, if any. */
    var session: Option<nat>
    var nextUserId: nat
    var nextStudentId: nat
    var nextLogId: nat
    /** The next server timestamp; every commit moves it forward. */
    var clock: nat

    ghost predicate Valid()
      reads this
    {
      UsersTable(users, nextUserId) &&
      StudentsTable(students, nextStudentId, clock) &&
      AuditTable(audit, nextLogId, clock) &&
      Attributed(audit, users) &&
      (session.Some? ==> UserExists(users, session.value))
    }

    /** db.create_all() on an empty database: three empty tables. */
    constructor ()
      ensures Valid()
      ensures users == [] && students == [] && audit == [] && session == None
      ensures nextUserId == 0 && nextStudentId == 0 && nextLogId == 0 && clock == 0
    {
      users, students, audit := [], [], [];
      session := None;
      nextUserId, nextStudentId, nextLogId, clock := 0, 0, 0, 0;
    }

    /**
     * init_db's seeding: an 'admin' user with role 'admin' and the given
     * password hash is inserted only when no user is called 'admin'.
     */
    method InitDb(adminHash: string)
      requires Valid()
      modifies this
      ensures Valid()
      ensures exists i :: 0 <= i < |users| && users[i].username == AdminUsername
      ensures (exists i :: 0 <= i < |old(users)| && old(users)[i].username == AdminUsername) ==>
        users == old(users)
      ensures (forall i :: 0 <= i < |old(users)| ==> old(users)[i].username != AdminUsername) ==>
        users == old(users) + [NewUser(old(nextUserId), AdminUsername, adminHash, Some(AdminRole))]
      ensures students == old(students) && audit == old(audit) && session == old(session)
      ensures nextUserId == old(nextUserId) + |users| - |old(users)|
      ensures nextStudentId == old(nextStudentId) && nextLogId == old(nextLogId) && clock == old(clock)
    {
      var found := FirstMatch(users, (u: User) => u.username == AdminUsername);
      if found.None? {
        var admin := NewUser(nextUserId, AdminUsername, adminHash, Some(AdminRole));
        InsertKeepsUsersTable(users, nextUserId, admin);
        users := users + [admin];
        nextUserId := nextUserId + 1;
        assert users[|users| - 1] == admin;
      }
    }

    /**
     * login (POST): when a user is already logged in the request is
     * ignored and nothing changes;
     * otherwise the session is bound to the user Authenticate accepts, and
     * stays empty when it accepts none.
     */
    method Login(username: Option<string>, password: Option<string>, check: (string, string) -> bool)
      returns (ok: bool)
      requires Valid()
      modifies this
      ensures Valid()
      ensures old(session).Some? ==> !ok && session == old(session)
      ensures old(session).None? ==>
        ok == Authenticate(users, username, password, check).Some? &&
        session == (if ok then Some(Authenticate(users, username, password, check).value.id) else None)
      ensures users == old(users) && students == old(students) && audit == old(audit)
      ensures nextUserId == old(nextUserId) && nextStudentId == old(nextStudentId)
      ensures nextLogId == old(nextLogId) && clock == old(clock)
    {
      if session.Some? {
        ok := false;
        return;
      }
      var user := Authenticate(users, username, password, check);
      ok := user.Some?;
      if ok {
        session := Some(user.value.id);
      }
    }

    /** logout: the session is cleared; the tables are untouched. */
    method Logout()
      requires Valid()
      modifies this
      ensures Valid()
      ensures session == None
      ensures users == old(users) && students == old(students) && audit == old(audit)
      ensures nextUserId == old(nextUserId) && nextStudentId == old(nextStudentId)
      ensures nextLogId == old(nextLogId) && clock == old(clock)
    {
      session := None;
    }

    /**
     * dashboard: every student, newest enrollment first; for an admin the
     * at most 20 newest audit entries, newest first, and for anyone else
     * no audit entries at all.
     */
    method Dashboard(actor: User) returns (shown: seq<Student>, logs: seq<AuditEntry>)
      requires Valid()
      ensures |shown| == |students|
      ensures forall k :: 0 <= k < |shown| ==> shown[k] == students[|students| - 1 - k]
      ensures EnrolledDescending(shown)
      ensures !IsAdmin(actor) ==> logs == []
      ensures IsAdmin(actor) ==> |logs| == (if |audit| <= AuditLimit then |audit| else AuditLimit)
      ensures IsAdmin(actor) ==> forall k :: 0 <= k < |logs| ==> logs[k] == audit[|audit| - 1 - k]
      ensures LoggedDescending(logs)
    {
      shown := NewestFirst(students);
      StudentsNewestFirst(students);
      logs := [];
      if IsAdmin(actor) {
        var all := NewestFirst(audit);
        AuditNewestFirst(audit);
        logs := Limit(all, AuditLimit);
        assert forall k :: 0 <= k < |logs| ==> logs[k] == all[k];
      }
    }

    /**
     * add_student: a request without a name or email, or with an email
     * some student already holds, changes nothing; otherwise one student
     * and one "Added" audit entry by the actor, naming the student, are
     * committed together.
     */
    method AddStudent(actor: User, name: Option<string>, email: Option<string>,
                      phone: Option<string>, course: Option<string>) returns (status: Status)
      requires Valid() && actor in users
      modifies this
      ensures Valid()
      ensures status == CheckAdd(old(students), name, email)
      ensures status != Ok ==> students == old(students) && audit == old(audit)
      ensures status == Ok ==>
        students == old(students) + [Student(old(nextStudentId), name.value, email.value, phone, course, old(clock))] &&
        audit == old(audit) + [AuditEntry(old(nextLogId), actor.id, Added, name.value, old(clock))]
      ensures status != Ok ==>
        nextStudentId == old(nextStudentId) && nextLogId == old(nextLogId) && clock == old(clock)
      ensures status == Ok ==>
        nextStudentId == old(nextStudentId) + 1 && nextLogId == old(nextLogId) + 1 && clock == old(clock) + 1
      ensures users == old(users) && session == old(session) && nextUserId == old(nextUserId)
    {
      status := CheckAdd(students, name, email);
      if status != Ok {
        return;
      }
      var s := Student(nextStudentId, name.value, email.value, phone, course, clock);
      var entry := AuditEntry(nextLogId, actor.id, Added, name.value, clock);
      InsertKeepsStudentsTable(students, nextStudentId, clock, s);
      ActorExists(users, actor);
      AppendKeepsAuditTable(audit, users, nextLogId, clock, entry);
      students := students + [s];
      audit := audit + [entry];
      nextStudentId, nextLogId, clock := nextStudentId + 1, nextLogId + 1, clock + 1;
    }

    /**
     * delete_student: an id no student has gives 404 and changes nothing;
     * otherwise exactly that student is removed, the others keep their
     * order, and one "Deleted" audit entry by the actor records the name
     * the student had.
     */
    method DeleteStudent(actor: User, id: nat) returns (status: Status)
      requires Valid() && actor in users
      modifies this
      ensures Valid()
      ensures status == Ok || status == NotFound
      ensures status == NotFound <==> forall i :: 0 <= i < |old(students)| ==> old(students)[i].id != id
      ensures status == NotFound ==> students == old(students) && audit == old(audit)
      ensures status == Ok ==>
        exists k :: (0 <= k < |old(students)| && old(students)[k].id == id &&
          students == RemoveAt(old(students), k) &&
          audit == old(audit) + [AuditEntry(old(nextLogId), actor.id, Deleted, old(students)[k].name, old(clock))])
      ensures forall s :: s in students <==> s in old(students) && s.id != id
      ensures status == NotFound ==> nextLogId == old(nextLogId) && clock == old(clock)
      ensures status == Ok ==> nextLogId == old(nextLogId) + 1 && clock == old(clock) + 1
      ensures users == old(users) && session == old(session)
      ensures nextUserId == old(nextUserId) && nextStudentId == old(nextStudentId)
    {
      var found := FirstMatch(students, (s: Student) => s.id == id);
      if found.None? {
        return NotFound;
      }
      CommitDelete(actor, found.value);
      status := Ok;
    }

    /**
     * delete_student's commit once the row is found: the student at
     * position k is removed and one "Deleted" entry by the actor, carrying
     * the name read before the removal, is appended in the same commit.
     */
    method CommitDelete(actor: User, k: nat)
      requires Valid() && actor in users && k < |students|
      modifies this
      ensures Valid()
      ensures students == RemoveAt(old(students), k)
      ensures forall s :: s in students <==> s in old(students) && s.id != old(students)[k].id
      ensures audit == old(audit) + [AuditEntry(old(nextLogId), actor.id, Deleted, old(students)[k].name, old(clock))]
      ensures nextLogId == old(nextLogId) + 1 && clock == old(clock) + 1
      ensures users == old(users) && session == old(session)
      ensures nextUserId == old(nextUserId) && nextStudentId == old(nextStudentId)
    {
      var entry := AuditEntry(nextLogId, actor.id, Deleted, students[k].name, clock);
      RemoveKeepsStudentsTable(students, nextStudentId, clock, k);
      RemoveDropsOnlyThatId(students, k);
      ActorExists(users, actor);
      AppendKeepsAuditTable(audit, users, nextLogId, clock, entry);
      students, audit, nextLogId, clock := RemoveAt(students, k), audit + [entry], nextLogId + 1, clock + 1;
    }
  }

  /**
   * Every server start runs init_db: starting twice seeds exactly one
   * 'admin' user, and the second start inserts nothing.
   */
  method InitDbTwice(r: Registry, adminHash: string)
    requires r.Valid()
    modifies r
    ensures r.Valid()
    ensures exists i :: (0 <= i < |r.users| && r.users[i].username == AdminUsername &&
      forall j :: 0 <= j < |r.users| && r.users[j].username == AdminUsername ==> j == i)
    ensures |r.users| <= |old(r.users)| + 1
  {
    r.InitDb(adminHash);
    ghost var seeded := r.users;
    r.InitDb(adminHash);
    assert r.users == seeded;
  }
}
