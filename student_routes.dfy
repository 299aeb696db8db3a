/**
 * The students blueprint of app/routes/students.py: list, add, edit and
 * delete over one students table, with no audit trail and no empty-field
 * check. Form fields are read with `request.form[...]`, so an absent field
 * is a 400 Bad Request that changes nothing. The table is the state of one
 * `StudentTable` object; ids and created_at stamps come from counters that
 * only grow.
 */
module StudentRoutes {
  import opened Query

  /** `created` is the server-assigned created_at. */
  datatype Student = Student(id: nat, name: string, email: string, course: string, created: nat)

  datatype Status = Ok | BadRequest | DuplicateEmail | NotFound

  ghost predicate EmailHeld(students: seq<Student>, email: string) {
    exists i :: 0 <= i < |students| && students[i].email == email
  }

  ghost predicate CreatedDescending(students: seq<Student>) {
    forall i, j :: 0 <= i < j < |students| ==> students[i].created > students[j].created
  }

  /**
   * The table in insertion order: unique emails, autoincrement ids below
   * the next one, created_at stamps that grow with insertion.
   */
  ghost predicate Table(students: seq<Student>, nextId: nat, clock: nat) {
    (forall i, j :: 0 <= i < j < |students| ==>
       students[i].email != students[j].email && students[i].id < students[j].id &&
       students[i].created < students[j].created) &&
    (forall i :: 0 <= i < |students| ==> students[i].id < nextId && students[i].created < clock)
  }

  /**
   * edit's duplicate test: it fires only when the submitted email differs
   * from the one the student has and some student already holds it.
   */
  function EmailConflict(students: seq<Student>, current: Student, email: string): (b: bool)
    ensures b <==> email != current.email && EmailHeld(students, email)
    ensures email == current.email ==> !b
  {
    email != current.email && FirstMatch(students, (s: Student) => s.email == email).Some?
  }

  /**
   * The student at position k with new name, email and course; id,
   * created_at and every other student stay as they were.
   */
  function Overwrite(students: seq<Student>, k: nat, name: string, email: string, course: string): (r: seq<Student>)
    requires k < |students|
    ensures |r| == |students|
    ensures r[k] == Student(students[k].id, name, email, course, students[k].created)
    ensures forall i :: 0 <= i < |students| && i != k ==> r[i] == students[i]
  {
    students[k := students[k].(name := name, email := email, course := course)]
  }

  /** An edit that passes the duplicate test keeps the table well formed. */
  lemma EditKeepsTable(students: seq<Student>, nextId: nat, clock: nat, k: nat,
                       name: string, email: string, course: string)
    requires Table(students, nextId, clock) && k < |students|
    requires !EmailConflict(students, students[k], email)
    ensures Table(Overwrite(students, k, name, email, course), nextId, clock)
  {
    var r := Overwrite(students, k, name, email, course);
    forall i, j | 0 <= i < j < |r| ensures r[i].email != r[j].email {
      if i == k || j == k {
        var o := if i == k then j else i;
        if email != students[k].email {
          assert students[o].email == r[o].email;
        }
      }
    }
  }

  /** Inserting a student with a fresh email keeps the table well formed. */
  lemma InsertKeepsTable(students: seq<Student>, nextId: nat, clock: nat, s: Student)
    requires Table(students, nextId, clock)
    requires s.id == nextId && s.created == clock && !EmailHeld(students, s.email)
    ensures Table(students + [s], nextId + 1, clock + 1)
  {
  }

  /** Removing any one student keeps the table well formed. */
  lemma RemoveKeepsTable(students: seq<Student>, nextId: nat, clock: nat, k: nat)
    requires Table(students, nextId, clock) && k < |students|
    ensures Table(RemoveAt(students, k), nextId, clock)
  {
    var t := RemoveAt(students, k);
    forall i, j | 0 <= i < j < |t|
      ensures t[i].email != t[j].email && t[i].id < t[j].id && t[i].created < t[j].created
    {
      assert t[i] == students[if i < k then i else i + 1];
      assert t[j] == students[if j < k then j else j + 1];
    }
  }

  /** Since ids are unique, removing position k drops exactly the rows with that id. */
  lemma RemoveDropsOnlyThatId(students: seq<Student>, k: nat)
    requires k < |students|
    requires forall i, j :: 0 <= i < j < |students| ==> students[i].id < students[j].id
    ensures forall s :: s in RemoveAt(students, k) <==> s in students && s.id != students[k].id
  {
    var t := RemoveAt(students, k);
    forall s | s in students && s.id != students[k].id ensures s in t {
      var i :| 0 <= i < |students| && students[i] == s;
      assert t[if i < k then i else i - 1] == s;
    }
    forall s | s in t ensures s in students && s.id != students[k].id {
      var i :| 0 <= i < |t| && t[i] == s;
      assert students[if i < k then i else i + 1] == s;
    }
  }

  /** Reverse insertion order lists students newest created_at first. */
  lemma ListNewestFirst(students: seq<Student>, nextId: nat, clock: nat)
    requires Table(students, nextId, clock)
    ensures CreatedDescending(NewestFirst(students))
  {
    var r := NewestFirst(students);
    var n := |students|;
    forall i, j | 0 <= i < j < n ensures r[i].created > r[j].created {
      assert r[i] == students[n - 1 - i] && r[j] == students[n - 1 - j];
    }
  }

  class StudentTable {
    var students: seq<Student>
    var nextId: nat
    /** The next server timestamp; every insert moves it forward. */
    var clock: nat

    ghost predicate Valid()
      reads this
    {
      Table(students, nextId, clock)
    }

    constructor ()
      ensures Valid() && students == [] && nextId == 0 && clock == 0
    {
      students, nextId, clock := [], 0, 0;
    }

    /** list: every student, newest created_at first. */
    method List() returns (shown: seq<Student>)
      requires Valid()
      ensures |shown| == |students|
      ensures forall k :: 0 <= k < |shown| ==> shown[k] == students[|students| - 1 - k]
      ensures CreatedDescending(shown)
    {
      shown := NewestFirst(students);
      ListNewestFirst(students, nextId, clock);
    }

    /**
     * add (POST): an absent field is a 400 and an email some student holds
     * is refused, both changing nothing; otherwise exactly one student is
     * inserted. No audit entry is written.
     */
    method Add(name: Option<string>, email: Option<string>, course: Option<string>) returns (status: Status)
      requires Valid()
      modifies this
      ensures Valid()
      ensures status == BadRequest <==> name.None? || email.None? || course.None?
      ensures status == DuplicateEmail <==>
        (name.Some? && email.Some? && course.Some? && EmailHeld(old(students), email.value))
      ensures status != NotFound
      ensures status != Ok ==> students == old(students)
      ensures status == Ok ==>
        students == old(students) + [Student(old(nextId), name.value, email.value, course.value, old(clock))]
      ensures status != Ok ==> nextId == old(nextId) && clock == old(clock)
      ensures status == Ok ==> nextId == old(nextId) + 1 && clock == old(clock) + 1
    {
      if name.None? || email.None? || course.None? {
        return BadRequest;
      }
      if FirstMatch(students, (s: Student) => s.email == email.value).Some? {
        return DuplicateEmail;
      }
      var s := Student(nextId, name.value, email.value, course.value, clock);
      InsertKeepsTable(students, nextId, clock, s);
      students := students + [s];
      nextId, clock := nextId + 1, clock + 1;
      status := Ok;
    }

    /**
     * edit (POST): an unknown id is a 404 and an absent field a 400; a new
     * email some other student holds is refused; none of these commits
     * anything. Otherwise only that student's name, email and course are
     * overwritten.
     */
    method Edit(id: nat, name: Option<string>, email: Option<string>, course: Option<string>)
      returns (status: Status)
      requires Valid()
      modifies this
      ensures Valid()
      ensures status == NotFound <==> forall i :: 0 <= i < |old(students)| ==> old(students)[i].id != id
      ensures status != Ok ==> students == old(students)
      ensures status == BadRequest <==> status != NotFound && (name.None? || email.None? || course.None?)
      ensures status == DuplicateEmail ==>
        exists k :: (0 <= k < |old(students)| && old(students)[k].id == id && email.Some? &&
          EmailConflict(old(students), old(students)[k], email.value))
      ensures status == Ok ==>
        exists k :: (0 <= k < |old(students)| && old(students)[k].id == id &&
          name.Some? && email.Some? && course.Some? &&
          !EmailConflict(old(students), old(students)[k], email.value) &&
          students == Overwrite(old(students), k, name.value, email.value, course.value))
      ensures nextId == old(nextId) && clock == old(clock)
    {
      var found := FirstMatch(students, (s: Student) => s.id == id);
      if found.None? {
        return NotFound;
      }
      var k := found.value;
      if name.None? || email.None? || course.None? {
        return BadRequest;
      }
      if EmailConflict(students, students[k], email.value) {
        return DuplicateEmail;
      }
      EditKeepsTable(students, nextId, clock, k, name.value, email.value, course.value);
      students := Overwrite(students, k, name.value, email.value, course.value);
      status := Ok;
    }

    /**
     * delete: an unknown id is a 404 that changes nothing; otherwise exactly
     * that student is removed and the others keep their order.
     */
    method Delete(id: nat) returns (status: Status)
      requires Valid()
      modifies this
      ensures Valid()
      ensures status == Ok || status == NotFound
      ensures status == NotFound <==> forall i :: 0 <= i < |old(students)| ==> old(students)[i].id != id
      ensures status == NotFound ==> students == old(students)
      ensures status == Ok ==>
        exists k :: (0 <= k < |old(students)| && old(students)[k].id == id &&
          students == RemoveAt(old(students), k))
      ensures forall s :: s in students <==> s in old(students) && s.id != id
      ensures nextId == old(nextId) && clock == old(clock)
    {
      var found := FirstMatch(students, (s: Student) => s.id == id);
      if found.None? {
        return NotFound;
      }
      var k := found.value;
      RemoveKeepsTable(students, nextId, clock, k);
      RemoveDropsOnlyThatId(students, k);
      students := RemoveAt(students, k);
      status := Ok;
    }
  }
}
