/** The students routes: create and update with grade validation and normalisation,
    the partial-update builder, spreadsheet import, and the transactional single and
    batch deletes that cascade to the student's behavior records. */
module Students {
  import opened Common
  import opened Tables
  import opened Schema
  import opened Grades

  /** The fields a request body carries; a column absent from the map was not sent. */
  type Body = map<Column, string>

  function Field(body: Body, c: Column): Option<string>
  {
    if c in body then Some(body[c]) else None
  }

  /** A store error raised inside a transaction: SQLITE_BUSY, SQLITE_LOCKED or any other. */
  datatype StoreFault = NoFault | Busy | Locked | Failed

  /** Busy and locked databases ask the client to retry (409); any other error is a 500. */
  function FaultStatus(f: StoreFault): (status: int)
    requires f != NoFault
    ensures status == 409 <==> f == Busy || f == Locked
    ensures status == 409 || status == 500
  {
    if f == Busy || f == Locked then 409 else 500
  }

  /** The row `INSERT INTO students (...)` creates from a body and the validated grade. */
  function NewStudent(id: int, body: Body, grade: string): Student
    requires Name in body && StudentNo in body
  {
    Student(id, body[Name], body[StudentNo], grade, Field(body, Class), Field(body, Teacher),
            Field(body, PhotoUrl), Field(body, Address), Field(body, EmergencyContact),
            Field(body, EmergencyPhone), Field(body, Notes), Normal)
  }

  /** Whether some row other than `except` already holds the student number. */
  predicate NumberTaken(rows: seq<Student>, no: string, except: int)
  {
    exists i :: 0 <= i < |rows| && rows[i].studentNo == no && rows[i].id != except
  }

  /** POST /api/students. The grade is checked first (400); the insert then fails (500)
      when the NOT NULL name or the NOT NULL UNIQUE student number is missing or taken.
      The 201 reply echoes the grade as sent, while the row stores the normalised label. */
  method CreateStudent(db: Db, body: Body, currentYear: int)
    returns (status: int, message: string, stored: Option<Student>, replyGrade: Option<string>)
    requires db.Valid()
    modifies db`students, db`nextStudentId
    ensures db.Valid()
    ensures status == 201 <==> stored.Some?
    ensures status == 400 <==> CreateGrade(Field(body, Grade), currentYear).Rejected?
    ensures status == 400 ==> message == CreateGrade(Field(body, Grade), currentYear).message
    ensures CreateGrade(Field(body, Grade), currentYear).Accepted? ==>
      (status == 500 <==> Name !in body || StudentNo !in body
                          || NumberTaken(old(db.students), body[StudentNo], old(db.nextStudentId)))
    ensures status == 201 ==>
      && stored.value == NewStudent(old(db.nextStudentId), body, CreateGrade(Field(body, Grade), currentYear).grade)
      && db.students == old(db.students) + [stored.value]
      && replyGrade == Field(body, Grade)
    ensures status != 201 ==> db.students == old(db.students) && db.nextStudentId == old(db.nextStudentId)
    ensures status in {201, 400, 500}
  {
    stored, replyGrade := None, None;
    var check := CreateGrade(Field(body, Grade), currentYear);
    if check.Rejected? {
      return 400, check.message, None, None;
    }
    if Name !in body || StudentNo !in body {
      return 500, "NOT NULL constraint failed", None, None;
    }
    var id := db.nextStudentId;
    if NumberTaken(db.students, body[StudentNo], id) {
      return 500, "UNIQUE constraint failed: students.student_id", None, None;
    }
    var row := NewStudent(id, body, check.grade);
    assert forall i :: 0 <= i < |db.students| ==> db.students[i].id != id;
    AppendFreshKey(db.students, StudentKey, id, row);
    AppendFreshText(db.students, StudentNoOf, row);
    db.students := db.students + [row];
    db.nextStudentId := id + 1;
    status, message, stored, replyGrade := 201, "", Some(row), Field(body, Grade);
  }

  /** GET /api/students/:id. */
  method GetStudent(db: Db, id: int) returns (status: int, row: Option<Student>)
    ensures status == 404 <==> forall i :: 0 <= i < |db.students| ==> db.students[i].id != id
    ensures status == 200 ==> row.Some? && row.value in db.students && row.value.id == id
    ensures status == 200 || status == 404
  {
    var k := Find(db.students, StudentKey, id);
    if k.None? {
      return 404, None;
    }
    return 200, Some(db.students[k.value]);
  }

  /** The order of the columns in the update handler's field list. */
  const ColumnOrder: seq<Column> :=
    [Name, StudentNo, Grade, Class, Teacher, PhotoUrl, Address, EmergencyContact, EmergencyPhone, Notes]

  /** The (column, value) pairs of the fields that were sent, in the order of `cols`. */
  function Defined(cols: seq<Column>, fields: Body): seq<(Column, string)>
    decreases |cols|
  {
    if cols == [] then []
    else
      var last := cols[|cols| - 1];
      Defined(cols[..|cols| - 1], fields) + (if last in fields then [(last, fields[last])] else [])
  }

  /** Every column a builder pair writes was sent, with the value that was sent. */
  lemma {:induction false} DefinedSound(cols: seq<Column>, fields: Body, k: nat)
    requires k < |Defined(cols, fields)|
    ensures Defined(cols, fields)[k].0 in fields && Defined(cols, fields)[k].1 == fields[Defined(cols, fields)[k].0]
    ensures Defined(cols, fields)[k].0 in cols
    decreases |cols|
  {
    var init := Defined(cols[..|cols| - 1], fields);
    if k < |init| {
      DefinedSound(cols[..|cols| - 1], fields, k);
    }
  }

  /** Every listed column that was sent yields its pair. */
  lemma {:induction false} DefinedHas(cols: seq<Column>, fields: Body, c: Column)
    requires c in cols && c in fields
    ensures (c, fields[c]) in Defined(cols, fields)
    decreases |cols|
  {
    var init := cols[..|cols| - 1];
    if c != cols[|cols| - 1] {
      assert c in init;
      DefinedHas(init, fields, c);
    }
  }

  /** `UPDATE students SET c1 = ?, c2 = ?, ...`: the assignments applied left to right. */
  function ApplyAll(s: Student, assignments: seq<(Column, string)>): Student
    decreases |assignments|
  {
    if assignments == [] then s
    else
      var last := assignments[|assignments| - 1];
      Set(ApplyAll(s, assignments[..|assignments| - 1]), last.0, last.1)
  }

  /** Only fields that were sent are written: a listed column takes the value sent, every
      other column keeps its value, and the key and status never change. */
  lemma {:induction false} ApplyDefined(s: Student, cols: seq<Column>, fields: Body, c: Column)
    ensures Get(ApplyAll(s, Defined(cols, fields)), c) == if c in cols && c in fields then Some(fields[c]) else Get(s, c)
    ensures ApplyAll(s, Defined(cols, fields)).id == s.id
    ensures ApplyAll(s, Defined(cols, fields)).status == s.status
    decreases |cols|
  {
    if cols != [] {
      var init := cols[..|cols| - 1];
      var last := cols[|cols| - 1];
      ApplyDefined(s, init, fields, c);
      assert c in cols <==> c in init || c == last;
      if last in fields {
        var ds := Defined(init, fields) + [(last, fields[last])];
        assert ds[..|ds| - 1] == Defined(init, fields);
      } else {
        assert Defined(cols, fields) == Defined(init, fields);
      }
    }
  }

  /** The builder loop: one `column = ?` and one value per field that is not undefined. */
  method CollectUpdates(fields: Body) returns (updates: seq<Column>, values: seq<string>)
    ensures |updates| == |values| == |Defined(ColumnOrder, fields)|
    ensures forall i :: 0 <= i < |updates| ==> Defined(ColumnOrder, fields)[i] == (updates[i], values[i])
  {
    updates, values := [], [];
    var i := 0;
    while i < |ColumnOrder|
      invariant 0 <= i <= |ColumnOrder|
      invariant |updates| == |values| == |Defined(ColumnOrder[..i], fields)|
      invariant forall k :: 0 <= k < |updates| ==> Defined(ColumnOrder[..i], fields)[k] == (updates[k], values[k])
    {
      var c := ColumnOrder[i];
      assert ColumnOrder[..i + 1][..i] == ColumnOrder[..i];
      if c in fields {
        updates, values := updates + [c], values + [fields[c]];
      }
      i := i + 1;
    }
    assert ColumnOrder[..i] == ColumnOrder;
  }

  /** The fields an update writes: the body, with a truthy grade replaced by its
      normalised label. An empty grade is not validated and is written as sent. */
  function UpdateFields(body: Body, finalGrade: string): Body
  {
    if Truthy(Field(body, Grade)) then body[Grade := finalGrade] else body
  }

  /** A sent, non-empty grade that fails validation. */
  predicate GradeRejected(body: Body, currentYear: int)
  {
    Truthy(Field(body, Grade)) && NormalizeGrade(body[Grade], currentYear).Rejected?
  }

  /** PUT /api/students/:id. Unknown id: 404. A truthy grade is validated as on create
      (400). With no field sent the current row is returned unchanged; otherwise exactly
      the sent fields of that row are written, unless the new student number belongs to
      another row (UNIQUE violation, 500). */
  method UpdateStudent(db: Db, id: int, body: Body, currentYear: int)
    returns (status: int, row: Option<Student>)
    requires db.Valid()
    modifies db`students
    ensures db.Valid()
    ensures status == 404 <==> Find(old(db.students), StudentKey, id).None?
    ensures status == 400 <==> Find(old(db.students), StudentKey, id).Some? && GradeRejected(body, currentYear)
    ensures status == 500 <==>
      && Find(old(db.students), StudentKey, id).Some? && !GradeRejected(body, currentYear)
      && StudentNo in body && NumberTaken(old(db.students), body[StudentNo], id)
    ensures status != 200 ==> db.students == old(db.students) && row.None?
    ensures status == 200 ==>
      && Find(old(db.students), StudentKey, id).Some?
      && var k := Find(old(db.students), StudentKey, id).value;
      && var fields := UpdateFields(body, if Truthy(Field(body, Grade)) then NormalizeGrade(body[Grade], currentYear).grade else "");
      && row == Some(ApplyAll(old(db.students)[k], Defined(ColumnOrder, fields)))
      && db.students == old(db.students)[k := row.value]
    ensures status in {200, 400, 404, 500}
  {
    var k := Find(db.students, StudentKey, id);
    if k.None? {
      return 404, None;
    }
    var current := db.students[k.value];
    var finalGrade := "";
    if Truthy(Field(body, Grade)) {
      var check := NormalizeGrade(body[Grade], currentYear);
      if check.Rejected? {
        return 400, None;
      }
      finalGrade := check.grade;
    }
    var fields := UpdateFields(body, finalGrade);
    var updates, values := CollectUpdates(fields);
    assert StudentNo in fields <==> StudentNo in body;
    if |updates| == 0 {
      assert Defined(ColumnOrder, fields) == [];
      if StudentNo in fields {
        DefinedHas(ColumnOrder, fields, StudentNo);
      }
      return 200, Some(current);
    }
    var updated := ApplyAll(current, Defined(ColumnOrder, fields));
    ApplyDefined(current, ColumnOrder, fields, StudentNo);
    ApplyDefined(current, ColumnOrder, fields, Name);
    assert StudentNo in fields ==> fields[StudentNo] == body[StudentNo];
    if StudentNo in fields && NumberTaken(db.students, fields[StudentNo], id) {
      return 500, None;
    }
    UpdateKeepsValid(db.students, k.value, updated, db.nextStudentId);
    db.students := db.students[k.value := updated];
    return 200, Some(updated);
  }

  /** Replacing row k by a row with the same key and a student number no other row holds
      keeps keys and student numbers unique. */
  lemma UpdateKeepsValid(rows: seq<Student>, k: nat, r: Student, next: int)
    requires k < |rows| && r.id == rows[k].id
    requires StudentsOk(rows, next)
    requires r.studentNo == rows[k].studentNo || !NumberTaken(rows, r.studentNo, r.id)
    ensures StudentsOk(rows[k := r], next)
  {
    var t := rows[k := r];
    forall i, j | 0 <= i < j < |t| ensures t[i].studentNo != t[j].studentNo {
      if i == k || j == k {
        var o := if i == k then j else i;
        assert rows[o].id != rows[k].id;
      }
    }
  }

  /** The behaviors kept when the students in `ids` are deleted. */
  function OwnedByOthers(ids: seq<int>): Behavior -> bool
  {
    (b: Behavior) => b.studentId !in ids
  }

  /** The students kept when the students in `ids` are deleted. */
  function NotListed(ids: seq<int>): Student -> bool
  {
    (s: Student) => s.id !in ids
  }

  function Listed(ids: seq<int>): Student -> bool
  {
    (s: Student) => s.id in ids
  }

  /** No listed student is found exactly when no row's id is in the list. */
  lemma ListedNone(rows: seq<Student>, ids: seq<int>)
    ensures |Where(rows, Listed(ids))| == 0 <==> forall i :: 0 <= i < |rows| ==> rows[i].id !in ids
    ensures |Where(rows, Listed(ids))| != 0 <==> exists i :: 0 <= i < |rows| && rows[i].id in ids
  {
    var found := Where(rows, Listed(ids));
    if |found| != 0 {
      assert found[0] in rows && Listed(ids)(found[0]);
    }
  }

  /** Every row is either listed or kept. */
  lemma ListedSplit(rows: seq<Student>, ids: seq<int>)
    ensures |Where(rows, Listed(ids))| + |Where(rows, NotListed(ids))| == |rows|
  {
    WhereSplit(rows, Listed(ids), NotListed(ids));
  }

  /** The two DELETE statements of a student deletion: the behaviors first, then the
      students; the rows kept are those the filters pass. */
  method DeleteRows(db: Db, keepStudent: Student -> bool, keepBehavior: Behavior -> bool)
    requires db.Valid()
    modifies db`students, db`behaviors
    ensures db.Valid()
    ensures db.behaviors == Where(old(db.behaviors), keepBehavior)
    ensures db.students == Where(old(db.students), keepStudent)
  {
    FilterKeepsStudents(db.students, db.nextStudentId, keepStudent);
    FilterKeepsRows(db.behaviors, BehaviorKey, db.nextBehaviorId, keepBehavior);
    db.behaviors := Where(db.behaviors, keepBehavior);
    db.students := Where(db.students, keepStudent);
  }

  /** DELETE /api/students/:id. Unknown id: 404 with no change. Otherwise, in one
      transaction, every behavior of the student and then the student are removed; a
      store error rolls everything back and is answered 409 when the database was busy or
      locked. */
  method DeleteStudent(db: Db, id: int, fault: StoreFault) returns (status: int)
    requires db.Valid()
    modifies db`students, db`behaviors
    ensures db.Valid()
    ensures Find(old(db.students), StudentKey, id).None? ==> status == 404
    ensures Find(old(db.students), StudentKey, id).Some? && fault != NoFault ==> status == FaultStatus(fault)
    ensures status != 204 ==> db.students == old(db.students) && db.behaviors == old(db.behaviors)
    ensures status == 204 <==> Find(old(db.students), StudentKey, id).Some? && fault == NoFault
    ensures status == 204 ==>
      && db.behaviors == Where(old(db.behaviors), OwnedByOthers([id]))
      && db.students == Where(old(db.students), KeyIsNot(StudentKey, id))
      && |db.students| == |old(db.students)| - 1
  {
    var k := Find(db.students, StudentKey, id);
    if k.None? {
      return 404;
    }
    if fault != NoFault {
      // ROLLBACK: neither DELETE is kept.
      return FaultStatus(fault);
    }
    DeleteByKeyCount(db.students, StudentKey, id);
    DeleteRows(db, KeyIsNot(StudentKey, id), OwnedByOthers([id]));
    status := 204;
  }

  /** POST /api/students/batch-delete. A missing, non-array or empty id list is a 400. In
      one transaction: if none of the ids is a student the transaction is rolled back
      (404); otherwise the behaviors of all listed ids and then the listed students are
      deleted, and deletedCount is the number of student rows removed. */
  method BatchDelete(db: Db, ids: Option<seq<int>>, fault: StoreFault)
    returns (status: int, deletedCount: nat)
    requires db.Valid()
    modifies db`students, db`behaviors
    ensures db.Valid()
    ensures ids.None? || ids.value == [] ==> status == 400
    ensures status != 200 ==> db.students == old(db.students) && db.behaviors == old(db.behaviors)
    ensures ids.Some? && ids.value != [] && fault == NoFault ==>
      (status == 404 <==> forall i :: 0 <= i < |old(db.students)| ==> old(db.students)[i].id !in ids.value)
    ensures ids.Some? && ids.value != [] && fault != NoFault
            && (exists i :: 0 <= i < |old(db.students)| && old(db.students)[i].id in ids.value) ==>
      status == FaultStatus(fault)
    ensures ids.Some? && ids.value != [] && fault == NoFault
            && (exists i :: 0 <= i < |old(db.students)| && old(db.students)[i].id in ids.value) ==>
      status == 200
    ensures status == 200 ==>
      && ids.Some?
      && db.behaviors == Where(old(db.behaviors), OwnedByOthers(ids.value))
      && db.students == Where(old(db.students), NotListed(ids.value))
      && deletedCount == |old(db.students)| - |db.students|
      && deletedCount == |Where(old(db.students), Listed(ids.value))|
      && deletedCount > 0
  {
    if ids.None? || ids.value == [] {
      return 400, 0;
    }
    var list := ids.value;
    ListedNone(db.students, list);
    if |Where(db.students, Listed(list))| == 0 {
      return 404, 0;
    }
    if fault != NoFault {
      return FaultStatus(fault), 0;
    }
    ListedSplit(db.students, list);
    var before := |db.students|;
    DeleteRows(db, NotListed(list), OwnedByOthers(list));
    deletedCount := before - |db.students|;
    status := 200;
  }
}
