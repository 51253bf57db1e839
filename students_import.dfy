/** POST /api/students/import: the worksheet is validated row by row first; only when
    every row passes are the rows inserted, one by one, skipping student numbers that are
    already on file. */
module StudentsImport {
  import opened Common
  import opened Tables
  import opened Schema
  import opened Grades

  /** One worksheet row as the spreadsheet reader reports it: its 1-based row number and
      the values of its first nine cells (None for an empty cell). */
  datatype SheetRow = SheetRow(
    number: nat, name: Option<string>, studentNo: Option<string>, grade: Option<string>,
    klass: Option<string>, teacher: Option<string>, address: Option<string>,
    emergencyContact: Option<string>, emergencyPhone: Option<string>, notes: Option<string>)

  const MissingFields: string := "姓名、学号、年级、班级、班主任为必填项"
  const CohortFormat: string := "年级格式必须为\"YYYY级\"，例如\"2025级\""

  /** Name, student number, grade, class and head teacher are all non-empty. */
  predicate HasRequired(r: SheetRow)
  {
    Truthy(r.name) && Truthy(r.studentNo) && Truthy(r.grade) && Truthy(r.klass) && Truthy(r.teacher)
  }

  /** The first complaint about a row, if any: missing required cells, then a grade that
      is neither a level name nor a cohort label, then a cohort year outside the window. */
  function RowError(r: SheetRow, currentYear: int): (e: Option<string>)
    ensures e.None? <==> HasRequired(r) && ImportGradeOk(r.grade.value, currentYear)
    ensures e.Some? ==>
      e.value == RowPrefix(r.number) + (if !HasRequired(r) then MissingFields
                                        else if IsLevelGrade(r.grade.value) || IsCohort(r.grade.value) then OutOfRange
                                        else CohortFormat)
  {
    if !HasRequired(r) then Some(RowPrefix(r.number) + MissingFields)
    else if !IsLevelGrade(r.grade.value) && !IsCohort(r.grade.value) then Some(RowPrefix(r.number) + CohortFormat)
    else if IsCohort(r.grade.value) && !InWindow(YearOf(r.grade.value), currentYear) then
      Some(RowPrefix(r.number) + OutOfRange)
    else None
  }

  /** Row 1 is the header and is never read as data. */
  function Passes(currentYear: int): SheetRow -> bool
  {
    (r: SheetRow) => r.number != 1 && RowError(r, currentYear).None?
  }

  function Fails(currentYear: int): SheetRow -> bool
  {
    (r: SheetRow) => r.number != 1 && RowError(r, currentYear).Some?
  }

  /** The outcome of the validation pass: the rows to insert and the row messages. */
  datatype Scan = Scan(valid: seq<SheetRow>, errors: seq<string>)

  /** The validation pass over the rows in order. */
  function ScanSheet(rows: seq<SheetRow>, currentYear: int): (r: Scan)
    ensures forall i :: 0 <= i < |r.valid| ==> r.valid[i].number != 1 && RowError(r.valid[i], currentYear).None?
    decreases |rows|
  {
    if rows == [] then Scan([], [])
    else
      var s := ScanSheet(rows[..|rows| - 1], currentYear);
      var last := rows[|rows| - 1];
      if last.number == 1 then s
      else match RowError(last, currentYear)
        case Some(e) => Scan(s.valid, s.errors + [e])
        case None => Scan(s.valid + [last], s.errors)
  }

  /** The scan keeps exactly the data rows that pass, in order, and writes one message
      per data row that fails. */
  lemma {:induction false} ScanFilters(rows: seq<SheetRow>, currentYear: int)
    ensures ScanSheet(rows, currentYear).valid == Where(rows, Passes(currentYear))
    ensures |ScanSheet(rows, currentYear).errors| == |Where(rows, Fails(currentYear))|
    decreases |rows|
  {
    if rows != [] {
      var init := rows[..|rows| - 1];
      var last := rows[|rows| - 1];
      ScanFilters(init, currentYear);
      assert rows == init + [last];
      WhereSnoc(init, last, Passes(currentYear));
      WhereSnoc(init, last, Fails(currentYear));
    }
  }

  /** The insert phase starts exactly when no data row failed validation. */
  lemma {:induction false} ScanClean(rows: seq<SheetRow>, currentYear: int)
    ensures ScanSheet(rows, currentYear).errors == [] <==>
      forall i :: 0 <= i < |rows| && rows[i].number != 1 ==> RowError(rows[i], currentYear).None?
    decreases |rows|
  {
    if rows != [] {
      var init := rows[..|rows| - 1];
      ScanClean(init, currentYear);
      assert forall i :: 0 <= i < |init| ==> init[i] == rows[i];
    }
  }

  /** The validation loop of the handler, proved to compute the scan. */
  method ReadSheet(rows: seq<SheetRow>, currentYear: int) returns (valid: seq<SheetRow>, errors: seq<string>)
    ensures Scan(valid, errors) == ScanSheet(rows, currentYear)
  {
    valid, errors := [], [];
    var i := 0;
    while i < |rows|
      invariant 0 <= i <= |rows|
      invariant Scan(valid, errors) == ScanSheet(rows[..i], currentYear)
    {
      var r := rows[i];
      assert rows[..i + 1][..i] == rows[..i];
      if r.number != 1 {
        var e := RowError(r, currentYear);
        if e.Some? {
          errors := errors + [e.value];
        } else {
          valid := valid + [r];
        }
      }
      i := i + 1;
    }
    assert rows[..i] == rows;
  }

  /** The row an accepted worksheet row becomes: the grade is stored as written, there is
      no photo, and the status takes its default. */
  function SheetStudent(id: int, r: SheetRow): Student
    requires HasRequired(r)
  {
    Student(id, r.name.value, r.studentNo.value, r.grade.value, r.klass, r.teacher, None,
            r.address, r.emergencyContact, r.emergencyPhone, r.notes, Normal)
  }

  predicate NumberOnFile(rows: seq<Student>, no: string)
  {
    exists i :: 0 <= i < |rows| && rows[i].studentNo == no
  }

  /** The students table, its counter, the insert-phase messages and the number of rows
      inserted so far. */
  datatype ImportState = ImportState(students: seq<Student>, next: int, errors: seq<string>, inserted: nat)

  /** One row of the insert phase: a student number already on file is reported and
      skipped, any other row is inserted. */
  function ImportStep(st: ImportState, r: SheetRow): ImportState
    requires HasRequired(r)
  {
    if NumberOnFile(st.students, r.studentNo.value) then
      st.(errors := st.errors + ["学号" + r.studentNo.value + "已存在"])
    else
      ImportState(st.students + [SheetStudent(st.next, r)], st.next + 1, st.errors, st.inserted + 1)
  }

  /** The insert phase over the accepted rows in order. Rows are only ever appended, and
      every row is either inserted or reported. */
  function ImportAll(st: ImportState, rows: seq<SheetRow>): (r: ImportState)
    requires forall i :: 0 <= i < |rows| ==> HasRequired(rows[i])
    ensures st.students <= r.students
    ensures |r.students| == |st.students| + (r.inserted - st.inserted)
    ensures r.inserted + |r.errors| == st.inserted + |st.errors| + |rows|
    ensures r.inserted >= st.inserted
    decreases |rows|
  {
    if rows == [] then st
    else ImportStep(ImportAll(st, rows[..|rows| - 1]), rows[|rows| - 1])
  }

  /** After the insert phase every accepted student number is on file. */
  lemma {:induction false} ImportCovers(st: ImportState, rows: seq<SheetRow>, k: nat)
    requires forall i :: 0 <= i < |rows| ==> HasRequired(rows[i])
    requires k < |rows|
    ensures NumberOnFile(ImportAll(st, rows).students, rows[k].studentNo.value)
    decreases |rows|
  {
    var init := rows[..|rows| - 1];
    var before := ImportAll(st, init);
    var r := ImportAll(st, rows);
    if k < |init| {
      ImportCovers(st, init, k);
      var j :| 0 <= j < |before.students| && before.students[j].studentNo == rows[k].studentNo.value;
      assert r.students[j] == before.students[j];
    } else if !NumberOnFile(before.students, rows[k].studentNo.value) {
      assert r.students[|before.students|].studentNo == rows[k].studentNo.value;
    }
  }

  /** The insert phase keeps the primary key and the UNIQUE student number. */
  lemma {:induction false} ImportKeepsValid(st: ImportState, rows: seq<SheetRow>)
    requires forall i :: 0 <= i < |rows| ==> HasRequired(rows[i])
    requires StudentsOk(st.students, st.next)
    ensures StudentsOk(ImportAll(st, rows).students, ImportAll(st, rows).next)
    decreases |rows|
  {
    if rows != [] {
      var before := ImportAll(st, rows[..|rows| - 1]);
      ImportKeepsValid(st, rows[..|rows| - 1]);
      var r := rows[|rows| - 1];
      if !NumberOnFile(before.students, r.studentNo.value) {
        var x := SheetStudent(before.next, r);
        AppendFreshKey(before.students, StudentKey, before.next, x);
        AppendFreshText(before.students, StudentNoOf, x);
      }
    }
  }

  /** The insert phase over one more row is one more step. */
  lemma ImportAllSnoc(st: ImportState, rows: seq<SheetRow>, i: nat)
    requires forall k :: 0 <= k < |rows| ==> HasRequired(rows[k])
    requires i < |rows|
    ensures ImportAll(st, rows[..i + 1]) == ImportStep(ImportAll(st, rows[..i]), rows[i])
  {
    assert rows[..i + 1][..i] == rows[..i];
  }

  /** The lookup by student number finds a row exactly when the number is on file. */
  lemma FoundOnFile(rows: seq<Student>, no: string)
    ensures Find(rows, StudentNoOf, no).Some? <==> NumberOnFile(rows, no)
  {
    if NumberOnFile(rows, no) {
      var i :| 0 <= i < |rows| && rows[i].studentNo == no;
      assert StudentNoOf(rows[i]) == no;
    }
  }

  /** The insert loop of the handler, proved to compute the insert phase. */
  method InsertRows(db: Db, valid: seq<SheetRow>) returns (failures: seq<string>)
    requires forall i :: 0 <= i < |valid| ==> HasRequired(valid[i])
    requires db.Valid()
    modifies db`students, db`nextStudentId
    ensures db.Valid()
    ensures var fin := ImportAll(ImportState(old(db.students), old(db.nextStudentId), [], 0), valid);
      db.students == fin.students && db.nextStudentId == fin.next && failures == fin.errors
  {
    ghost var init := ImportState(db.students, db.nextStudentId, [], 0);
    failures := [];
    ghost var inserted: nat := 0;
    var i := 0;
    while i < |valid|
      invariant 0 <= i <= |valid|
      invariant ImportState(db.students, db.nextStudentId, failures, inserted) == ImportAll(init, valid[..i])
    {
      var r := valid[i];
      ImportAllSnoc(init, valid, i);
      var taken := Find(db.students, StudentNoOf, r.studentNo.value);
      FoundOnFile(db.students, r.studentNo.value);
      if taken.Some? {
        failures := failures + ["学号" + r.studentNo.value + "已存在"];
      } else {
        db.students := db.students + [SheetStudent(db.nextStudentId, r)];
        db.nextStudentId := db.nextStudentId + 1;
        inserted := inserted + 1;
      }
      i := i + 1;
    }
    assert valid[..i] == valid;
    ImportKeepsValid(init, valid);
  }

  /** The reply of the import handler. */
  datatype Reply =
    | NoFile
    | Invalid(rowErrors: seq<string>)
    | Done(total: nat, success: int, failures: seq<string>)

  /** POST /api/students/import. Without a file: 400. With any row message: 400 listing
      them and nothing is inserted. Otherwise the accepted rows are inserted in order;
      `success` counts exactly the rows inserted. */
  method ImportStudents(db: Db, sheet: Option<seq<SheetRow>>, currentYear: int) returns (reply: Reply)
    requires db.Valid()
    modifies db`students, db`nextStudentId
    ensures db.Valid()
    ensures sheet.None? ==> reply == NoFile
    ensures sheet.Some? && ScanSheet(sheet.value, currentYear).errors != [] ==>
      reply == Invalid(ScanSheet(sheet.value, currentYear).errors)
    ensures sheet.Some? && ScanSheet(sheet.value, currentYear).errors == [] ==> reply.Done?
    ensures !reply.Done? ==> db.students == old(db.students) && db.nextStudentId == old(db.nextStudentId)
    ensures reply.Done? ==>
      && sheet.Some? && ScanSheet(sheet.value, currentYear).errors == []
      && var valid := ScanSheet(sheet.value, currentYear).valid;
      && var fin := ImportAll(ImportState(old(db.students), old(db.nextStudentId), [], 0), valid);
      && db.students == fin.students && db.nextStudentId == fin.next
      && reply == Done(|valid|, fin.inserted, fin.errors)
      && reply.success == |db.students| - |old(db.students)|
  {
    if sheet.None? {
      return NoFile;
    }
    var valid, errors := ReadSheet(sheet.value, currentYear);
    if |errors| > 0 {
      return Invalid(errors);
    }
    forall i | 0 <= i < |valid| ensures HasRequired(valid[i]) {
      assert RowError(valid[i], currentYear).None?;
    }
    var failures := InsertRows(db, valid);
    reply := Done(|valid|, |valid| - |failures|, failures);
  }
}
