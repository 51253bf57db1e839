/** The standalone spreadsheet import controller: it reads the first sheet as records
    keyed by the header row, validates every record, and reports how many passed. It
    never writes to the store. */
module StudentController {
  import opened Common
  import opened Schema
  import opened Grades

  /** One record of the sheet: header text to cell text. A header with an empty cell is
      either absent or maps to "". */
  type Record = map<string, string>

  function Cell(row: Record, header: string): Option<string>
  {
    if header in row then Some(row[header]) else None
  }

  /** The required headers, in the order they are checked. */
  const RequiredFields: seq<string> := ["姓名", "学号", "年级", "班级", "班主任"]

  /** Matches /^[A-Za-z0-9]+$/. */
  predicate IsAlphanumeric(s: string)
  {
    |s| > 0 && forall i :: 0 <= i < |s| ==> ('A' <= s[i] <= 'Z' || 'a' <= s[i] <= 'z' || IsDigit(s[i]))
  }

  /** Matches /^(高一|高二|高三|\d{4}级)$/. */
  predicate GradePattern(g: string)
  {
    IsLevelGrade(g) || IsCohort(g)
  }

  /** "第n行：<field>不能为空" for each required header whose cell is empty, in order. */
  function MissingMessages(fields: seq<string>, row: Record, n: nat): (r: seq<string>)
    ensures |r| <= |fields|
    ensures r == [] <==> forall i :: 0 <= i < |fields| ==> Truthy(Cell(row, fields[i]))
    decreases |fields|
  {
    if fields == [] then []
    else
      var init := fields[..|fields| - 1];
      var last := fields[|fields| - 1];
      assert forall i :: 0 <= i < |init| ==> init[i] == fields[i];
      MissingMessages(init, row, n) + (if Truthy(Cell(row, last)) then [] else [RowPrefix(n) + last + "不能为空"])
  }

  /** Every message the validator writes for a record, in the order it writes them. */
  function RecordErrors(row: Record, n: nat): (r: seq<string>)
    ensures |r| <= |RequiredFields| + 3
  {
    MissingMessages(RequiredFields, row, n)
    + (if Truthy(Cell(row, "学号")) && !IsAlphanumeric(row["学号"])
       then [RowPrefix(n) + "学号只能包含字母和数字"] else [])
    + (if Truthy(Cell(row, "年级")) && !GradePattern(row["年级"])
       then [RowPrefix(n) + "年级格式不正确（应为\"高一\"、\"高二\"、\"高三\"或\"YYYY级\"）"] else [])
    + (if Truthy(Cell(row, "状态")) && ParseStatus(row["状态"]).None?
       then [RowPrefix(n) + "无效的状态值"] else [])
  }

  /** A record the controller accepts, stated declaratively. */
  predicate RecordValid(row: Record)
  {
    && Truthy(Cell(row, "姓名")) && Truthy(Cell(row, "学号")) && Truthy(Cell(row, "年级"))
    && Truthy(Cell(row, "班级")) && Truthy(Cell(row, "班主任"))
    && IsAlphanumeric(row["学号"])
    && GradePattern(row["年级"])
    && (Truthy(Cell(row, "状态")) ==> row["状态"] in AllStatusLabels)
  }

  /** The status labels the students table's CHECK constraint admits. */
  const AllStatusLabels: set<string> := {"正常", "警告", "严重警告", "记过", "留校察看", "勒令退学", "开除学籍"}

  lemma StatusLabels(t: string)
    ensures ParseStatus(t).Some? <==> t in AllStatusLabels
  {
    if ParseStatus(t).Some? {
      var st := ParseStatus(t).value;
      assert StatusLabel(st) == t;
      match st
      case Normal =>
      case Warning =>
      case SevereWarning =>
      case Demerit =>
      case Probation =>
      case ForcedWithdrawal =>
      case Expelled =>
    }
  }

  /** A record draws no message exactly when it is valid. */
  lemma RecordErrorsEmpty(row: Record, n: nat)
    ensures RecordErrors(row, n) == [] <==> RecordValid(row)
  {
    StatusLabels(if "状态" in row then row["状态"] else "");
    var m := MissingMessages(RequiredFields, row, n);
    if m == [] {
      assert Truthy(Cell(row, RequiredFields[1])) && Truthy(Cell(row, RequiredFields[2]));
      assert Truthy(Cell(row, RequiredFields[0])) && Truthy(Cell(row, RequiredFields[3])) && Truthy(Cell(row, RequiredFields[4]));
    }
    if RecordValid(row) {
      assert forall i :: 0 <= i < |RequiredFields| ==> Truthy(Cell(row, RequiredFields[i]));
    }
  }

  /** validateStudentData, with its loop over the required headers. */
  method ValidateRecord(row: Record, n: nat) returns (errors: seq<string>)
    ensures errors == RecordErrors(row, n)
  {
    errors := MissingFields(row, n);
    if Truthy(Cell(row, "学号")) && !IsAlphanumeric(row["学号"]) {
      errors := errors + [RowPrefix(n) + "学号只能包含字母和数字"];
    }
    if Truthy(Cell(row, "年级")) && !GradePattern(row["年级"]) {
      errors := errors + [RowPrefix(n) + "年级格式不正确（应为\"高一\"、\"高二\"、\"高三\"或\"YYYY级\"）"];
    }
    if Truthy(Cell(row, "状态")) && ParseStatus(row["状态"]).None? {
      errors := errors + [RowPrefix(n) + "无效的状态值"];
    }
  }

  /** The loop of validateStudentData over the required headers. */
  method MissingFields(row: Record, n: nat) returns (errors: seq<string>)
    ensures errors == MissingMessages(RequiredFields, row, n)
  {
    errors := [];
    var i := 0;
    while i < |RequiredFields|
      invariant 0 <= i <= |RequiredFields|
      invariant errors == MissingMessages(RequiredFields[..i], row, n)
    {
      var field := RequiredFields[i];
      assert RequiredFields[..i + 1][..i] == RequiredFields[..i];
      if !Truthy(Cell(row, field)) {
        errors := errors + [RowPrefix(n) + field + "不能为空"];
      }
      i := i + 1;
    }
    assert RequiredFields[..i] == RequiredFields;
  }

  /** The validation of all records: record i is sheet row i + 2, behind the header. */
  function CheckAll(data: seq<Record>): (r: (seq<string>, nat))
    ensures r.1 <= |data|
    decreases |data|
  {
    if data == [] then ([], 0)
    else
      CountRecord(CheckAll(data[..|data| - 1]), RecordErrors(data[|data| - 1], |data| + 1))
  }

  /** One record's messages are appended, or the record is counted as passing. */
  function CountRecord(prev: (seq<string>, nat), errs: seq<string>): (seq<string>, nat)
  {
    if errs == [] then (prev.0, prev.1 + 1) else (prev.0 + errs, prev.1)
  }

  /** Every record of the sheet is valid. */
  predicate AllValid(data: seq<Record>)
  {
    forall i :: 0 <= i < |data| ==> RecordValid(data[i])
  }

  /** Every record is counted as passing exactly when no record drew a message. */
  lemma {:induction false} CheckAllClean(data: seq<Record>)
    ensures CheckAll(data).0 == [] <==> CheckAll(data).1 == |data|
    ensures CheckAll(data).1 == |data| <==> AllValid(data)
    decreases |data|
  {
    if data != [] {
      var i := |data| - 1;
      CheckAllClean(data[..i]);
      CheckAllSnoc(data, i);
      assert data[..i + 1] == data;
      CountRecordClean(CheckAll(data[..i]), RecordErrors(data[i], i + 2), i);
      RecordErrorsEmpty(data[i], i + 2);
      AllValidSnoc(data);
    }
  }

  /** Counting one more record keeps "no message" and "all counted" in step. */
  lemma CountRecordClean(prev: (seq<string>, nat), errs: seq<string>, n: nat)
    requires prev.1 <= n && (prev.0 == [] <==> prev.1 == n)
    ensures CountRecord(prev, errs).0 == [] <==> CountRecord(prev, errs).1 == n + 1
    ensures CountRecord(prev, errs).1 == n + 1 <==> prev.1 == n && errs == []
  {
  }

  /** All records are valid exactly when all but the last are and the last is. */
  lemma AllValidSnoc(data: seq<Record>)
    requires data != []
    ensures AllValid(data) <==> AllValid(data[..|data| - 1]) && RecordValid(data[|data| - 1])
  {
    var init := data[..|data| - 1];
    assert forall i :: 0 <= i < |init| ==> init[i] == data[i];
  }

  /** Checking one more record adds its messages, or counts it as passing. */
  lemma CheckAllSnoc(data: seq<Record>, i: nat)
    requires i < |data|
    ensures CheckAll(data[..i + 1]) == CountRecord(CheckAll(data[..i]), RecordErrors(data[i], i + 2))
  {
    var s := data[..i + 1];
    assert s[..|s| - 1] == data[..i];
    assert s[|s| - 1] == data[i];
  }

  datatype Reply =
    | NoFile
    | NoData
    | Invalid(errors: seq<string>, success: nat)
    | Imported(success: nat)

  /** importStudents: no file (400), no record (400), any message (400, listing every
      message and the number of valid records), otherwise the number of valid records. */
  method ImportStudents(file: Option<seq<Record>>) returns (reply: Reply)
    ensures file.None? ==> reply == NoFile
    ensures file.Some? && file.value == [] ==> reply == NoData
    ensures file.Some? && file.value != [] ==>
      reply == (if CheckAll(file.value).0 == [] then Imported(|file.value|)
                else Invalid(CheckAll(file.value).0, CheckAll(file.value).1))
  {
    if file.None? {
      return NoFile;
    }
    var data := file.value;
    if |data| == 0 {
      return NoData;
    }
    var errors: seq<string> := [];
    var validCount: nat := 0;
    var i := 0;
    while i < |data|
      invariant 0 <= i <= |data|
      invariant (errors, validCount) == CheckAll(data[..i])
    {
      CheckAllSnoc(data, i);
      var rowErrors := ValidateRecord(data[i], i + 2);
      if |rowErrors| > 0 {
        errors := errors + rowErrors;
      } else {
        validCount := validCount + 1;
      }
      i := i + 1;
    }
    assert data[..i] == data;
    CheckAllClean(data);
    if |errors| > 0 {
      return Invalid(errors, validCount);
    }
    return Imported(validCount);
  }
}
