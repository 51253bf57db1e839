/** The rows of the application's tables and the store that holds them. Every table is
    a sequence of rows in insertion order plus its AUTOINCREMENT counter; the UNIQUE and
    CHECK constraints of the schema are part of the store's invariant. */
module Schema {
  import opened Common
  import opened Tables

  /** The seven values the CHECK constraint on students.status admits, in their order. */
  datatype StudentStatus = Normal | Warning | SevereWarning | Demerit | Probation | ForcedWithdrawal | Expelled

  function StatusLabel(s: StudentStatus): string
  {
    match s
    case Normal => "正常"
    case Warning => "警告"
    case SevereWarning => "严重警告"
    case Demerit => "记过"
    case Probation => "留校察看"
    case ForcedWithdrawal => "勒令退学"
    case Expelled => "开除学籍"
  }

  /** The CHECK constraint read as a parser: a text is a status iff it is one of the labels. */
  function ParseStatus(t: string): (r: Option<StudentStatus>)
    ensures r.Some? ==> StatusLabel(r.value) == t
    ensures forall s :: StatusLabel(s) == t ==> r == Some(s)
  {
    if t == "正常" then Some(Normal)
    else if t == "警告" then Some(Warning)
    else if t == "严重警告" then Some(SevereWarning)
    else if t == "记过" then Some(Demerit)
    else if t == "留校察看" then Some(Probation)
    else if t == "勒令退学" then Some(ForcedWithdrawal)
    else if t == "开除学籍" then Some(Expelled)
    else None
  }

  /** The columns of the students table a request can write. */
  datatype Column = Name | StudentNo | Grade | Class | Teacher | PhotoUrl | Address
                  | EmergencyContact | EmergencyPhone | Notes

  /** A students row; `studentNo` is the UNIQUE `student_id` text, `id` the primary key. */
  datatype Student = Student(
    id: int, name: string, studentNo: string, grade: string, klass: Option<string>,
    teacher: Option<string>, photoUrl: Option<string>, address: Option<string>,
    emergencyContact: Option<string>, emergencyPhone: Option<string>, notes: Option<string>,
    status: StudentStatus)

  function Get(s: Student, c: Column): Option<string>
  {
    match c
    case Name => Some(s.name)
    case StudentNo => Some(s.studentNo)
    case Grade => Some(s.grade)
    case Class => s.klass
    case Teacher => s.teacher
    case PhotoUrl => s.photoUrl
    case Address => s.address
    case EmergencyContact => s.emergencyContact
    case EmergencyPhone => s.emergencyPhone
    case Notes => s.notes
  }

  /** `UPDATE students SET c = v`: writes one column and nothing else. */
  function Set(s: Student, c: Column, v: string): (r: Student)
    ensures Get(r, c) == Some(v)
    ensures forall d :: d != c ==> Get(r, d) == Get(s, d)
    ensures r.id == s.id && r.status == s.status
  {
    match c
    case Name => s.(name := v)
    case StudentNo => s.(studentNo := v)
    case Grade => s.(grade := v)
    case Class => s.(klass := Some(v))
    case Teacher => s.(teacher := Some(v))
    case PhotoUrl => s.(photoUrl := Some(v))
    case Address => s.(address := Some(v))
    case EmergencyContact => s.(emergencyContact := Some(v))
    case EmergencyPhone => s.(emergencyPhone := Some(v))
    case Notes => s.(notes := Some(v))
  }

  /** A behaviors row: one event against one student, naming its behavior type. */
  datatype Behavior = Behavior(
    id: int, studentId: int, behaviorType: string, description: Option<string>,
    date: string, imageUrl: Option<string>, processResult: Option<string>)

  datatype BehaviorType = BehaviorType(
    id: int, name: string, category: string, description: Option<string>, score: int)

  /** A score_items row; the column is REAL, the model keeps whole scores. */
  datatype ScoreItem = ScoreItem(
    id: int, name: string, category: string, score: int, description: Option<string>)

  datatype TeacherBehavior = TeacherBehavior(
    id: int, teacherName: string, behaviorType: string, description: string, date: string,
    processResult: Option<string>, score: int, scoreItemId: Option<int>)

  /** A users row; `password` holds the bcrypt hash, `status` 1 for active and 0 for inactive. */
  datatype User = User(
    id: int, username: string, password: string, role: string, status: int,
    lastLogin: Option<string>)

  function StudentKey(s: Student): int { s.id }
  function BehaviorKey(b: Behavior): int { b.id }
  function TypeKey(t: BehaviorType): int { t.id }
  function ScoreItemKey(i: ScoreItem): int { i.id }
  function TeacherBehaviorKey(t: TeacherBehavior): int { t.id }
  function UserKey(u: User): int { u.id }

  /** Columns that initialisation adds to a table created by an older version. */
  datatype AddedColumn = StudentsStatus | BehaviorTypesScore | BehaviorsProcessResult
                       | TeacherBehaviorsScoreItemId

  datatype TableName = UsersTable | OperationLogsTable | StudentsTable | BehaviorTypesTable
                     | BehaviorsTable | ScoreItemsTable | TeacherBehaviorsTable | ClassScoresTable

  function StudentNoOf(s: Student): string { s.studentNo }
  function TypeNameOf(t: BehaviorType): string { t.name }
  function UsernameOf(u: User): string { u.username }

  predicate ValidScoreItem(i: ScoreItem)
  {
    i.category == "加分" || i.category == "减分"
  }

  /** The primary key is unique and below the AUTOINCREMENT counter. */
  predicate RowsOk<T>(rows: seq<T>, key: T -> int, next: int)
  {
    UniqueKeys(rows, key) && KeysBelow(rows, key, next)
  }

  /** students: primary key, and `student_id TEXT UNIQUE NOT NULL`. */
  predicate StudentsOk(rows: seq<Student>, next: int)
  {
    RowsOk(rows, StudentKey, next) && UniqueKeys(rows, StudentNoOf)
  }

  /** behavior_types: primary key, and `name TEXT UNIQUE NOT NULL`. */
  predicate TypesOk(rows: seq<BehaviorType>, next: int)
  {
    RowsOk(rows, TypeKey, next) && UniqueKeys(rows, TypeNameOf)
  }

  /** score_items: primary key, and `CHECK(category IN ('加分', '减分'))`. */
  predicate ScoreItemsOk(rows: seq<ScoreItem>, next: int)
  {
    RowsOk(rows, ScoreItemKey, next) && forall i :: 0 <= i < |rows| ==> ValidScoreItem(rows[i])
  }

  /** users: primary key, and `username TEXT UNIQUE NOT NULL`. */
  predicate UsersOk(rows: seq<User>, next: int)
  {
    RowsOk(rows, UserKey, next) && UniqueKeys(rows, UsernameOf)
  }

  /** Deleting rows keeps a table's key constraints. */
  lemma FilterKeepsRows<T(!new)>(rows: seq<T>, key: T -> int, next: int, p: T -> bool)
    requires RowsOk(rows, key, next)
    ensures RowsOk(Where(rows, p), key, next)
  {
    WherePreservesUnique(rows, key, p);
    WhereKeepsBelow(rows, key, next, p);
  }

  lemma FilterKeepsStudents(rows: seq<Student>, next: int, p: Student -> bool)
    requires StudentsOk(rows, next)
    ensures StudentsOk(Where(rows, p), next)
  {
    FilterKeepsRows(rows, StudentKey, next, p);
    WherePreservesUnique(rows, StudentNoOf, p);
  }

  /** Replacing a row by one with the same key keeps the key constraints. */
  lemma ReplaceKeepsRows<T>(rows: seq<T>, key: T -> int, next: int, k: nat, r: T)
    requires RowsOk(rows, key, next) && k < |rows| && key(r) == key(rows[k])
    ensures RowsOk(rows[k := r], key, next)
  {
    var t := rows[k := r];
    forall i, j | 0 <= i < j < |t| ensures key(t[i]) != key(t[j]) {
      assert key(t[i]) == key(rows[i]) && key(t[j]) == key(rows[j]);
    }
  }

  /** The parent row `FOREIGN KEY (behavior_type) REFERENCES behavior_types (name)` needs. */
  predicate TypeExists(types: seq<BehaviorType>, name: string)
  {
    exists i :: 0 <= i < |types| && types[i].name == name
  }

  /** The parent row `FOREIGN KEY (student_id) REFERENCES students (id)` needs. */
  predicate StudentExists(students: seq<Student>, id: int)
  {
    exists i :: 0 <= i < |students| && students[i].id == id
  }

  /** Both foreign keys of every behaviors row name an existing parent. */
  predicate BehaviorRefsOk(bs: seq<Behavior>, students: seq<Student>, types: seq<BehaviorType>)
  {
    forall i :: 0 <= i < |bs| ==> StudentExists(students, bs[i].studentId) && TypeExists(types, bs[i].behaviorType)
  }

  /** The parent row `score_item_id INTEGER REFERENCES score_items(id)` needs. */
  predicate ScoreItemExists(items: seq<ScoreItem>, id: int)
  {
    exists i :: 0 <= i < |items| && items[i].id == id
  }

  /** Every teacher_behaviors row that names a score item names an existing one. */
  predicate TeacherRefsOk(tbs: seq<TeacherBehavior>, items: seq<ScoreItem>)
  {
    forall i :: 0 <= i < |tbs| && tbs[i].scoreItemId.Some? ==> ScoreItemExists(items, tbs[i].scoreItemId.value)
  }

  /** The store: one embedded database file holding every table but the audit log. */
  class Db {
    var tables: set<TableName>
    var columns: set<AddedColumn>
    var students: seq<Student>
    var nextStudentId: int
    var behaviors: seq<Behavior>
    var nextBehaviorId: int
    var behaviorTypes: seq<BehaviorType>
    var nextTypeId: int
    var scoreItems: seq<ScoreItem>
    var nextScoreItemId: int
    var teacherBehaviors: seq<TeacherBehavior>
    var nextTeacherBehaviorId: int
    var users: seq<User>
    var nextUserId: int

    /** Primary keys, the UNIQUE columns and the score_items CHECK hold. */
    ghost predicate Valid()
      reads this
    {
      && StudentsOk(students, nextStudentId)
      && RowsOk(behaviors, BehaviorKey, nextBehaviorId)
      && TypesOk(behaviorTypes, nextTypeId)
      && ScoreItemsOk(scoreItems, nextScoreItemId)
      && RowsOk(teacherBehaviors, TeacherBehaviorKey, nextTeacherBehaviorId)
      && UsersOk(users, nextUserId)
    }

    /** A database file that does not exist yet: no tables, no rows. */
    constructor Empty()
      ensures Valid()
      ensures tables == {} && columns == {}
      ensures students == [] && behaviors == [] && behaviorTypes == [] && scoreItems == []
      ensures teacherBehaviors == [] && users == []
      ensures nextStudentId == 1 && nextBehaviorId == 1 && nextTypeId == 1
      ensures nextScoreItemId == 1 && nextTeacherBehaviorId == 1 && nextUserId == 1
    {
      tables, columns := {}, {};
      students, behaviors, behaviorTypes, scoreItems, teacherBehaviors, users := [], [], [], [], [], [];
      nextStudentId, nextBehaviorId, nextTypeId := 1, 1, 1;
      nextScoreItemId, nextTeacherBehaviorId, nextUserId := 1, 1, 1;
    }
  }
}
