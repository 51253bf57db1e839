/** GET /api/teacher-scores/details: one teacher's score entries for a month, made of
    the behaviors of the students whose head teacher they are and of their own
    teacher behaviors, merged and ordered newest first. */
module TeacherScores {
  import opened Common
  import opened Tables
  import opened Sorting
  import opened Schema
  import opened Filters

  /** One entry of the reply. Teacher behaviors have no student, so their grade and
      class are '' and the name column carries the teacher's name. */
  datatype Detail = Detail(
    date: string, grade: string, klass: Option<string>, studentName: string,
    behaviorType: string, scoreChange: int, description: Option<string>)

  /** `date BETWEEN lo AND hi` on TEXT. */
  predicate Between(date: string, lo: string, hi: string)
  {
    TextLe(lo, date) && TextLe(date, hi)
  }

  /** The entry of one behavior: it joins its student and its type (`bt.score` is the
      score change), the student's head teacher is `name`, and the date is in range. */
  function StudentDetail(b: Behavior, students: seq<Student>, types: seq<BehaviorType>,
                         name: string, lo: string, hi: string): Option<Detail>
  {
    match Find(students, StudentKey, b.studentId)
    case None => None
    case Some(k) =>
      match Find(types, TypeNameOf, b.behaviorType)
      case None => None
      case Some(t) =>
        var s := students[k];
        if s.teacher == Some(name) && Between(b.date, lo, hi)
        then Some(Detail(b.date, s.grade, s.klass, s.name, b.behaviorType, types[t].score, b.description))
        else None
  }

  /** The student behavior query, in table order. */
  function StudentDetails(bs: seq<Behavior>, students: seq<Student>, types: seq<BehaviorType>,
                          name: string, lo: string, hi: string): (r: seq<Detail>)
    ensures forall d :: d in r <==> exists b :: b in bs && StudentDetail(b, students, types, name, lo, hi) == Some(d)
    decreases |bs|
  {
    if bs == [] then []
    else
      var rest := StudentDetails(bs[1..], students, types, name, lo, hi);
      assert bs == [bs[0]] + bs[1..];
      match StudentDetail(bs[0], students, types, name, lo, hi)
      case None => rest
      case Some(d) => [d] + rest
  }

  function TeacherDetail(t: TeacherBehavior): Detail
  {
    Detail(t.date, "", Some(""), t.teacherName, t.behaviorType, t.score, Some(t.description))
  }

  function OwnInRange(name: string, lo: string, hi: string): TeacherBehavior -> bool
  {
    (t: TeacherBehavior) => t.teacherName == name && Between(t.date, lo, hi)
  }

  /** The teacher behavior query, in table order. */
  function TeacherDetails(tbs: seq<TeacherBehavior>, name: string, lo: string, hi: string): (r: seq<Detail>)
    ensures forall d :: d in r <==> exists t :: t in tbs && OwnInRange(name, lo, hi)(t) && TeacherDetail(t) == d
  {
    var own := Where(tbs, OwnInRange(name, lo, hi));
    var r := seq(|own|, i requires 0 <= i < |own| => TeacherDetail(own[i]));
    forall d ensures d in r <==> exists t :: t in tbs && OwnInRange(name, lo, hi)(t) && TeacherDetail(t) == d {
      if d in r {
        var i :| 0 <= i < |r| && r[i] == d;
        assert own[i] in own;
      }
      if exists t :: t in tbs && OwnInRange(name, lo, hi)(t) && TeacherDetail(t) == d {
        var t :| t in tbs && OwnInRange(name, lo, hi)(t) && TeacherDetail(t) == d;
        var i :| 0 <= i < |own| && own[i] == t;
        assert r[i] == d;
      }
    }
    r
  }

  function DetailDate(d: Detail): string { d.date }

  /** `(a, b) => moment(b.date).valueOf() - moment(a.date).valueOf()`: `timeOf` is the
      millisecond value moment gives a stored date. */
  function Later(timeOf: string -> int): (Detail, Detail) -> bool
  {
    (a: Detail, b: Detail) => timeOf(a.date) >= timeOf(b.date)
  }

  lemma LaterPreorder(timeOf: string -> int)
    ensures TotalPreorder(Later(timeOf))
  {
  }

  datatype Reply =
    | MissingParams                 // 400 '缺少必要参数'
    | QueryFailed(message: string)  // 500 '获取教师分数明细失败', with the wrapped message
    | Details(rows: seq<Detail>)    // 200

  /** The handler. `bounds` gives the first and last instants of the month as
      'YYYY-MM-DD HH:mm:ss' text (moment's startOf and endOf); `dbError` is the error
      of a failing query, if one fails. */
  function ScoreDetails(teacherName: Option<string>, month: Option<string>,
                        bounds: string -> (string, string), timeOf: string -> int, dbError: Option<string>,
                        bs: seq<Behavior>, students: seq<Student>, types: seq<BehaviorType>,
                        tbs: seq<TeacherBehavior>): (r: Reply)
    ensures r == MissingParams <==> !Truthy(teacherName) || !Truthy(month)
    ensures r.QueryFailed? <==> Truthy(teacherName) && Truthy(month) && dbError.Some?
    ensures r.QueryFailed? ==> r.message == "数据库查询失败: " + dbError.value
    ensures r.Details? ==>
      var (lo, hi) := bounds(month.value);
      && multiset(r.rows) == multiset(StudentDetails(bs, students, types, teacherName.value, lo, hi))
                             + multiset(TeacherDetails(tbs, teacherName.value, lo, hi))
      && Sorted(r.rows, Later(timeOf))
  {
    if !Truthy(teacherName) || !Truthy(month) then MissingParams
    else if dbError.Some? then QueryFailed("数据库查询失败: " + dbError.value)
    else
      var (lo, hi) := bounds(month.value);
      DescByPreorder(DetailDate);
      var fromStudents := Sort(StudentDetails(bs, students, types, teacherName.value, lo, hi), DescBy(DetailDate));
      var fromTeacher := Sort(TeacherDetails(tbs, teacherName.value, lo, hi), DescBy(DetailDate));
      LaterPreorder(timeOf);
      SortSorted(fromStudents + fromTeacher, Later(timeOf));
      Details(Sort(fromStudents + fromTeacher, Later(timeOf)))
  }

  /** The reply holds exactly the behaviors of the teacher's students in the month and
      the teacher's own behaviors in the month. */
  lemma DetailsAreBothQueries(teacherName: Option<string>, month: Option<string>,
                              bounds: string -> (string, string), timeOf: string -> int,
                              bs: seq<Behavior>, students: seq<Student>, types: seq<BehaviorType>,
                              tbs: seq<TeacherBehavior>, d: Detail)
    requires Truthy(teacherName) && Truthy(month)
    ensures var r := ScoreDetails(teacherName, month, bounds, timeOf, None, bs, students, types, tbs);
      var (lo, hi) := bounds(month.value);
      r.Details? && (d in r.rows <==>
        || (exists b :: b in bs && StudentDetail(b, students, types, teacherName.value, lo, hi) == Some(d))
        || (exists t :: t in tbs && OwnInRange(teacherName.value, lo, hi)(t) && TeacherDetail(t) == d))
  {
    var r := ScoreDetails(teacherName, month, bounds, timeOf, None, bs, students, types, tbs);
    var (lo, hi) := bounds(month.value);
    var s := StudentDetails(bs, students, types, teacherName.value, lo, hi);
    var t := TeacherDetails(tbs, teacherName.value, lo, hi);
    assert d in r.rows <==> d in multiset(r.rows);
    assert d in s <==> d in multiset(s);
    assert d in t <==> d in multiset(t);
  }
}
