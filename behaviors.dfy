/** The behaviors routes: the category count, the filtered list, lookup, create with its
    two existence guards, the partial update and the unconditional delete. Every read
    joins the students table (or, for the count, the behavior types), so a record whose
    student or type is gone is not reported. */
module Behaviors {
  import opened Common
  import opened Tables
  import opened Schema
  import opened Sorting
  import opened Filters

  /** The `type` query value of the count: 'violation' selects 违纪, 'excellent' 优秀, and
      any other value no category at all. */
  function StatsCategory(kind: Option<string>): (c: Option<string>)
    ensures c == Some("违纪") <==> kind == Some("violation")
    ensures c == Some("优秀") <==> kind == Some("excellent")
    ensures c.None? <==> kind != Some("violation") && kind != Some("excellent")
  {
    if kind == Some("violation") then Some("违纪")
    else if kind == Some("excellent") then Some("优秀")
    else None
  }

  /** Which joined rows the count admits, stated without the builder. */
  predicate StatsMatch(f: Fact, kind: Option<string>, start: Option<string>, end: Option<string>)
  {
    && (StatsCategory(kind).Some? ==> f.category == StatsCategory(kind))
    && (Truthy(start) ==> TextLe(start.value, f.date))
    && (Truthy(end) ==> TextLe(f.date, end.value))
  }

  /** The count's WHERE builder: category, then start date, then end date. */
  method BuildStatsFilter(kind: Option<string>, start: Option<string>, end: Option<string>)
    returns (conds: seq<Placeholder>, params: seq<Value>)
    ensures |conds| == |params|
    ensures forall f :: Satisfies(f, conds, params) <==> StatsMatch(f, kind, start, end)
  {
    var category := StatsCategory(kind);
    conds, params := AddCondition([], [], category.Some?, CategoryEq, Text(category));
    conds, params := AddCondition(conds, params, Truthy(start), DateFrom, Text(start));
    conds, params := AddCondition(conds, params, Truthy(end), DateTo, Text(end));
  }

  /** The joined row of one behavior: its type's category when a type of that name
      exists; type names are unique, so there is at most one. */
  function TypeFact(b: Behavior, types: seq<BehaviorType>): (r: Option<Fact>)
    ensures r.Some? <==> TypeExists(types, b.behaviorType)
  {
    match Find(types, TypeNameOf, b.behaviorType)
    case None => None
    case Some(k) => Some(Fact(b.studentId, b.behaviorType, Some(types[k].category), b.date, None))
  }

  function HasType(types: seq<BehaviorType>): Behavior -> bool
  {
    (b: Behavior) => TypeExists(types, b.behaviorType)
  }

  /** `behaviors b JOIN behavior_types bt ON b.behavior_type = bt.name`, in table order:
      one row for each behavior whose type exists, and no other row. */
  function JoinTypes(bs: seq<Behavior>, types: seq<BehaviorType>): (r: seq<Fact>)
    ensures |r| == |Where(bs, HasType(types))|
    decreases |bs|
  {
    if bs == [] then []
    else
      var rest := JoinTypes(bs[1..], types);
      assert bs == [bs[0]] + bs[1..];
      WhereCons(bs[0], bs[1..], HasType(types));
      match TypeFact(bs[0], types)
      case None => rest
      case Some(f) => [f] + rest
  }

  /** A fact is joined iff some behavior has a type and yields it. */
  lemma {:induction false} JoinedFacts(bs: seq<Behavior>, types: seq<BehaviorType>, f: Fact)
    ensures f in JoinTypes(bs, types) <==> exists b :: b in bs && TypeFact(b, types) == Some(f)
    decreases |bs|
  {
    if bs != [] {
      JoinedFacts(bs[1..], types, f);
      assert bs == [bs[0]] + bs[1..];
      if exists b :: b in bs && TypeFact(b, types) == Some(f) {
        var b :| b in bs && TypeFact(b, types) == Some(f);
        if b != bs[0] {
          assert b in bs[1..];
        }
      }
    }
  }

  /** GET /api/behaviors/stats: the number of joined rows that pass the filter. */
  method Stats(db: Db, kind: Option<string>, start: Option<string>, end: Option<string>) returns (count: nat)
    ensures count == |Where(JoinTypes(db.behaviors, db.behaviorTypes), (f: Fact) => StatsMatch(f, kind, start, end))|
  {
    var conds, params := BuildStatsFilter(kind, start, end);
    WhereSame(JoinTypes(db.behaviors, db.behaviorTypes), (f: Fact) => Satisfies(f, conds, params),
              (f: Fact) => StatsMatch(f, kind, start, end));
    count := Count(JoinTypes(db.behaviors, db.behaviorTypes), (f: Fact) => Satisfies(f, conds, params));
  }

  /** The violation count and the excellent count over the same dates never exceed the
      count without a type. */
  lemma StatsCategoriesBounded(facts: seq<Fact>, start: Option<string>, end: Option<string>)
    ensures |Where(facts, (f: Fact) => StatsMatch(f, Some("violation"), start, end))|
          + |Where(facts, (f: Fact) => StatsMatch(f, Some("excellent"), start, end))|
         <= |Where(facts, (f: Fact) => StatsMatch(f, None, start, end))|
  {
    WhereDisjoint(facts, (f: Fact) => StatsMatch(f, Some("violation"), start, end),
                  (f: Fact) => StatsMatch(f, Some("excellent"), start, end),
                  (f: Fact) => StatsMatch(f, None, start, end));
  }

  /** A listed record: the behavior with its student's name, grade and class. */
  datatype Listed = Listed(behavior: Behavior, studentName: string, grade: string, klass: Option<string>)

  function ListedDate(l: Listed): string { l.behavior.date }

  function ListedFact(l: Listed): Fact
  {
    Fact(l.behavior.studentId, l.behavior.behaviorType, None, l.behavior.date, Some(l.grade))
  }

  /** The joined row of one behavior, when its student exists. */
  function JoinOne(b: Behavior, students: seq<Student>): Option<Listed>
  {
    match Find(students, StudentKey, b.studentId)
    case None => None
    case Some(k) => Some(Listed(b, students[k].name, students[k].grade, students[k].klass))
  }

  /** `behaviors b JOIN students s ON b.student_id = s.id`, in table order. */
  function JoinStudents(bs: seq<Behavior>, students: seq<Student>): (r: seq<Listed>)
    ensures forall l :: l in r <==> l.behavior in bs && JoinOne(l.behavior, students) == Some(l)
    decreases |bs|
  {
    if bs == [] then []
    else
      var rest := JoinStudents(bs[1..], students);
      assert bs == [bs[0]] + bs[1..];
      match JoinOne(bs[0], students)
      case None => rest
      case Some(l) => [l] + rest
  }

  /** The list query: a student id (any non-empty value), a type name, a start and an
      end date, each optional. */
  datatype ListQuery = ListQuery(
    studentId: Option<int>, behaviorType: Option<string>, start: Option<string>, end: Option<string>)

  predicate ListMatch(f: Fact, q: ListQuery)
  {
    && (q.studentId.Some? ==> f.studentId == q.studentId.value)
    && (Truthy(q.behaviorType) ==> f.behaviorType == q.behaviorType.value)
    && (Truthy(q.start) ==> TextLe(q.start.value, f.date))
    && (Truthy(q.end) ==> TextLe(f.date, q.end.value))
  }

  /** The list's WHERE builder: student, type, start date, end date. */
  method BuildListFilter(q: ListQuery) returns (conds: seq<Placeholder>, params: seq<Value>)
    ensures |conds| == |params|
    ensures forall f :: Satisfies(f, conds, params) <==> ListMatch(f, q)
  {
    var sid := if q.studentId.Some? then q.studentId.value else 0;
    conds, params := AddCondition([], [], q.studentId.Some?, StudentIdEq, IntValue(sid));
    conds, params := AddCondition(conds, params, Truthy(q.behaviorType), BehaviorTypeEq, Text(q.behaviorType));
    conds, params := AddCondition(conds, params, Truthy(q.start), DateFrom, Text(q.start));
    conds, params := AddCondition(conds, params, Truthy(q.end), DateTo, Text(q.end));
  }

  /** GET /api/behaviors: exactly the joined records that pass the filter, newest first. */
  method ListBehaviors(db: Db, q: ListQuery) returns (rows: seq<Listed>)
    ensures multiset(rows) == multiset(Where(JoinStudents(db.behaviors, db.students), (l: Listed) => ListMatch(ListedFact(l), q)))
    ensures Sorted(rows, DescBy(ListedDate))
  {
    var conds, params := BuildListFilter(q);
    var joined := JoinStudents(db.behaviors, db.students);
    WhereSame(joined, (l: Listed) => Satisfies(ListedFact(l), conds, params), (l: Listed) => ListMatch(ListedFact(l), q));
    var matching := Where(joined, (l: Listed) => Satisfies(ListedFact(l), conds, params));
    DescByPreorder(ListedDate);
    SortSorted(matching, DescBy(ListedDate));
    rows := Sort(matching, DescBy(ListedDate));
  }

  /** GET /api/behaviors/:id: 404 unless the record exists and its student does too. */
  method GetBehavior(db: Db, id: int) returns (status: int, row: Option<Listed>)
    requires db.Valid()
    ensures status == 200 <==> exists l :: l in JoinStudents(db.behaviors, db.students) && l.behavior.id == id
    ensures status == 200 ==> row.Some? && row.value in JoinStudents(db.behaviors, db.students) && row.value.behavior.id == id
    ensures status == 200 || status == 404
  {
    var k := Find(db.behaviors, BehaviorKey, id);
    if k.None? {
      forall l | l in JoinStudents(db.behaviors, db.students) ensures l.behavior.id != id {
        assert l.behavior in db.behaviors;
      }
      return 404, None;
    }
    var l := JoinOne(db.behaviors[k.value], db.students);
    if l.None? {
      forall l' | l' in JoinStudents(db.behaviors, db.students) ensures l'.behavior.id != id {
        assert l'.behavior in db.behaviors;
        var i :| 0 <= i < |db.behaviors| && db.behaviors[i] == l'.behavior;
        assert i == k.value || l'.behavior.id != id;
      }
      return 404, None;
    }
    assert db.behaviors[k.value] in db.behaviors;
    return 200, l;
  }

  /** `/uploads/behaviors/<stored file name>` for an uploaded image. */
  function ImageUrl(upload: Option<string>): (r: Option<string>)
    ensures r.Some? <==> upload.Some?
  {
    if upload.Some? then Some("/uploads/behaviors/" + upload.value) else None
  }

  /** POST /api/behaviors. An unknown type is a 400 before the student is looked at; an
      unknown student is a 400; neither inserts anything. Otherwise the record is stored
      with the clock's `now` as its date and the image URL only when a file came with it. */
  method CreateBehavior(db: Db, studentId: Option<int>, behaviorType: Option<string>,
                        description: Option<string>, upload: Option<string>, now: string)
    returns (status: int, message: string, row: Option<Listed>)
    requires db.Valid()
    modifies db`behaviors, db`nextBehaviorId
    ensures db.Valid()
    ensures (behaviorType.None? || !TypeExists(db.behaviorTypes, behaviorType.value)) ==>
      status == 400 && message == "无效的行为类型"
    ensures behaviorType.Some? && TypeExists(db.behaviorTypes, behaviorType.value)
            && (studentId.None? || !StudentExists(db.students, studentId.value)) ==>
      status == 400 && message == "无效的学生ID"
    ensures status == 201 <==>
      && behaviorType.Some? && TypeExists(db.behaviorTypes, behaviorType.value)
      && studentId.Some? && StudentExists(db.students, studentId.value)
    ensures BehaviorRefsOk(old(db.behaviors), db.students, db.behaviorTypes) ==>
      BehaviorRefsOk(db.behaviors, db.students, db.behaviorTypes)
    ensures status != 201 ==> db.behaviors == old(db.behaviors) && db.nextBehaviorId == old(db.nextBehaviorId)
    ensures status == 201 ==>
      && behaviorType.Some? && studentId.Some?
      && var b := Behavior(old(db.nextBehaviorId), studentId.value, behaviorType.value, description, now, ImageUrl(upload), None);
      && db.behaviors == old(db.behaviors) + [b]
      && row == JoinOne(b, db.students) && row.Some?
    ensures status == 201 || status == 400
  {
    row := None;
    var t := if behaviorType.None? then None else Find(db.behaviorTypes, TypeNameOf, behaviorType.value);
    if t.None? {
      return 400, "无效的行为类型", None;
    }
    var s := if studentId.None? then None else Find(db.students, StudentKey, studentId.value);
    if s.None? {
      return 400, "无效的学生ID", None;
    }
    var b := Behavior(db.nextBehaviorId, studentId.value, behaviorType.value, description, now, ImageUrl(upload), None);
    assert StudentExists(db.students, b.studentId) && TypeExists(db.behaviorTypes, b.behaviorType);
    AppendFreshKey(db.behaviors, BehaviorKey, db.nextBehaviorId, b);
    db.behaviors := db.behaviors + [b];
    db.nextBehaviorId := db.nextBehaviorId + 1;
    return 201, "", JoinOne(b, db.students);
  }

  /** One `column = ?` of the update. */
  datatype Assignment = SetStudent(id: int) | SetType(name: string) | SetDescription(text: string) | SetImage(url: string)

  /** The assignments the update builds: each of student_id, behavior_type and description
      that is not undefined, in that order, then image_url when a file was uploaded. */
  function Assignments(studentId: Option<int>, behaviorType: Option<string>, description: Option<string>,
                       upload: Option<string>): seq<Assignment>
  {
    (if studentId.Some? then [SetStudent(studentId.value)] else [])
    + (if behaviorType.Some? then [SetType(behaviorType.value)] else [])
    + (if description.Some? then [SetDescription(description.value)] else [])
    + (if upload.Some? then [SetImage(ImageUrl(upload).value)] else [])
  }

  /** The builder loop over the body's fields, proved to build the assignments. */
  method CollectAssignments(studentId: Option<int>, behaviorType: Option<string>, description: Option<string>,
                            upload: Option<string>) returns (updates: seq<Assignment>)
    ensures updates == Assignments(studentId, behaviorType, description, upload)
  {
    var entries := [
      if studentId.Some? then Some(SetStudent(studentId.value)) else None,
      if behaviorType.Some? then Some(SetType(behaviorType.value)) else None,
      if description.Some? then Some(SetDescription(description.value)) else None
    ];
    updates := [];
    var i := 0;
    while i < |entries|
      invariant 0 <= i <= |entries|
      invariant updates == Present(entries[..i])
    {
      PresentSnoc(entries, i);
      if entries[i].Some? {
        updates := updates + [entries[i].value];
      }
      i := i + 1;
    }
    assert entries[..i] == entries;
    PresentThree(entries[0], entries[1], entries[2]);
    if upload.Some? {
      updates := updates + [SetImage(ImageUrl(upload).value)];
    }
  }

  /** The present values of a sequence of optional ones, in order. */
  function Present<T>(s: seq<Option<T>>): seq<T>
    decreases |s|
  {
    if s == [] then []
    else Present(s[..|s| - 1]) + (if s[|s| - 1].Some? then [s[|s| - 1].value] else [])
  }

  /** One more optional value adds it when present. */
  lemma PresentSnoc<T>(s: seq<Option<T>>, i: nat)
    requires i < |s|
    ensures Present(s[..i + 1]) == Present(s[..i]) + (if s[i].Some? then [s[i].value] else [])
  {
    assert s[..i + 1][..i] == s[..i];
  }

  lemma PresentThree<T>(x: Option<T>, y: Option<T>, z: Option<T>)
    ensures Present([x, y, z]) == (if x.Some? then [x.value] else []) + (if y.Some? then [y.value] else [])
                                  + (if z.Some? then [z.value] else [])
  {
    assert [x, y, z][..2] == [x, y] && [x, y][..1] == [x] && [x][..0] == [];
    assert Present([x]) == (if x.Some? then [x.value] else []);
    assert Present([x, y]) == Present([x]) + (if y.Some? then [y.value] else []);
    assert Present([x, y, z]) == Present([x, y]) + (if z.Some? then [z.value] else []);
  }

  function Assign(b: Behavior, a: Assignment): Behavior
  {
    match a
    case SetStudent(id) => b.(studentId := id)
    case SetType(name) => b.(behaviorType := name)
    case SetDescription(text) => b.(description := Some(text))
    case SetImage(url) => b.(imageUrl := Some(url))
  }

  /** The assignments applied left to right. */
  function ApplyAll(b: Behavior, updates: seq<Assignment>): Behavior
    decreases |updates|
  {
    if updates == [] then b else ApplyAll(Assign(b, updates[0]), updates[1..])
  }

  /** An update writes exactly the fields that were sent, keeps the key, the date and the
      process result, and keeps the stored image unless a file was uploaded. */
  lemma UpdateWritesSent(b: Behavior, studentId: Option<int>, behaviorType: Option<string>,
                         description: Option<string>, upload: Option<string>)
    ensures var r := ApplyAll(b, Assignments(studentId, behaviorType, description, upload));
      && r.id == b.id && r.date == b.date && r.processResult == b.processResult
      && r.studentId == (if studentId.Some? then studentId.value else b.studentId)
      && r.behaviorType == (if behaviorType.Some? then behaviorType.value else b.behaviorType)
      && r.description == (if description.Some? then description else b.description)
      && r.imageUrl == (if upload.Some? then ImageUrl(upload) else b.imageUrl)
  {
    var o1 := if studentId.Some? then [SetStudent(studentId.value)] else [];
    var o2 := if behaviorType.Some? then [SetType(behaviorType.value)] else [];
    var o3 := if description.Some? then [SetDescription(description.value)] else [];
    var o4 := if upload.Some? then [SetImage(ImageUrl(upload).value)] else [];
    ApplyConcat(b, o1 + o2 + o3, o4);
    ApplyConcat(b, o1 + o2, o3);
    ApplyConcat(b, o1, o2);
    var b1 := ApplyAll(b, o1);
    var b2 := ApplyAll(b1, o2);
    var b3 := ApplyAll(b2, o3);
    ApplyAtMostOne(b, o1);
    ApplyAtMostOne(b1, o2);
    ApplyAtMostOne(b2, o3);
    ApplyAtMostOne(b3, o4);
  }

  /** Applying no assignment or a single one. */
  lemma ApplyAtMostOne(b: Behavior, u: seq<Assignment>)
    requires |u| <= 1
    ensures ApplyAll(b, u) == if u == [] then b else Assign(b, u[0])
  {
    if u != [] {
      assert u[1..] == [];
    }
  }

  lemma {:induction false} ApplyConcat(b: Behavior, u: seq<Assignment>, v: seq<Assignment>)
    ensures ApplyAll(b, u + v) == ApplyAll(ApplyAll(b, u), v)
    decreases |u|
  {
    if u != [] {
      assert (u + v)[0] == u[0] && (u + v)[1..] == u[1..] + v;
      ApplyConcat(Assign(b, u[0]), u[1..], v);
    } else {
      assert u + v == v;
    }
  }

  /** Whether the foreign keys of the written columns name existing rows; SQLite checks
      them for the columns an UPDATE changes. */
  predicate ForeignKeysHold(students: seq<Student>, types: seq<BehaviorType>, updates: seq<Assignment>)
  {
    forall i :: 0 <= i < |updates| ==>
      match updates[i]
      case SetStudent(id) => StudentExists(students, id)
      case SetType(name) => TypeExists(types, name)
      case _ => true
  }

  /** Assignments that pass the foreign-key check keep a row's parents existing. */
  lemma {:induction false} ApplyKeepsRefs(b: Behavior, updates: seq<Assignment>, students: seq<Student>, types: seq<BehaviorType>)
    requires StudentExists(students, b.studentId) && TypeExists(types, b.behaviorType)
    requires ForeignKeysHold(students, types, updates)
    ensures StudentExists(students, ApplyAll(b, updates).studentId) && TypeExists(types, ApplyAll(b, updates).behaviorType)
    decreases |updates|
  {
    if updates != [] {
      assert ForeignKeysHold(students, types, updates[1..]) by {
        forall i | 0 <= i < |updates[1..]| ensures updates[1..][i] == updates[i + 1] { }
      }
      assert 0 < |updates|;
      ApplyKeepsRefs(Assign(b, updates[0]), updates[1..], students, types);
    }
  }

  /** PUT /api/behaviors/:id. With nothing to set the statement is `UPDATE behaviors SET
      WHERE id = ?`, a syntax error (500). A missing id updates nothing and the reply is
      200 with no record. A new student or type that does not exist violates a foreign
      key (500). Otherwise exactly the sent fields are written and the joined record is
      returned. */
  method UpdateBehavior(db: Db, id: int, studentId: Option<int>, behaviorType: Option<string>,
                        description: Option<string>, upload: Option<string>)
    returns (status: int, row: Option<Listed>)
    requires db.Valid()
    modifies db`behaviors
    ensures db.Valid()
    ensures var updates := Assignments(studentId, behaviorType, description, upload);
      && (updates == [] ==> status == 500)
      && (updates != [] && Find(old(db.behaviors), BehaviorKey, id).None? ==> status == 200 && row.None?)
      && (updates != [] && Find(old(db.behaviors), BehaviorKey, id).Some? ==>
            (status == 500 <==> !ForeignKeysHold(db.students, db.behaviorTypes, updates)))
      && (status == 200 && Find(old(db.behaviors), BehaviorKey, id).Some? ==>
            var k := Find(old(db.behaviors), BehaviorKey, id).value;
            db.behaviors == old(db.behaviors)[k := ApplyAll(old(db.behaviors)[k], updates)]
            && row == JoinOne(db.behaviors[k], db.students))
    ensures status != 200 || Find(old(db.behaviors), BehaviorKey, id).None? ==> db.behaviors == old(db.behaviors)
    ensures BehaviorRefsOk(old(db.behaviors), db.students, db.behaviorTypes) ==>
      BehaviorRefsOk(db.behaviors, db.students, db.behaviorTypes)
    ensures status == 200 || status == 500
  {
    var updates := CollectAssignments(studentId, behaviorType, description, upload);
    if |updates| == 0 {
      return 500, None;
    }
    var k := Find(db.behaviors, BehaviorKey, id);
    if k.None? {
      return 200, None;
    }
    if !ForeignKeysHold(db.students, db.behaviorTypes, updates) {
      return 500, None;
    }
    var updated := ApplyAll(db.behaviors[k.value], updates);
    ApplyKeepsId(db.behaviors[k.value], updates);
    if StudentExists(db.students, db.behaviors[k.value].studentId) && TypeExists(db.behaviorTypes, db.behaviors[k.value].behaviorType) {
      ApplyKeepsRefs(db.behaviors[k.value], updates, db.students, db.behaviorTypes);
    }
    ReplaceBehavior(db, k.value, updated);
    return 200, JoinOne(updated, db.students);
  }

  /** The UPDATE of one row: the key stays, so the key constraints hold; a row whose
      parents exist keeps the foreign keys satisfied. */
  method ReplaceBehavior(db: Db, k: nat, x: Behavior)
    requires db.Valid() && k < |db.behaviors| && x.id == db.behaviors[k].id
    requires StudentExists(db.students, db.behaviors[k].studentId) && TypeExists(db.behaviorTypes, db.behaviors[k].behaviorType)
             ==> StudentExists(db.students, x.studentId) && TypeExists(db.behaviorTypes, x.behaviorType)
    modifies db`behaviors
    ensures db.Valid()
    ensures db.behaviors == old(db.behaviors)[k := x]
    ensures BehaviorRefsOk(old(db.behaviors), db.students, db.behaviorTypes) ==>
      BehaviorRefsOk(db.behaviors, db.students, db.behaviorTypes)
  {
    if BehaviorRefsOk(db.behaviors, db.students, db.behaviorTypes) {
      ReplaceKeepsRefs(db.behaviors, db.students, db.behaviorTypes, k, x);
    }
    ReplaceKeepsRows(db.behaviors, BehaviorKey, db.nextBehaviorId, k, x);
    db.behaviors := db.behaviors[k := x];
  }

  /** Replacing a row by one whose parents exist keeps every row's parents existing. */
  lemma ReplaceKeepsRefs(bs: seq<Behavior>, students: seq<Student>, types: seq<BehaviorType>, k: nat, x: Behavior)
    requires BehaviorRefsOk(bs, students, types) && k < |bs|
    requires StudentExists(students, x.studentId) && TypeExists(types, x.behaviorType)
    ensures BehaviorRefsOk(bs[k := x], students, types)
  {
    var t := bs[k := x];
    forall i | 0 <= i < |t| ensures StudentExists(students, t[i].studentId) && TypeExists(types, t[i].behaviorType) {
      if i != k {
        assert t[i] == bs[i];
      }
    }
  }

  lemma {:induction false} ApplyKeepsId(b: Behavior, updates: seq<Assignment>)
    ensures ApplyAll(b, updates).id == b.id
    decreases |updates|
  {
    if updates != [] {
      ApplyKeepsId(Assign(b, updates[0]), updates[1..]);
    }
  }

  /** DELETE /api/behaviors/:id: 204 whether or not the record existed. */
  method DeleteBehavior(db: Db, id: int) returns (status: int)
    requires db.Valid()
    modifies db`behaviors
    ensures db.Valid()
    ensures status == 204
    ensures db.behaviors == Where(old(db.behaviors), KeyIsNot(BehaviorKey, id))
    ensures BehaviorRefsOk(old(db.behaviors), db.students, db.behaviorTypes) ==>
      BehaviorRefsOk(db.behaviors, db.students, db.behaviorTypes)
    ensures |db.behaviors| == |old(db.behaviors)| - (if Find(old(db.behaviors), BehaviorKey, id).Some? then 1 else 0)
  {
    DeleteByKeyCount(db.behaviors, BehaviorKey, id);
    FilterKeepsRows(db.behaviors, BehaviorKey, db.nextBehaviorId, KeyIsNot(BehaviorKey, id));
    var kept := Where(db.behaviors, KeyIsNot(BehaviorKey, id));
    if BehaviorRefsOk(db.behaviors, db.students, db.behaviorTypes) {
      forall i | 0 <= i < |kept| ensures StudentExists(db.students, kept[i].studentId) && TypeExists(db.behaviorTypes, kept[i].behaviorType) {
        assert kept[i] in db.behaviors;
      }
    }
    db.behaviors := kept;
    status := 204;
  }
}
