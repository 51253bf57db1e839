/** The teacher-behaviors routes: records about teachers, with four required fields, a
    score that defaults to 0 and 404 on missing rows. The routes never write
    score_item_id: a created row has none and an update keeps the stored one. */
module TeacherBehaviors {
  import opened Common
  import opened Tables
  import opened Schema
  import opened Sorting
  import opened Filters

  function TeacherDate(t: TeacherBehavior): string { t.date }

  /** GET /api/teacher-behaviors: every record, newest first. */
  method ListTeacherBehaviors(db: Db) returns (rows: seq<TeacherBehavior>)
    ensures multiset(rows) == multiset(db.teacherBehaviors)
    ensures Sorted(rows, DescBy(TeacherDate))
  {
    DescByPreorder(TeacherDate);
    SortSorted(db.teacherBehaviors, DescBy(TeacherDate));
    rows := Sort(db.teacherBehaviors, DescBy(TeacherDate));
  }

  const MissingFields := "教师姓名、行为类型、描述和时间为必填项"
  const NotFound := "行为记录不存在"

  /** The body of a create or update; `score` is absent or a number. */
  datatype Body = Body(
    teacherName: Option<string>, behaviorType: Option<string>, description: Option<string>,
    date: Option<string>, processResult: Option<string>, score: Option<int>)

  predicate Complete(b: Body)
  {
    Truthy(b.teacherName) && Truthy(b.behaviorType) && Truthy(b.description) && Truthy(b.date)
  }

  /** `score || 0`: an absent or zero score is stored as 0. */
  function StoredScore(score: Option<int>): (r: int)
    ensures score.None? ==> r == 0
    ensures score.Some? ==> r == score.value
  {
    if score.Some? && score.value != 0 then score.value else 0
  }

  /** The row a complete body describes, under key id and with the given score item. */
  function RowOf(id: int, b: Body, item: Option<int>): (r: TeacherBehavior)
    requires Complete(b)
    ensures r.id == id && r.scoreItemId == item && r.score == StoredScore(b.score)
    ensures r.teacherName == b.teacherName.value && r.behaviorType == b.behaviorType.value
    ensures r.description == b.description.value && r.date == b.date.value && r.processResult == b.processResult
  {
    TeacherBehavior(id, b.teacherName.value, b.behaviorType.value, b.description.value, b.date.value,
                    b.processResult, StoredScore(b.score), item)
  }

  /** POST /api/teacher-behaviors. */
  method CreateTeacherBehavior(db: Db, b: Body) returns (status: int, message: string, created: Option<TeacherBehavior>)
    requires db.Valid()
    modifies db`teacherBehaviors, db`nextTeacherBehaviorId
    ensures db.Valid()
    ensures status == 400 <==> !Complete(b)
    ensures status == 400 ==> message == MissingFields && db.teacherBehaviors == old(db.teacherBehaviors)
                              && db.nextTeacherBehaviorId == old(db.nextTeacherBehaviorId)
    ensures status == 201 ==>
      && created == Some(RowOf(old(db.nextTeacherBehaviorId), b, None))
      && db.teacherBehaviors == old(db.teacherBehaviors) + [created.value]
    ensures TeacherRefsOk(old(db.teacherBehaviors), db.scoreItems) ==> TeacherRefsOk(db.teacherBehaviors, db.scoreItems)
    ensures status == 201 || status == 400
  {
    if !Complete(b) {
      return 400, MissingFields, None;
    }
    var row := RowOf(db.nextTeacherBehaviorId, b, None);
    AppendFreshKey(db.teacherBehaviors, TeacherBehaviorKey, db.nextTeacherBehaviorId, row);
    db.teacherBehaviors := db.teacherBehaviors + [row];
    db.nextTeacherBehaviorId := db.nextTeacherBehaviorId + 1;
    return 201, "", Some(row);
  }

  /** PUT /api/teacher-behaviors/:id: every column but the key and score_item_id is
      overwritten; 404 when no row has the id. */
  method UpdateTeacherBehavior(db: Db, id: int, b: Body) returns (status: int, message: string, row: Option<TeacherBehavior>)
    requires db.Valid()
    modifies db`teacherBehaviors
    ensures db.Valid()
    ensures status == 400 <==> !Complete(b)
    ensures status == 400 ==> message == MissingFields
    ensures status == 404 <==> Complete(b) && Find(old(db.teacherBehaviors), TeacherBehaviorKey, id).None?
    ensures status == 404 ==> message == NotFound
    ensures status != 200 ==> db.teacherBehaviors == old(db.teacherBehaviors)
    ensures status == 200 ==>
      var k := Find(old(db.teacherBehaviors), TeacherBehaviorKey, id).value;
      && row == Some(RowOf(id, b, old(db.teacherBehaviors)[k].scoreItemId))
      && db.teacherBehaviors == old(db.teacherBehaviors)[k := row.value]
    ensures TeacherRefsOk(old(db.teacherBehaviors), db.scoreItems) ==> TeacherRefsOk(db.teacherBehaviors, db.scoreItems)
    ensures status == 200 || status == 400 || status == 404
  {
    if !Complete(b) {
      return 400, MissingFields, None;
    }
    var k := Find(db.teacherBehaviors, TeacherBehaviorKey, id);
    if k.None? {
      return 404, NotFound, None;
    }
    var r := RowOf(id, b, db.teacherBehaviors[k.value].scoreItemId);
    ReplaceKeepsRows(db.teacherBehaviors, TeacherBehaviorKey, db.nextTeacherBehaviorId, k.value, r);
    db.teacherBehaviors := db.teacherBehaviors[k.value := r];
    return 200, "", Some(r);
  }

  /** DELETE /api/teacher-behaviors/:id: 404 when no row has the id, else exactly that row goes. */
  method DeleteTeacherBehavior(db: Db, id: int) returns (status: int, message: string)
    requires db.Valid()
    modifies db`teacherBehaviors
    ensures db.Valid()
    ensures status == 404 <==> Find(old(db.teacherBehaviors), TeacherBehaviorKey, id).None?
    ensures status == 404 ==> db.teacherBehaviors == old(db.teacherBehaviors) && message == NotFound
    ensures status == 200 ==>
      && db.teacherBehaviors == Where(old(db.teacherBehaviors), KeyIsNot(TeacherBehaviorKey, id))
      && |db.teacherBehaviors| == |old(db.teacherBehaviors)| - 1 && message == "删除成功"
    ensures TeacherRefsOk(old(db.teacherBehaviors), db.scoreItems) ==> TeacherRefsOk(db.teacherBehaviors, db.scoreItems)
    ensures status == 200 || status == 404
  {
    var k := Find(db.teacherBehaviors, TeacherBehaviorKey, id);
    if k.None? {
      return 404, NotFound;
    }
    var kept := Where(db.teacherBehaviors, KeyIsNot(TeacherBehaviorKey, id));
    DeleteByKeyCount(db.teacherBehaviors, TeacherBehaviorKey, id);
    FilterKeepsRows(db.teacherBehaviors, TeacherBehaviorKey, db.nextTeacherBehaviorId, KeyIsNot(TeacherBehaviorKey, id));
    forall i | 0 <= i < |kept| && kept[i].scoreItemId.Some? ensures kept[i] in db.teacherBehaviors { }
    db.teacherBehaviors := kept;
    return 200, "删除成功";
  }
}
