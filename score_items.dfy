/** The score-items routes: the add and subtract catalogue with its two guards, 404 on
    missing rows, and the foreign key from teacher_behaviors.score_item_id. */
module ScoreItems {
  import opened Common
  import opened Tables
  import opened Schema
  import opened Sorting
  import opened Filters

  function ItemCategory(i: ScoreItem): string { i.category }

  /** `score DESC`. */
  function HigherScore(): (ScoreItem, ScoreItem) -> bool
  {
    (a: ScoreItem, b: ScoreItem) => a.score >= b.score
  }

  /** `ORDER BY category DESC, score DESC`. */
  function ItemOrder(): (ScoreItem, ScoreItem) -> bool
  {
    Lex(DescBy(ItemCategory), HigherScore())
  }

  /** In BINARY collation 减 (U+51CF) sorts below 加 (U+52A0), so `category DESC` puts
      every 加分 item strictly before every 减分 item. */
  lemma AddBeforeSubtract(a: ScoreItem, b: ScoreItem)
    requires a.category == "加分" && b.category == "减分"
    ensures ItemOrder()(a, b) && !ItemOrder()(b, a)
  {
    assert TextLe(b.category, a.category) by {
      assert b.category[0] < a.category[0];
    }
    assert !TextLe(a.category, b.category) by {
      assert b.category[0] < a.category[0];
    }
    var first := DescBy(ItemCategory);
    assert first(a, b) == TextLe(ItemCategory(b), ItemCategory(a));
    assert first(b, a) == TextLe(ItemCategory(a), ItemCategory(b));
    assert ItemOrder() == Lex(first, HigherScore());
  }

  /** GET /api/score-items: every item, 加分 before 减分, higher scores first. */
  method ListItems(db: Db) returns (rows: seq<ScoreItem>)
    ensures multiset(rows) == multiset(db.scoreItems)
    ensures Sorted(rows, ItemOrder())
  {
    DescByPreorder(ItemCategory);
    LexPreorder(DescBy(ItemCategory), HigherScore());
    SortSorted(db.scoreItems, ItemOrder());
    rows := Sort(db.scoreItems, ItemOrder());
  }

  /** The `score` of a JSON body: left out, sent as `null`, or a number. */
  datatype SentScore = Absent | Null | Given(value: int)

  const MissingFields := "名称、类别和分数为必填项"
  const BadCategory := "类别必须为\"加分\"或\"减分\""

  const CreateFailed := "添加加减分项失败"
  const UpdateFailed := "更新加减分项失败"

  /** The two guards of create and update, in order: name, category and score present
      (`score === undefined` is the test, so 0 and `null` count as present), then the
      category one of the two allowed. */
  function ItemError(name: Option<string>, category: Option<string>, score: SentScore): (e: Option<string>)
    ensures e.None? <==> Truthy(name) && Truthy(category) && !score.Absent?
                         && (category.value == "加分" || category.value == "减分")
    ensures e == Some(MissingFields) <==> !Truthy(name) || !Truthy(category) || score.Absent?
    ensures e.None? && score.Given? ==> ValidScoreItem(ScoreItem(0, name.value, category.value, score.value, None))
  {
    if !Truthy(name) || !Truthy(category) || score.Absent? then Some(MissingFields)
    else if category.value != "加分" && category.value != "减分" then Some(BadCategory)
    else None
  }

  /** The sign of the score is never compared with the category. */
  lemma SignNotChecked()
    ensures ItemError(Some("x"), Some("加分"), Given(-5)).None?
    ensures ItemError(Some("x"), Some("减分"), Given(5)).None?
    ensures ItemError(Some("x"), Some("加分"), Given(0)).None?
  {
  }

  /** POST /api/score-items. A `null` score passes the guards and then breaks
      `score REAL NOT NULL`: the INSERT fails and the reply is 500. */
  method CreateItem(db: Db, name: Option<string>, category: Option<string>, score: SentScore,
                    description: Option<string>)
    returns (status: int, message: string, created: Option<ScoreItem>)
    requires db.Valid()
    modifies db`scoreItems, db`nextScoreItemId
    ensures db.Valid()
    ensures status == 400 <==> ItemError(name, category, score).Some?
    ensures status == 400 ==> message == ItemError(name, category, score).value
    ensures status == 500 <==> ItemError(name, category, score).None? && score.Null?
    ensures status == 500 ==> message == CreateFailed
    ensures status != 201 ==> db.scoreItems == old(db.scoreItems) && db.nextScoreItemId == old(db.nextScoreItemId)
    ensures status == 201 ==>
      && score.Given?
      && created == Some(ScoreItem(old(db.nextScoreItemId), name.value, category.value, score.value, description))
      && db.scoreItems == old(db.scoreItems) + [created.value]
    ensures TeacherRefsOk(db.teacherBehaviors, old(db.scoreItems)) ==> TeacherRefsOk(db.teacherBehaviors, db.scoreItems)
    ensures status == 201 || status == 400 || status == 500
  {
    var e := ItemError(name, category, score);
    if e.Some? {
      return 400, e.value, None;
    }
    if score.Null? {
      return 500, CreateFailed, None;
    }
    var item := ScoreItem(db.nextScoreItemId, name.value, category.value, score.value, description);
    AppendFreshKey(db.scoreItems, ScoreItemKey, db.nextScoreItemId, item);
    ghost var before := db.scoreItems;
    db.scoreItems := db.scoreItems + [item];
    db.nextScoreItemId := db.nextScoreItemId + 1;
    forall n | ScoreItemExists(before, n) ensures ScoreItemExists(db.scoreItems, n) {
      var i :| 0 <= i < |before| && before[i].id == n;
      assert db.scoreItems[i] == before[i];
    }
    return 201, "", Some(item);
  }

  const NotFound := "加减分项不存在"

  /** PUT /api/score-items/:id: the guards, then 404 when no row has the id, else name,
      category, score and description are overwritten. A `null` score matches no row
      when the id is unknown, so that is still 404; on an existing row it breaks
      `score REAL NOT NULL` and the reply is 500. */
  method UpdateItem(db: Db, id: int, name: Option<string>, category: Option<string>, score: SentScore,
                    description: Option<string>)
    returns (status: int, message: string, row: Option<ScoreItem>)
    requires db.Valid()
    modifies db`scoreItems
    ensures db.Valid()
    ensures status == 400 <==> ItemError(name, category, score).Some?
    ensures status == 400 ==> message == ItemError(name, category, score).value
    ensures status == 404 <==> ItemError(name, category, score).None? && Find(old(db.scoreItems), ScoreItemKey, id).None?
    ensures status == 404 ==> message == NotFound
    ensures status == 500 <==>
      ItemError(name, category, score).None? && Find(old(db.scoreItems), ScoreItemKey, id).Some? && score.Null?
    ensures status == 500 ==> message == UpdateFailed
    ensures status != 200 ==> db.scoreItems == old(db.scoreItems)
    ensures status == 200 ==>
      score.Given? &&
      var k := Find(old(db.scoreItems), ScoreItemKey, id).value;
      && row == Some(ScoreItem(id, name.value, category.value, score.value, description))
      && db.scoreItems == old(db.scoreItems)[k := row.value]
    ensures TeacherRefsOk(db.teacherBehaviors, old(db.scoreItems)) ==> TeacherRefsOk(db.teacherBehaviors, db.scoreItems)
    ensures status == 200 || status == 400 || status == 404 || status == 500
  {
    var e := ItemError(name, category, score);
    if e.Some? {
      return 400, e.value, None;
    }
    var k := Find(db.scoreItems, ScoreItemKey, id);
    if k.None? {
      return 404, NotFound, None;
    }
    if score.Null? {
      return 500, UpdateFailed, None;
    }
    var item := ScoreItem(id, name.value, category.value, score.value, description);
    ReplaceKeepsRows(db.scoreItems, ScoreItemKey, db.nextScoreItemId, k.value, item);
    ghost var before := db.scoreItems;
    db.scoreItems := db.scoreItems[k.value := item];
    forall n | ScoreItemExists(before, n) ensures ScoreItemExists(db.scoreItems, n) {
      var i :| 0 <= i < |before| && before[i].id == n;
      assert db.scoreItems[i].id == before[i].id;
    }
    return 200, "", Some(item);
  }

  /** Some teacher behavior names this score item. */
  predicate ItemReferenced(tbs: seq<TeacherBehavior>, id: int)
  {
    exists i :: 0 <= i < |tbs| && tbs[i].scoreItemId == Some(id)
  }

  /** Dropping rows keeps every remaining item valid. */
  lemma KeptItemsValid(items: seq<ScoreItem>, id: int)
    requires forall i :: 0 <= i < |items| ==> ValidScoreItem(items[i])
    ensures var kept := Where(items, KeyIsNot(ScoreItemKey, id));
      forall i :: 0 <= i < |kept| ==> ValidScoreItem(kept[i])
  {
    var kept := Where(items, KeyIsNot(ScoreItemKey, id));
    forall i | 0 <= i < |kept| ensures ValidScoreItem(kept[i]) {
      assert kept[i] in items;
    }
  }

  /** Deleting an item no teacher behavior names keeps every reference resolvable. */
  lemma UnreferencedDeleteKeepsRefs(tbs: seq<TeacherBehavior>, items: seq<ScoreItem>, id: int)
    requires !ItemReferenced(tbs, id)
    ensures TeacherRefsOk(tbs, items) ==> TeacherRefsOk(tbs, Where(items, KeyIsNot(ScoreItemKey, id)))
  {
    var kept := Where(items, KeyIsNot(ScoreItemKey, id));
    if TeacherRefsOk(tbs, items) {
      forall i | 0 <= i < |tbs| && tbs[i].scoreItemId.Some?
        ensures ScoreItemExists(kept, tbs[i].scoreItemId.value)
      {
        var n := tbs[i].scoreItemId.value;
        var j :| 0 <= j < |items| && items[j].id == n;
        assert n != id;
        assert items[j] in kept;
        var m :| 0 <= m < |kept| && kept[m] == items[j];
      }
    }
  }

  /** DELETE /api/score-items/:id: 404 when no row has the id; an item a teacher behavior
      still names breaks that foreign key (500, nothing deleted); otherwise exactly that
      row goes. */
  method DeleteItem(db: Db, id: int) returns (status: int, message: string)
    requires db.Valid()
    modifies db`scoreItems
    ensures db.Valid()
    ensures status == 404 <==> Find(old(db.scoreItems), ScoreItemKey, id).None?
    ensures status == 500 <==> Find(old(db.scoreItems), ScoreItemKey, id).Some? && ItemReferenced(db.teacherBehaviors, id)
    ensures status != 200 ==> db.scoreItems == old(db.scoreItems)
    ensures status == 200 ==> db.scoreItems == Where(old(db.scoreItems), KeyIsNot(ScoreItemKey, id))
                              && |db.scoreItems| == |old(db.scoreItems)| - 1 && message == "删除成功"
    ensures TeacherRefsOk(db.teacherBehaviors, old(db.scoreItems)) ==> TeacherRefsOk(db.teacherBehaviors, db.scoreItems)
    ensures status == 200 || status == 404 || status == 500
  {
    var k := Find(db.scoreItems, ScoreItemKey, id);
    if k.None? {
      return 404, NotFound;
    }
    if ItemReferenced(db.teacherBehaviors, id) {
      return 500, "删除加减分项失败";
    }
    var kept := Where(db.scoreItems, KeyIsNot(ScoreItemKey, id));
    DeleteByKeyCount(db.scoreItems, ScoreItemKey, id);
    FilterKeepsRows(db.scoreItems, ScoreItemKey, db.nextScoreItemId, KeyIsNot(ScoreItemKey, id));
    KeptItemsValid(db.scoreItems, id);
    UnreferencedDeleteKeepsRefs(db.teacherBehaviors, db.scoreItems, id);
    db.scoreItems := kept;
    return 200, "删除成功";
  }
}
