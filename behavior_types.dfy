/** The behavior-types routes. A type is referenced by name from the behaviors table, and
    with foreign keys enforced a referenced type can be neither renamed nor deleted. */
module BehaviorTypes {
  import opened Common
  import opened Tables
  import opened Schema
  import opened Sorting
  import opened Filters

  function TypeCategory(t: BehaviorType): string { t.category }

  /** `ORDER BY category, name`. */
  function TypeOrder(): (BehaviorType, BehaviorType) -> bool
  {
    Lex(AscBy(TypeCategory), AscBy(TypeNameOf))
  }

  /** GET /api/behavior-types: every type, by category and then by name. */
  method ListTypes(db: Db) returns (rows: seq<BehaviorType>)
    ensures multiset(rows) == multiset(db.behaviorTypes)
    ensures Sorted(rows, TypeOrder())
  {
    AscByPreorder(TypeCategory);
    AscByPreorder(TypeNameOf);
    LexPreorder(AscBy(TypeCategory), AscBy(TypeNameOf));
    SortSorted(db.behaviorTypes, TypeOrder());
    rows := Sort(db.behaviorTypes, TypeOrder());
  }

  /** GET /api/behavior-types/:id. */
  method GetType(db: Db, id: int) returns (status: int, row: Option<BehaviorType>)
    ensures status == 404 <==> forall i :: 0 <= i < |db.behaviorTypes| ==> db.behaviorTypes[i].id != id
    ensures status == 200 ==> row.Some? && row.value in db.behaviorTypes && row.value.id == id
    ensures status == 200 || status == 404
  {
    var k := Find(db.behaviorTypes, TypeKey, id);
    if k.None? {
      return 404, None;
    }
    return 200, Some(db.behaviorTypes[k.value]);
  }

  const EmptyNameOrCategory := "名称和类别不能为空"

  /** Some behaviors row names this type. */
  predicate Referenced(bs: seq<Behavior>, name: string)
  {
    exists i :: 0 <= i < |bs| && bs[i].behaviorType == name
  }

  /** POST /api/behavior-types: a missing name or category is a 400; a name already in
      use breaks the UNIQUE constraint (500); otherwise the type is stored with score 0. */
  method CreateType(db: Db, name: Option<string>, category: Option<string>, description: Option<string>)
    returns (status: int, message: string, created: Option<BehaviorType>)
    requires db.Valid()
    modifies db`behaviorTypes, db`nextTypeId
    ensures db.Valid()
    ensures status == 400 <==> !Truthy(name) || !Truthy(category)
    ensures status == 400 ==> message == EmptyNameOrCategory
    ensures status == 500 <==> Truthy(name) && Truthy(category) && TypeExists(old(db.behaviorTypes), name.value)
    ensures status != 201 ==> db.behaviorTypes == old(db.behaviorTypes) && db.nextTypeId == old(db.nextTypeId)
    ensures status == 201 ==>
      && created == Some(BehaviorType(old(db.nextTypeId), name.value, category.value, description, 0))
      && db.behaviorTypes == old(db.behaviorTypes) + [created.value]
    ensures BehaviorRefsOk(db.behaviors, db.students, old(db.behaviorTypes)) ==>
      BehaviorRefsOk(db.behaviors, db.students, db.behaviorTypes)
    ensures status == 201 || status == 400 || status == 500
  {
    if !Truthy(name) || !Truthy(category) {
      return 400, EmptyNameOrCategory, None;
    }
    if Find(db.behaviorTypes, TypeNameOf, name.value).Some? {
      return 500, "", None;
    }
    var t := BehaviorType(db.nextTypeId, name.value, category.value, description, 0);
    AppendFreshKey(db.behaviorTypes, TypeKey, db.nextTypeId, t);
    AppendFreshText(db.behaviorTypes, TypeNameOf, t);
    ghost var before := db.behaviorTypes;
    db.behaviorTypes := db.behaviorTypes + [t];
    db.nextTypeId := db.nextTypeId + 1;
    forall n | TypeExists(before, n) ensures TypeExists(db.behaviorTypes, n) {
      var i :| 0 <= i < |before| && before[i].name == n;
      assert db.behaviorTypes[i] == before[i];
    }
    return 201, "", Some(t);
  }

  /** PUT /api/behavior-types/:id: name, category and description are all written (an
      absent description becomes NULL); the score is kept. A missing id updates nothing
      and the reply has no row; a name another type holds breaks UNIQUE, and renaming a
      type that behaviors reference breaks their foreign key (500 either way). */
  method UpdateType(db: Db, id: int, name: Option<string>, category: Option<string>, description: Option<string>)
    returns (status: int, message: string, row: Option<BehaviorType>)
    requires db.Valid()
    modifies db`behaviorTypes
    ensures db.Valid()
    ensures status == 400 <==> !Truthy(name) || !Truthy(category)
    ensures status == 400 ==> message == EmptyNameOrCategory
    ensures status != 400 && Find(old(db.behaviorTypes), TypeKey, id).None? ==> status == 200 && row.None?
    ensures status != 400 && Find(old(db.behaviorTypes), TypeKey, id).Some? ==>
      var k := Find(old(db.behaviorTypes), TypeKey, id).value;
      var t := old(db.behaviorTypes)[k];
      && (status == 500 <==>
            (exists i :: 0 <= i < |old(db.behaviorTypes)| && i != k && old(db.behaviorTypes)[i].name == name.value)
            || (t.name != name.value && Referenced(db.behaviors, t.name)))
      && (status == 200 ==>
            && row == Some(BehaviorType(id, name.value, category.value, description, t.score))
            && db.behaviorTypes == old(db.behaviorTypes)[k := row.value])
    ensures status != 200 || Find(old(db.behaviorTypes), TypeKey, id).None? ==> db.behaviorTypes == old(db.behaviorTypes)
    ensures BehaviorRefsOk(db.behaviors, db.students, old(db.behaviorTypes)) ==>
      BehaviorRefsOk(db.behaviors, db.students, db.behaviorTypes)
    ensures status == 200 || status == 400 || status == 500
  {
    if !Truthy(name) || !Truthy(category) {
      return 400, EmptyNameOrCategory, None;
    }
    var k := Find(db.behaviorTypes, TypeKey, id);
    if k.None? {
      return 200, "", None;
    }
    var old_ := db.behaviorTypes[k.value];
    if exists i :: 0 <= i < |db.behaviorTypes| && i != k.value && db.behaviorTypes[i].name == name.value {
      return 500, "", None;
    }
    if old_.name != name.value && Referenced(db.behaviors, old_.name) {
      return 500, "", None;
    }
    var t := BehaviorType(id, name.value, category.value, description, old_.score);
    ReplaceKeepsRows(db.behaviorTypes, TypeKey, db.nextTypeId, k.value, t);
    ReplaceFreshText(db.behaviorTypes, TypeNameOf, k.value, t);
    RenameKeepsRefs(db.behaviors, db.students, db.behaviorTypes, k.value, t);
    db.behaviorTypes := db.behaviorTypes[k.value := t];
    return 200, "", Some(t);
  }

  /** Replacing a type keeps every behavior's type existing unless the type was renamed
      while referenced. */
  lemma RenameKeepsRefs(bs: seq<Behavior>, students: seq<Student>, types: seq<BehaviorType>, k: nat, t: BehaviorType)
    requires k < |types|
    requires types[k].name == t.name || !Referenced(bs, types[k].name)
    ensures BehaviorRefsOk(bs, students, types) ==> BehaviorRefsOk(bs, students, types[k := t])
  {
    if BehaviorRefsOk(bs, students, types) {
      forall i | 0 <= i < |bs| ensures TypeExists(types[k := t], bs[i].behaviorType) {
        var j :| 0 <= j < |types| && types[j].name == bs[i].behaviorType;
        if j == k {
          assert types[k := t][k].name == bs[i].behaviorType;
        } else {
          assert types[k := t][j] == types[j];
        }
      }
    }
  }

  /** DELETE /api/behavior-types/:id: 204, also for an id that does not exist; deleting a
      type that behaviors reference breaks their foreign key (500, nothing deleted). */
  method DeleteType(db: Db, id: int) returns (status: int)
    requires db.Valid()
    modifies db`behaviorTypes
    ensures db.Valid()
    ensures status == 500 <==>
      Find(old(db.behaviorTypes), TypeKey, id).Some? &&
      Referenced(db.behaviors, old(db.behaviorTypes)[Find(old(db.behaviorTypes), TypeKey, id).value].name)
    ensures status == 500 ==> db.behaviorTypes == old(db.behaviorTypes)
    ensures status == 204 ==> db.behaviorTypes == Where(old(db.behaviorTypes), KeyIsNot(TypeKey, id))
    ensures BehaviorRefsOk(db.behaviors, db.students, old(db.behaviorTypes)) ==>
      BehaviorRefsOk(db.behaviors, db.students, db.behaviorTypes)
    ensures status == 204 || status == 500
  {
    var k := Find(db.behaviorTypes, TypeKey, id);
    if k.Some? && Referenced(db.behaviors, db.behaviorTypes[k.value].name) {
      return 500;
    }
    var kept := Where(db.behaviorTypes, KeyIsNot(TypeKey, id));
    FilterKeepsRows(db.behaviorTypes, TypeKey, db.nextTypeId, KeyIsNot(TypeKey, id));
    WherePreservesUnique(db.behaviorTypes, TypeNameOf, KeyIsNot(TypeKey, id));
    if BehaviorRefsOk(db.behaviors, db.students, db.behaviorTypes) {
      forall i | 0 <= i < |db.behaviors| ensures TypeExists(kept, db.behaviors[i].behaviorType) {
        var j :| 0 <= j < |db.behaviorTypes| && db.behaviorTypes[j].name == db.behaviors[i].behaviorType;
        assert db.behaviorTypes[j].id != id;
        assert db.behaviorTypes[j] in kept;
        var m :| 0 <= m < |kept| && kept[m] == db.behaviorTypes[j];
      }
    }
    db.behaviorTypes := kept;
    return 204;
  }
}
