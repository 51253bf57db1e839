/** initDatabase: creates the tables that do not exist yet, adds the columns an older
    table lacks, and seeds the admin account, the default behavior types and the default
    score items, each only when they are missing. The bcrypt hash of the default password
    is a parameter. */
module Database {
  import opened Common
  import opened Tables
  import opened Schema

  const AllTables: set<TableName> :=
    {UsersTable, OperationLogsTable, StudentsTable, BehaviorTypesTable, BehaviorsTable,
     ScoreItemsTable, TeacherBehaviorsTable, ClassScoresTable}

  const AllColumns: set<AddedColumn> :=
    {StudentsStatus, BehaviorTypesScore, BehaviorsProcessResult, TeacherBehaviorsScoreItemId}

  /** The table an added column belongs to. */
  function ColumnTable(c: AddedColumn): TableName
  {
    match c
    case StudentsStatus => StudentsTable
    case BehaviorTypesScore => BehaviorTypesTable
    case BehaviorsProcessResult => BehaviorsTable
    case TeacherBehaviorsScoreItemId => TeacherBehaviorsTable
  }

  /** The default behavior types: name, category, description and score. */
  const BasicTypes: seq<(string, string, string, int)> := [
    ("迟到", "违纪", "上课迟到", -1),
    ("早退", "违纪", "未经许可提前离开", -1),
    ("打架", "违纪", "与他人发生肢体冲突", -3),
    ("帮助同学", "优秀", "主动帮助有困难的同学", 1),
    ("志愿服务", "优秀", "参与学校志愿服务活动", 2),
    ("获奖", "优秀", "在比赛或竞赛中获奖", 3)
  ]

  /** The default score items: name, category, score and description. */
  const BasicScoreItems: seq<(string, string, int, string)> := [
    ("课堂表现优秀", "加分", 2, "在课堂上积极参与，表现突出"),
    ("参与志愿服务", "加分", 3, "参与学校或社会志愿服务活动"),
    ("获得竞赛奖项", "加分", 5, "在学科竞赛中获得奖项"),
    ("违反课堂纪律", "减分", -2, "在课堂上扰乱秩序"),
    ("迟到早退", "减分", -1, "无故迟到或早退"),
    ("违反校规", "减分", -3, "违反学校规章制度")
  ]

  /** The rows the type seeding inserts, numbered from `first`. */
  function SeedTypes(first: int, n: nat): (r: seq<BehaviorType>)
    requires n <= |BasicTypes|
    ensures |r| == n
    ensures forall i :: 0 <= i < n ==>
      r[i] == BehaviorType(first + i, BasicTypes[i].0, BasicTypes[i].1, Some(BasicTypes[i].2), BasicTypes[i].3)
  {
    if n == 0 then [] else SeedTypes(first, n - 1) + [SeedType(first, n - 1)]
  }

  function SeedType(first: int, i: nat): BehaviorType
    requires i < |BasicTypes|
  {
    BehaviorType(first + i, BasicTypes[i].0, BasicTypes[i].1, Some(BasicTypes[i].2), BasicTypes[i].3)
  }

  function SeedItems(first: int, n: nat): (r: seq<ScoreItem>)
    requires n <= |BasicScoreItems|
    ensures |r| == n
    ensures forall i :: 0 <= i < n ==>
      r[i] == ScoreItem(first + i, BasicScoreItems[i].0, BasicScoreItems[i].1, BasicScoreItems[i].2, Some(BasicScoreItems[i].3))
  {
    if n == 0 then [] else SeedItems(first, n - 1) + [SeedItem(first, n - 1)]
  }

  function SeedItem(first: int, i: nat): ScoreItem
    requires i < |BasicScoreItems|
  {
    ScoreItem(first + i, BasicScoreItems[i].0, BasicScoreItems[i].1, BasicScoreItems[i].2, Some(BasicScoreItems[i].3))
  }

  /** Every seeded 违纪 type lowers the score and every seeded 优秀 type raises it; the
      seeded names are distinct. */
  lemma SeedTypesSigned(first: int)
    ensures forall t :: t in SeedTypes(first, |BasicTypes|) ==>
      (t.category == "违纪" || t.category == "优秀")
      && (t.category == "违纪" ==> t.score < 0) && (t.category == "优秀" ==> t.score > 0)
    ensures UniqueKeys(SeedTypes(first, |BasicTypes|), TypeNameOf)
  {
    var r := SeedTypes(first, |BasicTypes|);
    forall t | t in r ensures (t.category == "违纪" || t.category == "优秀")
      && (t.category == "违纪" ==> t.score < 0) && (t.category == "优秀" ==> t.score > 0) {
      var i :| 0 <= i < |r| && r[i] == t;
    }
    forall i, j | 0 <= i < j < |r| ensures TypeNameOf(r[i]) != TypeNameOf(r[j]) {
      assert r[i].name[0] != r[j].name[0];
    }
  }

  /** Every seeded 加分 item is positive and every 减分 item negative; all satisfy the CHECK. */
  lemma SeedItemsSigned(first: int)
    ensures forall t :: t in SeedItems(first, |BasicScoreItems|) ==>
      ValidScoreItem(t) && (t.category == "加分" ==> t.score > 0) && (t.category == "减分" ==> t.score < 0)
  {
    var r := SeedItems(first, |BasicScoreItems|);
    forall t | t in r ensures ValidScoreItem(t) && (t.category == "加分" ==> t.score > 0) && (t.category == "减分" ==> t.score < 0) {
      var i :| 0 <= i < |r| && r[i] == t;
    }
  }

  /** The account the seeding creates: role admin, status left at its default 1. */
  function AdminRow(id: int, passwordHash: string): User
  {
    User(id, "admin", passwordHash, "admin", 1, None)
  }

  predicate HasAdmin(users: seq<User>)
  {
    exists i :: 0 <= i < |users| && users[i].username == "admin"
  }

  /** What an initialised store looks like: every table and column exists, an admin
      account exists, and neither the types nor the score items are empty. */
  ghost predicate Initialized(db: Db)
    reads db
  {
    db.tables == AllTables && db.columns == AllColumns && HasAdmin(db.users)
    && db.behaviorTypes != [] && db.scoreItems != []
  }

  /** The added column a table's current definition carries. */
  function ColumnsOf(t: TableName): (r: set<AddedColumn>)
    ensures forall c :: c in r <==> ColumnTable(c) == t
  {
    match t
    case StudentsTable => {StudentsStatus}
    case BehaviorTypesTable => {BehaviorTypesScore}
    case BehaviorsTable => {BehaviorsProcessResult}
    case TeacherBehaviorsTable => {TeacherBehaviorsScoreItemId}
    case _ => {}
  }

  /** `CREATE TABLE IF NOT EXISTS` for every table, each followed by its add-if-missing
      column check. A table created now already has its column; an existing table
      gains the column only when it lacks it, so existing columns are never touched. */
  method CreateTables(db: Db)
    requires db.Valid()
    modifies db`tables, db`columns
    ensures db.Valid()
    ensures db.tables == AllTables && db.columns == AllColumns
    ensures old(db.tables) <= db.tables && old(db.columns) <= db.columns
  {
    var order := [UsersTable, OperationLogsTable, StudentsTable, BehaviorTypesTable, BehaviorsTable,
                  ScoreItemsTable, TeacherBehaviorsTable, ClassScoresTable];
    var i := 0;
    while i < |order|
      invariant 0 <= i <= |order|
      invariant old(db.tables) <= db.tables && old(db.columns) <= db.columns
      invariant forall k :: 0 <= k < i ==> order[k] in db.tables && ColumnsOf(order[k]) <= db.columns
    {
      var t := order[i];
      db.tables := db.tables + {t};
      db.columns := db.columns + ColumnsOf(t);
      i := i + 1;
    }
    forall t: TableName ensures t in db.tables && t in AllTables {
      assert t == order[0] || t == order[1] || t == order[2] || t == order[3] || t == order[4]
        || t == order[5] || t == order[6] || t == order[7];
    }
    forall c: AddedColumn ensures c in db.columns && c in AllColumns {
      assert c in ColumnsOf(order[2]) || c in ColumnsOf(order[3]) || c in ColumnsOf(order[4]) || c in ColumnsOf(order[6]);
    }
  }

  /** initDatabase. */
  method InitDatabase(db: Db, passwordHash: string)
    requires db.Valid()
    modifies db`tables, db`columns, db`users, db`nextUserId, db`behaviorTypes, db`nextTypeId
    modifies db`scoreItems, db`nextScoreItemId
    ensures db.Valid() && Initialized(db)
    ensures db.users == old(db.users) + (if HasAdmin(old(db.users)) then [] else [AdminRow(old(db.nextUserId), passwordHash)])
    ensures db.behaviorTypes == if old(db.behaviorTypes) == [] then SeedTypes(old(db.nextTypeId), |BasicTypes|) else old(db.behaviorTypes)
    ensures db.scoreItems == if old(db.scoreItems) == [] then SeedItems(old(db.nextScoreItemId), |BasicScoreItems|) else old(db.scoreItems)
    ensures old(Initialized(db)) ==>
      db.tables == old(db.tables) && db.columns == old(db.columns) && db.users == old(db.users)
      && db.behaviorTypes == old(db.behaviorTypes) && db.scoreItems == old(db.scoreItems)
  {
    CreateTables(db);
    SeedAll(db, passwordHash);
  }

  /** The three check-then-insert blocks: the admin account, the default types and the
      default score items, each only when missing. */
  method SeedAll(db: Db, passwordHash: string)
    requires db.Valid()
    modifies db`users, db`nextUserId, db`behaviorTypes, db`nextTypeId, db`scoreItems, db`nextScoreItemId
    ensures db.Valid() && HasAdmin(db.users) && db.behaviorTypes != [] && db.scoreItems != []
    ensures db.users == old(db.users) + (if HasAdmin(old(db.users)) then [] else [AdminRow(old(db.nextUserId), passwordHash)])
    ensures db.behaviorTypes == if old(db.behaviorTypes) == [] then SeedTypes(old(db.nextTypeId), |BasicTypes|) else old(db.behaviorTypes)
    ensures db.scoreItems == if old(db.scoreItems) == [] then SeedItems(old(db.nextScoreItemId), |BasicScoreItems|) else old(db.scoreItems)
  {
    SeedAdmin(db, passwordHash);
    ghost var users := db.users;
    assert HasAdmin(users);
    SeedBehaviorTypes(db);
    SeedScoreItems(db);
    assert db.users == users;
  }

  /** The admin account is inserted only when no user is called admin. */
  method SeedAdmin(db: Db, passwordHash: string)
    requires db.Valid()
    modifies db`users, db`nextUserId
    ensures db.Valid() && HasAdmin(db.users)
    ensures db.users == old(db.users) + (if HasAdmin(old(db.users)) then [] else [AdminRow(old(db.nextUserId), passwordHash)])
  {
    var found := Find(db.users, UsernameOf, "admin");
    if found.None? {
      var row := AdminRow(db.nextUserId, passwordHash);
      AppendFreshKey(db.users, UserKey, db.nextUserId, row);
      AppendFreshText(db.users, UsernameOf, row);
      db.users := db.users + [row];
      db.nextUserId := db.nextUserId + 1;
      assert db.users[|db.users| - 1].username == "admin";
    } else {
      assert db.users[found.value].username == "admin";
    }
  }

  /** The default types are inserted one by one, only into an empty table. */
  method SeedBehaviorTypes(db: Db)
    requires db.Valid()
    modifies db`behaviorTypes, db`nextTypeId
    ensures db.Valid() && db.behaviorTypes != []
    ensures db.behaviorTypes == if old(db.behaviorTypes) == [] then SeedTypes(old(db.nextTypeId), |BasicTypes|) else old(db.behaviorTypes)
  {
    if |db.behaviorTypes| != 0 {
      return;
    }
    var first := db.nextTypeId;
    var i := 0;
    while i < |BasicTypes|
      invariant 0 <= i <= |BasicTypes|
      invariant db.behaviorTypes == SeedTypes(first, i) && db.nextTypeId == first + i
    {
      db.behaviorTypes := db.behaviorTypes + [SeedType(first, i)];
      db.nextTypeId := db.nextTypeId + 1;
      i := i + 1;
    }
    SeedTypesSigned(first);
  }

  /** The default score items are inserted one by one, only into an empty table. */
  method SeedScoreItems(db: Db)
    requires db.Valid()
    modifies db`scoreItems, db`nextScoreItemId
    ensures db.Valid() && db.scoreItems != []
    ensures db.scoreItems == if old(db.scoreItems) == [] then SeedItems(old(db.nextScoreItemId), |BasicScoreItems|) else old(db.scoreItems)
  {
    if |db.scoreItems| != 0 {
      return;
    }
    var first := db.nextScoreItemId;
    var i := 0;
    while i < |BasicScoreItems|
      invariant 0 <= i <= |BasicScoreItems|
      invariant db.scoreItems == SeedItems(first, i) && db.nextScoreItemId == first + i
    {
      db.scoreItems := db.scoreItems + [SeedItem(first, i)];
      db.nextScoreItemId := db.nextScoreItemId + 1;
      i := i + 1;
    }
    SeedItemsSigned(first);
  }
}
