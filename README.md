# A verified model of SM, a school behavior-tracking application

SM keeps students, their behavior records and the behavior types those records name, a
catalogue of add and subtract score items, records about teachers, user accounts and an
operation log. An Express server stores all of it in SQLite, and a Vue front end talks to
it. This project models, in Dafny, the rules that server and front end apply.

- **Tables.** The SQLite tables are `seq` fields of one `Schema.Db` object, with one
  AUTOINCREMENT counter per table. `Db.Valid()` states the keys and the UNIQUE columns.
  The foreign keys are separate predicates, `Schema.BehaviorRefsOk` and
  `Schema.TeacherRefsOk`; the handlers that touch those tables state that they keep them.
- **Route handlers.** Each handler is a method over that object. It applies its guards
  (400, 403, 404, 409 and 500 outcomes) and then its change. Its `ensures` give, for each
  status, the inputs and old tables that lead to it; a 500 that a constraint causes (a
  taken number, a NOT NULL column, a foreign key) is derived from the tables. They also
  give the complete new state of the tables the handler may change. A database failure
  that the code cannot foresee (an I/O error, a busy or locked file) is an input in six
  members only: `Students.DeleteStudent` and `Students.BatchDelete` (`fault`),
  `GradeSummary.GetStatistics` and `TeacherScores.ScoreDetails` (`dbError`),
  `OperationLog.Logger.LogOperation` (`fails`) and `MigrateGrades.Migrate` (`failAt`).
  The other handlers' catch-all 500 for such a failure is listed under "Left out".
  Cascading and
  batch deletes, partial updates, the import loops, the grade migration and the
  conditional seeding of `initDatabase` are all covered this way.
- **Queries and pure helpers.** Queries are functions over sequences: filters, joins,
  GROUP BY counts and sorts. Lemmas relate them to declarative definitions. The pure
  helpers are functions with contracts:
  - grade validation and normalisation;
  - spreadsheet row validation;
  - the filter builders;
  - the dashboard colouring;
  - the violation-rate rule;
  - the error-to-status mapping;
  - the front end's navigation guard, user store and upload helpers.
- **Logger and user store.** The operation logger and the front end's user store update
  their own fields, so each is a class.

Some inputs come from outside the code and are passed in as parameters:
- the current year and the current time;
- bcrypt hashing and comparison;
- `JSON.parse` and `JSON.stringify`;
- `moment` timestamps;
- number formatting;
- database failures.

Dates are texts compared in SQLite's text order (`Common.TextLe`).

Modules follow the source files:

- `Schema`, `Database`: backend/src/models/database.js
- `Grades`, `Students`, `StudentsImport`: backend/src/routes/students.js
- `StudentController`: backend/controllers/studentController.js
- `MigrateGrades`: backend/src/scripts/migrateGrades.js
- `Filters`, `Behaviors`: backend/src/routes/behaviors.js
- `BehaviorTypes`: backend/src/routes/behaviorTypes.js
- `ScoreItems`: backend/src/routes/scoreItems.js
- `TeacherBehaviors`: backend/src/routes/teacherBehaviors.js
- `Users`: backend/src/routes/users.js
- `OperationLog`: backend/src/utils/logger.js
- `Statistics`, `Grouping`, `Analysis`: backend/src/routes/statistics.js
- `TeacherScores`: backend/src/controllers/teacherController.js
- `GradeSummary`: backend/controllers/statisticsController.js
- `ErrorHandling`: backend/src/middleware/errorHandler.js
- `Navigation`: frontend/src/router/index.js
- `UserSession`: frontend/src/stores/user.js
- `Upload`: backend/src/utils/upload.js

`Common`, `Tables` and `Sorting` hold shared definitions: `Option`, text order, decimals,
filtering by a predicate, keyed lookup and a stable insertion sort with its sortedness
and permutation lemmas.

## Model

| member | source | states |
|---|---|---|
| Schema.ParseStatus | backend/src/models/database.js:78 | the status CHECK read as a parser: a text is accepted iff it is one of the seven labels, and it maps back to that label |
| Schema.Set | backend/src/routes/students.js:221-240 | `SET c = ?` writes that one column and leaves every other column, the id and the status as they were |
| Schema.Db.Empty | backend/src/models/database.js:11-21 | a database file that does not exist yet holds no tables and no rows, and every AUTOINCREMENT counter starts at 1 |
| Grouping.GroupCount | backend/src/routes/statistics.js:72-76 | `GROUP BY … COUNT(*)`: each group counts the rows with its key and is non-empty, every key that occurs has a group, and no key has two |
| Grouping.GroupOfRow | backend/src/routes/statistics.js:72-76 | a key has a group iff some row carries it |
| Grouping.CountMatches | backend/src/routes/statistics.js:85 | the number of rows with key k is the multiplicity of k among the rows' keys |
| Statistics.BuildDashboardFilter | backend/src/routes/statistics.js:20-45 | the date conditions come first and the grade condition last, each only when its value is truthy; the filter admits a row iff it is within the dates and of the grade |
| Statistics.CategoryOf | backend/src/routes/statistics.js:89 | a behavior type name has a category iff a type with that name exists, and it is that type's category |
| Statistics.JoinAll | backend/src/routes/statistics.js:88-90 | a joined row is exactly a behavior whose student exists, with that student and its type's category (absent for a missing type) |
| Statistics.Fold | backend/src/routes/statistics.js:206-209 | the reduce gives a key for every grade row and no other |
| Statistics.LastRowWins | backend/src/routes/statistics.js:206-209 | with distinct grades, each key maps to its row's count |
| Statistics.GradeDistributionCounts | backend/src/routes/statistics.js:72-77 | a grade is a key of grade_distribution iff some student has it, and it maps to that grade's positive student count (the same keys feed the chart data at lines 206-209) |
| Statistics.Percent | backend/src/routes/statistics.js:87 | `x * 100.0 / n` is NULL iff n is 0, otherwise non-negative |
| Statistics.DistinctStudentsBounds | backend/src/routes/statistics.js:86 | `COUNT(DISTINCT b.student_id)` is at most the row count, and positive for a non-empty group |
| Statistics.CategoryStats | backend/src/routes/statistics.js:82-94 | one entry per category group, in group order, with the category's row count, its distinct students and the percentage over the student total |
| Statistics.CategoryStatsCover | backend/src/routes/statistics.js:82-94 | a category has an entry iff some filtered, typed row has that category |
| Statistics.CategoryStatBounds | backend/src/routes/statistics.js:85-92 | each entry's total is the number of rows of its category; its student count lies between 1 and that total; no category appears twice |
| Statistics.Shares | backend/src/routes/statistics.js:99-117 | one entry per (type, category) group, whose percentage divides by the count of all behaviors of that category, unfiltered |
| Statistics.TypeDistribution | backend/src/routes/statistics.js:99-120 | the entries are a permutation of the groups, ordered by category and then by descending count |
| Statistics.TypeShareCounts | backend/src/routes/statistics.js:103 | each entry's value is the positive number of filtered rows of its type |
| Statistics.TypeDistributionCover | backend/src/routes/statistics.js:113-117 | a (type, category) pair has an entry iff some filtered, typed row has it |
| Statistics.TypeDistributionDistinct | backend/src/routes/statistics.js:117 | no entry appears twice |
| Statistics.SharePercentDefined | backend/src/routes/statistics.js:104-112 | the percentage of a listed type is never NULL, because its category counts at least that type's behaviors |
| Statistics.IndexOf | backend/src/routes/statistics.js:139-140 | `indexOf` returns the first position of x, and -1 iff x is absent |
| Statistics.PaletteAt | backend/src/routes/statistics.js:139-140 | `colors[i % 6]` is undefined iff i is negative, because JavaScript's % keeps the sign; otherwise it is a palette colour |
| Statistics.ColourAll | backend/src/routes/statistics.js:134-142 | every entry keeps its name, category and value, gains the '%'-suffixed percentage and gets the colour of its position |
| Statistics.AtRank | backend/src/routes/statistics.js:139-140 | the k-th entry sits at its rank within its category's entries |
| Statistics.RankIsIndexOf | backend/src/routes/statistics.js:139-140 | with no repeated entries, indexOf within the category finds the entry at its rank |
| Statistics.ColourByRank | backend/src/routes/statistics.js:124-142 | a 违纪 entry takes the red palette colour of its rank mod 6, an 优秀 entry the green one, and an entry of any other category no colour |
| Statistics.RankGrows | backend/src/routes/statistics.js:139-140 | a later entry of the same category ranks strictly higher |
| Statistics.NearbyColoursDiffer | backend/src/routes/statistics.js:124-132 | within a coloured category, entries fewer than six ranks apart get different colours |
| Statistics.ClassRows | backend/src/routes/statistics.js:146-156 | one entry per (grade, class) group of violation rows, with its count and its distinct students |
| Statistics.RankedClasses | backend/src/routes/statistics.js:157 | the entries are a permutation of the class groups, ordered by descending count |
| Statistics.ClassRowCounts | backend/src/routes/statistics.js:150-151 | an entry's count is its class's number of violation rows; its student count lies between 1 and that count |
| Statistics.ClassRowsCover | backend/src/routes/statistics.js:152-156 | every class with a violation row has an entry |
| Statistics.ClassRanking | backend/src/routes/statistics.js:146-160 | at most 10 entries, all ranked entries, and no omitted class has more violations than a listed one |
| Statistics.NewestViolations | backend/src/routes/statistics.js:190-194 | the violation rows permuted newest first |
| Statistics.RecentViolations | backend/src/routes/statistics.js:182-197 | at most 5 violation rows, and no omitted row is newer than a shown one |
| Statistics.GetDashboard | backend/src/routes/statistics.js:8-237 | every field of the reply is the named summary of the same filtered rows; the student total is narrowed by grade only |
| Filters.AddCondition | backend/src/routes/behaviors.js:55-63 | one `if (x) { query += ' AND …'; params.push(v) }` block keeps conditions and values aligned, and the filter gains exactly that conjunct when x holds |
| Filters.DateOnlyUpperBound | backend/src/routes/behaviors.js:60-63 | a stored 'YYYY-MM-DD HH:MM:SS' timestamp on the bound day fails `date <= 'YYYY-MM-DD'` |
| Grades.NormalizeGrade | backend/src/routes/students.js:97-118 | accepted iff the grade is 高一/高二/高三, or a bare or 级-suffixed four-digit year within five years of the current year; a bare year gains 级; the rejection message distinguishes a bad format from a year out of range |
| Grades.CreateGrade | backend/src/routes/students.js:92-94 | an absent or empty grade is rejected with '年级不能为空' before any other check |
| Grades.NormalizeIdempotent | backend/src/routes/students.js:106-118 | a stored label passes validation again and is left unchanged |
| Grades.ImportStricterThanCreate | backend/src/routes/students.js:362-378 | every grade the spreadsheet import accepts, create and update store unchanged |
| Grades.BareYearOnlyOnCreate | backend/src/routes/students.js:365-368 | the bare year "2025" is refused by the import, and stored as "2025级" by create when it is in range |
| Grades.CohortLabel | backend/src/routes/students.js:98 | the label written for a four-digit year matches `^\d{4}级$`, and parseInt reads back that year |
| Database.SeedTypes | backend/src/models/database.js:216-230 | the seeded types are the six default rows in order, with consecutive ids from the next id |
| Database.SeedItems | backend/src/models/database.js:236-250 | the seeded score items are the six default rows in order, with consecutive ids |
| Database.SeedTypesSigned | backend/src/models/database.js:216-223 | every seeded 违纪 type has a negative score and every 优秀 type a positive one; the seeded names are distinct, so UNIQUE holds |
| Database.SeedItemsSigned | backend/src/models/database.js:236-243 | every seeded item satisfies the category CHECK; 加分 items are positive and 减分 items negative |
| Database.ColumnsOf | backend/src/models/database.js:82-98 | a table's current definition carries exactly the added columns that belong to it |
| Database.CreateTables | backend/src/models/database.js:28-211 | afterwards every table and every added column exists, and nothing that existed is removed |
| Database.InitDatabase | backend/src/models/database.js:23-255 | the store is initialised: admin added iff missing, types and items seeded iff their tables are empty; on an initialised store nothing changes |
| Database.SeedAll | backend/src/models/database.js:55-251 | the admin account, the default types and the default score items are each inserted exactly when missing, and afterwards none is missing |
| Database.SeedAdmin | backend/src/models/database.js:55-62 | the admin row, with role admin, is appended iff no user is named admin |
| Database.SeedBehaviorTypes | backend/src/models/database.js:214-231 | an empty type table receives the six defaults through the insert loop; a non-empty one is unchanged |
| Database.SeedScoreItems | backend/src/models/database.js:234-251 | an empty score-item table receives the six defaults; a non-empty one is unchanged |
| Students.FaultStatus | backend/src/routes/students.js:316-321 | a busy or locked database is answered 409 and every other store error 500 |
| Students.CreateStudent | backend/src/routes/students.js:84-164 | 400 with the grade check's message iff the grade is rejected; with an accepted grade, 500 iff the name or the student number is missing or the number is taken, so 201 in every other case; on 201 exactly one row is appended with the next id, the sent fields and the normalised grade, and the reply echoes the grade as sent; otherwise nothing changes |
| Students.GetStudent | backend/src/routes/students.js:71-81 | 404 iff no row has the id; otherwise 200 with the row of that id |
| Students.DefinedSound | backend/src/routes/students.js:221-226 | every pair the builder collects is a listed column that was sent, with the value sent |
| Students.ApplyDefined | backend/src/routes/students.js:220-240 | the UPDATE writes each listed and sent column with the sent value, leaves every other column as it was, and never changes id or status |
| Students.CollectUpdates | backend/src/routes/students.js:205-226 | the loop collects one column and one value per sent field, in the order of the field list |
| Students.UpdateStudent | backend/src/routes/students.js:167-262 | 404 iff the id is unknown; 400 iff the student exists and a truthy grade is rejected; 500 iff, past those, a student number is sent that another row holds; 200 in every other case, and then only that row changes, to the old row with the sent fields written and a truthy grade normalised (no field sent: unchanged); otherwise nothing changes |
| Students.UpdateKeepsValid | backend/src/routes/students.js:237-240 | replacing a row by one with the same id and a number no other row holds keeps ids and student numbers unique |
| Students.ListedNone | backend/src/routes/students.js:446-454 | the `id IN (…)` select finds no row iff no student's id is listed |
| Students.DeleteStudent | backend/src/routes/students.js:265-323 | 404 iff the id is unknown; a store error rolls both deletes back and gives 409 or 500; on 204 exactly that student and all of their behaviors are gone and the rest stays |
| Students.BatchDelete | backend/src/routes/students.js:433-513 | 400 for a missing or empty list; without a store error, 404 iff no listed id is a student and 200 iff some is; a store error after that check rolls back with its own status; on 200 the listed students and their behaviors are gone, and deletedCount is the positive number of student rows removed |
| StudentsImport.RowError | backend/src/routes/students.js:355-378 | a row passes iff its five required cells are filled and its grade is a level name or a cohort label within five years; otherwise the message names the row and the first rule it breaks |
| StudentsImport.ScanSheet | backend/src/routes/students.js:340-381 | every row the scan keeps is a data row that passes |
| StudentsImport.ScanFilters | backend/src/routes/students.js:340-381 | the scan keeps exactly the passing data rows in order and writes one message per failing data row |
| StudentsImport.ScanClean | backend/src/routes/students.js:384-389 | the insert phase starts iff no data row fails validation |
| StudentsImport.ReadSheet | backend/src/routes/students.js:336-381 | the validation loop computes the scan |
| StudentsImport.ImportAll | backend/src/routes/students.js:392-419 | rows are only appended; every accepted row is either inserted or reported, and the table grows by the number inserted |
| StudentsImport.ImportCovers | backend/src/routes/students.js:395-405 | after the insert phase every accepted student number is on file |
| StudentsImport.ImportKeepsValid | backend/src/routes/students.js:395-405 | the insert phase keeps ids and student numbers unique |
| StudentsImport.InsertRows | backend/src/routes/students.js:392-419 | the insert loop computes the insert phase: the new table, counter and messages |
| StudentsImport.ImportStudents | backend/src/routes/students.js:326-430 | 400 without a file; 400 with the row messages, and no change, when any row fails; a sheet with no failing row is always accepted, and then the accepted rows are inserted in order, total counts them and success is exactly the number of rows added |
| StudentController.MissingMessages | backend/controllers/studentController.js:103-108 | one message per required header, at most one each, and none iff every required cell is filled |
| StudentController.RecordErrors | backend/controllers/studentController.js:99-132 | a record draws at most one message per rule: five required cells, the student number, the grade and the status |
| StudentController.StatusLabels | backend/controllers/studentController.js:124-128 | a status text parses iff it is one of the seven labels the validator lists |
| StudentController.RecordErrorsEmpty | backend/controllers/studentController.js:99-132 | a record draws no message iff every required cell is filled, the number is alphanumeric, the grade matches the pattern and a given status is one of the seven labels |
| StudentController.ValidateRecord | backend/controllers/studentController.js:99-132 | the validator's loop and checks write exactly the record's messages, in order |
| StudentController.CheckAll | backend/controllers/studentController.js:59-68 | the number of records counted as valid never exceeds the number of records |
| StudentController.CheckAllClean | backend/controllers/studentController.js:59-79 | no message is written iff every record is counted valid iff every record is valid |
| StudentController.ImportStudents | backend/controllers/studentController.js:40-88 | 400 without a file or without records; with messages, 400 with all of them and the number of valid records; otherwise success counts every record |
| MigrateGrades.YearLabelCohort | backend/src/scripts/migrateGrades.js:18-32 | for a four-digit year, `${year}级` is a cohort label naming that year |
| MigrateGrades.NewGrade | backend/src/scripts/migrateGrades.js:16-33 | a student is skipped iff the grade is already a cohort label |
| MigrateGrades.NewGradeYears | backend/src/scripts/migrateGrades.js:16-33 | 高一 becomes the cohort of the year after next, 高二 of next year, 高三 and any unrecognised grade of this year, and every new grade is a cohort label |
| MigrateGrades.MigrateAll | backend/src/scripts/migrateGrades.js:36-39 | the migration keeps every row and writes only the grade column |
| MigrateGrades.MigrateAllCohort | backend/src/scripts/migrateGrades.js:14-40 | after a committed migration every grade is a cohort label |
| MigrateGrades.MigrateIdempotent | backend/src/scripts/migrateGrades.js:26-30 | running the migration again, in any year, changes nothing |
| MigrateGrades.GradeOnlyKeepsOk | backend/src/scripts/migrateGrades.js:36-39 | rewriting only grades keeps ids and student numbers unique |
| MigrateGrades.Migrate | backend/src/scripts/migrateGrades.js:3-54 | the script exits with 0 iff no update fails, and the table is then the migrated table; on a failure every update is rolled back and the exit status is 1 |
| Behaviors.StatsCategory | backend/src/routes/behaviors.js:47-53 | 'violation' selects 违纪 and 'excellent' 优秀, both directions; any other `type` selects no category |
| Behaviors.BuildStatsFilter | backend/src/routes/behaviors.js:39-63 | the built conditions admit a joined row iff it has the selected category and lies within the given start and end dates |
| Behaviors.JoinTypes | backend/src/routes/behaviors.js:41-42 | the join of behaviors with their types has exactly one row for each behavior whose type exists |
| Behaviors.TypeFact | backend/src/routes/behaviors.js:41-42 | a behavior gives a joined row iff its type exists |
| Behaviors.JoinedFacts | backend/src/routes/behaviors.js:41-42 | a row is in the join iff it is the joined row of some behavior |
| Behaviors.Stats | backend/src/routes/behaviors.js:35-70 | the count is the number of type-joined behaviors that satisfy the filter, stated without the builder |
| Behaviors.StatsCategoriesBounded | backend/src/routes/behaviors.js:47-63 | over the same dates, the violation count plus the excellent count is at most the count without a type |
| Behaviors.JoinStudents | backend/src/routes/behaviors.js:77-79 | a listed row is exactly a behavior whose student exists, carrying that student's name, grade and class |
| Behaviors.BuildListFilter | backend/src/routes/behaviors.js:76-99 | the built conditions admit a row iff it matches each given student id, type, start date and end date |
| Behaviors.ListBehaviors | backend/src/routes/behaviors.js:73-107 | the reply is a permutation of the matching joined rows, newest first |
| Behaviors.GetBehavior | backend/src/routes/behaviors.js:110-127 | 200 iff a joined row with that id exists (a record whose student is gone is a 404), and then that row is returned |
| Behaviors.ImageUrl | backend/src/routes/behaviors.js:133 | an image URL exists iff a file was uploaded |
| Behaviors.CreateBehavior | backend/src/routes/behaviors.js:130-165 | an unknown type is a 400 '无效的行为类型' before the student is checked; then an unknown student is a 400 '无效的学生ID'; neither inserts; 201 iff both exist, and then one row is appended with the next id, the clock's date and the image URL, and its joined row is returned |
| Behaviors.CollectAssignments | backend/src/routes/behaviors.js:173-192 | the loop over the fields builds exactly the assignments for the defined student id, type and description, in that order, then the image if a file came |
| Behaviors.UpdateWritesSent | backend/src/routes/behaviors.js:168-199 | the update writes exactly the sent fields and keeps the id, the date, the process result and, without a file, the stored image |
| Behaviors.ApplyKeepsRefs | backend/src/routes/behaviors.js:196-199 | assignments that pass the foreign-key check keep a row's student and type existing |
| Behaviors.UpdateBehavior | backend/src/routes/behaviors.js:168-212 | an empty SET is a 500; an unknown id changes nothing and replies 200 with no row; a missing new student or type is a 500; otherwise only row k changes, to the assignments applied |
| Behaviors.ApplyKeepsId | backend/src/routes/behaviors.js:196-199 | the update never changes the row's id |
| Behaviors.DeleteBehavior | backend/src/routes/behaviors.js:215-222 | 204 always; exactly the rows with that id are removed, so the table shrinks by one iff the id existed |
| BehaviorTypes.ListTypes | backend/src/routes/behaviorTypes.js:9-16 | the reply is a permutation of the table, ordered by category and then by name |
| BehaviorTypes.GetType | backend/src/routes/behaviorTypes.js:19-29 | 404 exactly when no type has the id; otherwise 200 with the table's row for that id |
| BehaviorTypes.CreateType | backend/src/routes/behaviorTypes.js:32-54 | 400 with '名称和类别不能为空' iff name or category is falsy; 500 (UNIQUE) iff the name is taken; otherwise the row is appended with the next id and score 0; behaviors' references stay valid |
| BehaviorTypes.UpdateType | backend/src/routes/behaviorTypes.js:57-75 | 400 iff name or category is falsy; an unknown id changes nothing and replies with no row; 500 iff another type has the name or a referenced type is renamed; otherwise name, category and description are replaced and the score kept |
| BehaviorTypes.RenameKeepsRefs | backend/src/routes/behaviorTypes.js:65-68 | replacing a type keeps every behavior's type existing unless a referenced type is renamed |
| BehaviorTypes.DeleteType | backend/src/routes/behaviorTypes.js:78-85 | 204 also for an unknown id, removing exactly the rows with that id; 500 with no change iff behaviors reference the type; references stay valid |
| ScoreItems.ListItems | backend/src/routes/scoreItems.js:8-11 | every item is listed exactly once, ordered by category descending (加分 before 减分, since 减 sorts below 加 in BINARY order) and then by score descending |
| ScoreItems.AddBeforeSubtract | backend/src/routes/scoreItems.js:10 | `ORDER BY category DESC` puts every 加分 item strictly before every 减分 item |
| ScoreItems.ItemError | backend/src/routes/scoreItems.js:30-36 | the guards pass iff name and category are non-empty, a score is sent (0 and `null` included, as the test is `score === undefined`) and the category is 加分 or 减分; the first message is reported for a missing field; a passing item with a numeric score satisfies the table's constraints |
| ScoreItems.SignNotChecked | backend/src/routes/scoreItems.js:30-36 | a negative 加分 score, a positive 减分 score and a zero score all pass the guards |
| ScoreItems.CreateItem | backend/src/routes/scoreItems.js:27-68 | 400 with the guard's message iff a guard fails; 500 '添加加减分项失败' iff the guards pass with a `null` score, which NOT NULL refuses; neither changes anything; otherwise exactly one item with the next id and the sent fields is appended; references from teacher behaviors stay valid |
| ScoreItems.UpdateItem | backend/src/routes/scoreItems.js:71-120 | 400 iff a guard fails; then 404 iff no item has the id; 500 '更新加减分项失败' iff the item exists and the score is `null`, which NOT NULL refuses; on 200 exactly that item is overwritten with the sent fields; otherwise nothing changes |
| ScoreItems.DeleteItem | backend/src/routes/scoreItems.js:123-157 | 404 iff no item has the id; 500 iff a teacher behavior still names it (the foreign key), with no change; on 200 exactly that item is removed and '删除成功' is returned |
| TeacherBehaviors.ListTeacherBehaviors | backend/src/routes/teacherBehaviors.js:8-11 | every record is listed exactly once, newest date first |
| TeacherBehaviors.StoredScore | backend/src/routes/teacherBehaviors.js:38 | `score \|\| 0`: an absent score is stored as 0 and a sent one as sent (line 83 does the same on update) |
| TeacherBehaviors.RowOf | backend/src/routes/teacherBehaviors.js:35-39 | the stored row carries the sent name, type, description, date and result, the stored score and the given score item |
| TeacherBehaviors.CreateTeacherBehavior | backend/src/routes/teacherBehaviors.js:27-65 | 400 iff teacher name, type, description or date is empty, with no change; otherwise exactly one row with the next id and no score item is appended |
| TeacherBehaviors.UpdateTeacherBehavior | backend/src/routes/teacherBehaviors.js:68-114 | 400 iff a required field is empty; then 404 iff no row has the id; on 200 exactly that row is overwritten, keeping its key and score item; otherwise nothing changes |
| TeacherBehaviors.DeleteTeacherBehavior | backend/src/routes/teacherBehaviors.js:117-151 | 404 iff no row has the id, with no change; otherwise exactly that row is removed and '删除成功' is returned |
| Users.StatusText | backend/src/routes/users.js:19 | status 0 reads 'inactive' and every other status 'active' (the same mapping at line 104) |
| Users.StatusValue | backend/src/routes/users.js:128 | 'active' is stored as 1 and any other requested status as 0 |
| Users.Views | backend/src/routes/users.js:14-34 | one view per user, in order, without the password, with the status as text and the last login in ISO form when present |
| Users.ListUsers | backend/src/routes/users.js:10-42 | every user's view is listed exactly once, ordered by username, each with status 'inactive' or 'active' |
| Users.CreateUser | backend/src/routes/users.js:45-73 | 400 '用户名已存在' iff the username is on file; else 500 iff password, username or role is missing; on 201 exactly one active user with the hashed password is appended and reported without it; otherwise nothing changes |
| Users.UpdateUser | backend/src/routes/users.js:76-109 | 404 iff the id is unknown; 400 iff the new username belongs to another user; 500 iff, past those, the username or the role is missing (the NOT NULL column refuses it); 200 otherwise, and then only that user's username and role change and the reply carries the stored status; otherwise nothing changes; usernames stay unique |
| Users.SetStatus | backend/src/routes/users.js:112-143 | 404 iff the id is unknown; 403 iff the user is an admin and 'inactive' is requested; otherwise only that user's status becomes 1 for 'active' and 0 for anything else |
| Users.DeleteUser | backend/src/routes/users.js:146-166 | 404 iff the id is unknown; 403 iff the user is an admin; on 204 exactly that user is removed; admin rows are always kept |
| Users.ChangePassword | backend/src/routes/users.js:169-222 | 404 iff the signed-in user is gone; 400 iff the old password does not match; 500 iff the old password is missing, or it matches and the new one is missing; 200 otherwise, and then only that user's password changes, to the hash of the new one |
| OperationLog.OrDefault | backend/src/utils/logger.js:46-47 | an omitted status or details field takes its default ('success', the JSON text of `{}`), a given one is kept |
| OperationLog.Window | backend/src/utils/logger.js:119-120 | `LIMIT n OFFSET o` returns the consecutive rows from o on, at most n of them, and exactly n (or all that remain) when there are enough |
| OperationLog.EveryRowOnItsPage | backend/src/utils/logger.js:119-120 | with a positive page size every row appears on the page its position gives, at its offset within that page |
| OperationLog.ParsedDetails | backend/src/utils/logger.js:128 | empty details read back as `{}` |
| OperationLog.Newest | backend/src/utils/logger.js:96-119 | the matching entries, each once, newest timestamp first |
| OperationLog.WithParsed | backend/src/utils/logger.js:126-129 | the page keeps every entry in order and replaces only its details by their parsed form |
| OperationLog.Logger.constructor | backend/src/utils/logger.js:167 | a new logger has the users on file and no entries |
| OperationLog.Logger.LogOperation | backend/src/utils/logger.js:40-83 | nothing is stored iff the username is missing or not on file (undefined) or the insert fails (null); otherwise exactly one entry with the next id, the defaults applied and the current time is appended; ids stay unique and every entry names a user on file |
| OperationLog.Logger.GetOperationLogs | backend/src/utils/logger.js:86-141 | total counts every matching entry; the logs are the page of the matching entries newest first, at most pageSize of them and never more than total, with their details parsed; page and pageSize default to 1 and 10 and are echoed as used |
| OperationLog.PageNumber | backend/src/utils/logger.js:87-88 | the page number is the one asked for, or 1 when none is |
| OperationLog.PageSize | backend/src/utils/logger.js:87-89 | the page size is the one asked for, or 10 when none is |
| OperationLog.PageOf | backend/src/utils/logger.js:119-124 | the page holds at most pageSize entries and never more than match |
| OperationLog.DefaultPageIsNewestTen | backend/src/utils/logger.js:86-124 | a query that names no page gets the ten newest matching entries, or all of them when fewer match |
| OperationLog.Logger.DeleteOperationLogs | backend/src/utils/logger.js:144-164 | a missing or empty list deletes nothing and reports 0; otherwise exactly the listed entries go and deletedCount is how many did |
| Analysis.Rate | backend/src/routes/statistics.js:444 | `COALESCE(v * 100.0 / NULLIF(t, 0), 0)` is 0 without students and otherwise a percentage in 0..100, equal to 100 iff every student counts and 0 iff none does (the same expression at lines 482-483) |
| Analysis.GradeRank | backend/src/routes/statistics.js:446-452 | 高一, 高二 and 高三 rank 1 to 3, and every other grade ranks 4 |
| Analysis.GradeRows | backend/src/routes/statistics.js:428-438 | one row per grade group of the students in scope, with that grade's student count, its violators and their rate |
| Analysis.GradeViolationRates | backend/src/routes/statistics.js:428-453 | the rows are a permutation of the grade groups, 高一, 高二 and 高三 first and every other grade after them |
| Analysis.GradeRateBounds | backend/src/routes/statistics.js:431-444 | each row counts the positive number of students of its grade in scope; its violators are at most that many; the rate is their share in 0..100; with a grade requested, only that grade is listed |
| Analysis.GradeRatesCover | backend/src/routes/statistics.js:434-438 | a grade is listed iff some student in scope has it |
| Analysis.GradeTotalsAddUp | backend/src/routes/statistics.js:480 | the per-grade student counts add up to the overall student count (the per-grade counts come from line 432) |
| Analysis.TotalStats | backend/src/routes/statistics.js:478-488 | the overall figures count the students in scope; the violators are at most that many and at least one when some student in scope has a violation in the dates; the rate lies in 0..100 |
| Analysis.StudentStats | backend/src/routes/statistics.js:328-361 | no reply iff the student has no joined row in the range; otherwise the (type, count) rows of that student's types, sorted by category (NULL first) and then by count from high to low, as a permutation of the grouped counts |
| Analysis.StudentTypeCount | backend/src/routes/statistics.js:341-355 | every count in the reply is the number of the student's behaviors in the dates whose type is that row's type |
| Analysis.CategoryFirstPreorder | backend/src/routes/statistics.js:356 | ordering by category with NULL first is a total preorder, so the ORDER BY is well defined |
| Analysis.WrappedRowsEmpty | backend/src/routes/statistics.js:346-353 | no behavior row survives the date conditions iff none of the student's behaviors lies in the dates |
| Analysis.StudentNotFound | backend/src/routes/statistics.js:339-360 | the reply is 404 iff the student does not exist, or a date is given and none of their behaviors lies inside the dates |
| Analysis.NoBehaviorsOneEmptyGroup | backend/src/routes/statistics.js:339-355 | a student without behaviors, asked about without dates, gets one entry with no type and count 0 |
| GradeSummary.Summarise | backend/controllers/statisticsController.js:18-30 | the loop leaves exactly the three grade keys, each with the count of its last row or 0, and a total that sums the rows of known grades |
| GradeSummary.LastCountAbsent | backend/controllers/statisticsController.js:18-22 | a grade without a row keeps the initial 0 |
| GradeSummary.TotalIsSumOfGrades | backend/controllers/statisticsController.js:24-30 | with one row per grade, the total is the sum of the three grade values |
| GradeSummary.LastCountIsCount | backend/controllers/statisticsController.js:8-29 | over the grouped rows, the value the loop leaves for a grade is that grade's number of rows |
| GradeSummary.KnownGradeFilter | backend/controllers/statisticsController.js:11 | for one of the three grades, the `grade IN (…)` filter drops none of its students |
| GradeSummary.CountOrZero | backend/controllers/statisticsController.js:67-68 | a missing count row reads as 0, and a present one as its count |
| GradeSummary.GetStatistics | backend/controllers/statisticsController.js:5-79 | a failing query gives the 500 reply with its fixed message and the error text, and only then; otherwise the distribution has exactly the three grades, each mapped to its number of students, the total is their sum, and the month counts come from the count rows or are 0 |
| GradeSummary.GradeCount | backend/controllers/statisticsController.js:8-30 | the loop leaves each of the three grades with its number of students |
| TeacherScores.StudentDetails | backend/src/controllers/teacherController.js:32-49 | an entry is exactly a behavior whose student has this head teacher, whose type exists and whose date is within the month, with the type's score as the score change |
| TeacherScores.TeacherDetails | backend/src/controllers/teacherController.js:53-68 | an entry is exactly one of the teacher's own behaviors within the month, with '' for grade and class and the teacher's name in the name column |
| TeacherScores.LaterPreorder | backend/src/controllers/teacherController.js:72-73 | the newest-first comparison is a total preorder, so the sort is well defined |
| TeacherScores.ScoreDetails | backend/src/controllers/teacherController.js:16-88 | 400 iff teacher_name or month is missing; a failed query gives 500 with '数据库查询失败: ' + its message; otherwise the reply is a permutation of both queries' rows, newest first |
| TeacherScores.DetailsAreBothQueries | backend/src/controllers/teacherController.js:72 | a row is in the reply iff it comes from the student query or from the teacher query |
| ErrorHandling.HandleError | backend/src/middleware/errorHandler.js:6-21 | the intended mapping: 400 with the error's message iff ValidationError, 401 '未授权访问' iff UnauthorizedError, otherwise 500 '服务器内部错误'; the error detail is present iff the status is 500 and NODE_ENV is development |
| ErrorHandling.CallLogger | backend/src/middleware/errorHandler.js:4 | calling a logger method succeeds iff the logger defines it |
| ErrorHandling.FinalHandler | backend/src/middleware/errorHandler.js:4 | an error thrown inside the last error handler is answered with 500 |
| ErrorHandling.AsWrittenAlwaysThrows | backend/src/middleware/errorHandler.js:3-4 | as written, the handler always throws before its branches, so every error is served as 500 without the handler's message |
| ErrorHandling.ValidationErrorServed500 | backend/src/middleware/errorHandler.js:6-10 | a validation error, intended to be a 400, is served as 500 |
| Navigation.Resolve | frontend/src/router/index.js:4-86 | exactly '/' resolves to the redirect record, which redirects to /dashboard; any other path matches the login, layout or administrator records by its route key, so case and one trailing slash do not matter |
| Navigation.RouteKey | frontend/src/router/index.js:83-86 | the key a path is matched by is the path without one trailing slash, folded to lower case |
| Navigation.TrailingSlashNeedsLogin | frontend/src/router/index.js:14-81 | a page path with one trailing slash resolves like the page, so without a token it leads to the login page, remembering the path as written |
| Navigation.CapitalsNeedLogin | frontend/src/router/index.js:14-81 | a page path in capitals resolves like the page, so without a token it leads to the login page, remembering the path as written |
| Navigation.PagesAreLower | frontend/src/router/index.js:14-81 | every page path is in lower case and does not end in a slash, so each is its own route key |
| Navigation.Guard | frontend/src/router/index.js:89-111 | ToLogin, carrying the full path, iff a matched record needs auth and no token is stored; Redirect to /dashboard iff a token is stored and either an admin page is reached by a non-admin or /login is reached; otherwise Proceed |
| Navigation.Navigate | frontend/src/router/index.js:5-8 | a navigation to '/' goes to /dashboard, and any other path stays |
| Navigation.LoginFirst | frontend/src/router/index.js:93-98 | without a token every page behind the layout, and the root, sends the visitor to log in and come back to the page |
| Navigation.AdminPagesNeedAdmin | frontend/src/router/index.js:99-100 | a logged-in non-administrator is sent from the system account and log pages to /dashboard |
| Navigation.AdminReachesAll | frontend/src/router/index.js:101-102 | an administrator with a token reaches every page behind the layout |
| Navigation.LoggedInSkipsLogin | frontend/src/router/index.js:105-106 | with a token the login page sends the user to /dashboard |
| UserSession.SafeJsonParse | frontend/src/stores/user.js:6-14 | an absent, empty or unparsable string gives the default; otherwise the parsed value |
| UserSession.Get | frontend/src/stores/user.js:18-20 | `getItem` gives a value iff the key is stored, and then the stored value |
| UserSession.Stored | frontend/src/stores/user.js:52 | `setItem` stores a present value as is and undefined as 'undefined' |
| UserSession.Restore | frontend/src/stores/user.js:17-21 | the initial state reads the token and role from storage, '' when absent or empty, and the user record through the safe parse |
| UserSession.LoginError | frontend/src/stores/user.js:40-66 | a failed login throws the format error for an answered but incomplete reply, and the request's own error for a rejected one |
| UserSession.UserStore.constructor | frontend/src/stores/user.js:17-21 | a new store holds the state restored from storage |
| UserSession.UserStore.Login | frontend/src/stores/user.js:30-68 | succeeds iff the reply has a token and a user record; then it sets token, record and role = record.role and mirrors all three to storage; otherwise it clears the three fields and keys and throws |
| UserSession.UserStore.VerifyToken | frontend/src/stores/user.js:70-87 | true iff the answer is valid and carries a record; then it refreshes record and role in state and storage and keeps the token; otherwise it logs out |
| UserSession.UserStore.Logout | frontend/src/stores/user.js:89-97 | clears the three fields and their storage keys and pushes /login |
| UserSession.UserStore.ClearSession | frontend/src/stores/user.js:58-63 | the shared reset: logged-out state, the three keys removed, nothing pushed (`logout` repeats it at lines 90-95) |
| UserSession.LoginSurvivesReload | frontend/src/stores/user.js:17-52 | after a login with a role, a page reload restores the same token, record and role |
| UserSession.MissingRoleAfterReload | frontend/src/stores/user.js:48-52 | a record without a role leaves the role undefined, and after a reload the text 'undefined'; neither is admin |
| UserSession.LogoutSurvivesReload | frontend/src/stores/user.js:89-95 | after a logout or a failed login, a reload finds no session (the initial state is read at lines 17-21) |
| UserSession.LoginGetters | frontend/src/stores/user.js:23-48 | after a login the user is logged in, is admin iff the record's role is 'admin', and has the record's username |
| UserSession.LoggedOutGetters | frontend/src/stores/user.js:23-27 | the logged-out state is neither logged in nor admin and has no username |
| Upload.UploadHeaders | backend/src/utils/upload.js:7-12 | the Authorization header is present iff a token is stored, with the value 'Bearer ' + token; there is no other header |
| Upload.UnderFiveMegabytesIsBytes | backend/src/utils/upload.js:21 | `size / 1024 / 1024 < 5` holds iff size < 5·1024·1024 bytes |
| Upload.BeforeUpload | backend/src/utils/upload.js:19-30 | a non-image is refused with the image message whatever its size; an image is refused with the size message iff it is at least 5 MiB; otherwise it is accepted |
| Upload.UploadConfig | backend/src/utils/upload.js:37-43 | the action is '/api/upload?type=' + type, with 'general' when the type is omitted; the headers are the upload headers; the file list is hidden |
| Upload.ConfigAuthorized | backend/src/utils/upload.js:40 | whatever the type, the upload request is authorized iff a token is stored |
| Upload.SizeBoundary | backend/src/utils/upload.js:21-28 | an image of exactly 5 MiB is refused, and one byte less is accepted |

## Left out

- Console output, and the best-effort `logger.logOperation` calls inside the route handlers. The logger opens its own database file, and its failures never reach a reply, so it is modelled once, as `OperationLog.Logger`.
- Rounding: `ROUND(…, 2)` and the float formatting of percentages. Rates and shares are exact rationals (`real`), and scores are integers.
- The order SQLite gives rows with equal sort keys, and the order of GROUP BY groups. The contracts state sortedness and permutation only; the stable insertion sort picks one admissible order.
- `Promise.all` and async sequencing. Every handler runs its queries one after another.
- JWT, bcrypt, multer, ExcelJS/xlsx, `moment` and `Date`. They are parameters (hash, compare, current year, current time, timestamps) or are left out (file storage, the photo and image upload filters, reading a workbook from disk, deleting the temporary file).
- `isValidDate` and the grade check of the dashboard filter. They only write console warnings, so they are not modelled beyond "the condition is added all the same".
- The dashboard's trend series (`DATE(b.date)` grouping) and the monthly trend of `/analysis` (`strftime('%Y-%m', …)`). Both depend on SQLite date functions and on `date('now')`.
- The statistics routes `/behavior-types`, `/class` and `/summary`. They are plain filtered counts or listings that the core does not name.
- `GET /api/students` (a listing ordered by grade, class and name) and `GET /api/students/template` (a file download).
- GradeSummary.GetStatistics: the month's violation and excellent counts are inputs, and so is whether a query fails (`dbError`). The month queries join on `b.behavior_type_id`, a column the behaviors table does not have, so on the schema `initDatabase` creates they fail and the reply is the 500 one; the model does not derive that failure from the schema. Their month bounds come from the clock.
- Analysis.StudentStats: the `s.name`, `s.grade` and `s.class` columns, the same on every row, are dropped; each row keeps the type and its count. The order of rows with the same category and count is SQLite's, so the contract gives sortedness and permutation only. When the reply is 404 is stated by `StudentNotFound`, and the single empty group by `NoBehaviorsOneEmptyGroup`.
- Analysis.TotalStats: the violator count is bounded, not given exactly. It is positive when some student in scope has a violation.
- OperationLog.ParsedDetails: `JSON.parse` is a parameter, and a parse that throws, which `getOperationLogs` rethrows, is not modelled.
- OperationLog.Logger.GetOperationLogs: the page number and size are integers or absent. A query string that is not a number, which the route turns into `NaN`, is not modelled.
- OperationLog.Logger.LogOperation: the stored timestamp (the database default) and the returned one (`new Date().toISOString()`) are both the parameter `now`.
- UserSession.SafeJsonParse: a stored `null` or other non-object JSON is not distinguished from a parsed user record. `router.push` is modelled as the list of pushed paths.
- Upload.UploadConfig: the `beforeUpload` field of the configuration is the function `Upload.BeforeUpload`, not a data field of `Config`.
- Navigation.Resolve: the route components and their lazy loading are left out. Only the paths and their `meta` flags are kept. Case folding covers ASCII letters only, percent-encoded paths are not decoded, and a path with more than one trailing slash matches nothing. The guard compares `to.path` with '/login' exactly, as the source does.
- Foreign keys are treated as enforced, as `PRAGMA foreign_keys = ON` asks. A change that would break one fails with 500.
- No route compares a score's sign with its category, neither for behavior types nor for score items (`ScoreItems.SignNotChecked`).
- No handler writes the `class_scores` table; `initDatabase` only creates it.
- Database failures that no input of the model causes (an I/O error, a busy or locked database file) are not modelled in these handlers, whose `catch` answers 500 for them: `BehaviorTypes.ListTypes`, `GetType`, `CreateType`, `UpdateType` and `DeleteType`; `Behaviors.Stats`, `ListBehaviors`, `GetBehavior`, `CreateBehavior`, `UpdateBehavior` and `DeleteBehavior`; `ScoreItems.ListItems`, `CreateItem`, `UpdateItem` and `DeleteItem`; `Students.CreateStudent`, `GetStudent` and `UpdateStudent`; `StudentsImport.ImportStudents`; `StudentController.ImportStudents`; `TeacherBehaviors.ListTeacherBehaviors`, `CreateTeacherBehavior`, `UpdateTeacherBehavior` and `DeleteTeacherBehavior`; `Users.ListUsers`, `CreateUser`, `UpdateUser`, `SetStatus`, `DeleteUser` and `ChangePassword`; `Statistics.GetDashboard` and the `Analysis` queries; and `OperationLog.Logger.GetOperationLogs` and `DeleteOperationLogs`, which rethrow. Their contracts describe a database that answers every statement.
- StudentsImport.SheetRow: every cell is text or empty. ExcelJS gives a number for a numeric cell, and a cell holding 0 is falsy in the required-field check; neither the numeric value nor that rejection is modelled.
- StudentController.Record: every cell is text. `xlsx.utils.sheet_to_json` gives a number for a numeric cell, and a cell holding 0 fails the `!row[field]` check, so the source reports that field as empty (for a 班级 cell of 0, '第N行：班级不能为空'); the model reads the text "0" and reports nothing. Numeric cells are not modelled.
- Students.UpdateStudent: a sent field is a text, so a JSON `null` is not modelled. The source writes every field that is not `undefined`, so `null` reaches SQL as NULL. For `name`, `student_id` and `grade` (a null grade is falsy and skips the grade check) the NOT NULL column refuses it and the reply is 500; for the nullable columns (`class`, `teacher`, and the rest) the column is cleared. The contract promises neither.
- Behaviors.UpdateBehavior: `student_id`, `behavior_type` and `description` are present or absent, so a JSON `null` is not modelled. The source writes it as NULL: a null `student_id` or `behavior_type` breaks NOT NULL and the reply is 500, and a null `description` clears the column. The contract promises neither.
- Common.TextLe: every date bound is compared with the column as text, which assumes the bound is not a number (the date pickers send 'YYYY-MM-DD' texts). The `date` and `timestamp` columns are declared TIMESTAMP, which has NUMERIC affinity, so SQLite turns a bound that reads as a number (`2025`, `20250131`) into an INTEGER, and an INTEGER sorts below every text: `>= ?` then admits every row and `<= ?` none. This applies to `Behaviors.BuildStatsFilter`, `Behaviors.BuildListFilter`, `Statistics.BuildDashboardFilter`, the `Analysis` date conditions and `OperationLog.LogMatch`; none models the conversion. The `TeacherScores` month bounds are formatted texts and are not affected.
- The authentication routes and middleware, the log-file routes, the upload route, Excel templates, mock and test data generators, the duplicate teacher controller and the old wiring in backend/app.js and backend/routes/studentRoutes.js. None of these is part of this model.

## Findings

| source | as written | input that shows it | evidently intended | confidence | as-written member | corrected member |
|---|---|---|---|---|---|---|
| backend/src/middleware/errorHandler.js:4 | the handler first calls `logger.error`, which the imported logger does not define, so it throws a TypeError and Express answers every error with a bare 500 | an error named `ValidationError` with message '学号不能为空' | 400 with the message for validation errors, 401 '未授权访问' for authorization errors, 500 '服务器内部错误' otherwise | not executed | `ErrorHandling.AsWrittenAlwaysThrows` | `ErrorHandling.HandleError` |
