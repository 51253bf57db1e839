/** The operation log. The logger opens its own database file, so it is a class of its
    own: the usernames on file there (the log's foreign key points at them), the log
    rows and their AUTOINCREMENT counter. The insert's timestamp is the database clock,
    passed in as `now`. A failing insert is the parameter `fails` of `LogOperation`;
    the failing queries that `getOperationLogs` and `deleteOperationLogs` rethrow are
    not modelled. */
module OperationLog {
  import opened Common
  import opened Tables
  import opened Sorting
  import opened Filters

  datatype LogEntry = LogEntry(
    id: int, kind: string, module_: string, description: Option<string>, username: string,
    status: string, details: string, timestamp: string)

  function LogKey(e: LogEntry): int { e.id }
  function LogTime(e: LogEntry): string { e.timestamp }

  /** What a caller passes; `details` is the JSON text of the details object. */
  datatype Operation = Operation(
    kind: Option<string>, module_: Option<string>, description: Option<string>, username: Option<string>,
    status: Option<string>, details: Option<string>)

  /** The three outcomes of logOperation: no such user (undefined), a swallowed failure
      (null), or the stored entry. */
  datatype LogResult = NoUser | Failed | Logged(entry: LogEntry)

  /** A destructuring default: an omitted field takes `d`, a given one is kept. */
  function OrDefault(v: Option<string>, d: string): (r: string)
    ensures v.None? ==> r == d
    ensures v.Some? ==> r == v.value
  {
    if v.Some? then v.value else d
  }

  /** The defaults of logOperation: status 'success', details the JSON text of `{}`. */
  const DefaultStatus: string := "success"
  const DefaultDetails: string := "{}"

  /** The filters of getOperationLogs, each applied only when given, and the page
      number and size (None when the option is left out). */
  datatype LogQuery = LogQuery(page: Option<int>, pageSize: Option<int>, kind: Option<string>, startDate: Option<string>, endDate: Option<string>)

  /** The page number a query asks for: the first page when it gives none. */
  function PageNumber(q: LogQuery): (n: int)
    ensures q.page.Some? ==> n == q.page.value
    ensures q.page.None? ==> n == 1
  {
    match q.page
    case None => 1
    case Some(n) => n
  }

  /** The page size a query asks for: ten entries when it gives none. */
  function PageSize(q: LogQuery): (n: int)
    ensures q.pageSize.Some? ==> n == q.pageSize.value
    ensures q.pageSize.None? ==> n == 10
  {
    match q.pageSize
    case None => 10
    case Some(n) => n
  }

  /** The entries a query's page holds, before their details are parsed. */
  function PageOf(logs: seq<LogEntry>, q: LogQuery): (r: seq<LogEntry>)
    ensures PageSize(q) >= 0 ==> |r| <= PageSize(q)
    ensures |r| <= |Where(logs, Matching(q))|
  {
    Window(Newest(logs, q), PageSize(q), (PageNumber(q) - 1) * PageSize(q))
  }

  /** A query that names no page gets the ten newest matching entries, or all of them
      when there are fewer. */
  lemma DefaultPageIsNewestTen(logs: seq<LogEntry>, q: LogQuery)
    requires q.page.None? && q.pageSize.None?
    ensures var n := Newest(logs, q);
      PageOf(logs, q) == if |n| < 10 then n else n[..10]
  {
    var n := Newest(logs, q);
    var w := PageOf(logs, q);
    if |n| < 10 {
      assert |w| == |n|;
    } else {
      assert |w| == 10;
    }
  }

  predicate LogMatch(e: LogEntry, q: LogQuery)
  {
    && (Truthy(q.kind) ==> e.kind == q.kind.value)
    && (Truthy(q.startDate) ==> TextLe(q.startDate.value, e.timestamp))
    && (Truthy(q.endDate) ==> TextLe(e.timestamp, q.endDate.value))
  }

  function Matching(q: LogQuery): LogEntry -> bool
  {
    (e: LogEntry) => LogMatch(e, q)
  }

  /** `LIMIT limit OFFSET offset`: a negative offset counts as 0 and a negative limit
      means no limit. */
  function Window<T>(s: seq<T>, limit: int, offset: int): (r: seq<T>)
    ensures var start := if offset < 0 then 0 else offset;
      && (limit >= 0 ==> |r| <= limit)
      && |r| <= |s|
      && (forall i :: 0 <= i < |r| ==> start + i < |s| && r[i] == s[start + i])
      && (start < |s| && (limit < 0 || start + limit > |s|) ==> |r| == |s| - start)
      && (start + limit <= |s| && limit >= 0 ==> |r| == limit)
  {
    var start := if offset < 0 then 0 else offset;
    if start >= |s| then []
    else
      var rest := s[start..];
      if limit < 0 || limit >= |rest| then rest else rest[..limit]
  }

  /** With a positive page size every row is on exactly the page its position says:
      row i is entry i mod n of page i div n + 1. */
  lemma EveryRowOnItsPage<T>(s: seq<T>, n: int, i: nat)
    requires n > 0 && i < |s|
    ensures var page := i / n + 1;
      var w := Window(s, n, (page - 1) * n);
      i % n < |w| && w[i % n] == s[i]
  {
    var page := i / n + 1;
    var offset := (page - 1) * n;
    assert offset == (i / n) * n;
    assert offset + i % n == i;
    assert 0 <= offset;
    var w := Window(s, n, offset);
    if offset + n <= |s| {
      assert |w| == n;
    } else {
      assert |w| == |s| - offset;
    }
  }

  /** The entry details as returned: parsed by `parse` when stored and non-empty, else
      the empty object. */
  function ParsedDetails(details: string, parse: string -> string): (r: string)
    ensures details == "" ==> r == "{}"
  {
    if details != "" then parse(details) else "{}"
  }

  /** The matching entries, newest first (`ORDER BY timestamp DESC`). */
  function Newest(logs: seq<LogEntry>, q: LogQuery): (r: seq<LogEntry>)
    ensures multiset(r) == multiset(Where(logs, Matching(q)))
    ensures |r| == |Where(logs, Matching(q))|
    ensures Sorted(r, DescBy(LogTime))
  {
    DescByPreorder(LogTime);
    SortSorted(Where(logs, Matching(q)), DescBy(LogTime));
    Sort(Where(logs, Matching(q)), DescBy(LogTime))
  }

  /** An entry as returned, with its details parsed. */
  function Parsed(e: LogEntry, parse: string -> string): (r: LogEntry)
    ensures r == e.(details := ParsedDetails(e.details, parse))
  {
    e.(details := ParsedDetails(e.details, parse))
  }

  /** The page with every entry's details parsed. */
  function WithParsed(w: seq<LogEntry>, parse: string -> string): (r: seq<LogEntry>)
    ensures |r| == |w|
    ensures forall i :: 0 <= i < |w| ==> r[i] == Parsed(w[i], parse)
    decreases |w|
  {
    if w == [] then [] else [Parsed(w[0], parse)] + WithParsed(w[1..], parse)
  }

  function IdListed(ids: seq<int>): LogEntry -> bool
  {
    (e: LogEntry) => e.id in ids
  }

  function IdNotListed(ids: seq<int>): LogEntry -> bool
  {
    (e: LogEntry) => e.id !in ids
  }

  class Logger {
    var usernames: seq<string>
    var logs: seq<LogEntry>
    var nextLogId: int

    ghost predicate Valid()
      reads this
    {
      && UniqueKeys(logs, LogKey) && KeysBelow(logs, LogKey, nextLogId)
      && forall i :: 0 <= i < |logs| ==> logs[i].username in usernames
    }

    constructor (usernames: seq<string>)
      ensures Valid()
      ensures this.usernames == usernames && logs == [] && nextLogId == 1
    {
      this.usernames := usernames;
      logs := [];
      nextLogId := 1;
    }

    /** logOperation: nothing is stored for a username not on file; a missing type or
        module breaks NOT NULL and any other failure is swallowed the same way; otherwise
        one entry is appended with the defaults applied. */
    method LogOperation(op: Operation, now: string, fails: bool) returns (r: LogResult)
      requires Valid()
      modifies this`logs, this`nextLogId
      ensures Valid()
      ensures r == NoUser <==> op.username.None? || op.username.value !in usernames
      ensures r == Failed <==> op.username.Some? && op.username.value in usernames
                               && (fails || op.kind.None? || op.module_.None?)
      ensures !r.Logged? ==> logs == old(logs) && nextLogId == old(nextLogId)
      ensures r.Logged? ==>
        && r.entry == LogEntry(old(nextLogId), op.kind.value, op.module_.value, op.description, op.username.value,
                               OrDefault(op.status, DefaultStatus), OrDefault(op.details, DefaultDetails), now)
        && logs == old(logs) + [r.entry]
    {
      if op.username.None? || op.username.value !in usernames {
        return NoUser;
      }
      if fails || op.kind.None? || op.module_.None? {
        return Failed;
      }
      var e := LogEntry(nextLogId, op.kind.value, op.module_.value, op.description, op.username.value,
                        OrDefault(op.status, DefaultStatus), OrDefault(op.details, DefaultDetails), now);
      AppendFreshKey(logs, LogKey, nextLogId, e);
      logs := logs + [e];
      nextLogId := nextLogId + 1;
      return Logged(e);
    }

    /** getOperationLogs: `total` counts every matching entry; the entries are the
        matching ones newest first, from offset (page − 1)·pageSize, at most pageSize of
        them, with their details parsed; the page number and size used (1 and 10 by
        default) are echoed. */
    method GetOperationLogs(q: LogQuery, parse: string -> string)
      returns (total: nat, entries: seq<LogEntry>, page: int, pageSize: int)
      ensures total == |Where(logs, Matching(q))|
      ensures entries == WithParsed(PageOf(logs, q), parse)
      ensures page == PageNumber(q) && pageSize == PageSize(q)
      ensures pageSize >= 0 ==> |entries| <= pageSize
      ensures |entries| <= total
    {
      page := PageNumber(q);
      pageSize := PageSize(q);
      total := |Where(logs, Matching(q))|;
      entries := WithParsed(PageOf(logs, q), parse);
    }

    /** deleteOperationLogs: a missing or empty id list deletes nothing and reports 0;
        otherwise every entry whose id is listed goes and the count is how many did. */
    method DeleteOperationLogs(ids: Option<seq<int>>) returns (deletedCount: nat)
      requires Valid()
      modifies this`logs
      ensures Valid()
      ensures ids.None? || ids.value == [] ==> deletedCount == 0 && logs == old(logs)
      ensures ids.Some? && ids.value != [] ==>
        && logs == Where(old(logs), IdNotListed(ids.value))
        && deletedCount == |Where(old(logs), IdListed(ids.value))|
        && deletedCount == |old(logs)| - |logs|
    {
      if ids.None? || |ids.value| == 0 {
        return 0;
      }
      var kept := Where(logs, IdNotListed(ids.value));
      WhereSplit(logs, IdListed(ids.value), IdNotListed(ids.value));
      WherePreservesUnique(logs, LogKey, IdNotListed(ids.value));
      WhereKeepsBelow(logs, LogKey, nextLogId, IdNotListed(ids.value));
      forall i | 0 <= i < |kept| ensures kept[i].username in usernames {
        assert kept[i] in logs;
      }
      deletedCount := |logs| - |kept|;
      logs := kept;
    }
  }
}
