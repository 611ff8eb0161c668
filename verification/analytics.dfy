/** The search and summary queries over the whole store: the task-execution
    search, the version-history dispatch by table name, and the per-table
    row counts. */
module Analytics {
  import opened Outcomes
  import opened Seqs
  import opened Tables
  import opened Tags
  import opened Versions
  import opened VersionChain
  import opened Catalog
  import opened ExpectedSchema

  /** The columns of a task row the search reads. */
  datatype TaskRow = TaskRow(taskSet: int)

  /** The columns of a video row the search reads; the date is text in
      `YYYY-MM-DD` form and compares as text. */
  datatype VideoRow = VideoRow(date: string, subjectId: int)

  /** One result row of `search_task_executions`. */
  datatype Execution = Execution(
    tagId: int,
    taskId: int,
    taskSet: int,
    subjectId: int,
    videoId: int,
    videoDate: string,
    start: int,
    end: int,
    frameCount: int)

  /** The optional search arguments; `None` means the condition is not
      added. */
  datatype SearchFilter = SearchFilter(
    taskSet: Option<int>,
    subjectId: Option<int>,
    dateFrom: Option<string>,
    dateTo: Option<string>)

  /** The inner joins tag -> task, tag -> video, video -> subject all find
      their row. */
  predicate Joins(e: Entry<Tag>, tasks: map<int, TaskRow>, videos: map<int, VideoRow>, subjects: set<int>)
  {
    e.row.taskId in tasks && e.row.videoId in videos && videos[e.row.videoId].subjectId in subjects
  }

  /** The result row built from a joined tag; the frame count is
      `end - start`. */
  function ExecutionOf(e: Entry<Tag>, tasks: map<int, TaskRow>, videos: map<int, VideoRow>): Execution
    requires e.row.taskId in tasks && e.row.videoId in videos
  {
    var v := videos[e.row.videoId];
    Execution(e.id, e.row.taskId, tasks[e.row.taskId].taskSet, v.subjectId, e.row.videoId, v.date,
              e.row.start, e.row.end, e.row.end - e.row.start)
  }

  /** The joined rows, one per tag whose joins all succeed, in tag storage
      order. */
  function Joined(tags: TagTable, tasks: map<int, TaskRow>, videos: map<int, VideoRow>, subjects: set<int>): (r: seq<Execution>)
    ensures forall x :: x in r <==>
      exists k :: 0 <= k < |tags| && Joins(tags[k], tasks, videos, subjects) && x == ExecutionOf(tags[k], tasks, videos)
    ensures forall i :: 0 <= i < |r| ==> r[i].frameCount == r[i].end - r[i].start
    decreases |tags|
  {
    if tags == [] then []
    else
      var rest := Joined(tags[1..], tasks, videos, subjects);
      assert forall k :: 0 < k < |tags| ==> tags[k] == tags[1..][k - 1];
      (if Joins(tags[0], tasks, videos, subjects) then [ExecutionOf(tags[0], tasks, videos)] else []) + rest
  }

  /** The `WHERE` clause: every supplied condition holds. */
  predicate Matches(f: SearchFilter, x: Execution)
  {
    && (f.taskSet.None? || x.taskSet == f.taskSet.value)
    && (f.subjectId.None? || x.subjectId == f.subjectId.value)
    && (f.dateFrom.None? || StrLe(f.dateFrom.value, x.videoDate))
    && (f.dateTo.None? || StrLe(x.videoDate, f.dateTo.value))
  }

  function MatchesFilter(f: SearchFilter): Execution -> bool
  {
    x => Matches(f, x)
  }

  /** `ORDER BY video_date, task_set, task_ID, start`. */
  predicate ExecLe(a: Execution, b: Execution)
  {
    if a.videoDate != b.videoDate then StrLe(a.videoDate, b.videoDate)
    else if a.taskSet != b.taskSet then a.taskSet < b.taskSet
    else if a.taskId != b.taskId then a.taskId < b.taskId
    else a.start <= b.start
  }

  /** Distinct dates in text order stay distinct when followed by a later
      or equal date. */
  lemma DateBeforeTransitive(a: string, b: string, c: string)
    requires a != b && StrLe(a, b) && StrLe(b, c)
    ensures a != c && StrLe(a, c)
  {
    StrLeTransitive(a, b, c);
    if a == c {
      StrLeAntisymmetric(a, b);
    }
  }

  lemma ExecLeTransitive(a: Execution, b: Execution, c: Execution)
    requires ExecLe(a, b) && ExecLe(b, c)
    ensures ExecLe(a, c)
  {
    if a.videoDate != b.videoDate {
      StrLeConnected(c.videoDate, c.videoDate);
      DateBeforeTransitive(a.videoDate, b.videoDate, c.videoDate);
    } else if b.videoDate != c.videoDate {
      assert StrLe(a.videoDate, c.videoDate);
    }
  }

  lemma ExecOrderIsPreorder()
    ensures TotalPreorder(ExecLe)
  {
    forall a, b ensures ExecLe(a, b) || ExecLe(b, a) {
      StrLeConnected(a.videoDate, b.videoDate);
    }
    forall a, b, c | ExecLe(a, b) && ExecLe(b, c) ensures ExecLe(a, c) {
      ExecLeTransitive(a, b, c);
    }
  }

  /** `search_task_executions`: the joined rows meeting every supplied
      condition, each as often as it is joined, ordered by date, task set,
      task id and start. */
  function SearchTaskExecutions(tags: TagTable, tasks: map<int, TaskRow>, videos: map<int, VideoRow>,
                                subjects: set<int>, f: SearchFilter): (r: seq<Execution>)
    ensures SortedBy(r, ExecLe)
    ensures multiset(r) == multiset(Filter(Joined(tags, tasks, videos, subjects), MatchesFilter(f)))
  {
    ExecOrderIsPreorder();
    SortBy(Filter(Joined(tags, tasks, videos, subjects), MatchesFilter(f)), ExecLe)
  }

  /** A row is returned exactly when it is the joined row of a stored tag
      and meets every supplied condition; each row's frame count is its
      interval length. */
  lemma SearchFindsExactlyTheMatches(tags: TagTable, tasks: map<int, TaskRow>, videos: map<int, VideoRow>,
                                     subjects: set<int>, f: SearchFilter, x: Execution)
    ensures x in SearchTaskExecutions(tags, tasks, videos, subjects, f) <==>
      && (exists k :: 0 <= k < |tags| && Joins(tags[k], tasks, videos, subjects) && x == ExecutionOf(tags[k], tasks, videos))
      && Matches(f, x)
    ensures x in SearchTaskExecutions(tags, tasks, videos, subjects, f) ==> x.frameCount == x.end - x.start
  {
    var r := SearchTaskExecutions(tags, tasks, videos, subjects, f);
    var j := Joined(tags, tasks, videos, subjects);
    assert x in r <==> x in multiset(r);
    assert x in Filter(j, MatchesFilter(f)) <==> x in multiset(Filter(j, MatchesFilter(f)));
    if x in j {
      var i :| 0 <= i < |j| && j[i] == x;
    }
  }

  /** With no condition supplied, every joined row is returned. */
  lemma SearchWithoutFilterReturnsAllJoined(tags: TagTable, tasks: map<int, TaskRow>, videos: map<int, VideoRow>,
                                            subjects: set<int>)
    ensures multiset(SearchTaskExecutions(tags, tasks, videos, subjects, SearchFilter(None, None, None, None)))
      == multiset(Joined(tags, tasks, videos, subjects))
  {
    var j := Joined(tags, tasks, videos, subjects);
    var p := MatchesFilter(SearchFilter(None, None, None, None));
    forall x | true ensures multiset(Filter(j, p))[x] == multiset(j)[x] {
      FilterCount(j, p, x);
    }
    assert multiset(Filter(j, p)) == multiset(j);
  }

  /** `get_version_history`: the history of `id` in the named registry;
      any other table name is a constraint error naming it. */
  method GetVersionHistory(tableName: string, coreLib: VersionTable, algorithm: VersionTable, id: int)
    returns (r: Result<seq<Entry<Version>>>)
    requires tableName == TableName(CoreLib) ==> exists k: nat :: EndsWithin(coreLib, Some(id), k)
    requires tableName == TableName(Algorithm) ==> exists k: nat :: EndsWithin(algorithm, Some(id), k)
    ensures r.Err? <==> tableName != TableName(CoreLib) && tableName != TableName(Algorithm)
    ensures r.Err? ==> r.error == ConstraintError(tableName)
    ensures tableName == TableName(CoreLib) ==>
      r.Ok? && IsChain(coreLib, Some(id), Reversed(r.value)) && OldestFirstHistory(coreLib, id, r.value)
    ensures tableName == TableName(Algorithm) ==>
      r.Ok? && IsChain(algorithm, Some(id), Reversed(r.value)) && OldestFirstHistory(algorithm, id, r.value)
  {
    if tableName == "core_lib_table" {
      var h := History(coreLib, id);
      r := Ok(h);
    } else if tableName == "algorithm_table" {
      var h := History(algorithm, id);
      r := Ok(h);
    } else {
      r := Err(ConstraintError(tableName));
    }
  }

  /** `get_table_statistics`: one entry per table whose name is not
      `LIKE 'sqlite_%'`, holding that table's row count. `rowCount` stands
      for `SELECT COUNT(*)` on a table. */
  function TableStatistics(tables: set<string>, rowCount: string -> nat): (r: map<string, nat>)
    ensures forall name :: name in r <==> name in tables && !IsSqliteInternal(name)
    ensures forall name :: name in r ==> r[name] == rowCount(name)
  {
    map name | name in tables && !IsSqliteInternal(name) :: rowCount(name)
  }

  /** None of the thirteen expected table names is internal, so a store
      holding them reports a count for each. */
  lemma ExpectedTablesAreCounted(tables: set<string>, rowCount: string -> nat, k: int)
    requires 0 <= k < |ExpectedTableNames| && ExpectedTableNames[k] in tables
    ensures ExpectedTableNames[k] in TableStatistics(tables, rowCount)
    ensures TableStatistics(tables, rowCount)[ExpectedTableNames[k]] == rowCount(ExpectedTableNames[k])
  {
    var name := ExpectedTableNames[k];
    assert LowerChar(name[0]) != 's' || LowerChar(name[1]) != 'q';
  }

  /** Internal names are skipped whatever their case, and `_` in the
      pattern matches any character. */
  lemma TableStatisticsSkipsInternal(rowCount: string -> nat)
    ensures TableStatistics({"sqlite_sequence", "SQLite_stat1", "sqliteXtab", "tag_table"}, rowCount).Keys == {"tag_table"}
  {
    var r := TableStatistics({"sqlite_sequence", "SQLite_stat1", "sqliteXtab", "tag_table"}, rowCount);
    ReservedPrefix();
    assert "tag_table" in r;
  }
}
