/** The expected schema the validator compares a store against: thirteen
    tables in declared order, their columns and foreign keys, and the two
    recommended indexes. It is fixed configuration and never changes. */
module ExpectedSchema {
  import opened Outcomes
  import opened Seqs

  /** Declared type name, not-null flag and primary-key flag of one column. */
  datatype ColumnSpec = ColumnSpec(name: string, colType: string, notNull: bool, pk: bool)

  /** `fromColumn` of the declaring table references `toTable.toColumn`. */
  datatype ForeignKey = ForeignKey(fromColumn: string, toTable: string, toColumn: string)

  datatype TableSpec = TableSpec(name: string, columns: seq<ColumnSpec>, foreignKeys: seq<ForeignKey>)

  /** A recommended index and the table it is defined on. */
  datatype IndexSpec = IndexSpec(name: string, table: string)

  const Integer: string := "INTEGER"
  const Real: string := "REAL"
  const Text: string := "TEXT"

  function Key(name: string): ColumnSpec { ColumnSpec(name, Integer, true, true) }
  function IntColumn(name: string): ColumnSpec { ColumnSpec(name, Integer, false, false) }
  function RealColumn(name: string): ColumnSpec { ColumnSpec(name, Real, false, false) }
  function TextColumn(name: string): ColumnSpec { ColumnSpec(name, Text, false, false) }

  const TaskTable: TableSpec :=
    TableSpec("task_table",
      [Key("task_ID"), IntColumn("task_set"), TextColumn("task_name"), TextColumn("task_describe")],
      [])

  const SubjectTable: TableSpec :=
    TableSpec("subject_table",
      [Key("subject_ID"), TextColumn("subject_name")],
      [])

  const VideoTable: TableSpec :=
    TableSpec("video_table",
      [Key("video_ID"), TextColumn("video_dir"), IntColumn("subject_ID"), TextColumn("video_date"),
      IntColumn("video_length")],
      [ForeignKey("subject_ID", "subject_table", "subject_ID")])

  const TagTable: TableSpec :=
    TableSpec("tag_table",
      [Key("tag_ID"), IntColumn("video_ID"), IntColumn("task_ID"), IntColumn("start"), IntColumn("end")],
      [ForeignKey("video_ID", "video_table", "video_ID"), ForeignKey("task_ID", "task_table", "task_ID")])

  const CoreLibTable: TableSpec :=
    TableSpec("core_lib_table",
      [Key("core_lib_ID"), TextColumn("core_lib_version"), TextColumn("core_lib_update_information"),
      IntColumn("core_lib_base_version_ID"), TextColumn("core_lib_commit_hash")],
      [ForeignKey("core_lib_base_version_ID", "core_lib_table", "core_lib_ID")])

  const CoreLibOutputTable: TableSpec :=
    TableSpec("core_lib_output_table",
      [Key("core_lib_output_ID"), IntColumn("core_lib_ID"), IntColumn("video_ID"), TextColumn("core_lib_output_dir")],
      [ForeignKey("core_lib_ID", "core_lib_table", "core_lib_ID"), ForeignKey("video_ID", "video_table", "video_ID")])

  const AlgorithmTable: TableSpec :=
    TableSpec("algorithm_table",
      [Key("algorithm_ID"), TextColumn("algorithm_version"), TextColumn("algorithm_update_information"),
      IntColumn("algorithm_base_version_ID"), TextColumn("algorithm_commit_hash")],
      [ForeignKey("algorithm_base_version_ID", "algorithm_table", "algorithm_ID")])

  const AlgorithmOutputTable: TableSpec :=
    TableSpec("algorithm_output_table",
      [Key("algorithm_output_ID"), IntColumn("algorithm_ID"), IntColumn("core_lib_output_ID"),
      TextColumn("algorithm_output_dir")],
      [ForeignKey("algorithm_ID", "algorithm_table", "algorithm_ID"),
      ForeignKey("core_lib_output_ID", "core_lib_output_table", "core_lib_output_ID")])

  const EvaluationResultTable: TableSpec :=
    TableSpec("evaluation_result_table",
      [Key("evaluation_result_ID"), TextColumn("version"), IntColumn("algorithm_ID"), RealColumn("true_positive"),
      RealColumn("false_positive"), TextColumn("evaluation_result_dir"), TextColumn("evaluation_timestamp")],
      [ForeignKey("algorithm_ID", "algorithm_table", "algorithm_ID")])

  const EvaluationDataTable: TableSpec :=
    TableSpec("evaluation_data_table",
      [Key("evaluation_data_ID"), IntColumn("evaluation_result_ID"), IntColumn("algorithm_output_ID"),
      IntColumn("correct_task_num"), IntColumn("total_task_num"), TextColumn("evaluation_data_path")],
      [ForeignKey("evaluation_result_ID", "evaluation_result_table", "evaluation_result_ID"),
      ForeignKey("algorithm_output_ID", "algorithm_output_table", "algorithm_output_ID")])

  const AnalysisResultTable: TableSpec :=
    TableSpec("analysis_result_table",
      [Key("analysis_result_ID"), TextColumn("analysis_result_dir"), TextColumn("analysis_timestamp"),
      IntColumn("evaluation_result_ID")],
      [ForeignKey("evaluation_result_ID", "evaluation_result_table", "evaluation_result_ID")])

  const ProblemTable: TableSpec :=
    TableSpec("problem_table",
      [Key("problem_ID"), TextColumn("problem_name"), TextColumn("problem_description"),
      TextColumn("problem_status"), IntColumn("analysis_result_ID")],
      [ForeignKey("analysis_result_ID", "analysis_result_table", "analysis_result_ID")])

  const AnalysisDataTable: TableSpec :=
    TableSpec("analysis_data_table",
      [Key("analysis_data_ID"), IntColumn("evaluation_data_ID"), IntColumn("analysis_result_ID"),
      IntColumn("problem_ID"), IntColumn("analysis_data_isproblem"), TextColumn("analysis_data_dir"),
      TextColumn("analysis_data_description")],
      [ForeignKey("evaluation_data_ID", "evaluation_data_table", "evaluation_data_ID"),
      ForeignKey("analysis_result_ID", "analysis_result_table", "analysis_result_ID"),
      ForeignKey("problem_ID", "problem_table", "problem_ID")])

  /** The tables in declared order. */
  const ExpectedTables: seq<TableSpec> := [
    TaskTable, SubjectTable, VideoTable, TagTable, CoreLibTable,
    CoreLibOutputTable, AlgorithmTable, AlgorithmOutputTable, EvaluationResultTable,
    EvaluationDataTable, AnalysisResultTable, ProblemTable, AnalysisDataTable
  ]

  const ExpectedIndexes: seq<IndexSpec> := [
    IndexSpec("idx_core_lib_version", "core_lib_table"),
    IndexSpec("idx_algorithm_version", "algorithm_table")
  ]

  function TableNames(specs: seq<TableSpec>): (r: seq<string>)
    ensures |r| == |specs|
    ensures forall i :: 0 <= i < |specs| ==> r[i] == specs[i].name
  {
    if specs == [] then [] else [specs[0].name] + TableNames(specs[1..])
  }

  function ColumnNames(cols: seq<ColumnSpec>): (r: seq<string>)
    ensures |r| == |cols|
    ensures forall i :: 0 <= i < |cols| ==> r[i] == cols[i].name
  {
    if cols == [] then [] else [cols[0].name] + ColumnNames(cols[1..])
  }

  function IndexNames(ixs: seq<IndexSpec>): (r: seq<string>)
    ensures |r| == |ixs|
    ensures forall i :: 0 <= i < |ixs| ==> r[i] == ixs[i].name
  {
    if ixs == [] then [] else [ixs[0].name] + IndexNames(ixs[1..])
  }

  /** The first declared table called `name`. */
  function FindTable(specs: seq<TableSpec>, name: string): (r: Option<TableSpec>)
    ensures r.Some? ==> r.value in specs && r.value.name == name
    ensures r.None? ==> name !in TableNames(specs)
  {
    if specs == [] then None
    else if specs[0].name == name then Some(specs[0])
    else FindTable(specs[1..], name)
  }

  /** The first declared column called `name`. */
  function FindColumn(cols: seq<ColumnSpec>, name: string): (r: Option<ColumnSpec>)
    ensures r.Some? ==> r.value in cols && r.value.name == name
    ensures r.None? ==> name !in ColumnNames(cols)
  {
    if cols == [] then None
    else if cols[0].name == name then Some(cols[0])
    else FindColumn(cols[1..], name)
  }

  /** Names are keys: no two tables, and no two columns of one table, share a
      name, and every foreign key starts from a column of its own table. */
  predicate WellFormed(specs: seq<TableSpec>)
  {
    && Distinct(TableNames(specs))
    && forall s :: s in specs ==> TableWellFormed(s)
  }

  predicate TableWellFormed(s: TableSpec)
  {
    ColumnsDistinct(s) && SourcesDeclared(s)
  }

  predicate ColumnsDistinct(s: TableSpec)
  {
    Distinct(ColumnNames(s.columns))
  }

  predicate SourcesDeclared(s: TableSpec)
  {
    forall fk :: fk in s.foreignKeys ==> fk.fromColumn in ColumnNames(s.columns)
  }

  /** Every foreign key points at a declared table, at a column that table
      declares as its primary key. */
  predicate ClosedGraph(specs: seq<TableSpec>)
  {
    forall s, fk :: s in specs && fk in s.foreignKeys ==>
      && FindTable(specs, fk.toTable).Some?
      && FindColumn(FindTable(specs, fk.toTable).value.columns, fk.toColumn).Some?
      && FindColumn(FindTable(specs, fk.toTable).value.columns, fk.toColumn).value.pk
  }

  const ExpectedTableNames: seq<string> := [
    "task_table", "subject_table", "video_table", "tag_table", "core_lib_table", "core_lib_output_table",
    "algorithm_table", "algorithm_output_table", "evaluation_result_table", "evaluation_data_table",
    "analysis_result_table", "problem_table", "analysis_data_table"]

  /** `fk` points at the table at position `k`, whose first column is its
      primary key. */
  predicate TargetsKeyAt(specs: seq<TableSpec>, fk: ForeignKey, k: int)
  {
    && 0 <= k < |specs|
    && specs[k].name == fk.toTable
    && |specs[k].columns| > 0
    && specs[k].columns[0].name == fk.toColumn
    && specs[k].columns[0].pk
  }

  lemma {:induction false} FindTableAt(specs: seq<TableSpec>, k: int)
    requires Distinct(TableNames(specs))
    requires 0 <= k < |specs|
    ensures FindTable(specs, specs[k].name) == Some(specs[k])
  {
    if k > 0 {
      assert TableNames(specs)[0] != TableNames(specs)[k];
      var rest := specs[1..];
      assert TableNames(rest) == TableNames(specs)[1..];
      FindTableAt(rest, k - 1);
    }
  }

  lemma TaskTableColumnsDistinct() ensures ColumnsDistinct(TaskTable) {}
  lemma SubjectTableColumnsDistinct() ensures ColumnsDistinct(SubjectTable) {}
  lemma VideoTableColumnsDistinct() ensures ColumnsDistinct(VideoTable) {}
  lemma TagTableColumnsDistinct() ensures ColumnsDistinct(TagTable) {}
  lemma CoreLibTableColumnsDistinct() ensures ColumnsDistinct(CoreLibTable) {}
  lemma CoreLibOutputTableColumnsDistinct() ensures ColumnsDistinct(CoreLibOutputTable) {}
  lemma AlgorithmTableColumnsDistinct() ensures ColumnsDistinct(AlgorithmTable) {}
  lemma AlgorithmOutputTableColumnsDistinct() ensures ColumnsDistinct(AlgorithmOutputTable) {}
  lemma EvaluationResultTableColumnsDistinct() ensures ColumnsDistinct(EvaluationResultTable) {}
  lemma EvaluationDataTableColumnsDistinct() ensures ColumnsDistinct(EvaluationDataTable) {}
  lemma AnalysisResultTableColumnsDistinct() ensures ColumnsDistinct(AnalysisResultTable) {}
  lemma ProblemTableColumnsDistinct() ensures ColumnsDistinct(ProblemTable) {}
  lemma AnalysisDataTableColumnsDistinct() ensures ColumnsDistinct(AnalysisDataTable) {}
  lemma TaskTableSourcesDeclared() ensures SourcesDeclared(TaskTable) {}
  lemma SubjectTableSourcesDeclared() ensures SourcesDeclared(SubjectTable) {}
  lemma VideoTableSourcesDeclared() ensures SourcesDeclared(VideoTable) {}
  lemma TagTableSourcesDeclared() ensures SourcesDeclared(TagTable) {}
  lemma CoreLibTableSourcesDeclared() ensures SourcesDeclared(CoreLibTable) {}
  lemma CoreLibOutputTableSourcesDeclared() ensures SourcesDeclared(CoreLibOutputTable) {}
  lemma AlgorithmTableSourcesDeclared() ensures SourcesDeclared(AlgorithmTable) {}
  lemma AlgorithmOutputTableSourcesDeclared() ensures SourcesDeclared(AlgorithmOutputTable) {}
  lemma EvaluationResultTableSourcesDeclared() ensures SourcesDeclared(EvaluationResultTable) {}
  lemma EvaluationDataTableSourcesDeclared() ensures SourcesDeclared(EvaluationDataTable) {}
  lemma AnalysisResultTableSourcesDeclared() ensures SourcesDeclared(AnalysisResultTable) {}
  lemma ProblemTableSourcesDeclared() ensures SourcesDeclared(ProblemTable) {}
  lemma AnalysisDataTableSourcesDeclared() ensures SourcesDeclared(AnalysisDataTable) {}

  lemma ExpectedTablesAt()
    ensures ExpectedTables[0] == TaskTable
    ensures ExpectedTables[1] == SubjectTable
    ensures ExpectedTables[2] == VideoTable
    ensures ExpectedTables[3] == TagTable
    ensures ExpectedTables[4] == CoreLibTable
    ensures ExpectedTables[5] == CoreLibOutputTable
    ensures ExpectedTables[6] == AlgorithmTable
    ensures ExpectedTables[7] == AlgorithmOutputTable
    ensures ExpectedTables[8] == EvaluationResultTable
    ensures ExpectedTables[9] == EvaluationDataTable
    ensures ExpectedTables[10] == AnalysisResultTable
    ensures ExpectedTables[11] == ProblemTable
    ensures ExpectedTables[12] == AnalysisDataTable
  {
  }

  lemma ExpectedTablesWellFormed()
    ensures forall i :: 0 <= i < |ExpectedTables| ==> TableWellFormed(ExpectedTables[i])
  {
    forall i | 0 <= i < |ExpectedTables| ensures TableWellFormed(ExpectedTables[i]) {
      WellFormedAt(i);
    }
  }

  lemma WellFormedAt(i: int)
    requires 0 <= i < |ExpectedTables|
    ensures TableWellFormed(ExpectedTables[i])
  {
    ExpectedTablesAt();
    match i
    case 0 => TaskTableColumnsDistinct(); TaskTableSourcesDeclared();
    case 1 => SubjectTableColumnsDistinct(); SubjectTableSourcesDeclared();
    case 2 => VideoTableColumnsDistinct(); VideoTableSourcesDeclared();
    case 3 => TagTableColumnsDistinct(); TagTableSourcesDeclared();
    case 4 => CoreLibTableColumnsDistinct(); CoreLibTableSourcesDeclared();
    case 5 => CoreLibOutputTableColumnsDistinct(); CoreLibOutputTableSourcesDeclared();
    case 6 => AlgorithmTableColumnsDistinct(); AlgorithmTableSourcesDeclared();
    case 7 => AlgorithmOutputTableColumnsDistinct(); AlgorithmOutputTableSourcesDeclared();
    case 8 => EvaluationResultTableColumnsDistinct(); EvaluationResultTableSourcesDeclared();
    case 9 => EvaluationDataTableColumnsDistinct(); EvaluationDataTableSourcesDeclared();
    case 10 => AnalysisResultTableColumnsDistinct(); AnalysisResultTableSourcesDeclared();
    case 11 => ProblemTableColumnsDistinct(); ProblemTableSourcesDeclared();
    case 12 => AnalysisDataTableColumnsDistinct(); AnalysisDataTableSourcesDeclared();
  }

  lemma VideoTableTargets()
    ensures forall fk :: fk in VideoTable.foreignKeys ==> exists k :: TargetsKeyAt(ExpectedTables, fk, k)
  {
    ExpectedTablesAt();
    assert TargetsKeyAt(ExpectedTables, VideoTable.foreignKeys[0], 1);
  }

  lemma TagTableTargets()
    ensures forall fk :: fk in TagTable.foreignKeys ==> exists k :: TargetsKeyAt(ExpectedTables, fk, k)
  {
    ExpectedTablesAt();
    assert TargetsKeyAt(ExpectedTables, TagTable.foreignKeys[0], 2);
    assert TargetsKeyAt(ExpectedTables, TagTable.foreignKeys[1], 0);
  }

  lemma CoreLibTableTargets()
    ensures forall fk :: fk in CoreLibTable.foreignKeys ==> exists k :: TargetsKeyAt(ExpectedTables, fk, k)
  {
    ExpectedTablesAt();
    assert TargetsKeyAt(ExpectedTables, CoreLibTable.foreignKeys[0], 4);
  }

  lemma CoreLibOutputTableTargets()
    ensures forall fk :: fk in CoreLibOutputTable.foreignKeys ==> exists k :: TargetsKeyAt(ExpectedTables, fk, k)
  {
    ExpectedTablesAt();
    assert TargetsKeyAt(ExpectedTables, CoreLibOutputTable.foreignKeys[0], 4);
    assert TargetsKeyAt(ExpectedTables, CoreLibOutputTable.foreignKeys[1], 2);
  }

  lemma AlgorithmTableTargets()
    ensures forall fk :: fk in AlgorithmTable.foreignKeys ==> exists k :: TargetsKeyAt(ExpectedTables, fk, k)
  {
    ExpectedTablesAt();
    assert TargetsKeyAt(ExpectedTables, AlgorithmTable.foreignKeys[0], 6);
  }

  lemma AlgorithmOutputTableTargets()
    ensures forall fk :: fk in AlgorithmOutputTable.foreignKeys ==> exists k :: TargetsKeyAt(ExpectedTables, fk, k)
  {
    ExpectedTablesAt();
    assert TargetsKeyAt(ExpectedTables, AlgorithmOutputTable.foreignKeys[0], 6);
    assert TargetsKeyAt(ExpectedTables, AlgorithmOutputTable.foreignKeys[1], 5);
  }

  lemma EvaluationResultTableTargets()
    ensures forall fk :: fk in EvaluationResultTable.foreignKeys ==> exists k :: TargetsKeyAt(ExpectedTables, fk, k)
  {
    ExpectedTablesAt();
    assert TargetsKeyAt(ExpectedTables, EvaluationResultTable.foreignKeys[0], 6);
  }

  lemma EvaluationDataTableTargets()
    ensures forall fk :: fk in EvaluationDataTable.foreignKeys ==> exists k :: TargetsKeyAt(ExpectedTables, fk, k)
  {
    ExpectedTablesAt();
    assert TargetsKeyAt(ExpectedTables, EvaluationDataTable.foreignKeys[0], 8);
    assert TargetsKeyAt(ExpectedTables, EvaluationDataTable.foreignKeys[1], 7);
  }

  lemma AnalysisResultTableTargets()
    ensures forall fk :: fk in AnalysisResultTable.foreignKeys ==> exists k :: TargetsKeyAt(ExpectedTables, fk, k)
  {
    ExpectedTablesAt();
    assert TargetsKeyAt(ExpectedTables, AnalysisResultTable.foreignKeys[0], 8);
  }

  lemma ProblemTableTargets()
    ensures forall fk :: fk in ProblemTable.foreignKeys ==> exists k :: TargetsKeyAt(ExpectedTables, fk, k)
  {
    ExpectedTablesAt();
    assert TargetsKeyAt(ExpectedTables, ProblemTable.foreignKeys[0], 10);
  }

  lemma AnalysisDataTableTargets()
    ensures forall fk :: fk in AnalysisDataTable.foreignKeys ==> exists k :: TargetsKeyAt(ExpectedTables, fk, k)
  {
    ExpectedTablesAt();
    assert TargetsKeyAt(ExpectedTables, AnalysisDataTable.foreignKeys[0], 9);
    assert TargetsKeyAt(ExpectedTables, AnalysisDataTable.foreignKeys[1], 10);
    assert TargetsKeyAt(ExpectedTables, AnalysisDataTable.foreignKeys[2], 11);
  }

  lemma TargetsAt(i: int)
    requires 0 <= i < |ExpectedTables|
    ensures forall fk :: fk in ExpectedTables[i].foreignKeys ==> exists k :: TargetsKeyAt(ExpectedTables, fk, k)
  {
    ExpectedTablesAt();
    match i
    case 0 => {}
    case 1 => {}
    case 2 => VideoTableTargets();
    case 3 => TagTableTargets();
    case 4 => CoreLibTableTargets();
    case 5 => CoreLibOutputTableTargets();
    case 6 => AlgorithmTableTargets();
    case 7 => AlgorithmOutputTableTargets();
    case 8 => EvaluationResultTableTargets();
    case 9 => EvaluationDataTableTargets();
    case 10 => AnalysisResultTableTargets();
    case 11 => ProblemTableTargets();
    case 12 => AnalysisDataTableTargets();
  }

  /** A foreign key that targets the key column of the table at `k` resolves
      through `FindTable` and `FindColumn` to a primary key. */
  lemma ResolvesAt(specs: seq<TableSpec>, fk: ForeignKey, k: int)
    requires Distinct(TableNames(specs))
    requires TargetsKeyAt(specs, fk, k)
    ensures FindTable(specs, fk.toTable) == Some(specs[k])
    ensures FindColumn(specs[k].columns, fk.toColumn) == Some(specs[k].columns[0])
  {
    FindTableAt(specs, k);
  }

  lemma ClosedFromTargets(specs: seq<TableSpec>)
    requires Distinct(TableNames(specs))
    requires forall s, fk :: s in specs && fk in s.foreignKeys ==> exists k :: TargetsKeyAt(specs, fk, k)
    ensures ClosedGraph(specs)
  {
    forall s, fk | s in specs && fk in s.foreignKeys
      ensures FindTable(specs, fk.toTable).Some?
      ensures FindColumn(FindTable(specs, fk.toTable).value.columns, fk.toColumn).Some?
      ensures FindColumn(FindTable(specs, fk.toTable).value.columns, fk.toColumn).value.pk
    {
      var k :| TargetsKeyAt(specs, fk, k);
      ResolvesAt(specs, fk, k);
    }
  }

  /** The expected model is a closed graph: every foreign key lands on the
      primary key of a declared table. */
  lemma ExpectedModelClosed()
    ensures ClosedGraph(ExpectedTables)
  {
    TableNamesDistinct();
    forall s, fk | s in ExpectedTables && fk in s.foreignKeys
      ensures exists k :: TargetsKeyAt(ExpectedTables, fk, k)
    {
      var i :| 0 <= i < |ExpectedTables| && ExpectedTables[i] == s;
      TargetsAt(i);
    }
    ClosedFromTargets(ExpectedTables);
  }

  lemma LiteralNamesDistinct()
    ensures Distinct(ExpectedTableNames)
  {
  }

  lemma TableNamesDistinct()
    ensures TableNames(ExpectedTables) == ExpectedTableNames
    ensures Distinct(TableNames(ExpectedTables))
  {
    var names := TableNames(ExpectedTables);
    assert forall i :: 0 <= i < 13 ==> ExpectedTables[i].name == ExpectedTableNames[i];
    assert names == ExpectedTableNames;
    LiteralNamesDistinct();
  }
}
