/** The schema-drift validator: diffs a catalog snapshot against the expected
    schema, splitting what it finds into blocking issues and advisory
    warnings, and decides whether the store is a valid warehouse. */
module SchemaValidator {
  import opened Outcomes
  import opened Seqs
  import opened ExpectedSchema
  import opened TypeCompat
  import opened Catalog

  /** One finding. The first four kinds are issues, the rest warnings. */
  datatype Finding =
    | MissingTable(table: string)
    | MissingColumn(table: string, column: string)
    | PrimaryKeyMismatch(table: string, column: string)
    | MissingForeignKey(table: string, fk: ForeignKey)
    | TypeMismatch(table: string, column: string, expected: string, actual: string)
    | ExtraColumn(table: string, column: string)
    | MissingIndex(index: string, table: string)
    | ForeignKeysDisabled
    | FkValidationError(table: string)

  predicate IsIssue(f: Finding)
  {
    f.MissingTable? || f.MissingColumn? || f.PrimaryKeyMismatch? || f.MissingForeignKey?
  }

  datatype Findings = Findings(issues: seq<Finding>, warnings: seq<Finding>)

  function Join(a: Findings, b: Findings): Findings
  {
    Findings(a.issues + b.issues, a.warnings + b.warnings)
  }

  datatype Summary = Summary(
    tablesExpected: nat, tablesFound: nat, tablesMissing: nat,
    indexesExpected: nat, indexesFound: nat, indexesMissing: nat,
    issues: nat, warnings: nat)

  datatype Report = Report(
    isValid: bool,
    issues: seq<Finding>,
    warnings: seq<Finding>,
    tablesFound: seq<string>,
    tablesMissing: seq<string>,
    indexesFound: seq<string>,
    indexesMissing: seq<string>,
    summary: Summary)

  // ---------------------------------------------------------------------
  // Columns of one present table

  /** The expected column is absent from the listing. */
  predicate ColumnAbsent(actual: seq<ActualColumn>, c: ColumnSpec)
  {
    LookupColumn(actual, c.name).None?
  }

  /** The column is present but its primary-key flag differs. */
  predicate KeyDiffers(actual: seq<ActualColumn>, c: ColumnSpec)
  {
    LookupColumn(actual, c.name).Some? && LookupColumn(actual, c.name).value.pk != c.pk
  }

  /** The column is present with a declared type the matrix rejects. */
  predicate TypeDrifts(actual: seq<ActualColumn>, c: ColumnSpec)
  {
    LookupColumn(actual, c.name).Some?
    && !IsTypeCompatible(c.colType, Upper(LookupColumn(actual, c.name).value.declType))
  }

  /** Present, with the expected primary-key flag: nothing blocking. */
  predicate ColumnConforms(actual: seq<ActualColumn>, c: ColumnSpec)
  {
    !ColumnAbsent(actual, c) && !KeyDiffers(actual, c)
  }

  /** Compares each expected column, in declared order, with the listing:
      absent gives a missing-column issue; present gives a type-mismatch
      warning when the upper-cased type is incompatible and a primary-key
      issue when the flags differ. The not-null flag is not compared. */
  function ColumnPass(table: string, cols: seq<ColumnSpec>, actual: seq<ActualColumn>): (r: Findings)
    ensures forall f :: f in r.issues ==> (f.MissingColumn? || f.PrimaryKeyMismatch?) && f.table == table
    ensures forall f :: f in r.warnings ==> f.TypeMismatch? && f.table == table
    ensures forall n :: MissingColumn(table, n) in r.issues <==>
      exists c :: c in cols && c.name == n && ColumnAbsent(actual, c)
    ensures forall n :: PrimaryKeyMismatch(table, n) in r.issues <==>
      exists c :: c in cols && c.name == n && KeyDiffers(actual, c)
    ensures forall n, e, t :: TypeMismatch(table, n, e, t) in r.warnings <==>
      exists c :: c in cols && c.name == n && c.colType == e && TypeDrifts(actual, c)
        && t == Upper(LookupColumn(actual, n).value.declType)
    ensures r.issues == [] <==> forall c :: c in cols ==> ColumnConforms(actual, c)
  {
    if cols == [] then Findings([], [])
    else
      var c := cols[0];
      var head :=
        match LookupColumn(actual, c.name)
        case None => Findings([MissingColumn(table, c.name)], [])
        case Some(a) =>
          var t := Upper(a.declType);
          Findings(if c.pk != a.pk then [PrimaryKeyMismatch(table, c.name)] else [],
                   if IsTypeCompatible(c.colType, t) then [] else [TypeMismatch(table, c.name, c.colType, t)]);
      assert forall x :: x in cols <==> x == c || x in cols[1..];
      Join(head, ColumnPass(table, cols[1..], actual))
  }

  /** One extra-column warning per listed column name the expected table
      does not declare, each name once. */
  function ExtraColumns(table: string, actual: seq<ActualColumn>, expected: seq<string>): (r: seq<Finding>)
    ensures Distinct(r)
    ensures forall f :: f in r ==> f.ExtraColumn? && f.table == table
    ensures forall n :: ExtraColumn(table, n) in r <==> n in ActualNames(actual) && n !in expected
  {
    var names := Dedup(Filter(ActualNames(actual), n => n !in expected));
    var r := seq(|names|, i requires 0 <= i < |names| => ExtraColumn(table, names[i]));
    assert forall n :: ExtraColumn(table, n) in r <==> n in names by {
      forall n ensures ExtraColumn(table, n) in r <==> n in names {
        if n in names {
          var i :| 0 <= i < |names| && names[i] == n;
          assert r[i] == ExtraColumn(table, n);
        }
      }
    }
    r
  }

  /** The findings for one expected table: a missing-table issue when it is
      not listed, otherwise its column findings followed by its extra-column
      warnings. */
  function TableCheck(spec: TableSpec, snap: Snapshot): (r: Findings)
    ensures !ListedTable(snap, spec.name) ==> r == Findings([MissingTable(spec.name)], [])
    ensures ListedTable(snap, spec.name) ==>
      r.issues == ColumnPass(spec.name, spec.columns, ColumnsOf(snap, spec.name)).issues
    ensures r.issues == [] <==> TableConforms(spec, snap)
  {
    if ListedTable(snap, spec.name) then
      var actual := ColumnsOf(snap, spec.name);
      var cp := ColumnPass(spec.name, spec.columns, actual);
      Findings(cp.issues, cp.warnings + ExtraColumns(spec.name, actual, ColumnNames(spec.columns)))
    else
      Findings([MissingTable(spec.name)], [])
  }

  // ---------------------------------------------------------------------
  // The three passes

  datatype TableOutcome = TableOutcome(found: seq<string>, missing: seq<string>, findings: Findings)

  /** Nothing blocking in one table: it is listed and its columns conform. */
  predicate TableConforms(spec: TableSpec, snap: Snapshot)
  {
    ListedTable(snap, spec.name)
    && forall c :: c in spec.columns ==> ColumnConforms(ColumnsOf(snap, spec.name), c)
  }

  /** Walks the expected tables in declared order, sorting each into found or
      missing and collecting its findings. */
  function TablePass(specs: seq<TableSpec>, snap: Snapshot): (r: TableOutcome)
    ensures |r.found| + |r.missing| == |specs|
    ensures forall f :: f in r.findings.issues ==> f.MissingTable? || f.MissingColumn? || f.PrimaryKeyMismatch?
    ensures forall f :: f in r.findings.warnings ==> f.TypeMismatch? || f.ExtraColumn?
    ensures forall n :: MissingTable(n) in r.findings.issues <==> n in TableNames(specs) && !ListedTable(snap, n)
    ensures forall f :: f in r.findings.issues && !f.MissingTable? ==> ListedTable(snap, f.table)
    ensures forall f :: f in r.findings.warnings ==> ListedTable(snap, f.table)
    ensures r.findings.issues == [] <==> forall s :: s in specs ==> TableConforms(s, snap)
  {
    if specs == [] then TableOutcome([], [], Findings([], []))
    else
      var s := specs[0];
      var rest := TablePass(specs[1..], snap);
      var here := TableCheck(s, snap);
      assert forall x :: x in specs <==> x == s || x in specs[1..];
      assert TableNames(specs) == [s.name] + TableNames(specs[1..]);
      if ListedTable(snap, s.name) then
        TableOutcome([s.name] + rest.found, rest.missing, Join(here, rest.findings))
      else
        TableOutcome(rest.found, [s.name] + rest.missing, Join(here, rest.findings))
  }

  /** Found and missing keep the declared order and split the names by
      whether the table is listed. */
  lemma {:induction false} TablePassSplitsNames(specs: seq<TableSpec>, snap: Snapshot)
    ensures TablePass(specs, snap).found == Filter(TableNames(specs), n => ListedTable(snap, n))
    ensures TablePass(specs, snap).missing == Filter(TableNames(specs), n => !ListedTable(snap, n))
  {
    if specs != [] {
      TablePassSplitsNames(specs[1..], snap);
      assert TableNames(specs) == [specs[0].name] + TableNames(specs[1..]);
    }
  }

  datatype IndexOutcome = IndexOutcome(found: seq<string>, missing: seq<string>, warnings: seq<Finding>)

  /** Checks each recommended index; a missing one is only a warning. */
  function IndexPass(ixs: seq<IndexSpec>, snap: Snapshot): (r: IndexOutcome)
    ensures |r.found| + |r.missing| == |ixs|
    ensures forall f :: f in r.warnings ==> f.MissingIndex?
    ensures forall n :: n in r.missing <==> exists t :: MissingIndex(n, t) in r.warnings
  {
    if ixs == [] then IndexOutcome([], [], [])
    else
      var ix := ixs[0];
      var rest := IndexPass(ixs[1..], snap);
      assert IndexNames(ixs) == [ix.name] + IndexNames(ixs[1..]);
      if ListedIndex(snap, ix.name) then
        IndexOutcome([ix.name] + rest.found, rest.missing, rest.warnings)
      else
        IndexOutcome(rest.found, [ix.name] + rest.missing, [MissingIndex(ix.name, ix.table)] + rest.warnings)
  }

  lemma {:induction false} IndexPassSplitsNames(ixs: seq<IndexSpec>, snap: Snapshot)
    ensures IndexPass(ixs, snap).found == Filter(IndexNames(ixs), n => ListedIndex(snap, n))
    ensures IndexPass(ixs, snap).missing == Filter(IndexNames(ixs), n => !ListedIndex(snap, n))
  {
    if ixs != [] {
      IndexPassSplitsNames(ixs[1..], snap);
      assert IndexNames(ixs) == [ixs[0].name] + IndexNames(ixs[1..]);
    }
  }

  /** The declared foreign keys of `table` absent from its listing. Listed
      keys the table does not declare are never reported. */
  function MissingForeignKeys(table: string, fks: seq<ForeignKey>, actual: seq<ActualForeignKey>): (r: seq<Finding>)
    ensures forall f :: f in r ==> f.MissingForeignKey? && f.table == table
    ensures forall fk :: MissingForeignKey(table, fk) in r <==> fk in fks && AsListed(fk) !in actual
    ensures r == [] <==> forall fk :: fk in fks ==> AsListed(fk) in actual
  {
    if fks == [] then []
    else
      assert forall x :: x in fks <==> x == fks[0] || x in fks[1..];
      (if AsListed(fks[0]) in actual then [] else [MissingForeignKey(table, fks[0])])
      + MissingForeignKeys(table, fks[1..], actual)
  }

  /** Enforcement on: every expected table, present or not, in declared
      order; a table whose listing fails gives a warning instead. */
  function ForeignKeyTables(specs: seq<TableSpec>, snap: Snapshot): (r: Findings)
    ensures forall f :: f in r.issues ==> f.MissingForeignKey?
    ensures forall f :: f in r.warnings ==> f.FkValidationError?
    ensures forall t, fk :: MissingForeignKey(t, fk) in r.issues <==>
      exists s :: s in specs && s.name == t && ForeignKeyAbsent(s, fk, snap)
    ensures r.issues == [] <==> forall s :: s in specs ==> ForeignKeysPresent(s, snap)
  {
    if specs == [] then Findings([], [])
    else
      var s := specs[0];
      assert forall x :: x in specs <==> x == s || x in specs[1..];
      var here :=
        if s.name in snap.fkFailures then Findings([], [FkValidationError(s.name)])
        else Findings(MissingForeignKeys(s.name, s.foreignKeys, ForeignKeysOf(snap, s.name)), []);
      Join(here, ForeignKeyTables(specs[1..], snap))
  }

  /** `fk` is declared by `s`, the listing of `s` succeeded and lacks it. */
  predicate ForeignKeyAbsent(s: TableSpec, fk: ForeignKey, snap: Snapshot)
  {
    fk in s.foreignKeys && s.name !in snap.fkFailures && AsListed(fk) !in ForeignKeysOf(snap, s.name)
  }

  predicate ForeignKeysPresent(s: TableSpec, snap: Snapshot)
  {
    s.name !in snap.fkFailures ==> forall fk :: fk in s.foreignKeys ==> AsListed(fk) in ForeignKeysOf(snap, s.name)
  }

  /** Enforcement off gives a single warning and no per-table check. */
  function ForeignKeyPass(specs: seq<TableSpec>, snap: Snapshot): (r: Findings)
    ensures !snap.foreignKeysEnabled ==> r == Findings([], [ForeignKeysDisabled])
    ensures snap.foreignKeysEnabled ==> r == ForeignKeyTables(specs, snap)
  {
    if !snap.foreignKeysEnabled then Findings([], [ForeignKeysDisabled])
    else ForeignKeyTables(specs, snap)
  }

  // ---------------------------------------------------------------------
  // The validator

  /** Nothing blocking anywhere: every expected table is listed with every
      expected column carrying the expected primary-key flag, and, when
      enforcement is on, every declared foreign key of a table whose listing
      succeeded is listed. Types, extra columns, indexes and listing failures
      play no part. */
  predicate Conforms(specs: seq<TableSpec>, snap: Snapshot)
  {
    && (forall s :: s in specs ==> TableConforms(s, snap))
    && (snap.foreignKeysEnabled ==> forall s :: s in specs ==> ForeignKeysPresent(s, snap))
  }

  /** The validator over a given expected model: table findings, then
      index warnings, then foreign-key findings; valid when no issue was
      raised. */
  function Run(specs: seq<TableSpec>, ixs: seq<IndexSpec>, snap: Snapshot): (r: Report)
    ensures r.summary.tablesFound + r.summary.tablesMissing == r.summary.tablesExpected == |specs|
    ensures r.summary.indexesFound + r.summary.indexesMissing == r.summary.indexesExpected == |ixs|
    ensures r.summary == Summary(|specs|, |r.tablesFound|, |r.tablesMissing|, |ixs|, |r.indexesFound|,
                                 |r.indexesMissing|, |r.issues|, |r.warnings|)
  {
    var tp := TablePass(specs, snap);
    var ip := IndexPass(ixs, snap);
    var fp := ForeignKeyPass(specs, snap);
    var issues := tp.findings.issues + fp.issues;
    var warnings := tp.findings.warnings + ip.warnings + fp.warnings;
    Report(
      |issues| == 0, issues, warnings, tp.found, tp.missing, ip.found, ip.missing,
      Summary(|specs|, |tp.found|, |tp.missing|, |ixs|, |ip.found|, |ip.missing|, |issues|, |warnings|))
  }

  /** The verdict: valid exactly when no issue was raised, which is exactly
      when the snapshot conforms. */
  lemma {:induction false} RunConforms(specs: seq<TableSpec>, ixs: seq<IndexSpec>, snap: Snapshot)
    ensures Run(specs, ixs, snap).isValid <==> Run(specs, ixs, snap).issues == []
    ensures Run(specs, ixs, snap).isValid <==> Conforms(specs, snap)
  {
    var tp := TablePass(specs, snap).findings.issues;
    var fp := ForeignKeyPass(specs, snap).issues;
    assert Run(specs, ixs, snap).issues == tp + fp;
  }

  /** Every expected table lands in exactly one of found and missing, in
      declared order; likewise every recommended index. */
  lemma {:induction false} RunSplitsNames(specs: seq<TableSpec>, ixs: seq<IndexSpec>, snap: Snapshot)
    ensures Run(specs, ixs, snap).tablesFound == Filter(TableNames(specs), n => ListedTable(snap, n))
    ensures Run(specs, ixs, snap).tablesMissing == Filter(TableNames(specs), n => !ListedTable(snap, n))
    ensures Run(specs, ixs, snap).indexesFound == Filter(IndexNames(ixs), n => ListedIndex(snap, n))
    ensures Run(specs, ixs, snap).indexesMissing == Filter(IndexNames(ixs), n => !ListedIndex(snap, n))
  {
    TablePassSplitsNames(specs, snap);
    IndexPassSplitsNames(ixs, snap);
  }

  /** The validator over the thirteen expected tables and two indexes. */
  function Validate(snap: Snapshot): (r: Report)
    ensures r.isValid <==> Conforms(ExpectedTables, snap)
    ensures r.isValid <==> r.issues == []
    ensures r.summary.tablesExpected == 13 && r.summary.indexesExpected == 2
    ensures |r.tablesFound| + |r.tablesMissing| == 13 && |r.indexesFound| + |r.indexesMissing| == 2
  {
    RunConforms(ExpectedTables, ExpectedIndexes, snap);
    Run(ExpectedTables, ExpectedIndexes, snap)
  }

  /** A store that cannot be opened or read is reported incompatible. */
  function CheckCompatibility(snap: Option<Snapshot>): (r: bool)
    ensures r <==> snap.Some? && Conforms(ExpectedTables, snap.value)
  {
    match snap
    case None => false
    case Some(s) => Validate(s).isValid
  }
}
