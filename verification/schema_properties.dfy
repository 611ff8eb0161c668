/** Properties of the schema-drift validator: how findings are classified,
    what each missing table or foreign key yields, and what never affects
    the verdict. */
module SchemaProperties {
  import opened Seqs
  import opened ExpectedSchema
  import opened Catalog
  import opened SchemaValidator
  import opened TypeCompat

  /** Blocking kinds only ever land among the issues and advisory kinds
      only among the warnings. */
  lemma {:induction false} FindingsClassified(specs: seq<TableSpec>, ixs: seq<IndexSpec>, snap: Snapshot)
    ensures forall f :: f in Run(specs, ixs, snap).issues ==> IsIssue(f)
    ensures forall f :: f in Run(specs, ixs, snap).warnings ==> !IsIssue(f)
  {
    IssuesAreBlocking(specs, ixs, snap);
    WarningsAreAdvisory(specs, ixs, snap);
  }

  lemma {:induction false} IssuesAreBlocking(specs: seq<TableSpec>, ixs: seq<IndexSpec>, snap: Snapshot)
    ensures forall f :: f in Run(specs, ixs, snap).issues ==> IsIssue(f)
  {
    var tp := TablePass(specs, snap).findings.issues;
    var fp := ForeignKeyPass(specs, snap).issues;
    assert Run(specs, ixs, snap).issues == tp + fp;
  }

  lemma AllSatisfy<T>(a: seq<T>, b: seq<T>, c: seq<T>, p: T -> bool)
    requires forall x :: x in a ==> p(x)
    requires forall x :: x in b ==> p(x)
    requires forall x :: x in c ==> p(x)
    ensures forall x :: x in a + b + c ==> p(x)
  {
  }

  lemma {:induction false} WarningsAreAdvisory(specs: seq<TableSpec>, ixs: seq<IndexSpec>, snap: Snapshot)
    ensures forall f :: f in Run(specs, ixs, snap).warnings ==> !IsIssue(f)
  {
    var tp := TablePass(specs, snap).findings.warnings;
    var ip := IndexPass(ixs, snap).warnings;
    var fp := ForeignKeyPass(specs, snap).warnings;
    assert forall f :: f in fp ==> f.ForeignKeysDisabled? || f.FkValidationError?;
    assert forall f :: f in tp ==> !IsIssue(f);
    assert forall f :: f in ip ==> !IsIssue(f);
    assert forall f :: f in fp ==> !IsIssue(f);
    AllSatisfy(tp, ip, fp, f => !IsIssue(f));
    assert Run(specs, ixs, snap).warnings == tp + ip + fp;
  }

  lemma {:induction false} MissingTableCount(specs: seq<TableSpec>, snap: Snapshot, n: string)
    requires Distinct(TableNames(specs))
    ensures multiset(TablePass(specs, snap).findings.issues)[MissingTable(n)]
      == if n in TableNames(specs) && !ListedTable(snap, n) then 1 else 0
  {
    if specs != [] {
      var s := specs[0];
      var names := TableNames(specs);
      var restNames := TableNames(specs[1..]);
      assert names == [s.name] + restNames;
      assert Distinct(restNames) by {
        forall i, j | 0 <= i < j < |restNames| ensures restNames[i] != restNames[j] {
          assert names[i + 1] == restNames[i] && names[j + 1] == restNames[j];
        }
      }
      MissingTableCount(specs[1..], snap, n);
      var here := TableCheck(s, snap);
      var rest := TablePass(specs[1..], snap);
      assert TablePass(specs, snap).findings.issues == here.issues + rest.findings.issues;
      assert n == s.name ==> n !in restNames;
      if ListedTable(snap, s.name) {
        assert MissingTable(n) !in here.issues;
        assert multiset(here.issues)[MissingTable(n)] == 0;
      } else {
        assert here.issues == [MissingTable(s.name)];
      }
    }
  }

  lemma {:induction false} IssuesSplit(specs: seq<TableSpec>, ixs: seq<IndexSpec>, snap: Snapshot)
    ensures Run(specs, ixs, snap).issues == TablePass(specs, snap).findings.issues + ForeignKeyPass(specs, snap).issues
    ensures forall f :: f in ForeignKeyPass(specs, snap).issues ==> f.MissingForeignKey?
  {
  }

  lemma CountInConcat<T>(a: seq<T>, b: seq<T>, x: T)
    requires x !in b
    ensures multiset(a + b)[x] == multiset(a)[x]
  {
    assert multiset(a + b) == multiset(a) + multiset(b);
  }

  lemma {:induction false} MissingTableCountAt(specs: seq<TableSpec>, snap: Snapshot, k: int)
    requires Distinct(TableNames(specs))
    requires 0 <= k < |specs| && !ListedTable(snap, specs[k].name)
    ensures multiset(TablePass(specs, snap).findings.issues)[MissingTable(specs[k].name)] == 1
  {
    MissingTableCount(specs, snap, specs[k].name);
    assert TableNames(specs)[k] == specs[k].name;
  }

  lemma {:induction false} TableIssueCountInRun(specs: seq<TableSpec>, ixs: seq<IndexSpec>, snap: Snapshot, x: Finding)
    requires x.MissingTable?
    ensures multiset(Run(specs, ixs, snap).issues)[x] == multiset(TablePass(specs, snap).findings.issues)[x]
  {
    IssuesSplit(specs, ixs, snap);
    CountInConcat(TablePass(specs, snap).findings.issues, ForeignKeyPass(specs, snap).issues, x);
  }

  /** Each expected table that is not listed yields exactly one
      missing-table issue. */
  lemma {:induction false} MissingTableReportedOnce(specs: seq<TableSpec>, ixs: seq<IndexSpec>, snap: Snapshot, k: int)
    requires Distinct(TableNames(specs))
    requires 0 <= k < |specs| && !ListedTable(snap, specs[k].name)
    ensures multiset(Run(specs, ixs, snap).issues)[MissingTable(specs[k].name)] == 1
  {
    MissingTableCountAt(specs, snap, k);
    TableIssueCountInRun(specs, ixs, snap, MissingTable(specs[k].name));
  }

  /** A table that is not listed gets no column, primary-key, type or
      extra-column finding. */
  lemma {:induction false} MissingTableHasNoColumnFindings(specs: seq<TableSpec>, ixs: seq<IndexSpec>, snap: Snapshot, name: string)
    requires !ListedTable(snap, name)
    ensures forall f :: f in Run(specs, ixs, snap).issues && (f.MissingColumn? || f.PrimaryKeyMismatch?) ==>
      f.table != name
    ensures forall f :: f in Run(specs, ixs, snap).warnings && (f.TypeMismatch? || f.ExtraColumn?) ==>
      f.table != name
  {
    var tp := TablePass(specs, snap).findings;
    var ip := IndexPass(ixs, snap).warnings;
    var fp := ForeignKeyPass(specs, snap);
    assert Run(specs, ixs, snap).issues == tp.issues + fp.issues;
    assert Run(specs, ixs, snap).warnings == tp.warnings + ip + fp.warnings;
    assert forall f :: f in fp.warnings ==> f.ForeignKeysDisabled? || f.FkValidationError?;
  }

  /** Enforcement off: exactly one foreign-keys-disabled warning and no
      missing-foreign-key issue. */
  lemma {:induction false} ForeignKeysDisabledOnce(specs: seq<TableSpec>, ixs: seq<IndexSpec>, snap: Snapshot)
    requires !snap.foreignKeysEnabled
    ensures multiset(Run(specs, ixs, snap).warnings)[ForeignKeysDisabled] == 1
    ensures forall f :: f in Run(specs, ixs, snap).issues ==> !f.MissingForeignKey?
  {
    var tp := TablePass(specs, snap).findings;
    var ip := IndexPass(ixs, snap).warnings;
    assert Run(specs, ixs, snap).warnings == tp.warnings + ip + [ForeignKeysDisabled];
    assert Run(specs, ixs, snap).issues == tp.issues;
    assert ForeignKeysDisabled !in tp.warnings;
    assert ForeignKeysDisabled !in ip;
    assert multiset(tp.warnings + ip + [ForeignKeysDisabled])
      == multiset(tp.warnings) + multiset(ip) + multiset{ForeignKeysDisabled};
  }

  /** Enforcement on: a missing-foreign-key issue is raised exactly for the
      declared keys absent from a table's listing; listed keys nobody
      declared are never flagged. */
  lemma {:induction false} ForeignKeyIssuesExact(specs: seq<TableSpec>, ixs: seq<IndexSpec>, snap: Snapshot, t: string, fk: ForeignKey)
    requires snap.foreignKeysEnabled
    ensures MissingForeignKey(t, fk) in Run(specs, ixs, snap).issues <==>
      exists s :: s in specs && s.name == t && ForeignKeyAbsent(s, fk, snap)
  {
    var tp := TablePass(specs, snap);
    assert MissingForeignKey(t, fk) !in tp.findings.issues;
  }

  /** A table the store lacks lists no foreign keys, so with enforcement on
      each key it declares is reported missing, besides the table itself. */
  lemma MissingTableKeysReported(specs: seq<TableSpec>, ixs: seq<IndexSpec>, snap: Snapshot,
                                     s: TableSpec)
    requires Coherent(snap) && snap.foreignKeysEnabled
    requires s in specs && s.name !in snap.tables
    ensures MissingTable(s.name) in Run(specs, ixs, snap).issues
    ensures forall fk :: fk in s.foreignKeys ==> MissingForeignKey(s.name, fk) in Run(specs, ixs, snap).issues
  {
  }

  /** Index warnings never decide validity: the verdict is the same
      whichever indexes the store lists, and with no recommended index at
      all. */
  lemma {:induction false} WarningsNeverBlock(specs: seq<TableSpec>, ixs: seq<IndexSpec>, snap: Snapshot, indexes: set<string>)
    ensures Run(specs, ixs, snap).isValid == Run(specs, ixs, snap.(indexes := indexes)).isValid
    ensures Run(specs, ixs, snap).isValid == Run(specs, [], snap).isValid
  {
    var snap' := snap.(indexes := indexes);
    RunConforms(specs, ixs, snap);
    RunConforms(specs, ixs, snap');
    RunConforms(specs, [], snap);
    assert forall s :: TableConforms(s, snap) == TableConforms(s, snap');
    assert forall s :: ForeignKeysPresent(s, snap) == ForeignKeysPresent(s, snap');
  }

  /** Two listings that differ at most in their not-null flags. */
  predicate SameButNotNull(a: seq<ActualColumn>, b: seq<ActualColumn>)
  {
    |a| == |b| && forall i :: 0 <= i < |a| ==> a[i].(notNull := b[i].notNull) == b[i]
  }

  lemma {:induction false} LookupIgnoresNotNull(a: seq<ActualColumn>, b: seq<ActualColumn>, n: string)
    requires SameButNotNull(a, b)
    ensures LookupColumn(a, n).Some? == LookupColumn(b, n).Some?
    ensures LookupColumn(a, n).Some? ==>
      LookupColumn(a, n).value.(notNull := LookupColumn(b, n).value.notNull) == LookupColumn(b, n).value
  {
    if a != [] {
      var k := |a| - 1;
      if a[k].name != n {
        assert SameButNotNull(a[..k], b[..k]);
        LookupIgnoresNotNull(a[..k], b[..k], n);
      }
    }
  }

  /** The not-null flag is never compared: listings that differ only in it
      give the same column findings and the same extra columns. */
  lemma {:induction false} NotNullNeverCompared(table: string, cols: seq<ColumnSpec>, a: seq<ActualColumn>, b: seq<ActualColumn>, expected: seq<string>)
    requires SameButNotNull(a, b)
    ensures ColumnPass(table, cols, a) == ColumnPass(table, cols, b)
    ensures ExtraColumns(table, a, expected) == ExtraColumns(table, b, expected)
  {
    assert ActualNames(a) == ActualNames(b);
    if cols != [] {
      LookupIgnoresNotNull(a, b, cols[0].name);
      NotNullNeverCompared(table, cols[1..], a, b, expected);
    }
  }

  // ---------------------------------------------------------------------
  // A store built exactly from the expected model

  /** The listing of `s` gives back what `s` declares: every declared column
      is listed with the declared type (once upper-cased) and primary-key
      flag, and no other column is listed. */
  predicate ColumnsExactly(s: TableSpec, actual: seq<ActualColumn>)
  {
    && (forall c :: c in s.columns ==>
          && LookupColumn(actual, c.name).Some?
          && Upper(LookupColumn(actual, c.name).value.declType) == c.colType
          && LookupColumn(actual, c.name).value.pk == c.pk)
    && (forall n :: n in ActualNames(actual) ==> n in ColumnNames(s.columns))
  }

  /** The store holds the expected model and nothing else: enforcement on,
      every foreign-key listing succeeds, every recommended index is listed,
      and every expected table is listed with exactly its columns and at
      least its declared foreign keys. */
  predicate MatchesExactly(specs: seq<TableSpec>, ixs: seq<IndexSpec>, snap: Snapshot)
  {
    && snap.foreignKeysEnabled
    && snap.fkFailures == {}
    && (forall ix :: ix in ixs ==> ListedIndex(snap, ix.name))
    && (forall s :: s in specs ==>
          && ListedTable(snap, s.name)
          && ColumnsExactly(s, ColumnsOf(snap, s.name))
          && (forall fk :: fk in s.foreignKeys ==> AsListed(fk) in ForeignKeysOf(snap, s.name)))
  }

  lemma {:induction false} ExactTablesWarnNothing(specs: seq<TableSpec>, snap: Snapshot)
    requires forall s :: s in specs ==> ListedTable(snap, s.name) && ColumnsExactly(s, ColumnsOf(snap, s.name))
    ensures TablePass(specs, snap).findings.warnings == []
  {
    if specs != [] {
      var s := specs[0];
      var actual := ColumnsOf(snap, s.name);
      assert forall x :: x in specs[1..] ==> x in specs;
      ExactTablesWarnNothing(specs[1..], snap);
      var cp := ColumnPass(s.name, s.columns, actual);
      forall c | c in s.columns ensures !TypeDrifts(actual, c) {
        assert IsTypeCompatible(c.colType, c.colType);
      }
      forall f ensures f !in cp.warnings {
        if f.TypeMismatch? {
          assert f == TypeMismatch(f.table, f.column, f.expected, f.actual);
        }
      }
      EmptyWithoutMembers(cp.warnings);
      var extra := ExtraColumns(s.name, actual, ColumnNames(s.columns));
      forall f ensures f !in extra {
        if f.ExtraColumn? {
          assert f == ExtraColumn(f.table, f.column);
        }
      }
      EmptyWithoutMembers(extra);
    }
  }

  lemma {:induction false} ListedIndexesWarnNothing(ixs: seq<IndexSpec>, snap: Snapshot)
    requires forall ix :: ix in ixs ==> ListedIndex(snap, ix.name)
    ensures IndexPass(ixs, snap).warnings == []
  {
    if ixs != [] {
      assert forall x :: x in ixs[1..] ==> x in ixs;
      ListedIndexesWarnNothing(ixs[1..], snap);
    }
  }

  lemma {:induction false} ListingsSucceedWarnNothing(specs: seq<TableSpec>, snap: Snapshot)
    requires snap.fkFailures == {}
    ensures ForeignKeyTables(specs, snap).warnings == []
  {
    if specs != [] {
      ListingsSucceedWarnNothing(specs[1..], snap);
    }
  }

  /** A store holding exactly the expected model is valid with neither an
      issue nor a warning. */
  lemma {:induction false} ExactStoreIsClean(specs: seq<TableSpec>, ixs: seq<IndexSpec>, snap: Snapshot)
    requires MatchesExactly(specs, ixs, snap)
    ensures Run(specs, ixs, snap).isValid
    ensures Run(specs, ixs, snap).issues == [] && Run(specs, ixs, snap).warnings == []
  {
    ExactTablesWarnNothing(specs, snap);
    ListedIndexesWarnNothing(ixs, snap);
    ListingsSucceedWarnNothing(specs, snap);
    forall s | s in specs ensures TableConforms(s, snap) && ForeignKeysPresent(s, snap) {
      assert ColumnsExactly(s, ColumnsOf(snap, s.name));
    }
    RunConforms(specs, ixs, snap);
  }

  /** The same for the thirteen expected tables and two indexes. */
  lemma ExactStorePassesValidation(snap: Snapshot)
    requires MatchesExactly(ExpectedTables, ExpectedIndexes, snap)
    ensures Validate(snap).isValid && Validate(snap).issues == [] && Validate(snap).warnings == []
  {
    ExactStoreIsClean(ExpectedTables, ExpectedIndexes, snap);
  }
}
