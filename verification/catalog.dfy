/** What introspecting a store reports: the abstract catalog snapshot the
    validator is given in place of a live connection. */
module Catalog {
  import opened Outcomes
  import opened ExpectedSchema

  /** One row of a table's column listing: name, declared type as written,
      not-null flag and primary-key flag. */
  datatype ActualColumn = ActualColumn(name: string, declType: string, notNull: bool, pk: bool)

  /** One row of a table's foreign-key listing. `toColumn` is `None` when the
      reference names only the parent table (an implicit primary key). */
  datatype ActualForeignKey = ActualForeignKey(fromColumn: string, toTable: string, toColumn: Option<string>)

  /** `tables` and `indexes` are the names the catalog lists; `columns` and
      `foreignKeys` are each table's listings (a name absent from a map lists
      nothing); `fkFailures` are the tables whose foreign-key listing fails;
      `foreignKeysEnabled` is the enforcement flag of the connection. */
  datatype Snapshot = Snapshot(
    tables: set<string>,
    columns: map<string, seq<ActualColumn>>,
    foreignKeys: map<string, seq<ActualForeignKey>>,
    fkFailures: set<string>,
    indexes: set<string>,
    foreignKeysEnabled: bool)

  function LowerChar(c: char): char
  {
    if 'A' <= c <= 'Z' then (c as int + 32) as char else c
  }

  /** `name LIKE 'sqlite_%'`: at least seven characters, the first six spell
      "sqlite" ignoring ASCII case, `_` matches any one character and `%`
      the rest. */
  predicate IsSqliteInternal(name: string)
  {
    && |name| >= 7
    && forall i :: 0 <= i < 6 ==> LowerChar(name[i]) == "sqlite"[i]
  }

  /** The catalog queries skip internal names. */
  predicate ListedTable(snap: Snapshot, name: string)
  {
    name in snap.tables && !IsSqliteInternal(name)
  }

  predicate ListedIndex(snap: Snapshot, name: string)
  {
    name in snap.indexes && !IsSqliteInternal(name)
  }

  function ColumnsOf(snap: Snapshot, table: string): seq<ActualColumn>
  {
    if table in snap.columns then snap.columns[table] else []
  }

  function ForeignKeysOf(snap: Snapshot, table: string): seq<ActualForeignKey>
  {
    if table in snap.foreignKeys then snap.foreignKeys[table] else []
  }

  /** A snapshot a real store can give: only a table that exists has a
      foreign-key listing, and only its listing can fail. */
  predicate Coherent(snap: Snapshot)
  {
    snap.foreignKeys.Keys + snap.fkFailures <= snap.tables
  }

  function ActualNames(cols: seq<ActualColumn>): (r: seq<string>)
    ensures |r| == |cols|
    ensures forall i :: 0 <= i < |cols| ==> r[i] == cols[i].name
  {
    if cols == [] then [] else [cols[0].name] + ActualNames(cols[1..])
  }

  /** The listing read into a dictionary keyed by name: a later row with the
      same name replaces an earlier one, so the last row wins. */
  function LookupColumn(cols: seq<ActualColumn>, name: string): (r: Option<ActualColumn>)
    ensures r.Some? ==> r.value in cols && r.value.name == name
  {
    if cols == [] then None
    else if cols[|cols| - 1].name == name then Some(cols[|cols| - 1])
    else LookupColumn(cols[..|cols| - 1], name)
  }

  /** The lookup misses exactly when no row has the name. */
  lemma {:induction false} LookupColumnMisses(cols: seq<ActualColumn>, name: string)
    ensures LookupColumn(cols, name).None? <==> forall i :: 0 <= i < |cols| ==> cols[i].name != name
  {
    if cols != [] && cols[|cols| - 1].name != name {
      var init := cols[..|cols| - 1];
      LookupColumnMisses(init, name);
      assert forall i :: 0 <= i < |init| ==> init[i] == cols[i];
    }
  }

  /** A hit is the last row that has the name. */
  lemma {:induction false} LookupColumnLast(cols: seq<ActualColumn>, name: string)
    ensures LookupColumn(cols, name).Some? ==>
      exists i :: LastNamed(cols, name, i) && cols[i] == LookupColumn(cols, name).value
  {
    if cols != [] {
      var k := |cols| - 1;
      if cols[k].name == name {
        assert LastNamed(cols, name, k);
      } else {
        var init := cols[..k];
        LookupColumnLast(init, name);
        if LookupColumn(init, name).Some? {
          var i :| LastNamed(init, name, i) && init[i] == LookupColumn(init, name).value;
          forall j | i < j < |cols| ensures cols[j].name != name {
            if j < k {
              assert cols[j] == init[j];
            }
          }
          assert LastNamed(cols, name, i) && cols[i] == init[i];
        }
      }
    }
  }

  /** Position `i` holds the last row called `name`. */
  predicate LastNamed(cols: seq<ActualColumn>, name: string, i: int)
  {
    && 0 <= i < |cols|
    && cols[i].name == name
    && forall j :: i < j < |cols| ==> cols[j].name != name
  }

  /** How an expected foreign key appears in a listing when it is declared
      with an explicit target column. */
  function AsListed(fk: ForeignKey): ActualForeignKey
  {
    ActualForeignKey(fk.fromColumn, fk.toTable, Some(fk.toColumn))
  }

  lemma ReservedPrefix()
    ensures IsSqliteInternal("sqlite_sequence")
    ensures IsSqliteInternal("SQLite_stat1")
    ensures IsSqliteInternal("sqliteXtab")
    ensures IsSqliteInternal("sqlite_")
    ensures !IsSqliteInternal("sqlite")
    ensures !IsSqliteInternal("tag_table")
  {
    assert LowerChar("tag_table"[0]) != "sqlite"[0];
  }
}
