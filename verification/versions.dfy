/** The two version registries, `core_lib_table` and `algorithm_table`.
    They have the same shape and the same write path: a version string, an
    update note, an optional base version (a link to an earlier row of the
    same table) and a unique commit hash. */
module Versions {
  import opened Outcomes
  import opened Tables
  import opened CommitHash

  datatype Registry = CoreLib | Algorithm

  function TableName(reg: Registry): string
  {
    match reg
    case CoreLib => "core_lib_table"
    case Algorithm => "algorithm_table"
  }

  /** The column whose UNIQUE constraint a duplicate hash violates. */
  function HashColumn(reg: Registry): string
  {
    match reg
    case CoreLib => "core_lib_commit_hash"
    case Algorithm => "algorithm_commit_hash"
  }

  datatype Version = Version(version: string, updateInfo: string, baseId: Option<int>, commitHash: string)

  type VersionTable = seq<Entry<Version>>

  predicate HashTaken(t: VersionTable, hash: string)
  {
    exists i :: 0 <= i < |t| && t[i].row.commitHash == hash
  }

  /** The foreign key on the base version holds once the row is in: no
      base, an existing row, or the row itself (SQLite checks a
      self-reference after the insert, when the new row exists). */
  predicate BaseResolves(t: VersionTable, base: Option<int>)
  {
    base.None? || HasId(t, base.value) || base.value == NextId(t)
  }

  /** No two rows share a commit hash (the UNIQUE constraint). */
  predicate DistinctHashes(t: VersionTable)
  {
    forall i, j :: 0 <= i < j < |t| ==> t[i].row.commitHash != t[j].row.commitHash
  }

  /** The table's keys: ids are unique and so are commit hashes. */
  predicate Keyed(t: VersionTable)
  {
    UniqueIds(t) && DistinctHashes(t)
  }

  /** Every stored base version names a stored row. */
  predicate BasesResolve(t: VersionTable)
  {
    forall i :: 0 <= i < |t| && t[i].row.baseId.Some? ==> HasId(t, t[i].row.baseId.value)
  }

  /** Registering a version: the hash format is checked before the store is
      touched; then the insert fails on the UNIQUE hash column before the
      foreign key on the base version is checked; on every failure the
      table is unchanged. On success the row is appended under a fresh id. */
  function CreateVersion(reg: Registry, t: VersionTable, version: string, updateInfo: string,
                         hash: string, base: Option<int>): (w: Write<Entry<Version>, int>)
    ensures w.result.Ok? <==> IsValidCommitHash(hash) && !HashTaken(t, hash) && BaseResolves(t, base)
    ensures w.result.Err? ==> w.rows == t
    ensures !IsValidCommitHash(hash) ==> w.result == Err(ValidationError(Some("commit_hash")))
    ensures IsValidCommitHash(hash) && HashTaken(t, hash) ==>
      w.result == Err(UniqueConstraintError(TableName(reg), HashColumn(reg)))
    ensures IsValidCommitHash(hash) && !HashTaken(t, hash) && !BaseResolves(t, base) ==>
      w.result == Err(ConstraintError(TableName(reg)))
    ensures w.result.Ok? ==>
      && w.rows == t + [Entry(w.result.value, Version(version, updateInfo, base, hash))]
      && forall i :: 0 <= i < |t| ==> t[i].id < w.result.value
  {
    match CheckCommitHash(hash)
    case Some(e) => Write(t, Err(e))
    case None =>
      if HashTaken(t, hash) then Write(t, Err(UniqueConstraintError(TableName(reg), HashColumn(reg))))
      else if !BaseResolves(t, base) then Write(t, Err(ConstraintError(TableName(reg))))
      else Write(Appended(t, Version(version, updateInfo, base, hash)), Ok(NextId(t)))
  }

  /** Registration runs the corrected hash rule: forty hex digits followed
      by a newline, which the pattern as written lets through, are
      rejected before the store is touched. */
  lemma CreateVersionRejectsTrailingNewline(reg: Registry, t: VersionTable, version: string, updateInfo: string,
                                            base: Option<int>)
    ensures var s := seq(40, i => 'a') + "\n";
      && MatchesAsWritten(s)
      && CreateVersion(reg, t, version, updateInfo, s, base) == Write(t, Err(ValidationError(Some("commit_hash"))))
  {
    AsWrittenCounterexample();
  }

  /** A successful registration keeps both keys and the base-version
      foreign key intact. */
  lemma CreateVersionKeepsInvariants(reg: Registry, t: VersionTable, version: string, updateInfo: string,
                                     hash: string, base: Option<int>)
    requires Keyed(t) && BasesResolve(t)
    ensures Keyed(CreateVersion(reg, t, version, updateInfo, hash, base).rows)
    ensures BasesResolve(CreateVersion(reg, t, version, updateInfo, hash, base).rows)
  {
    var w := CreateVersion(reg, t, version, updateInfo, hash, base);
    if w.result.Ok? {
      var r := w.rows;
      var n := w.result.value;
      AppendedKeepsIds(t, Version(version, updateInfo, base, hash));
      forall i, j | 0 <= i < j < |r| ensures r[i].row.commitHash != r[j].row.commitHash {
        if j == |t| {
          assert r[i] == t[i];
        } else {
          assert r[i] == t[i] && r[j] == t[j];
        }
      }
      forall i | 0 <= i < |r| && r[i].row.baseId.Some? ensures HasId(r, r[i].row.baseId.value) {
        var b := r[i].row.baseId.value;
        if i < |t| {
          assert r[i] == t[i];
          var k :| 0 <= k < |t| && t[k].id == b;
          assert r[k] == t[k];
        } else if HasId(t, b) {
          var k :| 0 <= k < |t| && t[k].id == b;
          assert r[k] == t[k];
        } else {
          assert r[|t|].id == n == b;
        }
      }
    }
  }

  /** `get_*_version`: the row under `id`, or NotFound naming the table. */
  function GetVersion(reg: Registry, t: VersionTable, id: int): (r: Result<Entry<Version>>)
    ensures r.Err? <==> !HasId(t, id)
    ensures r.Err? ==> r.error == NotFoundError(TableName(reg), id)
    ensures r.Ok? ==> r.value in t && r.value.id == id
  {
    match Find(t, id)
    case None => Err(NotFoundError(TableName(reg), id))
    case Some(v) => Ok(Entry(id, v))
  }

  predicate NoVersionBefore(t: VersionTable, k: int, version: string)
    requires 0 <= k <= |t|
  {
    forall j :: 0 <= j < k ==> t[j].row.version != version
  }

  /** `find_*_by_version`: the first stored row with that version string. */
  function FindByVersion(t: VersionTable, version: string): (r: Option<Entry<Version>>)
    ensures r.None? <==> forall i :: 0 <= i < |t| ==> t[i].row.version != version
    ensures r.Some? ==> r.value.row.version == version
    ensures r.Some? ==> exists k :: 0 <= k < |t| && t[k] == r.value && NoVersionBefore(t, k, version)
  {
    var k := FirstWhere(t, (v: Version) => v.version == version);
    if k < |t| then Some(t[k]) else None
  }

  /** `find_*_by_commit_hash`: the row with that hash, if any. */
  function FindByCommitHash(t: VersionTable, hash: string): (r: Option<Entry<Version>>)
    ensures r.None? <==> !HashTaken(t, hash)
    ensures r.Some? ==> r.value in t && r.value.row.commitHash == hash
  {
    var k := FirstWhere(t, (v: Version) => v.commitHash == hash);
    if k < |t| then Some(t[k]) else None
  }

  /** Hashes are keys: in a keyed table, looking a stored row's hash up
      returns that row. */
  lemma {:induction false} FindByCommitHashStored(t: VersionTable, i: int)
    requires Keyed(t) && 0 <= i < |t|
    ensures FindByCommitHash(t, t[i].row.commitHash) == Some(t[i])
  {
    var hash := t[i].row.commitHash;
    var k := FirstWhere(t, (v: Version) => v.commitHash == hash);
    assert k <= i;
  }

  /** A registered version can be read back by id and by hash. */
  lemma CreatedIsRetrievable(reg: Registry, t: VersionTable, version: string, updateInfo: string,
                             hash: string, base: Option<int>)
    requires Keyed(t) && BasesResolve(t)
    requires CreateVersion(reg, t, version, updateInfo, hash, base).result.Ok?
    ensures var w := CreateVersion(reg, t, version, updateInfo, hash, base);
      var e := Entry(w.result.value, Version(version, updateInfo, base, hash));
      GetVersion(reg, w.rows, w.result.value) == Ok(e) && FindByCommitHash(w.rows, hash) == Some(e)
  {
    var w := CreateVersion(reg, t, version, updateInfo, hash, base);
    CreateVersionKeepsInvariants(reg, t, version, updateInfo, hash, base);
    AppendedKeepsIds(t, Version(version, updateInfo, base, hash));
    FindByCommitHashStored(w.rows, |t|);
  }

  /** `get_latest_algorithm_version`: the row with the largest id, none on
      an empty table. */
  function LatestVersion(t: VersionTable): (r: Option<Entry<Version>>)
    ensures r.None? <==> t == []
    ensures r.Some? ==> r.value in t && forall i :: 0 <= i < |t| ==> t[i].id <= r.value.id
  {
    Latest(t)
  }

  /** The newest registration is the latest version. */
  lemma CreatedIsLatest(reg: Registry, t: VersionTable, version: string, updateInfo: string,
                        hash: string, base: Option<int>)
    requires UniqueIds(t)
    requires CreateVersion(reg, t, version, updateInfo, hash, base).result.Ok?
    ensures var w := CreateVersion(reg, t, version, updateInfo, hash, base);
      LatestVersion(w.rows) == Some(Entry(w.result.value, Version(version, updateInfo, base, hash)))
  {
    var w := CreateVersion(reg, t, version, updateInfo, hash, base);
    var l := LatestVersion(w.rows).value;
    AppendedKeepsIds(t, Version(version, updateInfo, base, hash));
    assert w.rows[|t|].id <= l.id;
    var k :| 0 <= k < |w.rows| && w.rows[k] == l;
    assert k == |t|;
  }
}
