/** The data-integrity audit: tags whose interval is empty or reversed,
    tags whose video or task row is missing, and commit hashes stored more
    than once in either version registry. The store's own foreign-key
    report is not part of this model. */
module IntegrityAudit {
  import opened Outcomes
  import opened Seqs
  import opened Tables
  import opened Tags
  import opened Versions

  /** A tag whose end does not come after its start. */
  predicate BadInterval(e: Entry<Tag>)
  {
    e.row.start >= e.row.end
  }

  /** `frame_validation`: the stored tags with `start >= end`, in storage
      order. */
  function FrameViolations(t: TagTable): (r: TagTable)
    ensures |r| <= |t|
    ensures forall e :: e in r <==> e in t && e.row.start >= e.row.end
  {
    Filter(t, BadInterval)
  }

  /** Each violating tag is listed as often as it is stored, and no other
      tag is listed. */
  lemma FrameViolationsKeepCopies(t: TagTable, e: Entry<Tag>)
    ensures multiset(FrameViolations(t))[e] == if e.row.start >= e.row.end then multiset(t)[e] else 0
  {
    FilterCount(t, BadInterval, e);
  }

  /** Every stored interval is non-empty. */
  predicate IntervalsNonEmpty(t: TagTable)
  {
    forall i :: 0 <= i < |t| ==> t[i].row.start < t[i].row.end
  }

  /** Nothing is reported exactly when every interval is non-empty. */
  lemma FrameViolationsEmptyIff(t: TagTable)
    ensures FrameViolations(t) == [] <==> IntervalsNonEmpty(t)
  {
    var r := FrameViolations(t);
    if r != [] {
      assert r[0] in t;
    }
    if !IntervalsNonEmpty(t) {
      var i :| 0 <= i < |t| && t[i].row.start >= t[i].row.end;
      assert t[i] in r;
    }
  }

  /** Start 10 / end 5 is reported; start 5 / end 10 is not. */
  lemma FrameViolationsExample()
    ensures FrameViolations([Entry(1, Tag(1, 1, 10, 5)), Entry(2, Tag(1, 1, 5, 10))]) == [Entry(1, Tag(1, 1, 10, 5))]
  {
    var t := [Entry(1, Tag(1, 1, 10, 5)), Entry(2, Tag(1, 1, 5, 10))];
    assert t[1..][1..] == [];
    assert Filter(t[1..], BadInterval) == [];
  }

  function VideoOf(g: Tag): int
  {
    g.videoId
  }

  function TaskOf(g: Tag): int
  {
    g.taskId
  }

  /** Every tag's reference `key` names a row of `parents`. */
  predicate RefsExist(t: TagTable, parents: set<int>, key: Tag -> int)
  {
    forall i :: 0 <= i < |t| ==> key(t[i].row) in parents
  }

  /** The number of tags whose reference `key` names no row of `parents`:
      the count of a left join on that reference where the parent side is
      missing. */
  function OrphanCount(t: TagTable, parents: set<int>, key: Tag -> int): (n: nat)
    ensures n <= |t|
    ensures n == 0 <==> RefsExist(t, parents, key)
    decreases |t|
  {
    if t == [] then 0
    else
      var init := t[..|t| - 1];
      assert forall i :: 0 <= i < |init| ==> init[i] == t[i];
      OrphanCount(init, parents, key) + (if key(t[|t| - 1].row) in parents then 0 else 1)
  }

  /** Whether the tag's reference `key` names no row of `parents`. */
  function Orphaned(parents: set<int>, key: Tag -> int): Entry<Tag> -> bool
  {
    (e: Entry<Tag>) => key(e.row) !in parents
  }

  /** The count is the number of orphaned tags: as many as a selection of
      them holds. */
  lemma {:induction false} OrphanCountIsSelection(t: TagTable, parents: set<int>, key: Tag -> int)
    ensures OrphanCount(t, parents, key) == |Filter(t, Orphaned(parents, key))|
    decreases |t|
  {
    if t != [] {
      var init := t[..|t| - 1];
      var last := t[|t| - 1];
      OrphanCountIsSelection(init, parents, key);
      assert t == init + [last];
      FilterConcat(init, [last], Orphaned(parents, key));
      assert [last][1..] == [];
    }
  }

  /** `create_tag` never adds an orphan: the foreign keys reject a tag
      whose video or task is missing. */
  lemma CreateTagAddsNoOrphans(t: TagTable, videos: set<int>, tasks: set<int>,
                               videoId: int, taskId: int, start: int, end: int)
    ensures var r := CreateTag(t, videos, tasks, videoId, taskId, start, end).rows;
      OrphanCount(r, videos, VideoOf) == OrphanCount(t, videos, VideoOf) &&
      OrphanCount(r, tasks, TaskOf) == OrphanCount(t, tasks, TaskOf)
  {
    var r := CreateTag(t, videos, tasks, videoId, taskId, start, end).rows;
    if r != t {
      assert r[..|r| - 1] == t;
    }
  }

  /** The list of hashes of a version table, in storage order. */
  function Hashes(t: VersionTable): (hs: seq<string>)
    ensures |hs| == |t|
    ensures forall i :: 0 <= i < |t| ==> hs[i] == t[i].row.commitHash
  {
    seq(|t|, i requires 0 <= i < |t| => t[i].row.commitHash)
  }

  /** How many rows of `t` carry `hash`. */
  function Occurrences(t: VersionTable, hash: string): nat
  {
    multiset(Hashes(t))[hash]
  }

  /** One group of the duplicate-hash query: the hash and its row count. */
  datatype HashCount = HashCount(hash: string, count: nat)

  /** `GROUP BY hash HAVING COUNT(*) > 1`: every hash stored more than once,
      each once, with the number of rows carrying it. The order of the
      groups is not promised; this model lists them by first occurrence. */
  function DuplicateHashes(t: VersionTable): (r: seq<HashCount>)
    ensures forall i :: 0 <= i < |r| ==> r[i].count == Occurrences(t, r[i].hash) && r[i].count > 1
    ensures forall i, j :: 0 <= i < j < |r| ==> r[i].hash != r[j].hash
    ensures forall h :: Occurrences(t, h) > 1 ==> exists i :: 0 <= i < |r| && r[i].hash == h
  {
    var hs := Hashes(t);
    var repeated := (h: string) => multiset(hs)[h] > 1;
    var d := Filter(Dedup(hs), repeated);
    FilterKeepsDistinct(Dedup(hs), repeated);
    var r := seq(|d|, i requires 0 <= i < |d| => HashCount(d[i], multiset(hs)[d[i]]));
    GroupsFacts(t, d, r);
    r
  }

  lemma GroupsFacts(t: VersionTable, d: seq<string>, r: seq<HashCount>)
    requires Distinct(d)
    requires forall h :: h in d <==> h in Hashes(t) && Occurrences(t, h) > 1
    requires |r| == |d| && forall i :: 0 <= i < |d| ==> r[i] == HashCount(d[i], Occurrences(t, d[i]))
    ensures forall i :: 0 <= i < |r| ==> r[i].count == Occurrences(t, r[i].hash) && r[i].count > 1
    ensures forall i, j :: 0 <= i < j < |r| ==> r[i].hash != r[j].hash
    ensures forall h :: Occurrences(t, h) > 1 ==> exists i :: 0 <= i < |r| && r[i].hash == h
  {
    forall i | 0 <= i < |r| ensures r[i].count == Occurrences(t, r[i].hash) && r[i].count > 1 {
      assert d[i] in d;
    }
    forall h | Occurrences(t, h) > 1 ensures exists i :: 0 <= i < |r| && r[i].hash == h {
      assert h in multiset(Hashes(t));
      assert h in d;
      var i :| 0 <= i < |d| && d[i] == h;
      assert r[i].hash == h;
    }
  }

  /** A table without repeated hashes carries each hash at most once. */
  lemma {:induction false} DistinctHashesOccurOnce(t: VersionTable, h: string)
    requires DistinctHashes(t)
    ensures Occurrences(t, h) <= 1
    decreases |t|
  {
    if t != [] {
      var init := t[..|t| - 1];
      var last := t[|t| - 1].row.commitHash;
      assert DistinctHashes(init) by {
        forall i, j | 0 <= i < j < |init| ensures init[i].row.commitHash != init[j].row.commitHash {
          assert init[i] == t[i] && init[j] == t[j];
        }
      }
      DistinctHashesOccurOnce(init, h);
      assert Hashes(t) == Hashes(init) + [last];
      if h == last {
        assert h !in Hashes(init) by {
          forall k | 0 <= k < |init| ensures Hashes(init)[k] != h {
            assert init[k] == t[k];
          }
        }
      }
    }
  }

  /** Two rows with one hash make that hash occur at least twice. */
  lemma RepeatedHashOccursTwice(t: VersionTable, i: int, j: int)
    requires 0 <= i < j < |t| && t[i].row.commitHash == t[j].row.commitHash
    ensures Occurrences(t, t[i].row.commitHash) >= 2
  {
    var hs := Hashes(t);
    var h := t[i].row.commitHash;
    assert hs == hs[..j] + [hs[j]] + hs[j + 1..];
    assert hs[..j][i] == h;
    assert h in multiset(hs[..j]);
  }

  /** The duplicate list is empty exactly when no two rows share a hash,
      which the UNIQUE column guarantees for every table the write path
      builds. */
  lemma NoDuplicatesIffDistinct(t: VersionTable)
    ensures DuplicateHashes(t) == [] <==> DistinctHashes(t)
  {
    var r := DuplicateHashes(t);
    if DistinctHashes(t) && r != [] {
      DistinctHashesOccurOnce(t, r[0].hash);
    }
    if !DistinctHashes(t) {
      var i, j :| 0 <= i < j < |t| && t[i].row.commitHash == t[j].row.commitHash;
      RepeatedHashOccursTwice(t, i, j);
    }
  }

  /** When exactly one hash repeats, the report is that hash alone. */
  lemma OneRepeatedHash(t: VersionTable, h: string, n: nat)
    requires Occurrences(t, h) == n > 1
    requires forall g :: g != h ==> Occurrences(t, g) <= 1
    ensures DuplicateHashes(t) == [HashCount(h, n)]
  {
    var r := DuplicateHashes(t);
    var hashes := seq(|r|, i requires 0 <= i < |r| => r[i].hash);
    DistinctWithin(hashes, {h});
    assert r[0].hash == h;
  }

  /** Two rows under one hash and one under another: only the first hash
      is reported, with count 2. */
  lemma DuplicateHashesExample()
    ensures DuplicateHashes([Entry(1, Version("1.0", "", None, "aa")),
                             Entry(2, Version("1.1", "", None, "aa")),
                             Entry(3, Version("1.2", "", None, "bb"))]) == [HashCount("aa", 2)]
  {
    var t := [Entry(1, Version("1.0", "", None, "aa")),
              Entry(2, Version("1.1", "", None, "aa")),
              Entry(3, Version("1.2", "", None, "bb"))];
    assert Hashes(t) == ["aa", "aa", "bb"];
    var m := multiset(Hashes(t));
    assert m == multiset{"aa", "aa", "bb"};
    OneRepeatedHash(t, "aa", 2);
  }

  /** What the audit reads: the tags, the ids of the videos and tasks, and
      the two version registries. */
  datatype Store = Store(tags: TagTable, videos: set<int>, tasks: set<int>,
                         coreLib: VersionTable, algorithm: VersionTable)

  /** The audited parts of `check_data_integrity`'s result. */
  datatype Report = Report(
    frameValidation: TagTable,
    tagsWithoutVideo: nat,
    tagsWithoutTask: nat,
    duplicateCoreLib: seq<HashCount>,
    duplicateAlgorithm: seq<HashCount>)

  /** A report with nothing to say. */
  predicate Clean(r: Report)
  {
    && r.frameValidation == []
    && r.tagsWithoutVideo == 0
    && r.tagsWithoutTask == 0
    && r.duplicateCoreLib == []
    && r.duplicateAlgorithm == []
  }

  /** The tag columns of a consistent store: every interval non-empty and
      every reference resolved. */
  predicate TagsConsistent(t: TagTable, videos: set<int>, tasks: set<int>)
  {
    IntervalsNonEmpty(t) && RefsExist(t, videos, VideoOf) && RefsExist(t, tasks, TaskOf)
  }

  /** Every tag has a non-empty interval and an existing video and task,
      and neither registry repeats a hash. */
  predicate Consistent(s: Store)
  {
    && TagsConsistent(s.tags, s.videos, s.tasks)
    && DistinctHashes(s.coreLib)
    && DistinctHashes(s.algorithm)
  }

  /** `check_data_integrity`: the audit is clean exactly when the store is
      consistent. */
  function CheckDataIntegrity(s: Store): (r: Report)
    ensures Clean(r) <==> Consistent(s)
  {
    NoDuplicatesIffDistinct(s.coreLib);
    NoDuplicatesIffDistinct(s.algorithm);
    FrameViolationsEmptyIff(s.tags);
    Report(FrameViolations(s.tags),
           OrphanCount(s.tags, s.videos, VideoOf),
           OrphanCount(s.tags, s.tasks, TaskOf),
           DuplicateHashes(s.coreLib),
           DuplicateHashes(s.algorithm))
  }

  /** The two registries are audited independently: replacing one table
      leaves the other's groups as they were. */
  lemma RegistriesAuditedIndependently(s: Store, coreLib: VersionTable, algorithm: VersionTable)
    ensures CheckDataIntegrity(s.(algorithm := algorithm)).duplicateCoreLib == CheckDataIntegrity(s).duplicateCoreLib
    ensures CheckDataIntegrity(s.(coreLib := coreLib)).duplicateAlgorithm == CheckDataIntegrity(s).duplicateAlgorithm
  {
  }

  /** `create_tag` keeps the store consistent, so the audit stays clean. */
  lemma CreateTagKeepsAuditClean(s: Store, videoId: int, taskId: int, start: int, end: int)
    requires Consistent(s)
    ensures Clean(CheckDataIntegrity(s.(tags := CreateTag(s.tags, s.videos, s.tasks, videoId, taskId, start, end).rows)))
  {
    var c := CreateTag(s.tags, s.videos, s.tasks, videoId, taskId, start, end).rows;
    assert TagsConsistent(s.tags, s.videos, s.tasks);
    forall i | 0 <= i < |c| ensures c[i].row.start < c[i].row.end && c[i].row.videoId in s.videos && c[i].row.taskId in s.tasks {
      if i < |s.tags| {
        assert c[i] == s.tags[i];
      }
    }
    assert Consistent(s.(tags := c));
  }

  /** `update_tag` keeps the store consistent: the merged interval is
      checked, and a reference it sets must exist. */
  lemma UpdateTagKeepsAuditClean(s: Store, id: int, p: TagPatch)
    requires Consistent(s)
    ensures Clean(CheckDataIntegrity(s.(tags := UpdateTag(s.tags, s.videos, s.tasks, id, p).rows)))
  {
    var u := UpdateTag(s.tags, s.videos, s.tasks, id, p);
    assert TagsConsistent(s.tags, s.videos, s.tasks);
    if u.result.Ok? && !NoFields(p) {
      var merged := Merge(Find(s.tags, id).value, p);
      assert u.rows == Replaced(s.tags, id, merged);
      forall i | 0 <= i < |u.rows|
        ensures u.rows[i].row.start < u.rows[i].row.end && u.rows[i].row.videoId in s.videos && u.rows[i].row.taskId in s.tasks
      {
        if s.tags[i].id == id {
          var cur := Find(s.tags, id).value;
          assert Entry(id, cur) in s.tags;
          var k :| 0 <= k < |s.tags| && s.tags[k] == Entry(id, cur);
          assert u.rows[i].row == merged;
        } else {
          assert u.rows[i].row == s.tags[i].row;
        }
      }
    }
    assert Consistent(s.(tags := u.rows));
  }

  /** `delete_tag` keeps the store consistent. */
  lemma DeleteTagKeepsAuditClean(s: Store, id: int)
    requires Consistent(s)
    ensures Clean(CheckDataIntegrity(s.(tags := DeleteTag(s.tags, id).rows)))
  {
    var d := DeleteTag(s.tags, id).rows;
    assert TagsConsistent(s.tags, s.videos, s.tasks);
    forall i | 0 <= i < |d| ensures d[i].row.start < d[i].row.end && d[i].row.videoId in s.videos && d[i].row.taskId in s.tasks {
      var k :| 0 <= k < |s.tags| && s.tags[k] == d[i];
    }
    assert Consistent(s.(tags := d));
  }

  /** Registering a version keeps hashes distinct, so the audit of a
      registry the write path built reports no duplicate. */
  lemma {:induction false} CreateVersionKeepsHashesDistinct(reg: Registry, t: VersionTable, version: string,
                                                            updateInfo: string, hash: string, base: Option<int>)
    requires DistinctHashes(t)
    ensures DuplicateHashes(CreateVersion(reg, t, version, updateInfo, hash, base).rows) == []
  {
    var w := CreateVersion(reg, t, version, updateInfo, hash, base);
    if w.result.Ok? {
      var r := w.rows;
      forall i, j | 0 <= i < j < |r| ensures r[i].row.commitHash != r[j].row.commitHash {
        assert r[i] == t[i];
        if j < |t| {
          assert r[j] == t[j];
        }
      }
    }
    NoDuplicatesIffDistinct(w.rows);
  }
}
