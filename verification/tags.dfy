/** Tags: a frame interval `[start, end)` of one video labelled with one
    task. The write paths check the interval before touching the store;
    the store enforces the foreign keys on the video and the task. */
module Tags {
  import opened Outcomes
  import opened Seqs
  import opened Tables

  const TagTableName := "tag_table"

  datatype Tag = Tag(videoId: int, taskId: int, start: int, end: int)

  type TagTable = seq<Entry<Tag>>

  /** The interval guard: `start < end` is checked first, then
      `start >= 0`. */
  function CheckInterval(start: int, end: int): (r: Option<DwhError>)
    ensures r.None? <==> 0 <= start < end
    ensures start >= end ==> r == Some(ValidationError(Some("start/end")))
    ensures start < end && start < 0 ==> r == Some(ValidationError(Some("start")))
  {
    if start >= end then Some(ValidationError(Some("start/end")))
    else if start < 0 then Some(ValidationError(Some("start")))
    else None
  }

  /** A pair violating both rules reports the interval error. */
  lemma IntervalErrorFirst()
    ensures CheckInterval(-1, -5) == Some(ValidationError(Some("start/end")))
    ensures CheckInterval(-5, -1) == Some(ValidationError(Some("start")))
  {
  }

  /** `create_tag`: the interval guard, then the insert, which the foreign
      keys reject when the video or the task does not exist. */
  function CreateTag(t: TagTable, videos: set<int>, tasks: set<int>,
                     videoId: int, taskId: int, start: int, end: int): (w: Write<Entry<Tag>, int>)
    ensures w.result.Ok? <==> 0 <= start < end && videoId in videos && taskId in tasks
    ensures w.result.Err? ==> w.rows == t
    ensures !(0 <= start < end) ==> w.result.Err? && w.result.error.ValidationError?
    ensures 0 <= start < end && (videoId !in videos || taskId !in tasks) ==>
      w.result == Err(ConstraintError(TagTableName))
    ensures w.result.Ok? ==>
      && w.rows == t + [Entry(w.result.value, Tag(videoId, taskId, start, end))]
      && !HasId(t, w.result.value)
  {
    match CheckInterval(start, end)
    case Some(e) => Write(t, Err(e))
    case None =>
      if videoId !in videos || taskId !in tasks then Write(t, Err(ConstraintError(TagTableName)))
      else Write(Appended(t, Tag(videoId, taskId, start, end)), Ok(NextId(t)))
  }

  /** `get_tag`: the tag under `id`, or NotFound. */
  function GetTag(t: TagTable, id: int): (r: Result<Tag>)
    ensures r.Err? <==> !HasId(t, id)
    ensures r.Err? ==> r.error == NotFoundError(TagTableName, id)
    ensures r.Ok? ==> Entry(id, r.value) in t
  {
    match Find(t, id)
    case None => Err(NotFoundError(TagTableName, id))
    case Some(g) => Ok(g)
  }

  /** A created tag reads back as it was given. */
  lemma CreatedTagIsStored(t: TagTable, videos: set<int>, tasks: set<int>,
                           videoId: int, taskId: int, start: int, end: int)
    requires UniqueIds(t)
    requires CreateTag(t, videos, tasks, videoId, taskId, start, end).result.Ok?
    ensures var w := CreateTag(t, videos, tasks, videoId, taskId, start, end);
      UniqueIds(w.rows) && GetTag(w.rows, w.result.value) == Ok(Tag(videoId, taskId, start, end))
  {
    AppendedKeepsIds(t, Tag(videoId, taskId, start, end));
  }

  /** The optional arguments of `update_tag`; `None` leaves a field as it
      is. */
  datatype TagPatch = TagPatch(videoId: Option<int>, taskId: Option<int>, start: Option<int>, end: Option<int>)

  function Or(o: Option<int>, otherwise: int): int
  {
    if o.Some? then o.value else otherwise
  }

  /** The tag after applying the supplied fields of `p`. */
  function Merge(cur: Tag, p: TagPatch): Tag
  {
    Tag(Or(p.videoId, cur.videoId), Or(p.taskId, cur.taskId), Or(p.start, cur.start), Or(p.end, cur.end))
  }

  predicate NoFields(p: TagPatch)
  {
    p.videoId.None? && p.taskId.None? && p.start.None? && p.end.None?
  }

  /** The foreign keys an `UPDATE` checks: only those of the columns it
      sets. */
  predicate PatchRefsExist(p: TagPatch, videos: set<int>, tasks: set<int>)
  {
    (p.videoId.None? || p.videoId.value in videos) && (p.taskId.None? || p.taskId.value in tasks)
  }

  /** `update_tag`: look the tag up (NotFound), merge the supplied start and
      end with the stored ones and validate the merged interval, return
      without writing when no field is supplied, then set only the supplied
      fields. On every error the store is unchanged. */
  function UpdateTag(t: TagTable, videos: set<int>, tasks: set<int>, id: int, p: TagPatch): (w: Write<Entry<Tag>, ()>)
    ensures !HasId(t, id) ==> w.result == Err(NotFoundError(TagTableName, id))
    ensures w.result.Err? || NoFields(p) ==> w.rows == t
    ensures HasId(t, id) ==>
      var merged := Merge(Find(t, id).value, p);
      && (w.result.Ok? <==> 0 <= merged.start < merged.end && (NoFields(p) || PatchRefsExist(p, videos, tasks)))
      && (!(0 <= merged.start < merged.end) ==> w.result.Err? && w.result.error.ValidationError?)
      && (0 <= merged.start < merged.end && !NoFields(p) && !PatchRefsExist(p, videos, tasks) ==>
            w.result == Err(ConstraintError(TagTableName)))
      && (w.result.Ok? && !NoFields(p) ==> w.rows == Replaced(t, id, merged))
  {
    match Find(t, id)
    case None => Write(t, Err(NotFoundError(TagTableName, id)))
    case Some(cur) =>
      var merged := Merge(cur, p);
      match CheckInterval(merged.start, merged.end)
      case Some(e) => Write(t, Err(e))
      case None =>
        if NoFields(p) then Write(t, Ok(()))
        else if !PatchRefsExist(p, videos, tasks) then Write(t, Err(ConstraintError(TagTableName)))
        else Write(Replaced(t, id, merged), Ok(()))
  }

  /** The start and end validated are the supplied ones where given and the
      stored ones otherwise. */
  lemma {:induction false} UpdateValidatesMergedInterval(t: TagTable, videos: set<int>, tasks: set<int>,
                                                          id: int, p: TagPatch)
    requires HasId(t, id)
    ensures var stored := Find(t, id).value;
      var start := if p.start.Some? then p.start.value else stored.start;
      var end := if p.end.Some? then p.end.value else stored.end;
      !(0 <= start < end) ==> UpdateTag(t, videos, tasks, id, p).result.Err?
  {
  }

  /** After a successful update the tag holds the supplied fields and its
      stored values for the rest, and every other tag reads as before. */
  lemma {:induction false} UpdateTagChangesOnlyThatTag(t: TagTable, videos: set<int>, tasks: set<int>,
                                                        id: int, p: TagPatch, other: int)
    requires UpdateTag(t, videos, tasks, id, p).result.Ok?
    ensures var before := Find(t, id).value;
      var now := Find(UpdateTag(t, videos, tasks, id, p).rows, id).value;
      && (p.videoId.Some? ==> now.videoId == p.videoId.value) && (p.videoId.None? ==> now.videoId == before.videoId)
      && (p.taskId.Some? ==> now.taskId == p.taskId.value) && (p.taskId.None? ==> now.taskId == before.taskId)
      && (p.start.Some? ==> now.start == p.start.value) && (p.start.None? ==> now.start == before.start)
      && (p.end.Some? ==> now.end == p.end.value) && (p.end.None? ==> now.end == before.end)
    ensures other != id ==> Find(UpdateTag(t, videos, tasks, id, p).rows, other) == Find(t, other)
  {
    if !NoFields(p) {
      var merged := Merge(Find(t, id).value, p);
      ReplacedFind(t, id, merged, id);
      ReplacedFind(t, id, merged, other);
    }
  }

  /** `update_tag` with no field supplied never writes. */
  lemma UpdateWithNoFieldsIsNoOp(t: TagTable, videos: set<int>, tasks: set<int>, id: int)
    ensures UpdateTag(t, videos, tasks, id, TagPatch(None, None, None, None)).rows == t
  {
  }

  /** `delete_tag`: NotFound when absent, otherwise the tag is removed. */
  function DeleteTag(t: TagTable, id: int): (w: Write<Entry<Tag>, ()>)
    ensures w.result.Ok? <==> HasId(t, id)
    ensures w.result.Err? ==> w.rows == t && w.result.error == NotFoundError(TagTableName, id)
    ensures w.result.Ok? ==> !HasId(w.rows, id) && |w.rows| < |t|
  {
    if !HasId(t, id) then Write(t, Err(NotFoundError(TagTableName, id)))
    else
      var k :| 0 <= k < |t| && t[k].id == id;
      FilterPartition(t, (e: Entry<Tag>) => e.id != id, (e: Entry<Tag>) => e.id == id);
      assert t[k] in Filter(t, (e: Entry<Tag>) => e.id == id);
      Write(Without(t, id), Ok(()))
  }

  /** Deleting removes exactly that tag: every other tag reads as before
      and `get_tag` on the deleted id fails. */
  lemma DeleteTagRemovesOnlyThatTag(t: TagTable, id: int, other: int)
    requires DeleteTag(t, id).result.Ok?
    ensures GetTag(DeleteTag(t, id).rows, id) == Err(NotFoundError(TagTableName, id))
    ensures other != id ==> Find(DeleteTag(t, id).rows, other) == Find(t, other)
  {
    if other != id {
      WithoutKeepsOthers(t, id, other);
    }
  }

  predicate StartAtMost(a: Entry<Tag>, b: Entry<Tag>)
  {
    a.row.start <= b.row.start
  }

  lemma StartOrderIsPreorder()
    ensures TotalPreorder((a: Entry<Tag>, b: Entry<Tag>) => StartAtMost(a, b))
  {
  }

  /** The tags of `video` whose task exists (the inner join with the task
      table). */
  function VideoRows(t: TagTable, tasks: set<int>, videoId: int): seq<Entry<Tag>>
  {
    Filter(t, (e: Entry<Tag>) => e.row.videoId == videoId && e.row.taskId in tasks)
  }

  /** `get_video_tags`: that video's tags, by ascending start. */
  function VideoTags(t: TagTable, tasks: set<int>, videoId: int): (r: seq<Entry<Tag>>)
    ensures SortedBy(r, (a: Entry<Tag>, b: Entry<Tag>) => StartAtMost(a, b))
    ensures multiset(r) == multiset(VideoRows(t, tasks, videoId))
  {
    StartOrderIsPreorder();
    SortBy(VideoRows(t, tasks, videoId), (a: Entry<Tag>, b: Entry<Tag>) => StartAtMost(a, b))
  }

  /** A tag is listed for a video exactly when it belongs to that video and
      its task exists; starts never decrease along the list. */
  lemma VideoTagsExactly(t: TagTable, tasks: set<int>, videoId: int, e: Entry<Tag>)
    ensures e in VideoTags(t, tasks, videoId) <==> e in t && e.row.videoId == videoId && e.row.taskId in tasks
    ensures forall i, j :: 0 <= i < j < |VideoTags(t, tasks, videoId)| ==>
      VideoTags(t, tasks, videoId)[i].row.start <= VideoTags(t, tasks, videoId)[j].row.start
  {
    var r := VideoTags(t, tasks, videoId);
    assert e in r <==> e in multiset(r);
    assert e in VideoRows(t, tasks, videoId) <==> e in multiset(VideoRows(t, tasks, videoId));
    forall i, j | 0 <= i < j < |r| ensures r[i].row.start <= r[j].row.start {
      assert StartAtMost(r[i], r[j]);
    }
  }
}
