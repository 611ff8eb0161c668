/** The version-history walk of both registries: start at a row, follow
    base-version links until a row has no base or the base names no row,
    and return what was visited oldest first. The walk itself has no cycle
    guard, so the model asks for a chain that ends. */
module VersionChain {
  import opened Outcomes
  import opened Seqs
  import opened Tables
  import opened Versions

  /** The walk from `cur` reaches its end (no id, or an id no row carries)
      within `k` lookups. */
  predicate EndsWithin(t: VersionTable, cur: Option<int>, k: nat)
    decreases k
  {
    if cur.None? then true
    else match Find(t, cur.value)
      case None => true
      case Some(v) => k > 0 && EndsWithin(t, v.baseId, k - 1)
  }

  /** The rows the walk from `cur` visits, newest first, `k` lookups at
      most. */
  function Walk(t: VersionTable, cur: Option<int>, k: nat): seq<Entry<Version>>
    decreases k
  {
    if cur.None? || k == 0 then []
    else match Find(t, cur.value)
      case None => []
      case Some(v) => [Entry(cur.value, v)] + Walk(t, v.baseId, k - 1)
  }

  /** `w` is the chain from `cur`, newest first: each element is the
      stored row under the id the previous one links to, and the link after
      the last names nothing or no row. */
  predicate IsChain(t: VersionTable, cur: Option<int>, w: seq<Entry<Version>>)
    decreases |w|
  {
    if w == [] then cur.None? || !HasId(t, cur.value)
    else cur == Some(w[0].id) && Find(t, w[0].id) == Some(w[0].row) && IsChain(t, w[0].row.baseId, w[1..])
  }

  /** A chain is determined by its start. */
  lemma {:induction false} ChainUnique(t: VersionTable, cur: Option<int>, w1: seq<Entry<Version>>, w2: seq<Entry<Version>>)
    requires IsChain(t, cur, w1) && IsChain(t, cur, w2)
    ensures w1 == w2
    decreases |w1|
  {
    if w1 != [] && w2 != [] {
      assert w1[0] == w2[0];
      ChainUnique(t, w1[0].row.baseId, w1[1..], w2[1..]);
      assert w1 == [w1[0]] + w1[1..] && w2 == [w2[0]] + w2[1..];
    }
  }

  /** A walk with enough lookups to finish is the chain. */
  lemma {:induction false} WalkIsChain(t: VersionTable, cur: Option<int>, k: nat)
    requires EndsWithin(t, cur, k)
    ensures IsChain(t, cur, Walk(t, cur, k))
    decreases k
  {
    if cur.Some? {
      match Find(t, cur.value)
      case None =>
      case Some(v) =>
        WalkIsChain(t, v.baseId, k - 1);
        assert Walk(t, cur, k)[1..] == Walk(t, v.baseId, k - 1);
    }
  }

  /** In a chain, each element links to the next one, and each is stored. */
  lemma {:induction false} ChainLinks(t: VersionTable, cur: Option<int>, w: seq<Entry<Version>>)
    requires IsChain(t, cur, w)
    ensures forall i :: 0 <= i < |w| - 1 ==> w[i].row.baseId == Some(w[i + 1].id)
    ensures forall i :: 0 <= i < |w| ==> Find(t, w[i].id) == Some(w[i].row)
    ensures w != [] ==> cur == Some(w[0].id)
    ensures w != [] ==> var last := w[|w| - 1].row.baseId; last.None? || !HasId(t, last.value)
    decreases |w|
  {
    if w != [] {
      ChainLinks(t, w[0].row.baseId, w[1..]);
      assert forall i :: 0 < i < |w| ==> w[i] == w[1..][i - 1];
    }
  }

  /** Extending a chain by the stored row that links to its start. */
  lemma ChainStep(t: VersionTable, e: Entry<Version>, w: seq<Entry<Version>>)
    requires Find(t, e.id) == Some(e.row)
    requires IsChain(t, e.row.baseId, w)
    ensures IsChain(t, Some(e.id), [e] + w)
  {
    assert ([e] + w)[1..] == w;
  }

  /** What the history promises: empty exactly when `id` names no row,
      ending with the start row, each element based on the one before it,
      every element a stored row. */
  predicate OldestFirstHistory(t: VersionTable, id: int, h: seq<Entry<Version>>)
  {
    && (h == [] <==> !HasId(t, id))
    && (h != [] ==> h[|h| - 1].id == id && Find(t, id) == Some(h[|h| - 1].row))
    && (forall i :: 0 < i < |h| ==> h[i].row.baseId == Some(h[i - 1].id))
    && (forall i :: 0 <= i < |h| ==> Find(t, h[i].id) == Some(h[i].row))
  }

  /** The chain from `id`, read oldest first: empty exactly when `id` names
      no row, ending with the start row, each element based on the one
      before it. */
  lemma {:induction false} OldestFirst(t: VersionTable, id: int, w: seq<Entry<Version>>)
    requires IsChain(t, Some(id), w)
    ensures OldestFirstHistory(t, id, Reversed(w))
  {
    var h := Reversed(w);
    ChainLinks(t, Some(id), w);
    forall i | 0 < i < |h| ensures h[i].row.baseId == Some(h[i - 1].id) {
      assert h[i] == w[|h| - 1 - i] && h[i - 1] == w[|h| - 1 - i + 1];
    }
    forall i | 0 <= i < |h| ensures Find(t, h[i].id) == Some(h[i].row) {
      assert h[i] == w[|h| - 1 - i];
    }
  }

  /** One lookup of the walk: a stored row is visited and the walk moves to
      its base with one lookup fewer. */
  lemma WalkStep(t: VersionTable, cur: int, k: nat, v: Version)
    requires Find(t, cur) == Some(v) && EndsWithin(t, Some(cur), k)
    ensures k > 0 && EndsWithin(t, v.baseId, k - 1)
    ensures Walk(t, Some(cur), k) == [Entry(cur, v)] + Walk(t, v.baseId, k - 1)
  {
  }

  /** The walk ends at a missing id or at an id no row carries. */
  lemma WalkEnd(t: VersionTable, cur: Option<int>, k: nat)
    requires cur.None? || Find(t, cur.value).None?
    ensures Walk(t, cur, k) == []
  {
  }

  /** `get_*_version_history`: the walk from `id`, oldest first. The lookup
      count `k` is ghost; it only bounds the loop, which the source runs
      until the chain ends. */
  method History(t: VersionTable, id: int) returns (h: seq<Entry<Version>>)
    requires exists k: nat :: EndsWithin(t, Some(id), k)
    ensures IsChain(t, Some(id), Reversed(h))
    ensures OldestFirstHistory(t, id, h)
  {
    ghost var n: nat :| EndsWithin(t, Some(id), n);
    ghost var k := n;
    var visited: seq<Entry<Version>> := [];
    var cur := Some(id);
    while cur.Some?
      invariant EndsWithin(t, cur, k)
      invariant visited + Walk(t, cur, k) == Walk(t, Some(id), n)
      decreases k
    {
      match Find(t, cur.value) {
        case None =>
          break;
        case Some(v) =>
          WalkStep(t, cur.value, k, v);
          visited := visited + [Entry(cur.value, v)];
          cur := v.baseId;
          k := k - 1;
      }
    }
    WalkEnd(t, cur, k);
    assert visited + [] == visited;
    assert visited == Walk(t, Some(id), n);
    WalkIsChain(t, Some(id), n);
    assert IsChain(t, Some(id), visited);
    h := Reversed(visited);
    ReversedTwice(visited);
    assert Reversed(h) == visited;
    OldestFirst(t, id, visited);
  }

  /** The chain A <- B <- C: row 3 is based on 2, 2 on 1, 1 on nothing. */
  function ThreeLinks(): VersionTable
  {
    [ Entry(1, Version("1.0.0", "first", None, "a")),
      Entry(2, Version("1.1.0", "second", Some(1), "b")),
      Entry(3, Version("1.2.0", "third", Some(2), "c")) ]
  }

  /** Whatever `History` returns from C on that table is [A, B, C]. */
  lemma {:induction false} HistoryOfThreeLinks(h: seq<Entry<Version>>)
    requires IsChain(ThreeLinks(), Some(3), Reversed(h))
    ensures h == ThreeLinks()
  {
    var t := ThreeLinks();
    var w := [t[2], t[1], t[0]];
    assert Find(t, 1) == Some(t[0].row);
    assert Find(t, 2) == Some(t[1].row) by {
      assert Find(t, 2) == Find(t[1..], 2);
    }
    assert Find(t, 3) == Some(t[2].row) by {
      assert Find(t, 3) == Find(t[1..], 3) == Find(t[1..][1..], 3);
    }
    ChainStep(t, t[0], []);
    ChainStep(t, t[1], [t[0]]);
    ChainStep(t, t[2], [t[1], t[0]]);
    assert [t[2]] + ([t[1]] + [t[0]]) == w;
    ChainUnique(t, Some(3), Reversed(h), w);
    assert |h| == 3;
    assert h[0] == w[2] && h[1] == w[1] && h[2] == w[0];
  }

  /** The walk stops with nothing when the start id names no row. */
  lemma {:induction false} HistoryOfMissingId(t: VersionTable, id: int, h: seq<Entry<Version>>)
    requires !HasId(t, id)
    requires IsChain(t, Some(id), Reversed(h))
    ensures h == []
  {
  }

  /** A dangling base id ends the walk after the start row, without error. */
  lemma {:induction false} HistoryStopsAtDanglingBase(t: VersionTable, id: int, v: Version, h: seq<Entry<Version>>)
    requires Find(t, id) == Some(v)
    requires v.baseId.Some? && !HasId(t, v.baseId.value)
    requires IsChain(t, Some(id), Reversed(h))
    ensures h == [Entry(id, v)]
  {
    var w := [Entry(id, v)];
    assert w[1..] == [];
    ChainUnique(t, Some(id), Reversed(h), w);
    assert |h| == 1 && h[0] == Reversed(h)[0];
  }

  /** A row whose base is itself, which the insert accepts, starts a walk
      that never ends: the history precondition excludes it. */
  lemma {:induction false} SelfBaseNeverEnds(t: VersionTable, id: int, v: Version, k: nat)
    requires Find(t, id) == Some(v) && v.baseId == Some(id)
    ensures !EndsWithin(t, Some(id), k)
  {
    if k > 0 {
      SelfBaseNeverEnds(t, id, v, k - 1);
    }
  }
}
