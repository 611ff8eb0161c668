/** A stored table as the library sees it: rows in storage order, each
    keyed by an integer id the store assigns. Every API module keeps its
    rows in one of these. */
module Tables {
  import opened Outcomes
  import opened Seqs

  datatype Entry<R> = Entry(id: int, row: R)

  /** Some row of `t` carries `id`. */
  predicate HasId<R>(t: seq<Entry<R>>, id: int)
  {
    exists i :: 0 <= i < |t| && t[i].id == id
  }

  /** Ids are keys: no two rows share one. */
  predicate UniqueIds<R>(t: seq<Entry<R>>)
  {
    forall i, j :: 0 <= i < j < |t| ==> t[i].id != t[j].id
  }

  /** The row stored under `id`, if any (the first in storage order). */
  function Find<R>(t: seq<Entry<R>>, id: int): (r: Option<R>)
    ensures r.None? <==> !HasId(t, id)
    ensures r.Some? ==> Entry(id, r.value) in t
  {
    if t == [] then None
    else if t[0].id == id then Some(t[0].row)
    else
      assert forall i :: 0 <= i < |t[1..]| ==> t[1..][i] == t[i + 1];
      Find(t[1..], id)
  }

  /** With unique ids, the row found under an id is the row stored there. */
  lemma {:induction false} FindStored<R>(t: seq<Entry<R>>, id: int, x: R)
    requires UniqueIds(t)
    requires Entry(id, x) in t
    ensures Find(t, id) == Some(x)
  {
    if t[0] != Entry(id, x) {
      var k :| 0 <= k < |t| && t[k] == Entry(id, x);
      assert k > 0;
      assert t[0].id != id;
      assert UniqueIds(t[1..]) by {
        forall i, j | 0 <= i < j < |t[1..]| ensures t[1..][i].id != t[1..][j].id {
          assert t[1..][i] == t[i + 1] && t[1..][j] == t[j + 1];
        }
      }
      assert t[1..][k - 1] == t[k];
      FindStored(t[1..], id, x);
    }
  }

  /** The position of the first row, in storage order, whose record
      satisfies `p`; `|t|` when none does. This is the row a `WHERE`
      lookup read with `fetchone()` returns. */
  function FirstWhere<R>(t: seq<Entry<R>>, p: R -> bool): (k: nat)
    ensures k <= |t|
    ensures forall j :: 0 <= j < k ==> !p(t[j].row)
    ensures k < |t| ==> p(t[k].row)
  {
    if t == [] || p(t[0].row) then 0
    else
      assert forall j :: 0 < j < |t| ==> t[j] == t[1..][j - 1];
      1 + FirstWhere(t[1..], p)
  }

  /** The id the store hands out next: one more than the largest id, or 1
      for an empty table. */
  function NextId<R>(t: seq<Entry<R>>): (n: int)
    ensures forall i :: 0 <= i < |t| ==> t[i].id < n
    ensures t == [] ==> n == 1
    ensures t != [] ==> HasId(t, n - 1)
  {
    if t == [] then 1
    else
      var rest := NextId(t[1..]);
      assert forall i :: 0 < i < |t| ==> t[i] == t[1..][i - 1];
      if t[1..] == [] || t[0].id >= rest then t[0].id + 1 else rest
  }

  /** The table after inserting `row` under the next id. */
  function Appended<R>(t: seq<Entry<R>>, row: R): (r: seq<Entry<R>>)
    ensures r == t + [Entry(NextId(t), row)]
  {
    t + [Entry(NextId(t), row)]
  }

  /** Inserting under the next id keeps ids unique and makes the new row
      findable under its id, every other row unchanged. */
  lemma AppendedKeepsIds<R>(t: seq<Entry<R>>, row: R)
    requires UniqueIds(t)
    ensures UniqueIds(Appended(t, row))
    ensures Find(Appended(t, row), NextId(t)) == Some(row)
    ensures forall id :: id != NextId(t) ==> Find(Appended(t, row), id) == Find(t, id)
  {
    var r := Appended(t, row);
    assert UniqueIds(r) by {
      forall i, j | 0 <= i < j < |r| ensures r[i].id != r[j].id {
        if j == |t| {
          assert r[i] in t;
        } else {
          assert r[i] == t[i] && r[j] == t[j];
        }
      }
    }
    FindStored(r, NextId(t), row);
    forall id | id != NextId(t) ensures Find(r, id) == Find(t, id) {
      FindAppended(t, Entry(NextId(t), row), id);
    }
  }

  lemma {:induction false} FindAppended<R>(t: seq<Entry<R>>, e: Entry<R>, id: int)
    requires e.id != id
    ensures Find(t + [e], id) == Find(t, id)
  {
    if t != [] {
      assert (t + [e])[1..] == t[1..] + [e];
      FindAppended(t[1..], e, id);
    }
  }

  /** The table with every row under `id` removed. */
  function Without<R(!new)>(t: seq<Entry<R>>, id: int): (r: seq<Entry<R>>)
    ensures forall i :: 0 <= i < |r| ==> r[i] in t && r[i].id != id
    ensures forall i :: 0 <= i < |t| && t[i].id != id ==> t[i] in r
    ensures !HasId(r, id)
  {
    Filter(t, (e: Entry<R>) => e.id != id)
  }

  /** Removing a row leaves every other row where it was found. */
  lemma {:induction false} WithoutKeepsOthers<R(!new)>(t: seq<Entry<R>>, id: int, other: int)
    requires other != id
    ensures Find(Without(t, id), other) == Find(t, other)
  {
    if t != [] {
      var rest := Without(t[1..], id);
      WithoutKeepsOthers(t[1..], id, other);
      if t[0].id != id {
        var w := [t[0]] + rest;
        assert Without(t, id) == w;
        assert w[0] == t[0] && w[1..] == rest;
      } else {
        assert Without(t, id) == rest;
      }
    }
  }

  /** The table with the row under `id` replaced by `row`. */
  function Replaced<R>(t: seq<Entry<R>>, id: int, row: R): (r: seq<Entry<R>>)
    ensures |r| == |t|
    ensures forall i :: 0 <= i < |t| ==> r[i].id == t[i].id
    ensures forall i :: 0 <= i < |t| ==> r[i].row == if t[i].id == id then row else t[i].row
  {
    if t == [] then []
    else [Entry(t[0].id, if t[0].id == id then row else t[0].row)] + Replaced(t[1..], id, row)
  }

  /** Replacing a row changes what is found under `id` and nothing else. */
  lemma {:induction false} ReplacedFind<R>(t: seq<Entry<R>>, id: int, row: R, other: int)
    ensures Find(Replaced(t, id, row), other) ==
      if other == id && HasId(t, id) then Some(row) else Find(t, other)
  {
    if t != [] {
      var r := Replaced(t, id, row);
      assert r[1..] == Replaced(t[1..], id, row);
      ReplacedFind(t[1..], id, row, other);
      if t[0].id != other {
        assert HasId(t, other) ==> HasId(t[1..], other) by {
          if HasId(t, other) {
            var k :| 0 <= k < |t| && t[k].id == other;
            assert t[1..][k - 1] == t[k];
          }
        }
      }
    }
  }

  // ---------------------------------------------------------------------
  // ORDER BY id

  predicate IdAtLeast<R>(a: Entry<R>, b: Entry<R>)
  {
    a.id >= b.id
  }

  predicate IdAtMost<R>(a: Entry<R>, b: Entry<R>)
  {
    a.id <= b.id
  }

  lemma IdOrdersArePreorders<R(!new)>()
    ensures TotalPreorder((a: Entry<R>, b: Entry<R>) => IdAtLeast(a, b))
    ensures TotalPreorder((a: Entry<R>, b: Entry<R>) => IdAtMost(a, b))
  {
  }

  /** `ORDER BY id DESC`. */
  function Descending<R(!new)>(t: seq<Entry<R>>): (r: seq<Entry<R>>)
    ensures SortedBy(r, (a: Entry<R>, b: Entry<R>) => IdAtLeast(a, b))
    ensures multiset(r) == multiset(t)
  {
    IdOrdersArePreorders<R>();
    SortBy(t, (a: Entry<R>, b: Entry<R>) => IdAtLeast(a, b))
  }

  /** `ORDER BY id`. */
  function Ascending<R(!new)>(t: seq<Entry<R>>): (r: seq<Entry<R>>)
    ensures SortedBy(r, (a: Entry<R>, b: Entry<R>) => IdAtMost(a, b))
    ensures multiset(r) == multiset(t)
  {
    IdOrdersArePreorders<R>();
    SortBy(t, (a: Entry<R>, b: Entry<R>) => IdAtMost(a, b))
  }

  /** The rows whose record satisfies `p` (a `WHERE`), in storage order. */
  function Select<R(!new)>(t: seq<Entry<R>>, p: R -> bool): (r: seq<Entry<R>>)
    ensures forall i :: 0 <= i < |r| ==> r[i] in t && p(r[i].row)
  {
    Filter(t, (e: Entry<R>) => p(e.row))
  }

  /** `WHERE p ORDER BY id DESC`. */
  function NewestFirst<R(!new)>(t: seq<Entry<R>>, p: R -> bool): (r: seq<Entry<R>>)
    ensures SortedBy(r, (a: Entry<R>, b: Entry<R>) => IdAtLeast(a, b))
    ensures multiset(r) == multiset(Select(t, p))
  {
    Descending(Select(t, p))
  }

  /** `WHERE p ORDER BY id`. */
  function OldestFirst<R(!new)>(t: seq<Entry<R>>, p: R -> bool): (r: seq<Entry<R>>)
    ensures SortedBy(r, (a: Entry<R>, b: Entry<R>) => IdAtMost(a, b))
    ensures multiset(r) == multiset(Select(t, p))
  {
    Ascending(Select(t, p))
  }

  /** A listing holds exactly the stored rows the condition accepts, each
      as often as it is stored, ordered by id. */
  lemma NewestFirstFacts<R(!new)>(t: seq<Entry<R>>, p: R -> bool)
    ensures forall e :: multiset(NewestFirst(t, p))[e] == if p(e.row) then multiset(t)[e] else 0
    ensures forall e :: e in NewestFirst(t, p) <==> e in t && p(e.row)
    ensures forall i, j :: 0 <= i < j < |NewestFirst(t, p)| ==> NewestFirst(t, p)[i].id >= NewestFirst(t, p)[j].id
  {
    var r := NewestFirst(t, p);
    forall e: Entry<R> ensures multiset(r)[e] == if p(e.row) then multiset(t)[e] else 0 {
      FilterCount(t, (x: Entry<R>) => p(x.row), e);
    }
    forall e: Entry<R> ensures e in r <==> e in t && p(e.row) {
      assert e in r <==> e in multiset(r);
      assert e in t <==> e in multiset(t);
    }
    forall i, j | 0 <= i < j < |r| ensures r[i].id >= r[j].id {
      assert IdAtLeast(r[i], r[j]);
    }
  }

  lemma OldestFirstFacts<R(!new)>(t: seq<Entry<R>>, p: R -> bool)
    ensures forall e :: multiset(OldestFirst(t, p))[e] == if p(e.row) then multiset(t)[e] else 0
    ensures forall e :: e in OldestFirst(t, p) <==> e in t && p(e.row)
    ensures forall i, j :: 0 <= i < j < |OldestFirst(t, p)| ==> OldestFirst(t, p)[i].id <= OldestFirst(t, p)[j].id
  {
    var r := OldestFirst(t, p);
    forall e: Entry<R> ensures multiset(r)[e] == if p(e.row) then multiset(t)[e] else 0 {
      FilterCount(t, (x: Entry<R>) => p(x.row), e);
    }
    forall e: Entry<R> ensures e in r <==> e in t && p(e.row) {
      assert e in r <==> e in multiset(r);
      assert e in t <==> e in multiset(t);
    }
    forall i, j | 0 <= i < j < |r| ensures r[i].id <= r[j].id {
      assert IdAtMost(r[i], r[j]);
    }
  }

  /** Keys stay keys under any rearrangement. */
  lemma {:induction false} UniqueIdsPermuted<R(!new)>(t: seq<Entry<R>>, r: seq<Entry<R>>)
    requires UniqueIds(t) && multiset(r) == multiset(t)
    ensures UniqueIds(r)
  {
    forall i, j | 0 <= i < j < |r| ensures r[i].id != r[j].id {
      if r[i].id == r[j].id {
        assert r[i] in multiset(t) && r[j] in multiset(t);
        var a :| 0 <= a < |t| && t[a] == r[i];
        var b :| 0 <= b < |t| && t[b] == r[j];
        if a == b {
          assert r[i] == r[j];
          var m := multiset(r);
          assert r == r[..i] + [r[i]] + r[i + 1..j] + [r[j]] + r[j + 1..];
          assert m[r[i]] >= 2;
          MultiplicityOne(t, a);
          assert false;
        }
      }
    }
  }

  /** With unique ids every row occurs once. */
  lemma {:induction false} MultiplicityOne<R>(t: seq<Entry<R>>, a: int)
    requires UniqueIds(t) && 0 <= a < |t|
    ensures multiset(t)[t[a]] == 1
  {
    if a == 0 {
      assert t[0] !in t[1..];
      assert t == [t[0]] + t[1..];
    } else {
      assert t == [t[0]] + t[1..];
      assert t[1..][a - 1] == t[a];
      assert UniqueIds(t[1..]) by {
        forall i, j | 0 <= i < j < |t[1..]| ensures t[1..][i].id != t[1..][j].id {
          assert t[1..][i] == t[i + 1] && t[1..][j] == t[j + 1];
        }
      }
      MultiplicityOne(t[1..], a - 1);
      assert t[0] != t[a];
    }
  }

  /** Under unique ids `ORDER BY id DESC` is strictly decreasing. */
  lemma DescendingStrict<R(!new)>(t: seq<Entry<R>>)
    requires UniqueIds(t)
    ensures forall i, j :: 0 <= i < j < |Descending(t)| ==> Descending(t)[i].id > Descending(t)[j].id
  {
    var r := Descending(t);
    UniqueIdsPermuted(t, r);
    forall i, j | 0 <= i < j < |r| ensures r[i].id > r[j].id {
      assert IdAtLeast(r[i], r[j]);
    }
  }

  /** `ORDER BY id DESC LIMIT 1`: the row with the largest id. */
  function Latest<R(!new)>(t: seq<Entry<R>>): (r: Option<Entry<R>>)
    ensures r.None? <==> t == []
    ensures r.Some? ==> r.value in t && forall i :: 0 <= i < |t| ==> t[i].id <= r.value.id
  {
    var d := Descending(t);
    if d == [] then None
    else
      assert |d| == |multiset(d)| == |multiset(t)| == |t|;
      assert d[0] in multiset(t);
      assert forall i :: 0 <= i < |t| ==> t[i].id <= d[0].id by {
        forall i | 0 <= i < |t| ensures t[i].id <= d[0].id {
          assert t[i] in multiset(d);
          var k :| 0 <= k < |d| && d[k] == t[i];
          if k > 0 {
            assert IdAtLeast(d[0], d[k]);
          }
        }
      }
      Some(d[0])
  }
}
