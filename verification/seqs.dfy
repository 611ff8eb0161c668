/** Sequence helpers the query model is built from: selection (a SQL
    `WHERE`), ordering (a SQL `ORDER BY`) and the code-point order on text
    that both SQLite's BINARY collation and Python's `sorted` use. */
module Seqs {

  /** The elements of `s` that satisfy `p`, in their original order. */
  function Filter<T(!new)>(s: seq<T>, p: T -> bool): (r: seq<T>)
    ensures |r| <= |s|
    ensures forall x :: x in r <==> x in s && p(x)
  {
    if s == [] then [] else (if p(s[0]) then [s[0]] else []) + Filter(s[1..], p)
  }

  lemma {:induction false} FilterConcat<T(!new)>(a: seq<T>, b: seq<T>, p: T -> bool)
    ensures Filter(a + b, p) == Filter(a, p) + Filter(b, p)
  {
    if a == [] {
      assert a + b == b;
    } else {
      assert (a + b)[1..] == a[1..] + b;
      FilterConcat(a[1..], b, p);
    }
  }

  /** Selecting with `p` keeps exactly the copies of `x` that `p` accepts. */
  lemma {:induction false} FilterCount<T(!new)>(s: seq<T>, p: T -> bool, x: T)
    ensures multiset(Filter(s, p))[x] == if p(x) then multiset(s)[x] else 0
  {
    if s != [] {
      FilterCount(s[1..], p, x);
      assert s == [s[0]] + s[1..];
    }
  }

  /** A selection and its complement split the input between them. */
  lemma {:induction false} FilterPartition<T(!new)>(s: seq<T>, p: T -> bool, q: T -> bool)
    requires forall x :: q(x) == !p(x)
    ensures |Filter(s, p)| + |Filter(s, q)| == |s|
  {
    if s != [] {
      FilterPartition(s[1..], p, q);
    }
  }

  /** `s` back to front. */
  function Reversed<T>(s: seq<T>): (r: seq<T>)
    ensures |r| == |s|
    ensures forall i :: 0 <= i < |s| ==> r[i] == s[|s| - 1 - i]
  {
    if s == [] then [] else Reversed(s[1..]) + [s[0]]
  }

  lemma ReversedTwice<T>(s: seq<T>)
    ensures Reversed(Reversed(s)) == s
  {
  }

  /** No element occurs twice. */
  predicate Distinct<T(==)>(s: seq<T>)
  {
    forall i, j :: 0 <= i < j < |s| ==> s[i] != s[j]
  }

  /** `s` with every repeat of an element after its first occurrence
      dropped. */
  function Dedup<T(==, !new)>(s: seq<T>): (r: seq<T>)
    ensures forall x :: x in r <==> x in s
    ensures Distinct(r)
    decreases |s|
  {
    if s == [] then []
    else
      var h := s[0];
      var rest := Dedup(Filter(s[1..], x => x != h));
      assert h !in rest;
      ConsDistinct(h, rest);
      [h] + rest
  }

  lemma HeadIsMember<T>(s: seq<T>)
    ensures |s| > 0 ==> s[0] in s
  {
  }

  /** A sequence no value belongs to is empty. */
  lemma EmptyWithoutMembers<T>(s: seq<T>)
    requires forall x :: x !in s
    ensures s == []
  {
    HeadIsMember(s);
  }

  lemma ConsDistinct<T>(x: T, s: seq<T>)
    requires x !in s && Distinct(s)
    ensures Distinct([x] + s)
  {
    forall i, j | 0 <= i < j < |[x] + s| ensures ([x] + s)[i] != ([x] + s)[j] {
      if i > 0 {
        assert ([x] + s)[i] == s[i - 1] && ([x] + s)[j] == s[j - 1];
      } else {
        assert ([x] + s)[j] in s;
      }
    }
  }

  /** Selecting from a sequence without repeats gives one without repeats. */
  lemma {:induction false} FilterKeepsDistinct<T(!new)>(s: seq<T>, p: T -> bool)
    requires Distinct(s)
    ensures Distinct(Filter(s, p))
  {
    if s != [] {
      assert Distinct(s[1..]) by {
        forall i, j | 0 <= i < j < |s[1..]| ensures s[1..][i] != s[1..][j] {
          assert s[1..][i] == s[i + 1] && s[1..][j] == s[j + 1];
        }
      }
      FilterKeepsDistinct(s[1..], p);
      if p(s[0]) {
        assert s[0] !in s[1..] by {
          forall k | 0 <= k < |s[1..]| ensures s[1..][k] != s[0] {
            assert s[1..][k] == s[k + 1];
          }
        }
        ConsDistinct(s[0], Filter(s[1..], p));
      } else {
        assert [] + Filter(s[1..], p) == Filter(s[1..], p);
      }
    }
  }

  /** A sequence without repeats drawn from `S` is no longer than `S`
      is large. */
  lemma {:induction false} DistinctWithin<T>(s: seq<T>, S: set<T>)
    requires Distinct(s)
    requires forall i :: 0 <= i < |s| ==> s[i] in S
    ensures |s| <= |S|
    decreases |s|
  {
    if s != [] {
      var rest := s[1..];
      assert Distinct(rest) by {
        forall i, j | 0 <= i < j < |rest| ensures rest[i] != rest[j] {
          assert rest[i] == s[i + 1] && rest[j] == s[j + 1];
        }
      }
      forall i | 0 <= i < |rest| ensures rest[i] in S - {s[0]} {
        assert rest[i] == s[i + 1];
      }
      DistinctWithin(rest, S - {s[0]});
    }
  }

  /** `le` relates every pair one way or the other, transitively: an order
      a sort can follow, ties allowed. */
  ghost predicate TotalPreorder<T(!new)>(le: (T, T) -> bool)
  {
    && (forall a, b :: le(a, b) || le(b, a))
    && (forall a, b, c :: le(a, b) && le(b, c) ==> le(a, c))
  }

  predicate SortedBy<T>(s: seq<T>, le: (T, T) -> bool)
  {
    forall i, j :: 0 <= i < j < |s| ==> le(s[i], s[j])
  }

  lemma ConsSorted<T>(x: T, s: seq<T>, le: (T, T) -> bool)
    requires SortedBy(s, le)
    requires forall j :: 0 <= j < |s| ==> le(x, s[j])
    ensures SortedBy([x] + s, le)
  {
    forall i, j | 0 <= i < j < |[x] + s| ensures le(([x] + s)[i], ([x] + s)[j]) {
      if i > 0 {
        assert ([x] + s)[i] == s[i - 1];
      }
      assert ([x] + s)[j] == s[j - 1];
    }
  }

  /** Anything `le`-above every element of `s` and above `x` is above every
      element of a sequence holding the elements of `s` plus `x`. */
  lemma BoundOfInserted<T>(h: T, x: T, s: seq<T>, r: seq<T>, le: (T, T) -> bool)
    requires multiset(r) == multiset(s) + multiset{x}
    requires le(h, x)
    requires forall j :: 0 <= j < |s| ==> le(h, s[j])
    ensures forall j :: 0 <= j < |r| ==> le(h, r[j])
  {
    forall j | 0 <= j < |r| ensures le(h, r[j]) {
      assert r[j] in multiset(r);
      if r[j] != x {
        assert r[j] in multiset(s);
        var k :| 0 <= k < |s| && s[k] == r[j];
      }
    }
  }

  function Insert<T(!new)>(x: T, s: seq<T>, le: (T, T) -> bool): (r: seq<T>)
    requires TotalPreorder(le)
    requires SortedBy(s, le)
    ensures SortedBy(r, le)
    ensures multiset(r) == multiset(s) + multiset{x}
  {
    if s == [] then [x]
    else
      assert s == [s[0]] + s[1..];
      if le(x, s[0]) then
        assert forall j :: 0 <= j < |s| ==> le(x, s[j]) by {
          forall j | 0 <= j < |s| ensures le(x, s[j]) {
            if j > 0 {
              assert le(s[0], s[j]);
            }
          }
        }
        ConsSorted(x, s, le);
        [x] + s
      else
        var rest := Insert(x, s[1..], le);
        assert forall j :: 0 <= j < |s[1..]| ==> le(s[0], s[1..][j]) by {
          forall j | 0 <= j < |s[1..]| ensures le(s[0], s[1..][j]) {
            assert s[1..][j] == s[j + 1];
          }
        }
        BoundOfInserted(s[0], x, s[1..], rest, le);
        ConsSorted(s[0], rest, le);
        [s[0]] + rest
  }

  /** A stable insertion sort: the result is ordered by `le` and holds the
      same elements as the input. */
  function SortBy<T(!new)>(s: seq<T>, le: (T, T) -> bool): (r: seq<T>)
    requires TotalPreorder(le)
    ensures SortedBy(r, le)
    ensures multiset(r) == multiset(s)
  {
    if s == [] then []
    else
      assert s == [s[0]] + s[1..];
      Insert(s[0], SortBy(s[1..], le), le)
  }

  /** Code-point (lexicographic) order on strings; a proper prefix comes
      first. */
  predicate StrLe(a: string, b: string)
  {
    |a| == 0 || (|b| > 0 && (a[0] < b[0] || (a[0] == b[0] && StrLe(a[1..], b[1..]))))
  }

  lemma {:induction false} StrLeConnected(a: string, b: string)
    ensures StrLe(a, b) || StrLe(b, a)
  {
    if |a| > 0 && |b| > 0 && a[0] == b[0] {
      StrLeConnected(a[1..], b[1..]);
    }
  }

  lemma {:induction false} StrLeTransitive(a: string, b: string, c: string)
    requires StrLe(a, b) && StrLe(b, c)
    ensures StrLe(a, c)
  {
    if |a| > 0 && a[0] == b[0] && b[0] == c[0] {
      StrLeTransitive(a[1..], b[1..], c[1..]);
    }
  }

  lemma {:induction false} StrLeAntisymmetric(a: string, b: string)
    requires StrLe(a, b) && StrLe(b, a)
    ensures a == b
  {
    if |a| > 0 {
      StrLeAntisymmetric(a[1..], b[1..]);
      assert a == [a[0]] + a[1..] && b == [b[0]] + b[1..];
    }
  }

  lemma StrLeIsTotalPreorder()
    ensures TotalPreorder(StrLe)
  {
    forall a, b ensures StrLe(a, b) || StrLe(b, a) {
      StrLeConnected(a, b);
    }
    forall a, b, c | StrLe(a, b) && StrLe(b, c) ensures StrLe(a, c) {
      StrLeTransitive(a, b, c);
    }
  }
}
