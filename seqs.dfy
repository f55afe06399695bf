/**
  Sequence operations that the handler's array chains are built from:
  `Array.prototype.filter`, an insertion sort driven by a comparator (both the
  store's `order: ['id']` and JavaScript's default `.sort()` are modelled by
  it), and the facts about them the rest of the model relies on.
 */
module Seqs {

  /** `a` is `b` with some elements deleted: order kept, nothing added. */
  predicate IsSubsequence<T(==)>(a: seq<T>, b: seq<T>)
    decreases |b|
  {
    if |a| == 0 then true
    else if |b| == 0 then false
    else (a[0] == b[0] && IsSubsequence(a[1..], b[1..])) || IsSubsequence(a, b[1..])
  }

  lemma {:induction false} SubsequenceTransitive<T>(a: seq<T>, b: seq<T>, c: seq<T>)
    requires IsSubsequence(a, b) && IsSubsequence(b, c)
    ensures IsSubsequence(a, c)
    decreases |c|
  {
    if |a| > 0 {
      if IsSubsequence(b, c[1..]) {
        SubsequenceTransitive(a, b, c[1..]);
      } else if a[0] == b[0] && IsSubsequence(a[1..], b[1..]) {
        SubsequenceTransitive(a[1..], b[1..], c[1..]);
      } else {
        SubsequenceTransitive(a, b[1..], c[1..]);
      }
    }
  }

  /** `s.filter(p)`: the elements satisfying `p`, in their original order. */
  function Filter<T>(s: seq<T>, p: T -> bool): (r: seq<T>)
    ensures forall x :: x in r ==> x in s && p(x)
    ensures forall x :: x in s && p(x) ==> x in r
    ensures IsSubsequence(r, s)
  {
    if |s| == 0 then []
    else if p(s[0]) then
      var rest := Filter(s[1..], p);
      assert ([s[0]] + rest)[1..] == rest;
      [s[0]] + rest
    else
      Filter(s[1..], p)
  }

  /** No two positions of `s` carry the same key. */
  predicate DistinctBy<T, K(==)>(s: seq<T>, key: T -> K) {
    forall i, j :: 0 <= i < j < |s| ==> key(s[i]) != key(s[j])
  }

  lemma {:induction false} SubsequenceKeepsDistinct<T, K>(a: seq<T>, b: seq<T>, key: T -> K)
    requires IsSubsequence(a, b) && DistinctBy(b, key)
    ensures DistinctBy(a, key)
    ensures forall x :: x in a ==> x in b
    decreases |b|
  {
    if |a| > 0 {
      if a[0] == b[0] && IsSubsequence(a[1..], b[1..]) {
        SubsequenceKeepsDistinct(a[1..], b[1..], key);
        forall x | x in a ensures x in b {
          if x != a[0] {
            assert x in a[1..] && x in b[1..];
          }
        }
        forall j | 0 < j < |a| ensures key(a[0]) != key(a[j]) {
          assert a[j] in a[1..];
          var k :| 0 <= k < |b[1..]| && b[1..][k] == a[j];
          assert b[k + 1] == a[j];
        }
      } else {
        SubsequenceKeepsDistinct(a, b[1..], key);
        forall x | x in a ensures x in b {
          assert x in b[1..];
        }
      }
    }
  }

  /** A sequence of distinct keys, all drawn from `ks`, is no longer than `ks`. */
  lemma {:induction false} DistinctBound<T, K>(s: seq<T>, key: T -> K, ks: seq<K>)
    requires DistinctBy(s, key)
    requires forall x :: x in s ==> key(x) in ks
    ensures |s| <= |ks|
  {
    if |s| > 0 {
      assert s[0] in s;
      var k :| 0 <= k < |ks| && ks[k] == key(s[0]);
      var rest := ks[..k] + ks[k + 1..];
      forall x | x in s[1..] ensures key(x) in rest {
        var j :| 0 <= j < |s[1..]| && s[1..][j] == x;
        assert s[j + 1] == x;
        assert key(x) != key(s[0]);
        assert key(x) in ks;
        var m :| 0 <= m < |ks| && ks[m] == key(x);
        if m < k {
          assert rest[m] == key(x);
        } else {
          assert m != k;
          assert rest[m - 1] == key(x);
        }
      }
      DistinctBound(s[1..], key, rest);
    }
  }

  /** `le` is total and transitive: a comparator a sort may be driven by. */
  ghost predicate TotalPreorder<T(!new)>(le: (T, T) -> bool) {
    && (forall a, b :: le(a, b) || le(b, a))
    && (forall a, b, c :: le(a, b) && le(b, c) ==> le(a, c))
  }

  predicate SortedBy<T>(s: seq<T>, le: (T, T) -> bool) {
    forall i, j :: 0 <= i < j < |s| ==> le(s[i], s[j])
  }

  /** Inserts `x` before the first element it is `le` to. */
  function Insert<T(==)>(x: T, s: seq<T>, le: (T, T) -> bool): (r: seq<T>)
    ensures multiset(r) == multiset(s) + multiset{x}
  {
    if |s| == 0 then [x]
    else if le(x, s[0]) then [x] + s
    else
      assert s == [s[0]] + s[1..];
      [s[0]] + Insert(x, s[1..], le)
  }

  /**
    Insertion sort by the comparator `le`. Its facts are stated below: it
    is a permutation, sorted under a total preorder, and keeps distinct
    keys distinct. The model does not state which of two elements that
    compare equal comes first.
   */
  function SortBy<T(==)>(s: seq<T>, le: (T, T) -> bool): (r: seq<T>)
    ensures multiset(r) == multiset(s)
    ensures |r| == |s|
  {
    if |s| == 0 then []
    else
      assert s == [s[0]] + s[1..];
      Insert(s[0], SortBy(s[1..], le), le)
  }

  /** What `Insert` returns holds `x` and the elements of `s`, nothing else. */
  lemma {:induction false} InsertMembers<T>(x: T, s: seq<T>, le: (T, T) -> bool)
    ensures forall y :: y in Insert(x, s, le) ==> y == x || y in s
  {
    forall y | y in Insert(x, s, le) ensures y == x || y in s {
      assert y in multiset(Insert(x, s, le));
    }
  }

  /** `[h] + rest` is sorted when `rest` is and `h` is below all of it. */
  lemma {:induction false} ConsSorted<T>(h: T, rest: seq<T>, le: (T, T) -> bool)
    requires SortedBy(rest, le) && forall y :: y in rest ==> le(h, y)
    ensures SortedBy([h] + rest, le)
  {
    var r := [h] + rest;
    forall i, j | 0 <= i < j < |r| ensures le(r[i], r[j]) {
      assert r[j] == rest[j - 1];
      if i > 0 {
        assert r[i] == rest[i - 1];
      }
    }
  }

  lemma {:induction false} InsertSorted<T(!new)>(x: T, s: seq<T>, le: (T, T) -> bool)
    requires TotalPreorder(le) && SortedBy(s, le)
    ensures SortedBy(Insert(x, s, le), le)
  {
    if |s| > 0 {
      var tail := s[1..];
      assert SortedBy(tail, le) && forall y :: y in tail ==> le(s[0], y) by {
        forall y | y in tail ensures le(s[0], y) {
          var k :| 0 <= k < |tail| && tail[k] == y;
          assert s[k + 1] == y;
        }
        forall i, j | 0 <= i < j < |tail| ensures le(tail[i], tail[j]) {
          assert tail[i] == s[i + 1] && tail[j] == s[j + 1];
        }
      }
      if le(x, s[0]) {
        assert s == [s[0]] + tail;
        ConsSorted(x, s, le);
      } else {
        InsertSorted(x, tail, le);
        InsertMembers(x, tail, le);
        ConsSorted(s[0], Insert(x, tail, le), le);
      }
    }
  }

  lemma {:induction false} SortBySorted<T(!new)>(s: seq<T>, le: (T, T) -> bool)
    requires TotalPreorder(le)
    ensures SortedBy(SortBy(s, le), le)
  {
    if |s| > 0 {
      SortBySorted(s[1..], le);
      InsertSorted(s[0], SortBy(s[1..], le), le);
    }
  }

  /** `[h] + rest` has distinct keys when `rest` has and `h`'s key is new. */
  lemma {:induction false} ConsDistinct<T, K>(h: T, rest: seq<T>, key: T -> K)
    requires DistinctBy(rest, key) && forall y :: y in rest ==> key(y) != key(h)
    ensures DistinctBy([h] + rest, key)
  {
    var r := [h] + rest;
    forall i, j | 0 <= i < j < |r| ensures key(r[i]) != key(r[j]) {
      assert r[j] == rest[j - 1];
      if i > 0 {
        assert r[i] == rest[i - 1];
      }
    }
  }

  lemma {:induction false} InsertKeepsDistinct<T, K>(x: T, s: seq<T>, le: (T, T) -> bool, key: T -> K)
    requires DistinctBy(s, key)
    requires forall y :: y in s ==> key(y) != key(x)
    ensures DistinctBy(Insert(x, s, le), key)
  {
    if |s| > 0 {
      var tail := s[1..];
      assert DistinctBy(tail, key) && forall y :: y in tail ==> key(y) != key(s[0]) by {
        forall y | y in tail ensures key(y) != key(s[0]) {
          var k :| 0 <= k < |tail| && tail[k] == y;
          assert s[k + 1] == y;
        }
        forall i, j | 0 <= i < j < |tail| ensures key(tail[i]) != key(tail[j]) {
          assert tail[i] == s[i + 1] && tail[j] == s[j + 1];
        }
      }
      if le(x, s[0]) {
        ConsDistinct(x, s, key);
      } else {
        assert s[0] in s;
        InsertKeepsDistinct(x, tail, le, key);
        InsertMembers(x, tail, le);
        ConsDistinct(s[0], Insert(x, tail, le), key);
      }
    } else {
      ConsDistinct(x, s, key);
    }
  }

  /** Sorting neither creates nor merges keys: distinct keys stay distinct. */
  lemma {:induction false} SortByKeepsDistinct<T, K>(s: seq<T>, le: (T, T) -> bool, key: T -> K)
    requires DistinctBy(s, key)
    ensures DistinctBy(SortBy(s, le), key)
  {
    if |s| > 0 {
      var tail := s[1..];
      assert DistinctBy(tail, key) by {
        forall i, j | 0 <= i < j < |tail| ensures key(tail[i]) != key(tail[j]) {
          assert tail[i] == s[i + 1] && tail[j] == s[j + 1];
        }
      }
      SortByKeepsDistinct(tail, le, key);
      forall y | y in SortBy(tail, le) ensures key(y) != key(s[0]) {
        assert y in multiset(SortBy(tail, le));
        assert y in multiset(tail);
        var k :| 0 <= k < |tail| && tail[k] == y;
        assert s[k + 1] == y;
      }
      InsertKeepsDistinct(s[0], SortBy(tail, le), le, key);
    }
  }

  /**
    Cutting a sorted sequence after `k` elements keeps the prefix sorted, and
    every element cut off is `le`-above every element kept.
   */
  lemma {:induction false} SortedPrefix<T>(s: seq<T>, k: nat, le: (T, T) -> bool)
    requires k <= |s| && SortedBy(s, le)
    ensures SortedBy(s[..k], le)
    ensures multiset(s[..k]) <= multiset(s)
    ensures forall i, y :: 0 <= i < k && y in multiset(s) - multiset(s[..k]) ==> le(s[..k][i], y)
  {
    var rest := s[k..];
    assert s == s[..k] + rest;
    assert multiset(s) == multiset(s[..k]) + multiset(rest);
    forall i, y | 0 <= i < k && y in multiset(s) - multiset(s[..k])
      ensures le(s[..k][i], y)
    {
      assert y in multiset(rest);
      var j :| 0 <= j < |rest| && rest[j] == y;
      assert s[k + j] == y && s[..k][i] == s[i];
    }
  }

  function Self<T>(x: T): T { x }

  /**
    An element kept in the first `k` of a sorted sequence has fewer than `k`
    distinct elements of the sequence strictly below it.
   */
  lemma {:induction false} FewStrictlyBelow<T>(s: seq<T>, k: nat, le: (T, T) -> bool, x: T, below: seq<T>)
    requires k <= |s| && SortedBy(s, le) && x in s[..k] && le(x, x)
    requires forall i, j :: 0 <= i < j < |below| ==> below[i] != below[j]
    requires forall z :: z in below ==> z in s && !le(x, z)
    ensures |below| < k
  {
    var kept := s[..k];
    SortedPrefix(s, k, le);
    var i :| 0 <= i < k && kept[i] == x;
    forall z | z in below ensures z in kept {
      assert z in multiset(s);
      assert z !in kept ==> z in multiset(s) - multiset(kept);
    }
    var all := [x] + below;
    assert DistinctBy(all, Self) by {
      forall a, b | 0 <= a < b < |all| ensures Self(all[a]) != Self(all[b]) {
        assert all[b] == below[b - 1] && all[b] in below;
        if a > 0 {
          assert all[a] == below[a - 1];
        }
      }
    }
    DistinctBound(all, Self, kept);
  }

  /** `s[i]` satisfies `p` and no element before it does. */
  predicate FirstSatisfying<T>(s: seq<T>, p: T -> bool, i: int) {
    0 <= i < |s| && p(s[i]) && forall j :: 0 <= j < i ==> !p(s[j])
  }

  /** The head of `s.filter(p)` is the first element of `s` satisfying `p`. */
  lemma {:induction false} FilterHeadIsFirst<T>(s: seq<T>, p: T -> bool)
    requires |Filter(s, p)| > 0
    ensures exists i :: FirstSatisfying(s, p, i) && s[i] == Filter(s, p)[0]
  {
    if p(s[0]) {
      assert FirstSatisfying(s, p, 0);
    } else {
      FilterHeadIsFirst(s[1..], p);
      var i :| FirstSatisfying(s[1..], p, i) && s[1..][i] == Filter(s[1..], p)[0];
      assert s[i + 1] == s[1..][i];
      forall j | 0 <= j < i + 1 ensures !p(s[j]) {
        if j > 0 {
          assert s[j] == s[1..][j - 1];
        }
      }
      assert FirstSatisfying(s, p, i + 1);
    }
  }
}
