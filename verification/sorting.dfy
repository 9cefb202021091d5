/** Filtering, stable descending sorting by an integer key, and top-N
    truncation, as `formatter.py` uses them through Python's list
    comprehensions, `sorted(..., key=..., reverse=True)` and slicing. */
module Sorting {

  /** `r` can be obtained from `s` by deleting elements: its elements occur in
      `s` in the same order. */
  predicate IsSubseq<T(==)>(r: seq<T>, s: seq<T>)
    decreases |s|
  {
    if r == [] then true
    else if s == [] then false
    else if r[0] == s[0] then IsSubseq(r[1..], s[1..])
    else IsSubseq(r, s[1..])
  }

  lemma {:induction false} IsSubseqRefl<T>(s: seq<T>)
    ensures IsSubseq(s, s)
    decreases |s|
  {
    if s != [] {
      IsSubseqRefl(s[1..]);
    }
  }

  /** The elements of `s` that satisfy `p`, in their original order. */
  function Filter<T(!new)>(p: T -> bool, s: seq<T>): (r: seq<T>)
    ensures |r| <= |s|
    ensures IsSubseq(r, s)
    ensures forall i :: 0 <= i < |r| ==> p(r[i])
    ensures forall x :: multiset(r)[x] == if p(x) then multiset(s)[x] else 0
    decreases |s|
  {
    if s == [] then []
    else
      assert s == [s[0]] + s[1..];
      if p(s[0]) then
        var r := [s[0]] + Filter(p, s[1..]);
        assert r[1..] == Filter(p, s[1..]);
        r
      else
        var r := Filter(p, s[1..]);
        assert r != [] ==> r[0] != s[0];
        r
  }

  /** Ordered from the largest key to the smallest. */
  ghost predicate SortedDesc<T>(key: T -> int, s: seq<T>) {
    forall i, j :: 0 <= i < j < |s| ==> key(s[i]) >= key(s[j])
  }

  /** The elements of `s` whose key is `k`, in their order in `s`. */
  function WithKey<T>(key: T -> int, k: int, s: seq<T>): seq<T>
    decreases |s|
  {
    if s == [] then []
    else if key(s[0]) == k then [s[0]] + WithKey(key, k, s[1..])
    else WithKey(key, k, s[1..])
  }

  /** `r` is a stable rearrangement of `s`: for every key value, the elements
      carrying it appear in `r` exactly as, and in the order, they appear in `s`. */
  ghost predicate Stable<T>(key: T -> int, s: seq<T>, r: seq<T>) {
    forall k :: WithKey(key, k, r) == WithKey(key, k, s)
  }

  /** Inserts `x` into a descending sequence, after every element whose key is
      larger and before every element whose key is equal or smaller. */
  function Insert<T>(key: T -> int, x: T, s: seq<T>): (r: seq<T>)
    requires SortedDesc(key, s)
    ensures |r| == |s| + 1
    ensures multiset(r) == multiset(s) + multiset{x}
    ensures SortedDesc(key, r)
    decreases |s|
  {
    if s == [] || key(x) >= key(s[0]) then [x] + s
    else
      var t := Insert(key, x, s[1..]);
      assert s == [s[0]] + s[1..];
      InsertBelowHead(key, s[0], x, s[1..], t);
      [s[0]] + t
  }

  /** A head that outranks both the inserted element and the rest stays in front. */
  lemma InsertBelowHead<T>(key: T -> int, h: T, x: T, s: seq<T>, t: seq<T>)
    requires key(x) < key(h)
    requires forall j :: 0 <= j < |s| ==> key(s[j]) <= key(h)
    requires multiset(t) == multiset(s) + multiset{x}
    requires SortedDesc(key, t)
    ensures SortedDesc(key, [h] + t)
  {
    forall j | 0 <= j < |t| ensures key(t[j]) <= key(h) {
      assert t[j] in multiset(t);
      if t[j] != x {
        assert t[j] in multiset(s);
      }
    }
  }

  /** Inserting `x` adds it in front of the group of its key and leaves every
      other group unchanged: insertion is stable. */
  lemma {:induction false} InsertStable<T>(key: T -> int, x: T, s: seq<T>, k: int)
    requires SortedDesc(key, s)
    ensures WithKey(key, k, Insert(key, x, s)) ==
      (if key(x) == k then [x] + WithKey(key, k, s) else WithKey(key, k, s))
    decreases |s|
  {
    if s == [] || key(x) >= key(s[0]) {
      assert ([x] + s)[1..] == s;
    } else {
      var t := Insert(key, x, s[1..]);
      InsertStable(key, x, s[1..], k);
      assert ([s[0]] + t)[1..] == t;
    }
  }

  /** Stable descending sort by `key`, the order Python's
      `sorted(s, key=key, reverse=True)` produces. */
  function SortDesc<T>(key: T -> int, s: seq<T>): (r: seq<T>)
    ensures |r| == |s|
    ensures multiset(r) == multiset(s)
    ensures SortedDesc(key, r)
    decreases |s|
  {
    if s == [] then []
    else
      assert s == [s[0]] + s[1..];
      Insert(key, s[0], SortDesc(key, s[1..]))
  }

  /** The sort is stable: within every key, the original order survives. */
  lemma {:induction false} SortDescStable<T>(key: T -> int, s: seq<T>)
    ensures Stable(key, s, SortDesc(key, s))
    decreases |s|
  {
    if s != [] {
      SortDescStable(key, s[1..]);
      forall k ensures WithKey(key, k, SortDesc(key, s)) == WithKey(key, k, s) {
        InsertStable(key, s[0], SortDesc(key, s[1..]), k);
      }
    }
  }

  lemma {:induction false} WithKeyNonEmpty<T>(key: T -> int, s: seq<T>, i: nat)
    requires i < |s|
    ensures WithKey(key, key(s[i]), s) != []
    decreases |s|
  {
    if key(s[0]) != key(s[i]) {
      WithKeyNonEmpty(key, s[1..], i - 1);
    }
  }

  lemma {:induction false} WithKeyEmpty<T>(key: T -> int, s: seq<T>, k: int)
    requires WithKey(key, k, s) != []
    ensures exists i :: 0 <= i < |s| && key(s[i]) == k
    decreases |s|
  {
    if key(s[0]) != k {
      WithKeyEmpty(key, s[1..], k);
      var i :| 0 <= i < |s[1..]| && key(s[1..][i]) == k;
      assert key(s[i + 1]) == k;
    }
  }

  /** There is only one stable descending arrangement of a sequence, so any
      stable descending sort — Python's included — yields `SortDesc`'s result. */
  lemma {:induction false} StableSortUnique<T>(key: T -> int, s: seq<T>, r1: seq<T>, r2: seq<T>)
    requires SortedDesc(key, r1) && Stable(key, s, r1)
    requires SortedDesc(key, r2) && Stable(key, s, r2)
    ensures r1 == r2
    decreases |r1| + |r2|
  {
    if r1 == [] || r2 == [] {
      if r1 != [] {
        WithKeyNonEmpty(key, r1, 0);
        assert false;
      } else if r2 != [] {
        WithKeyNonEmpty(key, r2, 0);
        assert false;
      }
    } else {
      var m1, m2 := key(r1[0]), key(r2[0]);
      WithKeyNonEmpty(key, r1, 0);
      WithKeyEmpty(key, r2, m1);
      WithKeyNonEmpty(key, r2, 0);
      WithKeyEmpty(key, r1, m2);
      assert m1 == m2;
      assert r1[0] == r2[0] by {
        assert WithKey(key, m1, r1)[0] == r1[0];
        assert WithKey(key, m1, r2)[0] == r2[0];
      }
      var t1, t2 := r1[1..], r2[1..];
      forall k ensures WithKey(key, k, t1) == WithKey(key, k, t2) {
        assert WithKey(key, k, r1) == WithKey(key, k, s) == WithKey(key, k, r2);
        if key(r1[0]) == k {
          assert WithKey(key, k, r1) == [r1[0]] + WithKey(key, k, t1);
          assert WithKey(key, k, r2) == [r2[0]] + WithKey(key, k, t2);
          assert WithKey(key, k, t1) == WithKey(key, k, r1)[1..];
          assert WithKey(key, k, t2) == WithKey(key, k, r2)[1..];
        }
      }
      StableSortUnique(key, t1, t1, t2);
      assert r1 == [r1[0]] + t1 && r2 == [r2[0]] + t2;
    }
  }

  /** Any stable descending arrangement of `s` is exactly `SortDesc(key, s)`. */
  lemma SortDescIsTheStableSort<T>(key: T -> int, s: seq<T>, r: seq<T>)
    requires SortedDesc(key, r) && Stable(key, s, r)
    ensures r == SortDesc(key, s)
  {
    SortDescStable(key, s);
    StableSortUnique(key, s, r, SortDesc(key, s));
  }

  /** Filtering keeps the group of every key whose elements all pass the filter. */
  lemma {:induction false} WithKeyFilter<T(!new)>(key: T -> int, p: T -> bool, s: seq<T>, k: int)
    requires forall x :: key(x) == k ==> p(x)
    ensures WithKey(key, k, Filter(p, s)) == WithKey(key, k, s)
    decreases |s|
  {
    if s != [] {
      WithKeyFilter(key, p, s[1..], k);
    }
  }

  /** The first `n` elements, or all of them when there are fewer (`s[:n]`). */
  function Take<T>(s: seq<T>, n: nat): (r: seq<T>)
    ensures |r| == if n < |s| then n else |s|
    ensures r <= s
  {
    if n < |s| then s[..n] else s
  }

  /** Cutting a descending sequence keeps it descending and keeps only its own elements. */
  lemma TakeSorted<T>(key: T -> int, s: seq<T>, n: nat)
    requires SortedDesc(key, s)
    ensures SortedDesc(key, Take(s, n))
    ensures multiset(Take(s, n)) <= multiset(s)
  {
    var r := Take(s, n);
    assert s == r + s[|r|..];
  }

  /** In a descending sequence nothing cut off by `Take` outranks anything kept. */
  lemma TakeKeepsTop<T>(key: T -> int, s: seq<T>, n: nat)
    requires SortedDesc(key, s)
    ensures forall x, y :: x in multiset(s) - multiset(Take(s, n)) && y in Take(s, n) ==> key(x) <= key(y)
  {
    var kept := Take(s, n);
    var rest := s[|kept|..];
    assert s == kept + rest;
    assert multiset(s) - multiset(kept) == multiset(rest);
    forall x, y | x in multiset(rest) && y in kept ensures key(x) <= key(y) {
      var i :| 0 <= i < |rest| && rest[i] == x;
      var j :| 0 <= j < |kept| && kept[j] == y;
      assert s[|kept| + i] == x && s[j] == y;
    }
  }

  /** Truncation keeps, for every key, a prefix of that key's elements. */
  lemma {:induction false} WithKeyTake<T>(key: T -> int, k: int, s: seq<T>, n: nat)
    ensures WithKey(key, k, Take(s, n)) <= WithKey(key, k, s)
    decreases |s|
  {
    if n < |s| && s != [] {
      if n == 0 {
        assert Take(s, n) == [];
      } else {
        WithKeyTake(key, k, s[1..], n - 1);
        assert Take(s, n)[1..] == Take(s[1..], n - 1);
      }
    }
  }

  /** No element carries key `k`, so its group is empty. */
  lemma {:induction false} WithKeyAbsent<T>(key: T -> int, k: int, s: seq<T>)
    requires forall i :: 0 <= i < |s| ==> key(s[i]) != k
    ensures WithKey(key, k, s) == []
    decreases |s|
  {
    if s != [] {
      WithKeyAbsent(key, k, s[1..]);
    }
  }

  lemma WithKeyCons<T>(key: T -> int, k: int, x: T, s: seq<T>)
    ensures WithKey(key, k, [x] + s) == (if key(x) == k then [x] else []) + WithKey(key, k, s)
  {
    assert ([x] + s)[1..] == s;
  }
}
