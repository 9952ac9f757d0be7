/** A stable sort in descending key order, the behaviour of Python's
    `list.sort(key=..., reverse=True)`: elements with equal keys keep their
    original relative order. Stability is stated through `FilterKey`, the
    subsequence of elements carrying one key value. */
module StableSort {
  import opened Wrappers


  /** Keys never increase from left to right. */
  ghost predicate SortedDesc<T>(s: seq<T>, key: T -> real) {
    forall i, j :: 0 <= i < j < |s| ==> key(s[j]) <= key(s[i])
  }

  /** The elements of `s` whose key is `v`, in their order in `s`. */
  function FilterKey<T>(s: seq<T>, key: T -> real, v: real): seq<T>
    decreases |s|
  {
    if |s| == 0 then []
    else (if key(s[0]) == v then [s[0]] else []) + FilterKey(s[1..], key, v)
  }

  /** Two sequences agree on the order of each group of equal keys. */
  ghost predicate SameKeyOrder<T>(a: seq<T>, b: seq<T>, key: T -> real) {
    forall v :: FilterKey(a, key, v) == FilterKey(b, key, v)
  }

  lemma {:induction false} FilterKeyConcat<T>(a: seq<T>, b: seq<T>, key: T -> real, v: real)
    ensures FilterKey(a + b, key, v) == FilterKey(a, key, v) + FilterKey(b, key, v)
    decreases |a|
  {
    if |a| > 0 {
      assert (a + b)[1..] == a[1..] + b;
      FilterKeyConcat(a[1..], b, key, v);
    } else {
      assert a + b == b;
    }
  }

  lemma {:induction false} FilterKeyMember<T>(s: seq<T>, key: T -> real, v: real, x: T)
    requires x in FilterKey(s, key, v)
    ensures x in s && key(x) == v
    decreases |s|
  {
    if |s| > 0 && !(key(s[0]) == v && x == s[0]) {
      FilterKeyMember(s[1..], key, v, x);
    }
  }

  /** Inserts `x` in front of the first element whose key is not larger. */
  function Insert<T>(x: T, s: seq<T>, key: T -> real): (r: seq<T>)
    ensures multiset(r) == multiset(s) + multiset{x}
    decreases |s|
  {
    if |s| == 0 || key(s[0]) <= key(x) then [x] + s
    else
      assert s == [s[0]] + s[1..];
      [s[0]] + Insert(x, s[1..], key)
  }

  lemma {:induction false} InsertSorted<T>(x: T, s: seq<T>, key: T -> real)
    requires SortedDesc(s, key)
    ensures SortedDesc(Insert(x, s, key), key)
    decreases |s|
  {
    var r := Insert(x, s, key);
    if |s| == 0 || key(s[0]) <= key(x) {
      forall i, j | 0 <= i < j < |r| ensures key(r[j]) <= key(r[i]) {
        if i > 0 { assert r[i] == s[i - 1] && r[j] == s[j - 1]; }
        else { assert r[j] == s[j - 1]; assert key(s[j - 1]) <= key(s[0]); }
      }
    } else {
      var tail := Insert(x, s[1..], key);
      assert r == [s[0]] + tail;
      assert SortedDesc(s[1..], key);
      InsertSorted(x, s[1..], key);
      assert s == [s[0]] + s[1..];
      forall i, j | 0 <= i < j < |r| ensures key(r[j]) <= key(r[i]) {
        if i == 0 {
          assert r[j] == tail[j - 1];
          assert r[j] in multiset(tail);
          if r[j] != x {
            assert r[j] in multiset(s[1..]);
            var k :| 0 <= k < |s[1..]| && s[1..][k] == r[j];
            assert s[k + 1] == r[j];
          }
        } else {
          assert r[i] == tail[i - 1] && r[j] == tail[j - 1];
        }
      }
    }
  }

  /** The part of the one-element sequence `[x]` that `FilterKey` keeps. */
  function Keep<T>(x: T, key: T -> real, v: real): seq<T> {
    if key(x) == v then [x] else []
  }

  lemma FilterKeyCons<T>(x: T, s: seq<T>, key: T -> real, v: real)
    ensures FilterKey([x] + s, key, v) == Keep(x, key, v) + FilterKey(s, key, v)
  {
    assert ([x] + s)[1..] == s;
  }

  lemma {:induction false} InsertKeyOrder<T>(x: T, s: seq<T>, key: T -> real, v: real)
    ensures FilterKey(Insert(x, s, key), key, v) == FilterKey([x] + s, key, v)
    decreases |s|
  {
    if |s| > 0 && key(x) < key(s[0]) {
      var tail := Insert(x, s[1..], key);
      var ks, kx, rest := Keep(s[0], key, v), Keep(x, key, v), FilterKey(s[1..], key, v);
      assert FilterKey(Insert(x, s, key), key, v) == ks + (kx + rest) by {
        assert Insert(x, s, key) == [s[0]] + tail;
        InsertKeyOrder(x, s[1..], key, v);
        FilterKeyCons(s[0], tail, key, v);
        FilterKeyCons(x, s[1..], key, v);
      }
      assert FilterKey([x] + s, key, v) == kx + (ks + rest) by {
        FilterKeyCons(s[0], s[1..], key, v);
        assert [s[0]] + s[1..] == s;
        FilterKeyCons(x, s, key, v);
      }
      assert ks == [] || kx == [];
    }
  }

  /** Insertion sort, descending and stable. */
  function SortDesc<T>(s: seq<T>, key: T -> real): (r: seq<T>)
    ensures |r| == |s|
    ensures multiset(r) == multiset(s)
    ensures SortedDesc(r, key)
    ensures SameKeyOrder(r, s, key)
    decreases |s|
  {
    if |s| == 0 then []
    else
      var rest := SortDesc(s[1..], key);
      SortDescStep(s, rest, key);
      Insert(s[0], rest, key)
  }

  /** The inductive step of `SortDesc`: inserting the head into the sorted
      tail sorts the whole sequence. */
  lemma SortDescStep<T>(s: seq<T>, rest: seq<T>, key: T -> real)
    requires |s| > 0
    requires multiset(rest) == multiset(s[1..])
    requires SortedDesc(rest, key)
    requires SameKeyOrder(rest, s[1..], key)
    ensures |Insert(s[0], rest, key)| == |s|
    ensures multiset(Insert(s[0], rest, key)) == multiset(s)
    ensures SortedDesc(Insert(s[0], rest, key), key)
    ensures SameKeyOrder(Insert(s[0], rest, key), s, key)
  {
    var r := Insert(s[0], rest, key);
    assert s == [s[0]] + s[1..];
    assert |r| == |multiset(r)| == |multiset(rest)| + 1;
    assert |rest| == |multiset(rest)| == |multiset(s[1..])| == |s| - 1;
    InsertSorted(s[0], rest, key);
    forall v ensures FilterKey(r, key, v) == FilterKey(s, key, v) {
      InsertKeyOrder(s[0], rest, key, v);
      FilterKeyCons(s[0], rest, key, v);
      FilterKeyCons(s[0], s[1..], key, v);
      assert FilterKey(rest, key, v) == FilterKey(s[1..], key, v);
    }
  }

  /** Two descending sequences with the same order inside every key group are
      equal: a stable descending sort has exactly one possible output. */
  lemma {:induction false} SortedSameKeyOrderEqual<T>(a: seq<T>, b: seq<T>, key: T -> real)
    requires SortedDesc(a, key) && SortedDesc(b, key)
    requires SameKeyOrder(a, b, key)
    ensures a == b
    decreases |a|
  {
    if |a| == 0 || |b| == 0 {
      NoKeysNoElements(a, b, key);
      NoKeysNoElements(b, a, key);
    } else {
      var ka, kb := key(a[0]), key(b[0]);
      KeyOfHeadIsMax(a, b, key);
      KeyOfHeadIsMax(b, a, key);
      assert ka == kb;
      assert FilterKey(a, key, ka)[0] == a[0];
      assert FilterKey(b, key, ka)[0] == b[0];
      assert a[0] == b[0];
      forall v ensures FilterKey(a[1..], key, v) == FilterKey(b[1..], key, v) {
        assert FilterKey(a, key, v) == FilterKey(b, key, v);
        FilterKeyCons(a[0], a[1..], key, v);
        FilterKeyCons(b[0], b[1..], key, v);
        assert [a[0]] + a[1..] == a && [b[0]] + b[1..] == b;
        var fa, fb := FilterKey(a[1..], key, v), FilterKey(b[1..], key, v);
        assert Keep(a[0], key, v) + fa == Keep(a[0], key, v) + fb;
        assert fa == (Keep(a[0], key, v) + fa)[|Keep(a[0], key, v)|..];
        assert fb == (Keep(a[0], key, v) + fb)[|Keep(a[0], key, v)|..];
      }
      assert SortedDesc(a[1..], key) && SortedDesc(b[1..], key);
      SortedSameKeyOrderEqual(a[1..], b[1..], key);
      assert a == [a[0]] + a[1..] && b == [b[0]] + b[1..];
    }
  }

  lemma NoKeysNoElements<T>(a: seq<T>, b: seq<T>, key: T -> real)
    requires SameKeyOrder(a, b, key)
    ensures |b| > 0 ==> |a| > 0
  {
    if |b| > 0 {
      assert FilterKey(b, key, key(b[0])) != [];
      assert FilterKey(a, key, key(b[0])) != [];
    }
  }

  lemma KeyOfHeadIsMax<T>(a: seq<T>, b: seq<T>, key: T -> real)
    requires |a| > 0 && |b| > 0
    requires SortedDesc(a, key)
    requires SameKeyOrder(a, b, key)
    ensures key(b[0]) <= key(a[0])
  {
    var v := key(b[0]);
    assert b[0] in FilterKey(b, key, v);
    assert b[0] in FilterKey(a, key, v);
    FilterKeyMember(a, key, v, b[0]);
    var k :| 0 <= k < |a| && a[k] == b[0];
    if k > 0 { assert key(a[k]) <= key(a[0]); }
  }

  /** `SortDesc` is the only stable descending order of `s`. */
  lemma SortDescUnique<T>(s: seq<T>, t: seq<T>, key: T -> real)
    requires SortedDesc(t, key)
    requires SameKeyOrder(t, s, key)
    ensures t == SortDesc(s, key)
  {
    var r := SortDesc(s, key);
    forall v ensures FilterKey(t, key, v) == FilterKey(r, key, v) {
      assert FilterKey(t, key, v) == FilterKey(s, key, v);
    }
    SortedSameKeyOrderEqual(t, r, key);
  }

  /** Everything after position `m` of a descending sequence has a key no larger
      than anything before it. */
  lemma PrefixDominates<T>(s: seq<T>, m: nat, key: T -> real)
    requires SortedDesc(s, key)
    requires m <= |s|
    ensures forall x, y :: x in multiset(s[m..]) && y in s[..m] ==> key(x) <= key(y)
  {
    forall x, y | x in multiset(s[m..]) && y in s[..m] ensures key(x) <= key(y) {
      assert x in s[m..];
      var j :| 0 <= j < |s[m..]| && s[m..][j] == x;
      var i :| 0 <= i < m && s[i] == y;
      assert s[m + j] == x;
    }
  }

  /** Cutting a sequence keeps, within each key group, a prefix of that group. */
  lemma FilterKeyPrefix<T>(s: seq<T>, m: nat, key: T -> real, v: real)
    requires m <= |s|
    ensures FilterKey(s[..m], key, v) <= FilterKey(s, key, v)
  {
    assert s == s[..m] + s[m..];
    FilterKeyConcat(s[..m], s[m..], key, v);
  }

  /** Python's `s[:k]`, where `k` may be `None` (everything) or negative (all
      but the last `-k`). */
  function SlicePrefix<T>(s: seq<T>, k: Option<int>): (r: seq<T>)
    ensures r <= s
    ensures k.None? ==> r == s
    ensures k.Some? && 0 <= k.value ==> |r| == if k.value <= |s| then k.value else |s|
    ensures k.Some? && k.value < 0 ==> |r| == if -k.value <= |s| then |s| + k.value else 0
  {
    if k.None? then s
    else if k.value >= 0 then (if k.value <= |s| then s[..k.value] else s)
    else if -k.value <= |s| then s[..|s| + k.value]
    else []
  }

  /** `s.sort(key=key, reverse=True)` followed by `s[:k]`. */
  function TopK<T>(s: seq<T>, key: T -> real, k: Option<int>): (r: seq<T>)
    ensures |r| == |SlicePrefix(s, k)|
    ensures SortedDesc(r, key)
    ensures multiset(r) <= multiset(s)
    ensures k.None? ==> multiset(r) == multiset(s)
    ensures forall x, y :: (x in multiset(s) - multiset(r) && y in r) ==> key(x) <= key(y)
    ensures forall v :: FilterKey(r, key, v) <= FilterKey(s, key, v)
  {
    var sorted := SortDesc(s, key);
    var r := SlicePrefix(sorted, k);
    assert r == sorted[..|r|];
    assert sorted == r + sorted[|r|..];
    assert multiset(sorted) == multiset(r) + multiset(sorted[|r|..]);
    PrefixDominates(sorted, |r|, key);
    forall v ensures FilterKey(r, key, v) <= FilterKey(s, key, v) {
      FilterKeyPrefix(sorted, |r|, key, v);
    }
    r
  }
}
