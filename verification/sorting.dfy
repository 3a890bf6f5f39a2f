/** Python's `sorted` / `list.sort`, which is stable. Modelled as insertion
    sort under a caller-supplied total preorder; a key-induced order (the
    `key=` argument) gets the stability guarantee, and `reverse=True` with a
    key is the same stable sort on the negated key. */
module Sorting {
  import opened Seqs

  /** le is total and transitive, so sorting by it is meaningful. */
  ghost predicate TotalPreorder<T(!new)>(le: (T, T) -> bool) {
    && (forall a, b :: le(a, b) || le(b, a))
    && (forall a, b, c :: le(a, b) && le(b, c) ==> le(a, c))
  }

  predicate SortedBy<T>(s: seq<T>, le: (T, T) -> bool) {
    forall i, j :: 0 <= i < j < |s| ==> le(s[i], s[j])
  }

  /** Every element of s is at or after y. */
  predicate Above<T>(y: T, s: seq<T>, le: (T, T) -> bool) {
    forall j :: 0 <= j < |s| ==> le(y, s[j])
  }

  /** Putting y in front of a sorted list it is not after keeps it sorted. */
  lemma ConsSorted<T>(y: T, s: seq<T>, le: (T, T) -> bool)
    requires SortedBy(s, le) && Above(y, s, le)
    ensures SortedBy([y] + s, le)
  {
    forall i, j | 0 <= i < j < |[y] + s| ensures le(([y] + s)[i], ([y] + s)[j]) {
      if i > 0 {
        assert ([y] + s)[i] == s[i - 1] && ([y] + s)[j] == s[j - 1];
      }
    }
  }

  /** Insert x in front of the first element it is not after. */
  function Insert<T(!new)>(x: T, t: seq<T>, le: (T, T) -> bool): (r: seq<T>)
    requires TotalPreorder(le)
    requires SortedBy(t, le)
    ensures SortedBy(r, le)
    ensures multiset(r) == multiset(t) + multiset{x}
  {
    if |t| == 0 || le(x, t[0]) then
      assert Above(x, t, le) by {
        forall j | 0 <= j < |t| ensures le(x, t[j]) {
          if j > 0 {
            assert le(t[0], t[j]);
          }
        }
      }
      ConsSorted(x, t, le);
      [x] + t
    else
      var rest := Insert(x, t[1..], le);
      assert t == [t[0]] + t[1..];
      assert le(t[0], x);
      assert Above(t[0], t[1..], le) by {
        forall j | 0 <= j < |t[1..]| ensures le(t[0], t[1..][j]) {
          assert t[1..][j] == t[j + 1];
        }
      }
      AboveRearranged(x, t[1..], rest, le, t[0]);
      ConsSorted(t[0], rest, le);
      [t[0]] + rest
  }

  /** A bound below x and below all of t is a bound below any
      rearrangement of them. */
  lemma AboveRearranged<T>(x: T, t: seq<T>, r: seq<T>, le: (T, T) -> bool, y: T)
    requires multiset(r) == multiset(t) + multiset{x}
    requires le(y, x) && Above(y, t, le)
    ensures Above(y, r, le)
  {
    forall j | 0 <= j < |r| ensures le(y, r[j]) {
      assert r[j] in multiset(r);
      if r[j] != x {
        assert r[j] in multiset(t);
        var m :| 0 <= m < |t| && t[m] == r[j];
      }
    }
  }

  /** `sorted(s)` under le: an ordered permutation of s. */
  function SortWith<T(!new)>(s: seq<T>, le: (T, T) -> bool): (r: seq<T>)
    requires TotalPreorder(le)
    ensures SortedBy(r, le)
    ensures multiset(r) == multiset(s)
    ensures |r| == |s|
  {
    if |s| == 0 then []
    else
      assert s == [s[0]] + s[1..];
      Insert(s[0], SortWith(s[1..], le), le)
  }

  /** The order that compares by an integer key. */
  ghost predicate InducedBy<T(!new)>(le: (T, T) -> bool, key: T -> int) {
    forall a, b :: le(a, b) <==> key(a) <= key(b)
  }

  /** Ascending order of an integer key (`sorted(s, key=key)`). */
  function KeyOrder<T>(key: T -> int): (T, T) -> bool {
    (a: T, b: T) => key(a) <= key(b)
  }

  lemma KeyOrderTotal<T(!new)>(key: T -> int)
    ensures TotalPreorder(KeyOrder(key)) && InducedBy(KeyOrder(key), key)
  {
  }

  /** The elements of s whose key is k, in their order in s. */
  function KeyRun<T>(s: seq<T>, key: T -> int, k: int): seq<T> {
    if |s| == 0 then [] else (if key(s[0]) == k then [s[0]] else []) + KeyRun(s[1..], key, k)
  }

  /** The key run of a list with a given head. */
  lemma KeyRunCons<T>(a: T, s: seq<T>, key: T -> int, k: int)
    ensures KeyRun([a] + s, key, k) == (if key(a) == k then [a] else []) + KeyRun(s, key, k)
  {
    assert ([a] + s)[1..] == s;
  }

  lemma {:induction false} InsertKeyRun<T(!new)>(x: T, t: seq<T>, le: (T, T) -> bool, key: T -> int, k: int)
    requires TotalPreorder(le) && InducedBy(le, key)
    requires SortedBy(t, le)
    ensures KeyRun(Insert(x, t, le), key, k) == (if key(x) == k then [x] else []) + KeyRun(t, key, k)
    decreases |t|
  {
    if |t| == 0 || le(x, t[0]) {
      KeyRunCons(x, t, key, k);
    } else {
      assert key(t[0]) < key(x);
      var rest := Insert(x, t[1..], le);
      assert Insert(x, t, le) == [t[0]] + rest;
      InsertKeyRun(x, t[1..], le, key, k);
      KeyRunCons(t[0], rest, key, k);
      KeyRunCons(t[0], t[1..], key, k);
      assert [t[0]] + t[1..] == t;
    }
  }

  /** Stability: sorting by a key keeps the input order among elements with
      equal keys. */
  lemma {:induction false} SortStable<T(!new)>(s: seq<T>, le: (T, T) -> bool, key: T -> int, k: int)
    requires TotalPreorder(le) && InducedBy(le, key)
    ensures KeyRun(SortWith(s, le), key, k) == KeyRun(s, key, k)
    decreases |s|
  {
    if |s| > 0 {
      SortStable(s[1..], le, key, k);
      InsertKeyRun(s[0], SortWith(s[1..], le), le, key, k);
    }
  }

  /** Cutting a list short cuts each of its key runs short: the run of a
      prefix is a prefix of the run. */
  lemma {:induction false} KeyRunPrefix<T>(s: seq<T>, n: nat, key: T -> int, k: int)
    requires n <= |s|
    ensures |KeyRun(s[..n], key, k)| <= |KeyRun(s, key, k)|
    ensures KeyRun(s[..n], key, k) == KeyRun(s, key, k)[..|KeyRun(s[..n], key, k)|]
    decreases n
  {
    if n > 0 {
      KeyRunPrefix(s[1..], n - 1, key, k);
      assert s[..n][0] == s[0];
      assert s[..n][1..] == s[1..][..n - 1];
    }
  }

  /** Numeric order on reals (`sorted` of floats). */
  predicate RealLe(a: real, b: real) {
    a <= b
  }

  /** Numeric order on reals is a total preorder. */
  lemma RealLeTotal()
    ensures TotalPreorder(RealLe)
  {
  }

  /** In a sorted list of reals nothing after position k is smaller than
      the value there, and nothing up to it is larger. */
  lemma SortedRealsAround(t: seq<real>, k: nat)
    requires SortedBy(t, RealLe) && k < |t|
    ensures forall j :: k <= j < |t| ==> !(t[j] < t[k])
    ensures forall j :: 0 <= j <= k ==> !(t[j] > t[k])
  {
    forall j | k < j < |t| ensures !(t[j] < t[k]) {
      assert RealLe(t[k], t[j]);
    }
    forall j | 0 <= j < k ensures !(t[j] > t[k]) {
      assert RealLe(t[j], t[k]);
    }
  }
}
