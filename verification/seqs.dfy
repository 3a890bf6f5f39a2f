/** Sequence helpers shared by the whole model: Python lists are Dafny
    sequences, and a Python set that is iterated is a duplicate-free sequence
    whose order is the set's iteration order. */
module Seqs {

  datatype Option<+T> = None | Some(value: T)

  /** No element occurs twice. */
  predicate Distinct<T(==)>(s: seq<T>) {
    forall i, j :: 0 <= i < j < |s| ==> s[i] != s[j]
  }

  /** The set of elements of a sequence. */
  function Elems<T>(s: seq<T>): set<T> {
    set x | x in s
  }

  /** Number of occurrences of x in s. */
  function Count<T(==)>(s: seq<T>, x: T): nat {
    if |s| == 0 then 0 else (if s[0] == x then 1 else 0) + Count(s[1..], x)
  }

  /** a can be obtained from b by deleting elements. */
  predicate IsSubseq<T(==)>(a: seq<T>, b: seq<T>)
    decreases |b|
  {
    |a| == 0 || (|b| > 0 && ((a[0] == b[0] && IsSubseq(a[1..], b[1..])) || IsSubseq(a, b[1..])))
  }

  /** Every sequence is a subsequence of itself. */
  lemma {:induction false} SubseqRefl<T>(s: seq<T>)
    ensures IsSubseq(s, s)
    decreases |s|
  {
    if |s| > 0 {
      SubseqRefl(s[1..]);
    }
  }

  /** Appending one element to both sides, or to the larger side only,
      keeps a subsequence a subsequence. */
  lemma {:induction false} SubseqSnoc<T>(a: seq<T>, b: seq<T>, x: T)
    requires IsSubseq(a, b)
    ensures IsSubseq(a + [x], b + [x]) && IsSubseq(a, b + [x])
    decreases |b|
  {
    if |b| == 0 {
      assert a == [] && a + [x] == [x] == b + [x];
      assert IsSubseq([x][1..], ([] + [x])[1..]);
    } else {
      assert (b + [x])[1..] == b[1..] + [x];
      if |a| == 0 {
        SubseqSnoc(a, b[1..], x);
        assert a + [x] == [x];
      } else if a[0] == b[0] && IsSubseq(a[1..], b[1..]) {
        SubseqSnoc(a[1..], b[1..], x);
        assert (a + [x])[1..] == a[1..] + [x];
      } else {
        SubseqSnoc(a, b[1..], x);
      }
    }
  }

  /** Python's list.index: the position of the first occurrence. */
  function IndexOf<T(==)>(s: seq<T>, x: T): (i: nat)
    requires x in s
    ensures i < |s| && s[i] == x
  {
    if s[0] == x then 0 else 1 + IndexOf(s[1..], x)
  }

  /** No occurrence comes before the one IndexOf finds. */
  lemma {:induction false} IndexOfFirst<T>(s: seq<T>, x: T, j: nat)
    requires x in s && j < IndexOf(s, x)
    ensures s[j] != x
  {
    if j > 0 {
      IndexOfFirst(s[1..], x, j - 1);
    }
  }

  /** The elements of s satisfying p, in order (a list comprehension with a
      condition). */
  function Filter<T(!new)>(s: seq<T>, p: T -> bool): (r: seq<T>)
    ensures forall x :: x in r <==> x in s && p(x)
    ensures |r| <= |s|
  {
    if |s| == 0 then []
    else if p(s[0]) then [s[0]] + Filter(s[1..], p)
    else Filter(s[1..], p)
  }

  /** Occurrence counts under Filter: kept elements keep all their
      occurrences, dropped ones lose all. */
  lemma {:induction false} FilterCount<T(!new)>(s: seq<T>, p: T -> bool, x: T)
    ensures Count(Filter(s, p), x) == if p(x) then Count(s, x) else 0
    decreases |s|
  {
    if |s| > 0 {
      FilterCount(s[1..], p, x);
    }
  }

  /** Filter keeps the relative order of what it keeps. */
  lemma {:induction false} FilterIsSubseq<T(!new)>(s: seq<T>, p: T -> bool)
    ensures IsSubseq(Filter(s, p), s)
    decreases |s|
  {
    if |s| > 0 {
      FilterIsSubseq(s[1..], p);
      if !p(s[0]) {
        SubseqDropFront(Filter(s[1..], p), s);
      }
    }
  }

  /** Filtering a concatenation filters each part. */
  lemma {:induction false} FilterConcat<T(!new)>(a: seq<T>, b: seq<T>, p: T -> bool)
    ensures Filter(a + b, p) == Filter(a, p) + Filter(b, p)
    decreases |a|
  {
    if |a| == 0 {
      assert a + b == b;
    } else {
      assert (a + b)[0] == a[0] && (a + b)[1..] == a[1..] + b;
      FilterConcat(a[1..], b, p);
      if p(a[0]) {
        assert [a[0]] + (Filter(a[1..], p) + Filter(b, p)) == ([a[0]] + Filter(a[1..], p)) + Filter(b, p);
      }
    }
  }

  /** A common head, or a new head on the larger side only, keeps a
      subsequence a subsequence. */
  lemma SubseqCons<T>(a: seq<T>, b: seq<T>, x: T)
    requires IsSubseq(a, b)
    ensures IsSubseq([x] + a, [x] + b) && IsSubseq(a, [x] + b)
  {
    assert ([x] + a)[1..] == a && ([x] + b)[1..] == b;
  }

  lemma SubseqDropFront<T>(a: seq<T>, b: seq<T>)
    requires |b| > 0 && IsSubseq(a, b[1..])
    ensures IsSubseq(a, b)
  {
  }

  /** The first occurrence of every element not in `seen`, in order of first
      occurrence (the `seen`-set loops of the source). */
  function Dedup<T(==,!new)>(s: seq<T>, seen: set<T>): (r: seq<T>)
    ensures Distinct(r)
    ensures forall x :: x in r <==> x in s && x !in seen
    decreases |s|
  {
    if |s| == 0 then []
    else if s[0] in seen then Dedup(s[1..], seen)
    else [s[0]] + Dedup(s[1..], seen + {s[0]})
  }

  /** One step of Dedup: the head is dropped when seen, kept otherwise. */
  lemma DedupHead<T(!new)>(s: seq<T>, seen: set<T>)
    requires |s| > 0
    ensures Dedup(s, seen) == if s[0] in seen then Dedup(s[1..], seen) else [s[0]] + Dedup(s[1..], seen + {s[0]})
  {
  }

  /** Deduplicating a concatenation: the second part continues with
      everything of the first part seen. */
  lemma {:induction false} DedupConcat<T(!new)>(a: seq<T>, b: seq<T>, seen: set<T>)
    ensures Dedup(a + b, seen) == Dedup(a, seen) + Dedup(b, seen + Elems(a))
    decreases |a|
  {
    if |a| == 0 {
      assert a + b == b;
      assert seen + Elems(a) == seen;
    } else {
      var x := a[0];
      assert (a + b)[0] == x && (a + b)[1..] == a[1..] + b;
      assert Elems(a) == {x} + Elems(a[1..]);
      if x in seen {
        DedupConcat(a[1..], b, seen);
        assert seen + Elems(a[1..]) == seen + Elems(a);
      } else {
        DedupConcat(a[1..], b, seen + {x});
        assert seen + {x} + Elems(a[1..]) == seen + Elems(a);
        var d := Dedup(a[1..], seen + {x});
        var e := Dedup(b, seen + Elems(a));
        assert [x] + (d + e) == ([x] + d) + e;
      }
    }
  }

  /** What Dedup adds to the seen set is what the input holds. */
  lemma DedupSeen<T(!new)>(s: seq<T>, seen: set<T>)
    ensures seen + Elems(Dedup(s, seen)) == seen + Elems(s)
  {
  }

  /** Dedup keeps first occurrences in the order they are met: an element
      that comes earlier in the output occurs earlier in the input. */
  lemma {:induction false} DedupOrder<T(!new)>(s: seq<T>, seen: set<T>, i: nat, j: nat)
    requires i < j < |Dedup(s, seen)|
    ensures Dedup(s, seen)[i] in s && Dedup(s, seen)[j] in s
    ensures IndexOf(s, Dedup(s, seen)[i]) < IndexOf(s, Dedup(s, seen)[j])
    decreases |s|
  {
    var r := Dedup(s, seen);
    if s[0] in seen {
      assert r == Dedup(s[1..], seen);
      DedupOrder(s[1..], seen, i, j);
      assert r[i] != s[0] && r[j] != s[0];
      IndexOfTail(s, r[i]);
      IndexOfTail(s, r[j]);
      assert IndexOf(s, r[i]) < IndexOf(s, r[j]);
    } else if i == 0 {
      assert r == [s[0]] + Dedup(s[1..], seen + {s[0]});
      assert r[j] in Dedup(s[1..], seen + {s[0]});
      assert r[j] != s[0];
      IndexOfTail(s, r[j]);
      assert IndexOf(s, r[i]) < IndexOf(s, r[j]);
    } else {
      DedupOrder(s[1..], seen + {s[0]}, i - 1, j - 1);
      DedupOrderLater(s, seen, i, j);
    }
  }

  /** Every element of r occurs in s, and r lists them in the order of their
      first occurrences in s. */
  predicate FirstSeenOrder<T(==)>(r: seq<T>, s: seq<T>) {
    forall i, j :: 0 <= i < j < |r| ==> r[i] in s && r[j] in s && IndexOf(s, r[i]) < IndexOf(s, r[j])
  }

  lemma DedupFirstSeen<T(!new)>(s: seq<T>, seen: set<T>)
    ensures FirstSeenOrder(Dedup(s, seen), s)
  {
    forall i, j | 0 <= i < j < |Dedup(s, seen)|
      ensures Dedup(s, seen)[i] in s && Dedup(s, seen)[j] in s
      ensures IndexOf(s, Dedup(s, seen)[i]) < IndexOf(s, Dedup(s, seen)[j])
    {
      DedupOrder(s, seen, i, j);
    }
  }

  /** Dedup from the back: a new last element is kept unless it was seen
      or already occurred. */
  lemma DedupSnoc<T(!new)>(s: seq<T>, seen: set<T>, x: T)
    ensures Dedup(s + [x], seen) == if x in seen || x in s then Dedup(s, seen) else Dedup(s, seen) + [x]
  {
    DedupConcat(s, [x], seen);
    DedupHead([x], seen + Elems(s));
    assert [x][1..] == [];
    assert x in Elems(s) <==> x in s;
  }

  /** The inductive step of DedupOrder past a kept head. */
  lemma DedupOrderLater<T(!new)>(s: seq<T>, seen: set<T>, i: nat, j: nat)
    requires |s| > 0 && s[0] !in seen && 0 < i < j < |Dedup(s, seen)|
    requires Dedup(s[1..], seen + {s[0]})[i - 1] in s[1..] && Dedup(s[1..], seen + {s[0]})[j - 1] in s[1..]
    requires IndexOf(s[1..], Dedup(s[1..], seen + {s[0]})[i - 1]) < IndexOf(s[1..], Dedup(s[1..], seen + {s[0]})[j - 1])
    ensures Dedup(s, seen)[i] in s && Dedup(s, seen)[j] in s
    ensures IndexOf(s, Dedup(s, seen)[i]) < IndexOf(s, Dedup(s, seen)[j])
  {
    var r := Dedup(s, seen);
    DedupLater(s, seen, i);
    DedupLater(s, seen, j);
    IndexOfTail(s, r[i]);
    IndexOfTail(s, r[j]);
  }

  /** Past a kept head, Dedup continues with the tail, the head now seen. */
  lemma DedupLater<T(!new)>(s: seq<T>, seen: set<T>, k: nat)
    requires |s| > 0 && s[0] !in seen && 0 < k < |Dedup(s, seen)|
    ensures k - 1 < |Dedup(s[1..], seen + {s[0]})|
    ensures Dedup(s, seen)[k] == Dedup(s[1..], seen + {s[0]})[k - 1]
    ensures Dedup(s, seen)[k] in s[1..] && Dedup(s, seen)[k] != s[0]
  {
    var t := Dedup(s[1..], seen + {s[0]});
    assert Dedup(s, seen) == [s[0]] + t;
    assert t[k - 1] in t;
  }

  /** The first position of an element other than the head is one past
      its first position in the tail. */
  lemma IndexOfTail<T>(s: seq<T>, x: T)
    requires |s| > 0 && x in s[1..] && x != s[0]
    ensures x in s && IndexOf(s, x) == 1 + IndexOf(s[1..], x)
  {
  }

  /** A duplicate-free sequence has as many elements as distinct values. */
  lemma {:induction false} DistinctCard<T>(s: seq<T>)
    requires Distinct(s)
    ensures |Elems(s)| == |s|
  {
    if s != [] {
      DistinctCard(s[1..]);
      assert Elems(s) == {s[0]} + Elems(s[1..]);
      assert s[0] !in Elems(s[1..]);
    }
  }

  /** Filtering a duplicate-free sequence leaves it duplicate-free. */
  lemma {:induction false} FilterDistinct<T(!new)>(s: seq<T>, p: T -> bool)
    requires Distinct(s)
    ensures Distinct(Filter(s, p))
    decreases |s|
  {
    if |s| > 0 {
      FilterDistinct(s[1..], p);
      assert s[0] !in s[1..];
    }
  }

  /** Duplicate-free means every value occurs at most once. */
  lemma {:induction false} DistinctMultiset<T>(s: seq<T>)
    ensures Distinct(s) <==> forall x :: multiset(s)[x] <= 1
    decreases |s|
  {
    if |s| > 0 {
      var t := s[1..];
      DistinctMultiset(t);
      assert s == [s[0]] + t;
      assert multiset(s) == multiset{s[0]} + multiset(t);
      assert Distinct(s) <==> s[0] !in t && Distinct(t) by {
        assert forall i :: 0 < i < |s| ==> s[i] == t[i - 1];
        if s[0] !in t && Distinct(t) {
          forall i, j | 0 <= i < j < |s| ensures s[i] != s[j] {
            if i > 0 {
              assert s[i] == t[i - 1] && s[j] == t[j - 1];
            } else {
              assert s[j] == t[j - 1] && s[j] in t;
            }
          }
        }
        if Distinct(s) {
          forall i | 0 <= i < |t| ensures t[i] != s[0] {
            assert t[i] == s[i + 1];
          }
        }
      }
      assert (forall x :: multiset(s)[x] <= 1) <==> multiset(t)[s[0]] == 0 && forall x :: multiset(t)[x] <= 1 by {
        if forall x :: multiset(s)[x] <= 1 {
          assert multiset(s)[s[0]] == 1 + multiset(t)[s[0]];
          forall x ensures multiset(t)[x] <= 1 {
            assert multiset(s)[x] >= multiset(t)[x];
          }
        }
      }
    }
  }

  /** A permutation of a duplicate-free sequence is duplicate-free. */
  lemma DistinctPerm<T>(a: seq<T>, b: seq<T>)
    requires multiset(a) == multiset(b) && Distinct(b)
    ensures Distinct(a)
  {
    DistinctMultiset(a);
    DistinctMultiset(b);
  }

  /** Concatenation of a list of lists. */
  function Flatten<T>(ss: seq<seq<T>>): (r: seq<T>)
    ensures |r| == SumLengths(ss)
  {
    if |ss| == 0 then [] else ss[0] + Flatten(ss[1..])
  }

  /** Flattening a list with a given head. */
  lemma FlattenCons<T>(a: seq<T>, ss: seq<seq<T>>)
    ensures Flatten([a] + ss) == a + Flatten(ss)
  {
    assert ([a] + ss)[1..] == ss;
  }

  function SumLengths<T>(ss: seq<seq<T>>): nat {
    if |ss| == 0 then 0 else |ss[0]| + SumLengths(ss[1..])
  }

  /** An element of the concatenation comes from one of the lists. */
  lemma {:induction false} InFlatten<T>(ss: seq<seq<T>>, x: T)
    ensures x in Flatten(ss) <==> exists k :: 0 <= k < |ss| && x in ss[k]
    decreases |ss|
  {
    if |ss| > 0 {
      InFlatten(ss[1..], x);
      if x in Flatten(ss[1..]) {
        var k :| 0 <= k < |ss[1..]| && x in ss[1..][k];
        assert x in ss[k + 1];
      }
      if exists k :: 0 <= k < |ss| && x in ss[k] {
        var k :| 0 <= k < |ss| && x in ss[k];
        if k > 0 {
          assert x in ss[1..][k - 1];
        }
      }
    }
  }

  lemma DistinctCons<T>(x: T, s: seq<T>)
    requires Distinct(s) && x !in s
    ensures Distinct([x] + s)
  {
    assert forall i :: 0 < i < |[x] + s| ==> ([x] + s)[i] == s[i - 1];
  }

  /** Two duplicate-free lists with no common element concatenate to a
      duplicate-free list. */
  lemma DistinctConcat<T>(a: seq<T>, b: seq<T>)
    requires Distinct(a) && Distinct(b)
    requires forall x :: x in a ==> x !in b
    ensures Distinct(a + b)
  {
    forall i, j | 0 <= i < j < |a + b| ensures (a + b)[i] != (a + b)[j] {
      if j >= |a| && i < |a| {
        assert (a + b)[i] in a && (a + b)[j] == b[j - |a|];
      }
    }
  }

  lemma ConcatAssoc<T>(a: seq<T>, b: seq<T>, c: seq<T>)
    ensures (a + b) + c == a + (b + c)
  {
  }

  /** A list is what comes before position k, the element there, and what
      comes after; replacing that element replaces it in the middle. */
  lemma SplitAt<T>(s: seq<T>, k: nat, x: T)
    requires k < |s|
    ensures s == s[..k] + ([s[k]] + s[k + 1..])
    ensures s[k := x] == s[..k] + ([x] + s[k + 1..])
  {
    var t := s[..k] + ([s[k]] + s[k + 1..]);
    assert |t| == |s|;
    assert forall i :: 0 <= i < |s| ==> t[i] == s[i];
    var u := s[..k] + ([x] + s[k + 1..]);
    assert |u| == |s|;
    assert forall i :: 0 <= i < |s| ==> u[i] == s[k := x][i];
  }
}
