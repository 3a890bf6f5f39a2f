/** `get_reachable_stations` (transport_api.py:389-437): the reachable
    stations grouped by line, longest groups first, dropping every group
    whose stations all appear in a group already kept (up/down and
    through-running duplicates). */
module Grouping {
  import opened Seqs
  import opened Sorting
  import opened RailGraph

  /** A line and the reachable stations on it. */
  type Group = (Name, seq<Name>)

  /** The lines of the reachable stations, in the iteration order of the
      Python set that collects them: every line of a reachable station,
      each once. */
  ghost predicate RelevantLines(g: Graph, reachable: seq<Name>, relevant: seq<Name>) {
    && Distinct(relevant)
    && forall rw :: rw in relevant <==> exists s :: s in reachable && rw in LinesOf(g, s)
  }

  /** The loop over one line's stations (transport_api.py:417-421): each
      station other than the origin that is reachable and not yet seen,
      in line order. */
  function LineGroup(route: seq<Name>, base: Name, reach: set<Name>, seen: set<Name>): (r: seq<Name>)
    ensures Distinct(r)
    ensures forall s :: s in r <==> s in route && s != base && s in reach && s !in seen
    decreases |route|
  {
    if |route| == 0 then []
    else if route[0] != base && route[0] in reach && route[0] !in seen then
      var rest := LineGroup(route[1..], base, reach, seen + {route[0]});
      assert route[0] !in rest;
      [route[0]] + rest
    else LineGroup(route[1..], base, reach, seen)
  }

  /** The line group is the line filtered to reachable stations other than
      the origin, each at its first occurrence. */
  lemma {:induction false} LineGroupIsDedup(route: seq<Name>, base: Name, reach: set<Name>, seen: set<Name>)
    ensures LineGroup(route, base, reach, seen) == Dedup(Filter(route, (s: Name) => s != base && s in reach), seen)
    decreases |route|
  {
    if |route| > 0 {
      LineGroupIsDedup(route[1..], base, reach, seen + {route[0]});
      LineGroupIsDedup(route[1..], base, reach, seen);
    }
  }

  /** `by_railway` (transport_api.py:410-423): for each relevant line with
      a station list, its group when non-empty, in the order of the
      relevant lines. */
  function ByRailway(g: Graph, relevant: seq<Name>, base: Name, reach: set<Name>): (r: seq<Group>)
    ensures forall i :: 0 <= i < |r| ==> r[i].0 in relevant && r[i].0 in g.routes
    ensures forall i :: 0 <= i < |r| ==> r[i].1 == LineGroup(g.routes[r[i].0], base, reach, {}) && r[i].1 != []
    ensures forall rw :: rw in relevant && rw in g.routes && LineGroup(g.routes[rw], base, reach, {}) != [] ==>
      (rw, LineGroup(g.routes[rw], base, reach, {})) in r
    ensures Distinct(relevant) ==> Distinct(r)
  {
    if |relevant| == 0 then []
    else
      var rw := relevant[0];
      var rest := ByRailway(g, relevant[1..], base, reach);
      if rw in g.routes && LineGroup(g.routes[rw], base, reach, {}) != [] then
        assert Distinct(relevant) ==> rw !in relevant[1..];
        [(rw, LineGroup(g.routes[rw], base, reach, {}))] + rest
      else rest
  }

  /** Descending group size: `sorted(..., key=len, reverse=True)`, which
      is the stable sort on the negated length. */
  function NegLen(x: Group): int {
    -|x.1|
  }

  /** Every station of a is a station of b (`set(a) <= set(b)`). */
  predicate SubsetOf(a: seq<Name>, b: seq<Name>) {
    forall x :: x in a ==> x in b
  }

  /** Some kept group contains all of x's stations. */
  predicate Absorbed(x: Group, kept: seq<Group>) {
    exists k :: 0 <= k < |kept| && SubsetOf(x.1, kept[k].1)
  }

  /** The merge loop (transport_api.py:427-435) from the kept groups on:
      a group is kept unless one already kept contains all its stations. */
  function Absorb(items: seq<Group>, kept: seq<Group>): (r: seq<Group>)
    ensures |r| >= |kept| && r[..|kept|] == kept
    ensures forall x :: x in r ==> x in kept || x in items
    ensures forall j :: |kept| <= j < |r| ==> !Absorbed(r[j], r[..j])
    decreases |items|
  {
    if |items| == 0 then kept
    else if Absorbed(items[0], kept) then Absorb(items[1..], kept)
    else
      var r := Absorb(items[1..], kept + [items[0]]);
      assert r[..|kept|] == (kept + [items[0]])[..|kept|];
      assert r[..|kept| + 1][..|kept|] == r[..|kept|];
      r
  }

  /** Being absorbed is never undone: kept groups stay. */
  lemma AbsorbedPrefix(x: Group, kept: seq<Group>, r: seq<Group>)
    requires |r| >= |kept| && r[..|kept|] == kept
    requires Absorbed(x, kept)
    ensures Absorbed(x, r)
  {
    var k :| 0 <= k < |kept| && SubsetOf(x.1, kept[k].1);
    assert r[k] == kept[k];
  }

  /** Every group is kept or contained in a kept group. */
  lemma {:induction false} AbsorbCovers(items: seq<Group>, kept: seq<Group>)
    ensures forall x :: x in items ==> x in Absorb(items, kept) || Absorbed(x, Absorb(items, kept))
    decreases |items|
  {
    if |items| > 0 {
      var r := Absorb(items, kept);
      if Absorbed(items[0], kept) {
        AbsorbCovers(items[1..], kept);
        AbsorbedPrefix(items[0], kept, r);
      } else {
        AbsorbCovers(items[1..], kept + [items[0]]);
        assert r[..|kept| + 1] == kept + [items[0]];
        assert r[|kept|] == items[0];
      }
      assert forall x :: x in items ==> x == items[0] || x in items[1..];
    }
  }

  /** Groups in order of non-increasing size. */
  predicate NonIncreasing(s: seq<Group>) {
    forall i, j :: 0 <= i < j < |s| ==> |s[i].1| >= |s[j].1|
  }

  /** The merge keeps the size order of its input. */
  lemma {:induction false} AbsorbOrder(items: seq<Group>, kept: seq<Group>)
    requires NonIncreasing(kept + items)
    ensures NonIncreasing(Absorb(items, kept))
    decreases |items|
  {
    if |items| == 0 {
      assert kept + items == kept;
    } else {
      var s := kept + items;
      if Absorbed(items[0], kept) {
        var t := kept + items[1..];
        forall i, j | 0 <= i < j < |t| ensures |t[i].1| >= |t[j].1| {
          var i' := if i < |kept| then i else i + 1;
          var j' := if j < |kept| then j else j + 1;
          assert t[i] == s[i'] && t[j] == s[j'];
        }
        AbsorbOrder(items[1..], kept);
      } else {
        assert kept + items == (kept + [items[0]]) + items[1..];
        AbsorbOrder(items[1..], kept + [items[0]]);
      }
    }
  }

  /** Two duplicate-free station lists, the first at least as long, and the
      second with a station the first lacks: the first is not contained in
      the second. */
  lemma NotSubsetBySize(a: seq<Name>, b: seq<Name>)
    requires Distinct(a) && Distinct(b) && |a| >= |b|
    requires !SubsetOf(b, a)
    ensures !SubsetOf(a, b)
  {
    var x :| x in b && x !in a;
    DistinctCard(a);
    DistinctCard(b);
    assert SubsetOf(a, b) ==> Elems(a) <= Elems(b) - {x};
    assert |Elems(b) - {x}| == |Elems(b)| - 1;
    CardMono(Elems(a), Elems(b) - {x});
  }

  lemma CardMono<T>(a: set<T>, b: set<T>)
    ensures a <= b ==> |a| <= |b|
  {
    assert a <= b ==> b == a + (b - a);
  }

  /** Kept groups of duplicate-free lists taken in non-increasing size
      order: no kept group is contained in another. */
  lemma Antichain(r: seq<Group>)
    requires NonIncreasing(r)
    requires forall i :: 0 <= i < |r| ==> Distinct(r[i].1)
    requires forall j :: 0 <= j < |r| ==> !Absorbed(r[j], r[..j])
    ensures forall i, j :: 0 <= i < |r| && 0 <= j < |r| && i != j ==> !SubsetOf(r[i].1, r[j].1)
  {
    forall i, j | 0 <= i < |r| && 0 <= j < |r| && i != j ensures !SubsetOf(r[i].1, r[j].1) {
      if i < j {
        assert r[..j][i] == r[i];
        NotSubsetBySize(r[i].1, r[j].1);
      } else {
        assert r[..i][j] == r[j];
      }
    }
  }

  /** `sorted(items, key=lambda x: len(x[1]), reverse=True)`: the groups
      largest first, groups of equal size in their original order. */
  function SortBySize(items: seq<Group>): (r: seq<Group>)
    ensures NonIncreasing(r)
    ensures multiset(r) == multiset(items)
    ensures forall x :: x in r <==> x in items
    ensures forall k :: KeyRun(r, NegLen, k) == KeyRun(items, NegLen, k)
  {
    KeyOrderTotal(NegLen);
    var r := SortWith(items, KeyOrder(NegLen));
    assert forall x :: x in r <==> x in items by {
      forall x ensures x in r <==> x in items {
        assert x in r <==> x in multiset(r);
      }
    }
    forall k ensures KeyRun(r, NegLen, k) == KeyRun(items, NegLen, k) {
      SortStable(items, KeyOrder(NegLen), NegLen, k);
    }
    assert forall i, j :: 0 <= i < j < |r| ==> KeyOrder(NegLen)(r[i], r[j]);
    r
  }

  /** Groups drawn from `by_railway` are full, non-empty line groups. */
  lemma GroupFacts(g: Graph, relevant: seq<Name>, base: Name, reach: set<Name>, r: seq<Group>)
    requires forall x :: x in r ==> x in ByRailway(g, relevant, base, reach)
    ensures forall i :: 0 <= i < |r| ==> r[i].0 in relevant && r[i].0 in g.routes
    ensures forall i :: 0 <= i < |r| ==> r[i].1 == LineGroup(g.routes[r[i].0], base, reach, {}) && r[i].1 != []
    ensures forall i :: 0 <= i < |r| ==> Distinct(r[i].1)
    ensures forall i, s :: 0 <= i < |r| && s in r[i].1 ==> s in reach && s != base
  {
    var items := ByRailway(g, relevant, base, reach);
    forall i | 0 <= i < |r|
      ensures r[i].0 in relevant && r[i].0 in g.routes
      ensures r[i].1 == LineGroup(g.routes[r[i].0], base, reach, {}) && r[i].1 != []
    {
      assert r[i] in r;
      var k :| 0 <= k < |items| && items[k] == r[i];
    }
  }

  /** A reachable station on a relevant line is in a kept group: its own
      line's group, or one that contains it. */
  lemma MergedCovers(g: Graph, reachable: seq<Name>, relevant: seq<Name>, base: Name, sorted: seq<Group>, r: seq<Group>)
    requires RelevantLines(g, reachable, relevant)
    requires forall x :: x in sorted <==> x in ByRailway(g, relevant, base, Elems(reachable))
    requires forall x :: x in sorted ==> x in r || Absorbed(x, r)
    ensures forall s, rw :: s in reachable && s != base && rw in LinesOf(g, s) && rw in g.routes && s in g.routes[rw] ==>
      exists i :: 0 <= i < |r| && s in r[i].1
  {
    var reach := Elems(reachable);
    forall s, rw | s in reachable && s != base && rw in LinesOf(g, s) && rw in g.routes && s in g.routes[rw]
      ensures exists i :: 0 <= i < |r| && s in r[i].1
    {
      assert rw in relevant;
      var x := (rw, LineGroup(g.routes[rw], base, reach, {}));
      assert s in x.1;
      assert x in sorted;
      if x in r {
        var i :| 0 <= i < |r| && r[i] == x;
      } else {
        var k :| 0 <= k < |r| && SubsetOf(x.1, r[k].1);
      }
    }
  }

  /** `get_reachable_stations` after the search (transport_api.py:403-437):
      the relevant lines' groups, largest first, minus those contained in a
      group already kept. Every group is non-empty, duplicate-free, holds
      reachable stations other than the origin in line order, and is the
      full group of its line; no group is contained in another; every
      group dropped is contained in one kept; and every reachable station
      on a relevant line is in some group. */
  function MergedGroups(g: Graph, reachable: seq<Name>, relevant: seq<Name>, base: Name): (r: seq<Group>)
    requires RelevantLines(g, reachable, relevant)
    ensures forall i :: 0 <= i < |r| ==> r[i].0 in relevant && r[i].0 in g.routes
    ensures forall i :: 0 <= i < |r| ==> r[i].1 == LineGroup(g.routes[r[i].0], base, Elems(reachable), {}) && r[i].1 != []
    ensures forall i, s :: 0 <= i < |r| && s in r[i].1 ==> s in reachable && s != base
    ensures NonIncreasing(r)
    ensures forall i, j :: 0 <= i < |r| && 0 <= j < |r| && i != j ==> !SubsetOf(r[i].1, r[j].1)
    ensures forall s, rw :: s in reachable && s != base && rw in LinesOf(g, s) && rw in g.routes && s in g.routes[rw] ==>
      exists i :: 0 <= i < |r| && s in r[i].1
    ensures forall x :: x in ByRailway(g, relevant, base, Elems(reachable)) ==> x in r || Absorbed(x, r)
  {
    var sorted := SortBySize(ByRailway(g, relevant, base, Elems(reachable)));
    var r := Absorb(sorted, []);
    MergedShape(g, reachable, relevant, base, sorted);
    MergedAntichain(g, reachable, relevant, base, sorted);
    MergedDropped(g, reachable, relevant, base, sorted);
    AbsorbCovers(sorted, []);
    MergedCovers(g, reachable, relevant, base, sorted, r);
    r
  }

  /** The kept groups are full line groups of reachable stations, largest
      first. */
  lemma MergedShape(g: Graph, reachable: seq<Name>, relevant: seq<Name>, base: Name, sorted: seq<Group>)
    requires sorted == SortBySize(ByRailway(g, relevant, base, Elems(reachable)))
    ensures var r := Absorb(sorted, []);
      && (forall i :: 0 <= i < |r| ==> r[i].0 in relevant && r[i].0 in g.routes)
      && (forall i :: 0 <= i < |r| ==> r[i].1 == LineGroup(g.routes[r[i].0], base, Elems(reachable), {}) && r[i].1 != [])
      && (forall i, s :: 0 <= i < |r| && s in r[i].1 ==> s in reachable && s != base)
      && NonIncreasing(r)
  {
    var reach := Elems(reachable);
    assert NonIncreasing([] + sorted) by {
      assert [] + sorted == sorted;
    }
    var r := Absorb(sorted, []);
    GroupFacts(g, relevant, base, reach, r);
    AbsorbOrder(sorted, []);
  }

  /** No kept group is contained in another. */
  lemma MergedAntichain(g: Graph, reachable: seq<Name>, relevant: seq<Name>, base: Name, sorted: seq<Group>)
    requires sorted == SortBySize(ByRailway(g, relevant, base, Elems(reachable)))
    ensures var r := Absorb(sorted, []);
      forall i, j :: 0 <= i < |r| && 0 <= j < |r| && i != j ==> !SubsetOf(r[i].1, r[j].1)
  {
    assert NonIncreasing([] + sorted) by {
      assert [] + sorted == sorted;
    }
    var r := Absorb(sorted, []);
    GroupFacts(g, relevant, base, Elems(reachable), r);
    AbsorbOrder(sorted, []);
    Antichain(r);
  }

  /** Every line group left out is contained in a kept one. */
  lemma MergedDropped(g: Graph, reachable: seq<Name>, relevant: seq<Name>, base: Name, sorted: seq<Group>)
    requires sorted == SortBySize(ByRailway(g, relevant, base, Elems(reachable)))
    ensures var r := Absorb(sorted, []);
      forall x :: x in ByRailway(g, relevant, base, Elems(reachable)) ==> x in r || Absorbed(x, r)
  {
    AbsorbCovers(sorted, []);
  }
}
