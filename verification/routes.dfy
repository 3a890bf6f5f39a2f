/** Turning one route relation into an ordered station list and merging it
    into the line of the same base name (transport_api.py:176-241). */
module Routes {
  import opened Seqs
  import opened Text
  import opened Sorting
  import opened Geo
  import opened RailGraph

  type NodeId = int

  /** A relation member: its `type`, its `ref` (possibly absent) and its
      `role`; an absent string tag reads as "". */
  datatype Member = Member(kind: string, ref: Option<NodeId>, role: string)

  /** The relation tags the builder reads; an absent tag reads as "". */
  datatype Relation = Relation(id: int, route: string, name: string, ref: string, operator: string,
                               members: seq<Member>)

  predicate IsRailRoute(routeType: string) {
    routeType == "train" || routeType == "subway" || routeType == "light_rail"
    || routeType == "monorail" || routeType == "railway"
  }

  /** The route's name tag; else `operator ref` stripped; else `route_<id>`.
      The result is never empty, and a name made from the tags neither
      starts nor ends with white space. */
  function RouteName(rel: Relation): (r: string)
    ensures r != ""
    ensures rel.name != "" ==> r == rel.name
    ensures rel.name == "" && Strip(rel.operator + " " + rel.ref) != "" ==> r == Strip(rel.operator + " " + rel.ref)
    ensures rel.name == "" && Strip(rel.operator + " " + rel.ref) == "" ==> r == "route_" + IntStr(rel.id)
    ensures rel.name == "" ==> !IsSpace(r[0]) && !IsSpace(r[|r| - 1])
  {
    if rel.name != "" then rel.name
    else
      var s := Strip(rel.operator + " " + rel.ref);
      if s != "" then s
      else
        var n := "route_" + IntStr(rel.id);
        IntStrEndsInDigit(rel.id);
        assert n[|n| - 1] == IntStr(rel.id)[|IntStr(rel.id)| - 1];
        n
  }

  /** A printed integer is not empty and ends in a digit. */
  lemma IntStrEndsInDigit(i: int)
    ensures |IntStr(i)| > 0 && IsDigit(IntStr(i)[|IntStr(i)| - 1])
  {
    var d := NatStr(if i < 0 then -i else i);
    assert d[|d| - 1] in d;
    if i < 0 {
      assert IntStr(i)[|IntStr(i)| - 1] == d[|d| - 1];
    }
  }

  /** The line a route belongs to: the route name cut at the first " : ",
      then at the first full-width colon, then stripped. Both directions of
      a line ("X : A→B", "X : B→A") get the same base name. */
  function BaseName(routeName: string): (r: string)
    ensures exists lo :: TrimmedAt(BeforeFirst(BeforeFirst(routeName, " : "), "："), r, lo)
    ensures !Contains(r, " : ") && !Contains(r, "：")
    ensures |r| > 0 ==> !IsSpace(r[0]) && !IsSpace(r[|r| - 1])
  {
    var a := BeforeFirst(routeName, " : ");
    var b := BeforeFirst(a, "：");
    NoContainsPrefix(a, b, " : ");
    NoContainsStrip(b, "：");
    NoContainsStrip(b, " : ");
    Strip(b)
  }

  /** A base name is its own base name. */
  lemma BaseNameIdempotent(routeName: string)
    ensures BaseName(BaseName(routeName)) == BaseName(routeName)
  {
    var b := BaseName(routeName);
    assert BeforeFirst(b, " : ") == b;
    assert BeforeFirst(b, "：") == b;
    StripNoop(b);
  }

  /** Both directions of a line share the line's base name: when x contains
      neither separator, does not end in ':' and is already stripped,
      `x : <anything>` has base name x. */
  lemma BaseNameOfDirection(x: string, y: string)
    requires |x| > 0 && !IsSpace(x[0]) && !IsSpace(x[|x| - 1]) && x[|x| - 1] != ':'
    requires !Contains(x, " : ") && !Contains(x, "：")
    ensures BaseName(x + " : " + y) == x
  {
    var sep := " : ";
    var s := x + sep + y;
    assert s[|x|..|x| + |sep|] == sep;
    NoSeparatorBefore(x, y);
    BeforeFirstAt(s, sep, |x|);
    assert s[..|x|] == x;
    assert BeforeFirst(x, "：") == x;
    StripNoop(x);
  }

  /** In `x : y`, with x as above, " : " first occurs right after x. */
  lemma NoSeparatorBefore(x: string, y: string)
    requires |x| > 0 && !IsSpace(x[|x| - 1]) && x[|x| - 1] != ':'
    requires !Contains(x, " : ")
    ensures forall q :: 0 <= q < |x| ==> !IsPrefix(" : ", (x + " : " + y)[q..])
  {
    var sep := " : ";
    var s := x + sep + y;
    forall q | 0 <= q < |x| ensures !IsPrefix(sep, s[q..]) {
      if q + |sep| <= |x| {
        if IsPrefix(sep, s[q..]) {
          assert x[q..][..|sep|] == s[q..][..|sep|];
          ContainsAt(x, q, sep);
        }
      } else if q == |x| - 1 {
        assert s[q..][0] == x[|x| - 1];
      } else {
        assert s[q..][1] == x[|x| - 1];
      }
    }
  }

  /** Stripping a string that does not contain sub leaves it without sub. */
  lemma NoContainsStrip(s: string, sub: string)
    requires !Contains(s, sub)
    ensures !Contains(Strip(s), sub)
  {
    var lo :| TrimmedAt(s, Strip(s), lo);
    NoContainsPiece(s, Strip(s), lo, sub);
  }

  /** A prefix of a string that does not contain sub does not contain it
      either. */
  lemma NoContainsPrefix(s: string, p: string, sub: string)
    requires IsPrefix(p, s) && !Contains(s, sub)
    ensures !Contains(p, sub)
  {
    assert p == s[0..|p|];
    NoContainsPiece(s, p, 0, sub);
  }

  /** A piece cut out of a string that does not contain sub does not
      contain it either. */
  lemma NoContainsPiece(s: string, piece: string, lo: nat, sub: string)
    requires lo + |piece| <= |s| && piece == s[lo..lo + |piece|]
    requires !Contains(s, sub)
    ensures !Contains(piece, sub)
  {
    if Contains(piece, sub) {
      ContainsInside(s, piece, lo, sub);
    }
  }

  lemma {:induction false} ContainsInside(s: string, piece: string, lo: nat, sub: string)
    requires lo + |piece| <= |s| && piece == s[lo..lo + |piece|]
    requires Contains(piece, sub)
    ensures Contains(s, sub)
    decreases lo + |piece|
  {
    if lo > 0 {
      assert s[1..][lo - 1..lo - 1 + |piece|] == piece;
      ContainsInside(s[1..], piece, lo - 1, sub);
    } else if IsPrefix(sub, piece) {
      assert s[..|sub|] == piece[..|sub|];
    } else {
      assert s[1..][0..|piece| - 1] == piece[1..];
      ContainsInside(s[1..], piece[1..], 0, sub);
    }
  }

  predicate IsStopRole(role: string) {
    role == "stop" || role == "stop_entry_only" || role == "stop_exit_only"
    || role == "platform" || role == "platform_entry_only" || role == "platform_exit_only"
  }

  /** A member counts as a stop of the route: a node with a stop or
      platform role, or any node of a `railway` route, whose id is a known
      station node. */
  predicate Selected(routeType: string, m: Member, known: map<NodeId, Name>) {
    && m.kind == "node"
    && (IsStopRole(m.role) || routeType == "railway")
    && m.ref.Some? && m.ref.value in known
  }

  /** The ids of the selected members, in member order. */
  function SelectMembers(routeType: string, ms: seq<Member>, known: map<NodeId, Name>): (r: seq<NodeId>)
    ensures |r| <= |ms|
    ensures forall id :: id in r <==> exists i :: 0 <= i < |ms| && Selected(routeType, ms[i], known) && ms[i].ref.value == id
    ensures forall id :: id in r ==> id in known
  {
    if |ms| == 0 then []
    else
      var rest := SelectMembers(routeType, ms[1..], known);
      assert forall id :: id in rest <==> exists i :: 1 <= i < |ms| && Selected(routeType, ms[i], known) && ms[i].ref.value == id by {
        forall id ensures id in rest <==> exists i :: 1 <= i < |ms| && Selected(routeType, ms[i], known) && ms[i].ref.value == id {
          if id in rest {
            var i :| 0 <= i < |ms[1..]| && Selected(routeType, ms[1..][i], known) && ms[1..][i].ref.value == id;
            assert ms[i + 1] == ms[1..][i];
          }
          if exists i :: 1 <= i < |ms| && Selected(routeType, ms[i], known) && ms[i].ref.value == id {
            var i :| 1 <= i < |ms| && Selected(routeType, ms[i], known) && ms[i].ref.value == id;
            assert ms[1..][i - 1] == ms[i];
          }
        }
      }
      if Selected(routeType, ms[0], known) then [ms[0].ref.value] + rest else rest
  }

  /** Selection works member by member: the ids selected from a + b are
      those selected from a followed by those selected from b, so the
      selected ids keep member order. */
  lemma {:induction false} SelectMembersConcat(routeType: string, a: seq<Member>, b: seq<Member>, known: map<NodeId, Name>)
    ensures SelectMembers(routeType, a + b, known) == SelectMembers(routeType, a, known) + SelectMembers(routeType, b, known)
    decreases |a|
  {
    if |a| == 0 {
      assert a + b == b;
    } else {
      SelectMembersConcat(routeType, a[1..], b, known);
      assert (a + b)[0] == a[0];
      assert (a + b)[1..] == a[1..] + b;
    }
  }

  // ---------------------------------------------------------------------
  // Outlier filter

  const OutlierKm: real := 150.0

  /** Python's `sorted(xs)[len(xs) // 2]`: the upper median, a value of xs
      with at most n/2 values below it and at most n - n/2 - 1 above it. */
  function Median(xs: seq<real>): (m: real)
    requires |xs| > 0
    ensures m in xs
    ensures |Filter(xs, (x: real) => x < m)| <= |xs| / 2
    ensures |Filter(xs, (x: real) => x > m)| <= |xs| - |xs| / 2 - 1
  {
    RealLeTotal();
    var t := SortWith(xs, RealLe);
    var k := |xs| / 2;
    assert t[k] in multiset(xs);
    var m := t[k];
    SortedRealsAround(t, k);
    FilterCountBound(xs, t, (x: real) => x < m, k, true);
    FilterCountBound(xs, t, (x: real) => x > m, k, false);
    m
  }

  /** Counting the values that satisfy p through the sorted permutation:
      when p fails on t[k..] (below), or on t[..k+1] (above), the count is
      bounded by the other part's length. */
  lemma FilterCountBound(xs: seq<real>, t: seq<real>, p: real -> bool, k: nat, below: bool)
    requires k < |t| == |xs| && multiset(t) == multiset(xs)
    requires below ==> forall j :: k <= j < |t| ==> !p(t[j])
    requires !below ==> forall j :: 0 <= j <= k ==> !p(t[j])
    ensures below ==> |Filter(xs, p)| <= k
    ensures !below ==> |Filter(xs, p)| <= |xs| - k - 1
  {
    FilterPermLength(xs, t, p);
    if below {
      FilterSplitLength(t, k, p);
      FilterNone(t[k..], p);
    } else {
      FilterSplitLength(t, k + 1, p);
      FilterNone(t[..k + 1], p);
    }
  }

  lemma FilterSplitLength(t: seq<real>, k: nat, p: real -> bool)
    requires k <= |t|
    ensures |Filter(t, p)| == |Filter(t[..k], p)| + |Filter(t[k..], p)|
    ensures |Filter(t[..k], p)| <= k && |Filter(t[k..], p)| <= |t| - k
  {
    assert t == t[..k] + t[k..];
    FilterConcat(t[..k], t[k..], p);
  }

  /** Permutations have equally long filters. */
  lemma FilterPermLength(xs: seq<real>, t: seq<real>, p: real -> bool)
    requires multiset(t) == multiset(xs)
    ensures |Filter(xs, p)| == |Filter(t, p)|
  {
    FilterMultiset(xs, p);
    FilterMultiset(t, p);
    var a, b := multiset(Filter(xs, p)), multiset(Filter(t, p));
    assert forall x :: a[x] == b[x];
    assert a == b;
    assert |a| == |Filter(xs, p)| && |b| == |Filter(t, p)|;
  }

  lemma {:induction false} FilterMultiset(s: seq<real>, p: real -> bool)
    ensures forall x :: multiset(Filter(s, p))[x] == if p(x) then multiset(s)[x] else 0
    decreases |s|
  {
    if |s| > 0 {
      FilterMultiset(s[1..], p);
      assert s == [s[0]] + s[1..];
    }
  }

  lemma {:induction false} FilterNone(s: seq<real>, p: real -> bool)
    requires forall j :: 0 <= j < |s| ==> !p(s[j])
    ensures Filter(s, p) == []
    decreases |s|
  {
    if |s| > 0 {
      FilterNone(s[1..], p);
    }
  }

  /** The coordinates of those ids that have one, in id order. */
  function CoordsOf(ids: seq<NodeId>, coords: map<NodeId, Coord>): (r: seq<Coord>)
    ensures |r| <= |ids|
  {
    if |ids| == 0 then []
    else (if ids[0] in coords then [coords[ids[0]]] else []) + CoordsOf(ids[1..], coords)
  }

  /** The point of sorted latitudes[n/2] and sorted longitudes[n/2]; not
      necessarily one of the coordinates. */
  function MedianPoint(cs: seq<Coord>): Coord
    requires |cs| > 0
  {
    Coord(Median(seq(|cs|, i requires 0 <= i < |cs| => cs[i].lat)),
          Median(seq(|cs|, i requires 0 <= i < |cs| => cs[i].lon)))
  }

  /** A member is an outlier when it has a coordinate more than 150 km from
      the median point. */
  predicate Outlier(id: NodeId, coords: map<NodeId, Coord>, med: Coord, dist: DistFn) {
    id in coords && dist(coords[id], med) > OutlierKm
  }

  /** The outlier filter: with at least three coordinates among the
      members, outliers are dropped and every other member, with or without
      a coordinate, is kept in order; with fewer, all members are kept. */
  function KeepMembers(ids: seq<NodeId>, coords: map<NodeId, Coord>, dist: DistFn): (r: seq<NodeId>)
    ensures |CoordsOf(ids, coords)| < 3 ==> r == ids
    ensures |CoordsOf(ids, coords)| >= 3 ==>
      var med := MedianPoint(CoordsOf(ids, coords));
      forall id :: id in r <==> id in ids && !Outlier(id, coords, med, dist)
    ensures |CoordsOf(ids, coords)| >= 3 ==>
      var med := MedianPoint(CoordsOf(ids, coords));
      forall id :: Count(r, id) == if Outlier(id, coords, med, dist) then 0 else Count(ids, id)
    ensures forall id :: id in r ==> id in ids
    ensures IsSubseq(r, ids)
  {
    var cs := CoordsOf(ids, coords);
    if |cs| >= 3 then
      var med := MedianPoint(cs);
      var p := (id: NodeId) => !Outlier(id, coords, med, dist);
      FilterIsSubseq(ids, p);
      assert forall id :: Count(Filter(ids, p), id) == if p(id) then Count(ids, id) else 0 by {
        forall id ensures Count(Filter(ids, p), id) == if p(id) then Count(ids, id) else 0 {
          FilterCount(ids, p, id);
        }
      }
      Filter(ids, p)
    else
      SubseqRefl(ids);
      ids
  }

  /** No station follows itself. */
  predicate NoAdjacentRepeats(s: seq<Name>) {
    forall i :: 0 < i < |s| ==> s[i - 1] != s[i]
  }

  /** The `ordered` list: a name is appended unless it equals the last one
      appended, so runs of one station collapse to a single entry. */
  function Collapse(names: seq<Name>): (r: seq<Name>)
    ensures NoAdjacentRepeats(r)
    ensures forall x :: x in r <==> x in names
    ensures |r| <= |names|
    ensures |names| > 0 ==> |r| > 0 && r[|r| - 1] == names[|names| - 1]
    ensures IsSubseq(r, names)
    decreases |names|
  {
    if |names| == 0 then []
    else
      var init := names[..|names| - 1];
      var acc := Collapse(init);
      var x := names[|names| - 1];
      var r := Push(acc, x);
      CollapseStep(names, acc, r);
      r
  }

  /** One pass of the `ordered` loop: x is appended unless it is already
      last. */
  function Push(acc: seq<Name>, x: Name): seq<Name> {
    if |acc| > 0 && acc[|acc| - 1] == x then acc else acc + [x]
  }

  /** Collapse is the loop: the last name is pushed onto the collapsed
      prefix. */
  lemma CollapseLast(names: seq<Name>)
    requires |names| > 0
    ensures Collapse(names) == Push(Collapse(names[..|names| - 1]), names[|names| - 1])
  {
  }

  /** One step of the `ordered` loop keeps what Collapse promises. */
  lemma CollapseStep(names: seq<Name>, acc: seq<Name>, r: seq<Name>)
    requires |names| > 0
    requires var init := names[..|names| - 1];
      && NoAdjacentRepeats(acc) && |acc| <= |init|
      && (forall y :: y in acc <==> y in init)
      && (|init| > 0 ==> |acc| > 0 && acc[|acc| - 1] == init[|init| - 1])
    requires r == Push(acc, names[|names| - 1])
    ensures NoAdjacentRepeats(r)
    ensures forall y :: y in r <==> y in names
    ensures |r| <= |names|
    ensures |r| > 0 && r[|r| - 1] == names[|names| - 1]
    ensures IsSubseq(acc, names[..|names| - 1]) ==> IsSubseq(r, names)
  {
    var init := names[..|names| - 1];
    var x := names[|names| - 1];
    assert names == init + [x];
    if IsSubseq(acc, init) {
      SubseqSnoc(acc, init, x);
    }
    if !(|acc| > 0 && acc[|acc| - 1] == x) {
      assert forall i :: 0 <= i < |acc| ==> r[i] == acc[i];
    }
  }

  /** Collapsing a list without adjacent repeats changes nothing, so
      collapsing is idempotent. */
  lemma {:induction false} CollapseFixed(s: seq<Name>)
    requires NoAdjacentRepeats(s)
    ensures Collapse(s) == s
    decreases |s|
  {
    if |s| > 0 {
      var p := s[..|s| - 1];
      var x := s[|s| - 1];
      forall i | 0 < i < |p| ensures p[i - 1] != p[i] {
        assert p[i - 1] == s[i - 1] && p[i] == s[i];
      }
      CollapseFixed(p);
      CollapseLast(s);
      if |p| > 0 {
        assert p[|p| - 1] == s[|s| - 2] != x;
      }
      assert Push(p, x) == p + [x] == s;
    }
  }

  /** The run reading of the `ordered` loop, from the front: a name is
      dropped exactly when the next one equals it. */
  function Runs(s: seq<Name>): seq<Name>
    decreases |s|
  {
    if |s| <= 1 then s
    else if s[0] == s[1] then Runs(s[1..])
    else [s[0]] + Runs(s[1..])
  }

  /** The loop builds, from the back, the run reading: each run of equal
      neighbours leaves one name, and every other name stays. */
  lemma {:induction false} CollapseIsRuns(names: seq<Name>)
    ensures Collapse(names) == Runs(names)
    decreases |names|
  {
    if |names| > 0 {
      var init := names[..|names| - 1];
      var x := names[|names| - 1];
      CollapseLast(names);
      CollapseIsRuns(init);
      RunsSnoc(init, x);
      assert init + [x] == names;
    }
  }

  /** Runs from the back: appending x adds x unless the last run already
      is x. */
  lemma {:induction false} RunsSnoc(s: seq<Name>, x: Name)
    ensures |s| > 0 ==> |Runs(s)| > 0 && Runs(s)[|Runs(s)| - 1] == s[|s| - 1]
    ensures Runs(s + [x]) == Push(Runs(s), x)
    decreases |s|
  {
    if |s| == 0 {
      assert s + [x] == [x];
    } else if |s| == 1 {
      assert (s + [x])[1..] == [x];
    } else {
      RunsSnoc(s[1..], x);
      assert (s + [x])[1..] == s[1..] + [x];
      assert s[1..][|s[1..]| - 1] == s[|s| - 1];
      if s[0] != s[1] {
        assert ([s[0]] + Runs(s[1..])) + [x] == [s[0]] + (Runs(s[1..]) + [x]);
      }
    }
  }

  lemma CollapseIdempotent(names: seq<Name>)
    ensures Collapse(Collapse(names)) == Collapse(names)
  {
    CollapseFixed(Collapse(names));
  }

  /** The display names of the kept members, in member order. */
  function NamesOf(ids: seq<NodeId>, nodeNames: map<NodeId, Name>): (r: seq<Name>)
    requires forall i :: 0 <= i < |ids| ==> ids[i] in nodeNames
    ensures |r| == |ids| && forall i :: 0 <= i < |ids| ==> r[i] == nodeNames[ids[i]]
  {
    seq(|ids|, i requires 0 <= i < |ids| => nodeNames[ids[i]])
  }

  /** The station sequence one route relation contributes: selected
      members, outliers removed, mapped to display names, repeats
      collapsed. Every station is the name of a selected, kept member. */
  function OrderedStations(rel: Relation, nodeNames: map<NodeId, Name>, coords: map<NodeId, Coord>,
                           dist: DistFn): (r: seq<Name>)
    ensures NoAdjacentRepeats(r)
    ensures forall s :: s in r ==> exists id :: id in KeepMembers(SelectMembers(rel.route, rel.members, nodeNames), coords, dist)
                                     && id in nodeNames && nodeNames[id] == s
    ensures forall id :: id in KeepMembers(SelectMembers(rel.route, rel.members, nodeNames), coords, dist) ==>
      id in nodeNames && nodeNames[id] in r
    ensures var kept := KeepMembers(SelectMembers(rel.route, rel.members, nodeNames), coords, dist);
      IsSubseq(r, NamesOf(kept, nodeNames))
  {
    var kept := KeepMembers(SelectMembers(rel.route, rel.members, nodeNames), coords, dist);
    var names := NamesOf(kept, nodeNames);
    var r := Collapse(names);
    assert forall id :: id in kept ==> id in nodeNames && nodeNames[id] in r by {
      forall id | id in kept ensures id in nodeNames && nodeNames[id] in r {
        var i :| 0 <= i < |kept| && kept[i] == id;
        assert names[i] in names;
      }
    }
    assert forall s :: s in r ==> exists id :: id in kept && id in nodeNames && nodeNames[id] == s by {
      forall s | s in r ensures exists id :: id in kept && id in nodeNames && nodeNames[id] == s {
        var i :| 0 <= i < |names| && names[i] == s;
        assert kept[i] in kept;
      }
    }
    r
  }

  // ---------------------------------------------------------------------
  // Merging the two directions of a line

  /** Merging a route of a base name already stored: the longer of the two
      lists is kept, then every incoming station missing from the old list
      is appended once, in encounter order. When the incoming list is the
      longer one, the stored list is that very list, so the appended
      stations end up in it twice and stations only the old list had are
      lost. */
  function MergeLine(existing: seq<Name>, incoming: seq<Name>): (r: seq<Name>)
    ensures |r| >= |existing| && |r| >= |incoming|
    ensures forall s :: s in incoming ==> s in r
    ensures |incoming| <= |existing| ==>
      && r[..|existing|] == existing
      && (forall s :: s in r <==> s in existing || s in incoming)
      && Distinct(r[|existing|..])
      && (forall s :: s in r[|existing|..] ==> s !in existing)
    ensures |incoming| > |existing| ==>
      && r[..|incoming|] == incoming
      && (forall s :: s in r <==> s in incoming)
    ensures var longer := if |incoming| > |existing| then incoming else existing;
      r[..|longer|] == longer && r[|longer|..] == Dedup(incoming, Elems(existing))
  {
    var added := Dedup(incoming, Elems(existing));
    var r := (if |incoming| > |existing| then incoming else existing) + added;
    assert |incoming| <= |existing| ==> r[|existing|..] == added;
    r
  }

  /** The stations a merge appends come in the incoming list's order: of
      two appended stations, the earlier one occurs first in incoming. */
  lemma MergeLineOrder(existing: seq<Name>, incoming: seq<Name>, i: nat, j: nat)
    requires var longer := if |incoming| > |existing| then incoming else existing;
      |longer| <= i < j < |MergeLine(existing, incoming)|
    ensures MergeLine(existing, incoming)[i] in incoming && MergeLine(existing, incoming)[j] in incoming
    ensures IndexOf(incoming, MergeLine(existing, incoming)[i]) < IndexOf(incoming, MergeLine(existing, incoming)[j])
  {
    var longer := if |incoming| > |existing| then incoming else existing;
    DedupTailOrder(incoming, Elems(existing), MergeLine(existing, incoming), |longer|, i, j);
  }

  /** In a list whose tail from n is a de-duplication of s, two tail
      positions keep the order of their first occurrences in s. */
  lemma DedupTailOrder(s: seq<Name>, seen: set<Name>, r: seq<Name>, n: nat, i: nat, j: nat)
    requires n <= i < j < |r| && r[n..] == Dedup(s, seen)
    ensures r[i] in s && r[j] in s && IndexOf(s, r[i]) < IndexOf(s, r[j])
  {
    assert r[n..][i - n] == r[i] && r[n..][j - n] == r[j];
    DedupOrder(s, seen, i - n, j - n);
  }

  /** Merging a route whose stations are all on a line that is at least as
      long leaves the line as it is; in particular a route merged into
      itself. */
  lemma MergeLineCovered(existing: seq<Name>, incoming: seq<Name>)
    requires |incoming| <= |existing| && forall s :: s in incoming ==> s in existing
    ensures MergeLine(existing, incoming) == existing
  {
    var added := Dedup(incoming, Elems(existing));
    if |added| > 0 {
      assert added[0] in added;
    }
  }

  /** The aliasing quirk on a concrete merge: after [A, B] the longer
      direction [A, C, D] is stored as [A, C, D, C, D], and B is gone. */
  lemma MergeAliasing()
    ensures MergeLine(["A", "B"], ["A", "C", "D"]) == ["A", "C", "D", "C", "D"]
    ensures "B" !in MergeLine(["A", "B"], ["A", "C", "D"])
  {
    var e: seq<Name> := ["A", "B"];
    var inc: seq<Name> := ["A", "C", "D"];
    AliasAdded();
    var m := MergeLine(e, inc);
    assert m == inc + ["C", "D"];
    assert m == ["A", "C", "D", "C", "D"];
  }

  /** The stations of [A, C, D] missing from [A, B]. */
  lemma AliasAdded()
    ensures Dedup(["A", "C", "D"], Elems(["A", "B"])) == ["C", "D"]
  {
    var inc: seq<Name> := ["A", "C", "D"];
    var seen := Elems(["A", "B"]);
    assert "A" in seen && "C" !in seen && "D" !in seen;
    DedupHead(inc, seen);
    assert inc[1..] == ["C", "D"];
    DedupHead(["C", "D"], seen);
    assert ["C", "D"][1..] == ["D"];
    DedupHead(["D"], seen + {"C"});
    assert ["D"][1..] == [];
  }
}
