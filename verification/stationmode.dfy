/** `run_station_mode` (station_mode.py:90-153): the search, the per-line
    groups, and the result assembly, where each station is listed once, on
    the first group that holds it, with its estimated travel time, and
    stations with no estimate or more than 90 minutes away are left out.
    Writing the JSON file is not modelled. */
module StationMode {
  import opened Seqs
  import opened Geo
  import opened RailGraph
  import opened Matching
  import opened Reach
  import opened Grouping
  import opened TravelTime

  const MaxTravelMinutes: int := 90

  datatype StationEntry = StationEntry(name: Name, travelTime: int, coord: Option<Coord>)
  datatype RailwayEntry = RailwayEntry(railway: Name, stations: seq<StationEntry>)
  datatype Report = Report(
    baseStation: Name,
    matched: Option<Name>,
    maxTransfer: int,
    total: nat,
    railways: seq<RailwayEntry>,
    stations: seq<StationEntry>,
    baseCoord: Option<Coord>)

  /** The travel-time estimate from the fixed origin, station by station;
      the assembly loops are written over it and instantiated with
      `Estimate` below. */
  type TimeFn = Name -> Option<int>

  /** `_estimate_travel_time(base, ·)` for a fixed origin. */
  function TimesFrom(g: Graph, base: Name, dist: DistFn): TimeFn {
    (s: Name) => Estimate(g, base, s, dist)
  }

  /** A station gets an entry: it has an estimate of at most 90 minutes. */
  predicate Listed(est: TimeFn, s: Name) {
    est(s).Some? && est(s).value <= MaxTravelMinutes
  }

  function ListedPred(est: TimeFn): Name -> bool {
    (s: Name) => Listed(est, s)
  }

  /** The stations of names that get an entry, in line order. */
  function ListedIn(est: TimeFn, names: seq<Name>): seq<Name> {
    Filter(names, ListedPred(est))
  }

  lemma ListedInHead(est: TimeFn, names: seq<Name>)
    requires |names| > 0
    ensures ListedIn(est, names) ==
      if Listed(est, names[0]) then [names[0]] + ListedIn(est, names[1..]) else ListedIn(est, names[1..])
  {
  }

  lemma ListedInConcat(est: TimeFn, a: seq<Name>, b: seq<Name>)
    ensures ListedIn(est, a + b) == ListedIn(est, a) + ListedIn(est, b)
  {
    FilterConcat(a, b, ListedPred(est));
  }

  /** The inner loop's names, one station at a time. */
  lemma LineNamesStep(est: TimeFn, names: seq<Name>, seen: set<Name>)
    requires |names| > 0
    ensures names[0] in seen || !Listed(est, names[0]) ==>
      Dedup(ListedIn(est, names), seen) == Dedup(ListedIn(est, names[1..]), seen)
    ensures names[0] !in seen && Listed(est, names[0]) ==>
      Dedup(ListedIn(est, names), seen) == [names[0]] + Dedup(ListedIn(est, names[1..]), seen + {names[0]})
  {
    ListedInHead(est, names);
    if Listed(est, names[0]) {
      var l := ListedIn(est, names);
      assert l[0] == names[0] && l[1..] == ListedIn(est, names[1..]);
      DedupHead(l, seen);
    }
  }

  /** The names of some entries. */
  function EntryNames(es: seq<StationEntry>): (r: seq<Name>)
    ensures |r| == |es| && forall i :: 0 <= i < |es| ==> r[i] == es[i].name
  {
    seq(|es|, i requires 0 <= i < |es| => es[i].name)
  }

  lemma EntryNamesCons(e: StationEntry, es: seq<StationEntry>)
    ensures EntryNames([e] + es) == [e.name] + EntryNames(es)
  {
  }

  lemma EntryNamesConcat(a: seq<StationEntry>, b: seq<StationEntry>)
    ensures EntryNames(a + b) == EntryNames(a) + EntryNames(b)
  {
  }

  /** What the entry for a station says: its estimate, which is at most 90
      minutes, and its coordinate if it has one. */
  predicate GoodEntry(g: Graph, est: TimeFn, e: StationEntry) {
    && est(e.name) == Some(e.travelTime)
    && e.travelTime <= MaxTravelMinutes
    && e.coord == CoordOf(g, e.name)
  }

  /** The inner loop (station_mode.py:116-138) over one group's stations:
      skip a station already seen, or with no estimate or one over 90
      minutes; otherwise emit it and mark it seen. Returns the entries and
      the new seen set. */
  function LineEntries(g: Graph, est: TimeFn, names: seq<Name>, seen: set<Name>)
    : (r: (seq<StationEntry>, set<Name>))
    ensures forall e :: e in r.0 ==> GoodEntry(g, est, e) && e.name in names && e.name !in seen
    ensures Distinct(EntryNames(r.0))
    ensures r.1 == seen + Elems(EntryNames(r.0))
    ensures forall s :: s in names && s !in seen && Listed(est, s) ==> s in r.1
    ensures EntryNames(r.0) == Dedup(ListedIn(est, names), seen)
    decreases |names|
  {
    if |names| == 0 then ([], seen)
    else
      var s := names[0];
      var rest := LineEntries(g, est, names[1..], if s in seen || !Listed(est, s) then seen else seen + {s});
      LineNamesStep(est, names, seen);
      if s in seen || !Listed(est, s) then rest
      else
        var e := StationEntry(s, est(s).value, CoordOf(g, s));
        EntryNamesCons(e, rest.0);
        DistinctCons(s, EntryNames(rest.0));
        ([e] + rest.0, rest.1)
  }

  /** The outer loop (station_mode.py:112-144) over the groups: each group
      with at least one emitted station becomes a railway entry. Returns
      the railway entries, the flat list of their stations, and the seen
      set. */
  function GroupEntries(g: Graph, est: TimeFn, groups: seq<Group>, seen: set<Name>)
    : (r: (seq<RailwayEntry>, seq<StationEntry>, set<Name>))
    ensures r.1 == Flatten(StationLists(r.0))
    ensures forall i :: 0 <= i < |r.0| ==> r.0[i].stations != [] && r.0[i].railway in GroupNames(groups)
    ensures forall e :: e in r.1 ==> GoodEntry(g, est, e) && e.name !in seen
    ensures Distinct(EntryNames(r.1))
    ensures r.2 == seen + Elems(EntryNames(r.1))
    ensures forall k, s :: 0 <= k < |groups| && s in groups[k].1 && s !in seen && Listed(est, s) ==> s in r.2
    decreases |groups|
  {
    if |groups| == 0 then ([], [], seen)
    else
      var line := LineEntries(g, est, groups[0].1, seen);
      var rest := GroupEntries(g, est, groups[1..], line.1);
      var mine := Own(groups[0].0, line.0);
      FlattenStep(groups[0].0, line.0, rest.0, rest.1);
      RailwaysStep(groups, line.0, rest.0);
      EntriesStep(g, est, seen, line.0, line.1, rest.1, rest.2);
      CoverStep(est, groups, seen, line.1, rest.2);
      (mine + rest.0, line.0 + rest.1, rest.2)
  }

  /** The outer loop's flat list holds the groups' unseen, listed
      stations, group after group and in line order within a group, each
      once. */
  lemma {:induction false} GroupEntriesNames(g: Graph, est: TimeFn, groups: seq<Group>, seen: set<Name>)
    ensures EntryNames(GroupEntries(g, est, groups, seen).1) == Dedup(ListedIn(est, Flatten(GroupLines(groups))), seen)
    decreases |groups|
  {
    if |groups| > 0 {
      var line := LineEntries(g, est, groups[0].1, seen);
      var rest := GroupEntries(g, est, groups[1..], line.1);
      GroupEntriesNames(g, est, groups[1..], line.1);
      NamesStep(est, groups, seen, EntryNames(line.0), line.1, EntryNames(rest.1));
      EntryNamesConcat(line.0, rest.1);
    }
  }

  /** The outer loop's railway entries follow the group order. */
  lemma {:induction false} GroupEntriesRailOrder(g: Graph, est: TimeFn, groups: seq<Group>, seen: set<Name>)
    ensures IsSubseq(RailwayNames(GroupEntries(g, est, groups, seen).0), GroupNames(groups))
    decreases |groups|
  {
    if |groups| == 0 {
      SubseqRefl(GroupNames(groups));
    } else {
      var line := LineEntries(g, est, groups[0].1, seen);
      GroupEntriesRailOrder(g, est, groups[1..], line.1);
      OrderStep(groups, line.0, GroupEntries(g, est, groups[1..], line.1).0);
    }
  }

  /** In the outer loop's result every station sits in the railway entry
      of the first group that holds it. */
  lemma {:induction false} GroupEntriesHolder(g: Graph, est: TimeFn, groups: seq<Group>, seen: set<Name>)
    ensures OnFirstHolders(groups, GroupEntries(g, est, groups, seen).0)
    decreases |groups|
  {
    if |groups| > 0 {
      var line := LineEntries(g, est, groups[0].1, seen);
      var rest := GroupEntries(g, est, groups[1..], line.1);
      GroupEntriesHolder(g, est, groups[1..], line.1);
      assert rest.1 == Flatten(StationLists(rest.0));
      HolderStep(g, est, groups, seen, line.0, line.1, rest.0);
    }
  }

  /** The station lists of some groups. */
  function GroupLines(groups: seq<Group>): (r: seq<seq<Name>>)
    ensures |r| == |groups| && forall i :: 0 <= i < |groups| ==> r[i] == groups[i].1
  {
    seq(|groups|, i requires 0 <= i < |groups| => groups[i].1)
  }

  /** The railway names of some railway entries. */
  function RailwayNames(rs: seq<RailwayEntry>): (r: seq<Name>)
    ensures |r| == |rs| && forall i :: 0 <= i < |rs| ==> r[i] == rs[i].railway
  {
    seq(|rs|, i requires 0 <= i < |rs| => rs[i].railway)
  }

  /** Every station of the railway entries rs sits in the entry of the
      first group that holds it. */
  ghost predicate OnFirstHolders(groups: seq<Group>, rs: seq<RailwayEntry>) {
    forall i, e :: 0 <= i < |rs| && e in rs[i].stations ==>
      exists k :: FirstHolder(groups, e.name, k) && rs[i].railway == groups[k].0
  }

  /** groups[k] is the first group that holds station s. */
  predicate FirstHolder(groups: seq<Group>, s: Name, k: int) {
    0 <= k < |groups| && s in groups[k].1 && forall j :: 0 <= j < k ==> s !in groups[j].1
  }

  /** The flat list of names of the first group and then the others is
      the deduplicated listed stations of all groups. */
  lemma NamesStep(est: TimeFn, groups: seq<Group>, seen: set<Name>, a: seq<Name>, mid: set<Name>, b: seq<Name>)
    requires |groups| > 0
    requires a == Dedup(ListedIn(est, groups[0].1), seen) && mid == seen + Elems(a)
    requires b == Dedup(ListedIn(est, Flatten(GroupLines(groups[1..]))), mid)
    ensures a + b == Dedup(ListedIn(est, Flatten(GroupLines(groups))), seen)
  {
    var first := groups[0].1;
    var others := Flatten(GroupLines(groups[1..]));
    assert GroupLines(groups) == [first] + GroupLines(groups[1..]);
    FlattenCons(first, GroupLines(groups[1..]));
    ListedInConcat(est, first, others);
    DedupConcat(ListedIn(est, first), ListedIn(est, others), seen);
    DedupSeen(ListedIn(est, first), seen);
  }

  /** A group's railway entry in front keeps the railway names a
      subsequence of the group names. */
  lemma OrderStep(groups: seq<Group>, es: seq<StationEntry>, rest: seq<RailwayEntry>)
    requires |groups| > 0
    requires IsSubseq(RailwayNames(rest), GroupNames(groups[1..]))
    ensures IsSubseq(RailwayNames(Own(groups[0].0, es) + rest), GroupNames(groups))
  {
    assert GroupNames(groups) == [groups[0].0] + GroupNames(groups[1..]);
    SubseqCons(RailwayNames(rest), GroupNames(groups[1..]), groups[0].0);
    if es == [] {
      assert Own(groups[0].0, es) + rest == rest;
    } else {
      assert RailwayNames(Own(groups[0].0, es) + rest) == [groups[0].0] + RailwayNames(rest);
    }
  }

  /** Stations emitted for the first group sit on their first holder; so
      do those of the later groups, since a listed station of the first
      group not seen before is seen after it. */
  lemma HolderStep(g: Graph, est: TimeFn, groups: seq<Group>, seen: set<Name>,
                   es: seq<StationEntry>, mid: set<Name>, rest: seq<RailwayEntry>)
    requires |groups| > 0 && seen <= mid
    requires forall e :: e in es ==> e.name in groups[0].1
    requires forall s :: s in groups[0].1 && s !in seen && Listed(est, s) ==> s in mid
    requires forall e :: e in Flatten(StationLists(rest)) ==> GoodEntry(g, est, e) && e.name !in mid
    requires OnFirstHolders(groups[1..], rest)
    ensures OnFirstHolders(groups, Own(groups[0].0, es) + rest)
  {
    var mine := Own(groups[0].0, es);
    var rs := mine + rest;
    forall i, e | 0 <= i < |rs| && e in rs[i].stations
      ensures exists k :: FirstHolder(groups, e.name, k) && rs[i].railway == groups[k].0
    {
      if i < |mine| {
        assert rs[i] == RailwayEntry(groups[0].0, es);
        assert FirstHolder(groups, e.name, 0);
      } else {
        var j := i - |mine|;
        assert rs[i] == rest[j];
        assert e in rest[j].stations;
        var k :| FirstHolder(groups[1..], e.name, k) && rest[j].railway == groups[1..][k].0;
        InFlatten(StationLists(rest), e);
        assert e in StationLists(rest)[j];
        assert GoodEntry(g, est, e) && e.name !in mid;
        assert e.name !in groups[0].1;
        forall l | 0 <= l < k + 1 ensures e.name !in groups[l].1 {
          if l > 0 {
            assert groups[l] == groups[1..][l - 1];
          }
        }
        assert FirstHolder(groups, e.name, k + 1);
      }
    }
  }

  /** The railway entry of one group: none when no station of it was
      emitted. */
  function Own(rw: Name, es: seq<StationEntry>): (r: seq<RailwayEntry>)
    ensures |r| <= 1 && (r == [] <==> es == [])
    ensures forall i :: 0 <= i < |r| ==> r[i] == RailwayEntry(rw, es)
  {
    if es == [] then [] else [RailwayEntry(rw, es)]
  }

  /** Putting a group's entries in front keeps the flat list the
      concatenation of the railway entries' lists. */
  lemma FlattenStep(rw: Name, es: seq<StationEntry>, rest: seq<RailwayEntry>, flat: seq<StationEntry>)
    requires flat == Flatten(StationLists(rest))
    ensures Flatten(StationLists(Own(rw, es) + rest)) == es + flat
  {
    if es != [] {
      assert Own(rw, es) == [RailwayEntry(rw, es)];
      var ls := StationLists([RailwayEntry(rw, es)] + rest);
      assert ls == [es] + StationLists(rest) by {
        forall i | 0 <= i < |ls| ensures ls[i] == ([es] + StationLists(rest))[i] {
          if i > 0 {
            assert ([RailwayEntry(rw, es)] + rest)[i] == rest[i - 1];
          }
        }
      }
      FlattenCons(es, StationLists(rest));
    } else {
      assert [] + rest == rest;
      assert es + flat == flat;
    }
  }

  lemma RailwaysStep(groups: seq<Group>, es: seq<StationEntry>, rest: seq<RailwayEntry>)
    requires |groups| > 0
    requires forall i :: 0 <= i < |rest| ==> rest[i].stations != [] && rest[i].railway in GroupNames(groups[1..])
    ensures var rs := Own(groups[0].0, es) + rest;
      forall i :: 0 <= i < |rs| ==> rs[i].stations != [] && rs[i].railway in GroupNames(groups)
  {
    var mine := Own(groups[0].0, es);
    var rs := mine + rest;
    assert forall x :: x in GroupNames(groups[1..]) ==> x in GroupNames(groups) by {
      forall x | x in GroupNames(groups[1..]) ensures x in GroupNames(groups) {
        var k :| 0 <= k < |groups[1..]| && GroupNames(groups[1..])[k] == x;
        assert GroupNames(groups)[k + 1] == x;
      }
    }
    forall i | 0 <= i < |rs| ensures rs[i].stations != [] && rs[i].railway in GroupNames(groups) {
      if i >= |mine| {
        assert rs[i] == rest[i - |mine|];
      } else {
        assert GroupNames(groups)[0] == groups[0].0;
      }
    }
  }

  /** Emitting one group's entries and then the rest's keeps every entry
      good and unseen before, and the names duplicate-free. */
  lemma EntriesStep(g: Graph, est: TimeFn, seen: set<Name>, a: seq<StationEntry>, mid: set<Name>,
                    b: seq<StationEntry>, after: set<Name>)
    requires forall e :: e in a ==> GoodEntry(g, est, e) && e.name !in seen
    requires Distinct(EntryNames(a)) && mid == seen + Elems(EntryNames(a))
    requires forall e :: e in b ==> GoodEntry(g, est, e) && e.name !in mid
    requires Distinct(EntryNames(b)) && after == mid + Elems(EntryNames(b))
    ensures forall e :: e in a + b ==> GoodEntry(g, est, e) && e.name !in seen
    ensures Distinct(EntryNames(a + b))
    ensures after == seen + Elems(EntryNames(a + b))
  {
    EntryNamesConcat(a, b);
    DistinctConcat(EntryNames(a), EntryNames(b));
    assert Elems(EntryNames(a + b)) == Elems(EntryNames(a)) + Elems(EntryNames(b));
  }

  /** A station of any group that is listed and not seen before ends up
      seen: those of the first group after its inner loop, the others after
      the rest of the outer loop. */
  lemma CoverStep(est: TimeFn, groups: seq<Group>, seen: set<Name>, mid: set<Name>, after: set<Name>)
    requires |groups| > 0 && seen <= mid <= after
    requires forall s :: s in groups[0].1 && s !in seen && Listed(est, s) ==> s in mid
    requires forall k, s :: 0 <= k < |groups[1..]| && s in groups[1..][k].1 && s !in mid && Listed(est, s) ==> s in after
    ensures forall k, s :: 0 <= k < |groups| && s in groups[k].1 && s !in seen && Listed(est, s) ==> s in after
  {
    forall k, s | 0 <= k < |groups| && s in groups[k].1 && s !in seen && Listed(est, s) ensures s in after {
      if k > 0 && s !in mid {
        assert groups[1..][k - 1] == groups[k];
      }
    }
  }

  /** The railway names of some groups. */
  function GroupNames(groups: seq<Group>): (r: seq<Name>)
    ensures |r| == |groups| && forall i :: 0 <= i < |groups| ==> r[i] == groups[i].0
  {
    seq(|groups|, i requires 0 <= i < |groups| => groups[i].0)
  }

  /** The station lists of railway entries, in order. */
  function StationLists(rs: seq<RailwayEntry>): (r: seq<seq<StationEntry>>)
    ensures |r| == |rs| && forall i :: 0 <= i < |rs| ==> r[i] == rs[i].stations
  {
    seq(|rs|, i requires 0 <= i < |rs| => rs[i].stations)
  }

  /** `matched_name or base_station`: Python's `or` also skips an empty
      name. */
  function PickBase(matched: Option<Name>, input: Name): (b: Name)
    ensures matched.Some? && matched.value != "" ==> b == matched.value
    ensures matched.None? || matched.value == "" ==> b == input
  {
    if matched.Some? && matched.value != "" then matched.value else input
  }

  /** The assembly (station_mode.py:97-153): no result when the search
      found neither reachable stations nor groups. Otherwise every group
      with a listed station becomes a railway entry; no station appears in
      two railway entries; every listed station has its estimate of at
      most 90 minutes; every station of a group that has such an estimate
      is listed; and the total is the length of the flat station list. */
  function Assemble(g: Graph, input: Name, maxT: int, reachable: seq<Name>, groups: seq<Group>,
                    matched: Option<Name>, dist: DistFn): (r: Option<Report>)
    ensures r.None? <==> reachable == [] && groups == []
    ensures r.Some? ==> r.value.total == |r.value.stations|
    ensures r.Some? ==> r.value.stations == Flatten(StationLists(r.value.railways))
    ensures r.Some? ==> forall i :: 0 <= i < |r.value.railways| ==>
      r.value.railways[i].stations != [] && r.value.railways[i].railway in GroupNames(groups)
    ensures r.Some? ==> forall e :: e in r.value.stations ==> GoodEntry(g, TimesFrom(g, PickBase(matched, input), dist), e)
    ensures r.Some? ==> Distinct(EntryNames(r.value.stations))
    ensures r.Some? ==> forall k, s :: 0 <= k < |groups| && s in groups[k].1 ==>
      (Listed(TimesFrom(g, PickBase(matched, input), dist), s) <==> s in EntryNames(r.value.stations))
    ensures r.Some? ==>
      EntryNames(r.value.stations) == Dedup(ListedIn(TimesFrom(g, PickBase(matched, input), dist), Flatten(GroupLines(groups))), {})
    ensures r.Some? ==> IsSubseq(RailwayNames(r.value.railways), GroupNames(groups))
    ensures r.Some? ==> OnFirstHolders(groups, r.value.railways)
  {
    if reachable == [] && groups == [] then None
    else
      var base := PickBase(matched, input);
      var est := TimesFrom(g, base, dist);
      var out := GroupEntries(g, est, groups, {});
      ListedExactly(g, est, groups);
      GroupEntriesNames(g, est, groups, {});
      GroupEntriesRailOrder(g, est, groups, {});
      GroupEntriesHolder(g, est, groups, {});
      Some(Report(input, matched, maxT, |out.1|, out.0, out.1, CoordOf(g, base)))
  }

  /** Starting from nothing seen, a station of a group is emitted exactly
      when it is listed. */
  lemma ListedExactly(g: Graph, est: TimeFn, groups: seq<Group>)
    ensures var out := GroupEntries(g, est, groups, {});
      forall k, s :: 0 <= k < |groups| && s in groups[k].1 ==> (Listed(est, s) <==> s in EntryNames(out.1))
  {
    var out := GroupEntries(g, est, groups, {});
    forall s | s in EntryNames(out.1) ensures Listed(est, s) {
      var i :| 0 <= i < |out.1| && EntryNames(out.1)[i] == s;
      assert GoodEntry(g, est, out.1[i]);
    }
  }

  /** The lines of the reachable stations, each once, in order of first
      appearance; the source collects them in a Python set. */
  function RelevantOrder(g: Graph, reachable: seq<Name>): (r: seq<Name>)
    ensures RelevantLines(g, reachable, r)
  {
    var ss := seq(|reachable|, i requires 0 <= i < |reachable| => LinesOf(g, reachable[i]));
    var r := Dedup(Flatten(ss), {});
    assert forall rw :: rw in r <==> exists s :: s in reachable && rw in LinesOf(g, s) by {
      forall rw ensures rw in r <==> exists s :: s in reachable && rw in LinesOf(g, s) {
        InFlatten(ss, rw);
        if exists s :: s in reachable && rw in LinesOf(g, s) {
          var s :| s in reachable && rw in LinesOf(g, s);
          var i :| 0 <= i < |reachable| && reachable[i] == s;
          assert rw in ss[i];
        }
      }
    }
    r
  }

  /** s is on the search's reachable list from base: another station
      that a walk within the transfer bound reaches. */
  ghost predicate Reached(g: Graph, base: Name, maxT: int, dist: DistFn, s: Name) {
    s != base && exists k :: ReachedAt(g, base, maxT, dist, s, k)
  }

  /** A listed station of the groups' flat list comes from some group. */
  lemma FromSomeGroup(est: TimeFn, groups: seq<Group>, x: Name)
    requires x in Dedup(ListedIn(est, Flatten(GroupLines(groups))), {})
    ensures exists k :: 0 <= k < |groups| && x in groups[k].1
  {
    InFlatten(GroupLines(groups), x);
    var k :| 0 <= k < |groups| && x in GroupLines(groups)[k];
    assert x in groups[k].1;
  }

  /** The search as the assembly sees it: the resolved name, and the
      stations reachable from it other than itself. */
  method Search(g: Graph, input: Name, maxT: int, close: FuzzyFn, dist: DistFn)
    returns (reachable: seq<Name>, matched: Option<Name>)
    requires WellFormed(g) && FuzzyOracle(close)
    ensures matched == Resolve(g, input, close)
    ensures matched.None? ==> reachable == []
    ensures matched.Some? ==> forall s :: s in reachable <==> Reached(g, matched.value, maxT, dist, s)
  {
    var lineMap;
    ghost var visited;
    reachable, lineMap, matched, visited := FindReachable(g, input, maxT, close, dist);
  }

  /** Nothing is reachable exactly when the list is empty. */
  lemma NothingReached(g: Graph, m: Name, maxT: int, dist: DistFn, reachable: seq<Name>)
    requires forall s :: s in reachable <==> Reached(g, m, maxT, dist, s)
    ensures reachable == [] <==> forall s :: !Reached(g, m, maxT, dist, s)
  {
    if reachable != [] {
      assert reachable[0] in reachable;
    }
  }

  /** Groups of reachable stations are empty when nothing is reachable. */
  lemma NoGroups(reachable: seq<Name>, groups: seq<Group>)
    requires forall i :: 0 <= i < |groups| ==> groups[i].1 != []
    requires forall i, s :: 0 <= i < |groups| && s in groups[i].1 ==> s in reachable
    ensures reachable == [] ==> groups == []
  {
    if |groups| > 0 {
      var s := groups[0].1[0];
      assert s in groups[0].1;
      assert s in reachable;
    }
  }

  /** Every entry of the report is a reachable station. */
  lemma EntriesReached(g: Graph, m: Name, maxT: int, dist: DistFn, est: TimeFn,
                       reachable: seq<Name>, groups: seq<Group>, stations: seq<StationEntry>)
    requires forall s :: s in reachable <==> Reached(g, m, maxT, dist, s)
    requires forall i, s :: 0 <= i < |groups| && s in groups[i].1 ==> s in reachable
    requires EntryNames(stations) == Dedup(ListedIn(est, Flatten(GroupLines(groups))), {})
    ensures forall e :: e in stations ==> Reached(g, m, maxT, dist, e.name)
  {
    forall e | e in stations ensures Reached(g, m, maxT, dist, e.name) {
      var i :| 0 <= i < |stations| && stations[i] == e;
      assert EntryNames(stations)[i] == e.name;
      FromSomeGroup(est, groups, e.name);
    }
  }

  /** Every reachable station other than the base that is on one of its
      lines and is listed gets an entry. */
  lemma ReachedListed(g: Graph, m: Name, b: Name, maxT: int, dist: DistFn, est: TimeFn,
                      reachable: seq<Name>, groups: seq<Group>, names: seq<Name>)
    requires forall s :: s in reachable <==> Reached(g, m, maxT, dist, s)
    requires forall s, rw :: s in reachable && s != b && rw in LinesOf(g, s) && rw in g.routes && s in g.routes[rw] ==>
      exists i :: 0 <= i < |groups| && s in groups[i].1
    requires forall k, s :: 0 <= k < |groups| && s in groups[k].1 ==> (Listed(est, s) <==> s in names)
    ensures forall s, rw ::
      (Reached(g, m, maxT, dist, s) && s != b && rw in LinesOf(g, s) && s in RouteOf(g, rw) && Listed(est, s)) ==> s in names
  {
    forall s, rw | Reached(g, m, maxT, dist, s) && s != b && rw in LinesOf(g, s) && s in RouteOf(g, rw) && Listed(est, s)
      ensures s in names
    {
      assert s in reachable;
      assert rw in g.routes && s in g.routes[rw];
      var k :| 0 <= k < |groups| && s in groups[k].1;
    }
  }

  /** `run_station_mode` without the file output: resolve and search, group
      the reachable stations by line, and assemble. There is no result
      exactly when the name does not resolve or nothing else is reachable.
      Otherwise every entry is a reachable station with its estimate from
      the base, at most 90 minutes, and every reachable station other than
      the base that is on one of its lines and has such an estimate gets
      an entry. */
  method RunStationMode(g: Graph, input: Name, maxT: int, close: FuzzyFn, dist: DistFn) returns (r: Option<Report>)
    requires WellFormed(g) && FuzzyOracle(close)
    ensures var m := Resolve(g, input, close);
      r.None? <==> m.None? || forall s :: !Reached(g, m.value, maxT, dist, s)
    ensures r.Some? ==> r.value.total == |r.value.stations| && r.value.matched == Resolve(g, input, close)
    ensures r.Some? ==> var m := Resolve(g, input, close).value;
      forall e :: e in r.value.stations ==>
        Reached(g, m, maxT, dist, e.name) && GoodEntry(g, TimesFrom(g, PickBase(Some(m), input), dist), e)
    ensures r.Some? ==> var m := Resolve(g, input, close).value; var b := PickBase(Some(m), input);
      forall s, rw ::
        (Reached(g, m, maxT, dist, s) && s != b && rw in LinesOf(g, s) && s in RouteOf(g, rw) && Listed(TimesFrom(g, b, dist), s))
        ==> s in EntryNames(r.value.stations)
  {
    var reachable, matched := Search(g, input, maxT, close, dist);
    var base := PickBase(matched, input);
    var groups := MergedGroups(g, reachable, RelevantOrder(g, reachable), base);
    NoGroups(reachable, groups);
    r := Assemble(g, input, maxT, reachable, groups, matched, dist);
    if matched.Some? {
      NothingReached(g, matched.value, maxT, dist, reachable);
    }
    if r.Some? {
      var est := TimesFrom(g, base, dist);
      EntriesReached(g, matched.value, maxT, dist, est, reachable, groups, r.value.stations);
      ReachedListed(g, matched.value, base, maxT, dist, est, reachable, groups, EntryNames(r.value.stations));
    }
  }
}
