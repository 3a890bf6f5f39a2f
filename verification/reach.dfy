/** `find_reachable_stations` (transport_api.py:302-386): a breadth-first
    search over (station, line) pairs, counting transfers, with a FIFO queue
    and a set of processed pairs; a distance guard keeps far stations out. */
module Reach {
  import opened Seqs
  import opened Sorting
  import opened Geo
  import opened RailGraph
  import opened Matching

  const MaxDistanceKm: real := 80.0

  /** A queue entry: standing at a station on a line, after some transfers. */
  datatype Entry = Entry(station: Name, line: Name, transfers: int)

  /** The distance guard: both the origin and the station have coordinates
      and the station is more than 80 km away. */
  predicate TooFar(g: Graph, base: Name, s: Name, dist: DistFn) {
    base in g.coords && s in g.coords && dist(g.coords[base], g.coords[s]) > MaxDistanceKm
  }

  /** Every (station, line) pair the graph lists; the search only ever
      queues such pairs, so it can process each at most once. */
  ghost function Pairs(g: Graph): set<(Name, Name)> {
    set s, rw | s in g.lines.Keys && rw in g.lines[s] :: (s, rw)
  }

  /** s lies on one of the origin's own lines. */
  ghost predicate OnLineOf(g: Graph, base: Name, s: Name) {
    exists rw :: rw in LinesOf(g, base) && s in RouteOf(g, rw)
  }

  /** `station_railway_map[s].add(rw)` on a map of duplicate-free lists. */
  function AddTo(m: map<Name, seq<Name>>, s: Name, rw: Name): (r: map<Name, seq<Name>>)
    ensures r.Keys == m.Keys + {s}
    ensures forall x :: x in r && x != s ==> r[x] == m[x]
    ensures forall l :: l in r[s] <==> l == rw || (s in m && l in m[s])
    ensures (s in m ==> Distinct(m[s])) ==> Distinct(r[s])
  {
    if s !in m then m[s := [rw]]
    else if rw in m[s] then m
    else m[s := m[s] + [rw]]
  }

  /** A transfer out of a walked line: station st of that line, not too far
      from the origin, and another line rw through st. */
  ghost predicate Transfer(g: Graph, base: Name, dist: DistFn, line: Name, st: Name, rw: Name) {
    st in RouteOf(g, line) && !TooFar(g, base, st, dist) && rw in LinesOf(g, st) && rw != line
  }

  /** The entries the search can reach: the origin on each of its own lines
      at zero transfers, and a transfer out of a reachable entry's line at
      one transfer more, never beyond the bound `max_transfer`. */
  ghost predicate Derivable(g: Graph, base: Name, maxT: int, dist: DistFn, e: Entry)
    decreases e.transfers, 1
  {
    && 0 <= e.transfers <= maxT
    && if e.transfers == 0 then e.station == base && e.line in LinesOf(g, base)
       else TransferFrom(g, base, maxT, dist, e.transfers - 1, e.station, e.line)
  }

  /** Some reachable entry with k transfers has a line that offers the
      transfer at station st to line rw. */
  ghost predicate TransferFrom(g: Graph, base: Name, maxT: int, dist: DistFn, k: int, st: Name, rw: Name)
    decreases k + 1, 0
  {
    0 <= k && exists x: Name, l: Name :: Derivable(g, base, maxT, dist, Entry(x, l, k)) && Transfer(g, base, dist, l, st, rw)
  }

  /** Station s is reached with k transfers: it lies, not too far, on the
      line of a reachable entry with k transfers. */
  ghost predicate ReachedAt(g: Graph, base: Name, maxT: int, dist: DistFn, s: Name, k: int) {
    exists x: Name, l: Name :: Derivable(g, base, maxT, dist, Entry(x, l, k)) && s in RouteOf(g, l) && !TooFar(g, base, s, dist)
  }

  /** Line rw is walked from some reachable entry. */
  ghost predicate LineReached(g: Graph, base: Name, maxT: int, dist: DistFn, rw: Name) {
    exists x: Name, k: int :: Derivable(g, base, maxT, dist, Entry(x, rw, k))
  }

  /** `visited` holds the origin and exactly the stations reached within
      the bound, each other station with the least count that reaches it. */
  ghost predicate LeastCounts(g: Graph, base: Name, maxT: int, dist: DistFn, visited: map<Name, int>) {
    && (forall s :: s in visited && s != base ==> ReachedAt(g, base, maxT, dist, s, visited[s]))
    && (forall s, k :: ReachedAt(g, base, maxT, dist, s, k) ==> s in visited && visited[s] <= k)
  }

  /** Every walked line is listed for each of its stations that is not too
      far from the origin. */
  ghost predicate WalkedLinesListed(g: Graph, base: Name, maxT: int, dist: DistFn, lineMap: map<Name, seq<Name>>) {
    forall s, rw :: LineReached(g, base, maxT, dist, rw) && s in RouteOf(g, rw) && !TooFar(g, base, s, dist) ==>
      s in lineMap && rw in lineMap[s]
  }

  /** A transfer out of a reachable entry is reachable at one more transfer. */
  lemma DerivableNext(g: Graph, base: Name, maxT: int, dist: DistFn, e: Entry, st: Name, rw: Name)
    requires Derivable(g, base, maxT, dist, e) && Transfer(g, base, dist, e.line, st, rw) && e.transfers + 1 <= maxT
    ensures Derivable(g, base, maxT, dist, Entry(st, rw, e.transfers + 1))
  {
    assert Entry(e.station, e.line, e.transfers) == e;
  }

  /** The lines of a list of entries. */
  function LinesIn(es: seq<Entry>): (r: seq<Name>)
    ensures |r| == |es| && forall i :: 0 <= i < |es| ==> r[i] == es[i].line
  {
    seq(|es|, i requires 0 <= i < |es| => es[i].line)
  }

  /** The entries queued after visiting station st from line cur with t
      transfers (transport_api.py:372-376): every other line of st whose
      pair is not processed yet, at t + 1 transfers, in line order. */
  function Successors(g: Graph, st: Name, cur: Name, t: int, processed: set<(Name, Name)>): (r: seq<Entry>)
    ensures forall i :: 0 <= i < |r| ==> r[i].station == st && r[i].transfers == t + 1
    ensures forall i :: 0 <= i < |r| ==> r[i].line in LinesOf(g, st) && r[i].line != cur && (st, r[i].line) !in processed
    ensures forall rw :: rw in LinesOf(g, st) && rw != cur && (st, rw) !in processed ==> Entry(st, rw, t + 1) in r
    ensures IsSubseq(LinesIn(r), LinesOf(g, st))
    ensures Distinct(LinesOf(g, st)) ==> Distinct(r)
  {
    var rws := Filter(LinesOf(g, st), (rw: Name) => rw != cur && (st, rw) !in processed);
    var r := EntriesAt(st, rws, t + 1);
    SuccessorsCover(g, st, cur, t + 1, processed, rws, r);
    SuccessorsOrder(g, st, cur, processed, rws, r);
    r
  }

  /** Station st on each of the lines rws, with k transfers. */
  function EntriesAt(st: Name, rws: seq<Name>, k: int): (r: seq<Entry>)
    ensures |r| == |rws| && forall i :: 0 <= i < |rws| ==> r[i] == Entry(st, rws[i], k)
  {
    seq(|rws|, i requires 0 <= i < |rws| => Entry(st, rws[i], k))
  }

  /** The successor entries are exactly the other unprocessed lines of st. */
  lemma SuccessorsCover(g: Graph, st: Name, cur: Name, k: int, processed: set<(Name, Name)>, rws: seq<Name>, r: seq<Entry>)
    requires rws == Filter(LinesOf(g, st), (rw: Name) => rw != cur && (st, rw) !in processed)
    requires r == EntriesAt(st, rws, k)
    ensures forall i :: 0 <= i < |r| ==> r[i].station == st && r[i].transfers == k
    ensures forall i :: 0 <= i < |r| ==> r[i].line in LinesOf(g, st) && r[i].line != cur && (st, r[i].line) !in processed
    ensures forall rw :: rw in LinesOf(g, st) && rw != cur && (st, rw) !in processed ==> Entry(st, rw, k) in r
  {
    assert forall i :: 0 <= i < |rws| ==> rws[i] in rws;
    forall rw | rw in LinesOf(g, st) && rw != cur && (st, rw) !in processed ensures Entry(st, rw, k) in r {
      var i :| 0 <= i < |rws| && rws[i] == rw;
      assert r[i] == Entry(st, rw, k);
    }
  }

  /** The successor entries follow the line order of st, once each. */
  lemma SuccessorsOrder(g: Graph, st: Name, cur: Name, processed: set<(Name, Name)>, rws: seq<Name>, r: seq<Entry>)
    requires rws == Filter(LinesOf(g, st), (rw: Name) => rw != cur && (st, rw) !in processed)
    requires |r| == |rws| && forall i :: 0 <= i < |rws| ==> r[i].line == rws[i]
    ensures IsSubseq(LinesIn(r), LinesOf(g, st))
    ensures Distinct(LinesOf(g, st)) ==> Distinct(r)
  {
    var p := (rw: Name) => rw != cur && (st, rw) !in processed;
    assert LinesIn(r) == rws;
    FilterIsSubseq(LinesOf(g, st), p);
    if Distinct(LinesOf(g, st)) {
      FilterDistinct(LinesOf(g, st), p);
    }
  }

  /** An expanded entry accounts for the transfer count t recorded for s. */
  ghost predicate Witnessed(g: Graph, expanded: seq<Entry>, s: Name, t: int) {
    exists i :: 0 <= i < |expanded| && expanded[i].transfers == t && s in RouteOf(g, expanded[i].line)
  }

  /** The visit order and the transfer counts: the origin first at zero,
      every other station within the bound, not too far, and accounted for
      by an expanded entry. */
  ghost predicate VisitedOK(g: Graph, base: Name, maxT: int, dist: DistFn, expanded: seq<Entry>,
                            order: seq<Name>, visited: map<Name, int>) {
    && Distinct(order) && |order| > 0 && order[0] == base && Elems(order) == visited.Keys
    && visited[base] == 0
    && (forall s :: s in visited && s != base ==> 0 <= visited[s] <= maxT)
    && (forall s :: s in visited && s != base ==> !TooFar(g, base, s, dist))
    && (forall s :: s in visited && s != base ==> Witnessed(g, expanded, s, visited[s]))
  }

  /** The station->lines result: visited stations only, duplicate-free,
      and each line either one of the origin's own or a walked line through
      the station, which is not too far. */
  ghost predicate LineMapOK(g: Graph, base: Name, maxT: int, dist: DistFn, visited: map<Name, int>, lineMap: map<Name, seq<Name>>) {
    && lineMap.Keys <= visited.Keys
    && (forall s :: s in lineMap ==> Distinct(lineMap[s]))
    && (forall s, rw :: s in lineMap && rw in lineMap[s] ==> LineOfStation(g, base, maxT, dist, s, rw))
  }

  /** Why rw may be listed for s: an origin line at the origin, or a walked
      line through s, which is not too far. */
  ghost predicate LineOfStation(g: Graph, base: Name, maxT: int, dist: DistFn, s: Name, rw: Name) {
    || (s == base && rw in LinesOf(g, base))
    || (s in RouteOf(g, rw) && !TooFar(g, base, s, dist) && LineReached(g, base, maxT, dist, rw))
  }

  /** What the search keeps true of its records. */
  ghost predicate Records(g: Graph, base: Name, maxT: int, dist: DistFn, expanded: seq<Entry>,
                          order: seq<Name>, visited: map<Name, int>, lineMap: map<Name, seq<Name>>) {
    VisitedOK(g, base, maxT, dist, expanded, order, visited) && LineMapOK(g, base, maxT, dist, visited, lineMap)
  }

  /** Entries expanded so far are reachable entries. */
  ghost predicate GoodEntries(g: Graph, base: Name, maxT: int, dist: DistFn, es: seq<Entry>) {
    forall i :: 0 <= i < |es| ==> Derivable(g, base, maxT, dist, es[i])
  }

  /** Entries waiting in the queue: graph pairs that are reachable, except
      the origin's own entries when the bound is negative. */
  ghost predicate GoodQueue(g: Graph, base: Name, maxT: int, dist: DistFn, queue: seq<Entry>) {
    forall i :: 0 <= i < |queue| ==>
      && (queue[i].station, queue[i].line) in Pairs(g)
      && (Derivable(g, base, maxT, dist, queue[i]) || (maxT < 0 && queue[i].transfers == 0 && queue[i].station == base))
  }

  /** Transfer counts along the queue never fall and span at most one. */
  ghost predicate Levelled(queue: seq<Entry>) {
    && (forall i, j :: 0 <= i < j < |queue| ==> queue[i].transfers <= queue[j].transfers)
    && (forall i :: 0 <= i < |queue| ==> queue[i].transfers <= queue[0].transfers + 1)
  }

  /** No expanded entry has more transfers than the head of the queue. */
  ghost predicate Behind(expanded: seq<Entry>, queue: seq<Entry>) {
    |queue| > 0 ==> forall i :: 0 <= i < |expanded| ==> expanded[i].transfers <= queue[0].transfers
  }

  /** The pair (s, rw) has been expanded. */
  ghost predicate ExpandedPair(expanded: seq<Entry>, s: Name, rw: Name) {
    exists i :: 0 <= i < |expanded| && expanded[i].station == s && expanded[i].line == rw
  }

  /** The pair (s, rw) has been expanded with at most k transfers. */
  ghost predicate DoneBy(expanded: seq<Entry>, s: Name, rw: Name, k: int) {
    exists i :: 0 <= i < |expanded| && expanded[i].station == s && expanded[i].line == rw && expanded[i].transfers <= k
  }

  /** The pair (s, rw) is expanded with at most k transfers or waits in the
      queue with k. */
  ghost predicate Pending(expanded: seq<Entry>, queue: seq<Entry>, s: Name, rw: Name, k: int) {
    DoneBy(expanded, s, rw, k) || Entry(s, rw, k) in queue
  }

  /** Nothing reachable is lost: the origin's lines are pending at zero, and
      every transfer out of an expanded entry is pending at one more. */
  ghost predicate Closed(g: Graph, base: Name, maxT: int, dist: DistFn, expanded: seq<Entry>, queue: seq<Entry>) {
    && (forall rw :: rw in LinesOf(g, base) ==> Pending(expanded, queue, base, rw, 0))
    && (forall i, st, rw :: 0 <= i < |expanded| && expanded[i].transfers + 1 <= maxT && Transfer(g, base, dist, expanded[i].line, st, rw) ==>
          Pending(expanded, queue, st, rw, expanded[i].transfers + 1))
  }

  /** A map whose line lists only grow. */
  ghost predicate LinesKept(m0: map<Name, seq<Name>>, m: map<Name, seq<Name>>) {
    forall s, rw :: s in m0 && rw in m0[s] ==> s in m && rw in m[s]
  }

  /** Visited stations only gain ground: none is lost, none gets a larger
      transfer count. */
  ghost predicate Improved(v0: map<Name, int>, v: map<Name, int>) {
    forall s :: s in v0 ==> s in v && v[s] <= v0[s]
  }

  /** Recording station st, reached on the last expanded entry's line with
      e's transfer count, keeps the visit records consistent. */
  lemma RecordVisit(g: Graph, base: Name, maxT: int, dist: DistFn, expanded: seq<Entry>,
                    order: seq<Name>, visited: map<Name, int>,
                    st: Name, t: int, order1: seq<Name>, visited1: map<Name, int>)
    requires |expanded| > 0 && expanded[|expanded| - 1].transfers == t && 0 <= t <= maxT
    requires st in RouteOf(g, expanded[|expanded| - 1].line) && !TooFar(g, base, st, dist)
    requires VisitedOK(g, base, maxT, dist, expanded, order, visited)
    requires st !in visited ==> order1 == order + [st] && visited1 == visited[st := t]
    requires st in visited && visited[st] > t ==> order1 == order && visited1 == visited[st := t]
    requires st in visited && visited[st] <= t ==> order1 == order && visited1 == visited
    ensures VisitedOK(g, base, maxT, dist, expanded, order1, visited1)
    ensures st in visited1 && visited1[st] <= t
    ensures Improved(visited, visited1)
  {
    assert Witnessed(g, expanded, st, t) by {
      assert expanded[|expanded| - 1].transfers == t;
    }
    if st !in visited {
      assert st != base;
      assert Distinct(order1) by {
        forall i, j | 0 <= i < j < |order1| ensures order1[i] != order1[j] {
          if j == |order| {
            assert order1[i] == order[i] && order[i] in visited;
          }
        }
      }
      assert Elems(order1) == visited1.Keys;
    }
  }

  /** Adding line rw to station st, which lies on rw, is not too far, is
      visited, and whose line is walked, keeps the station->lines records
      consistent. */
  lemma RecordLine(g: Graph, base: Name, maxT: int, dist: DistFn, visited: map<Name, int>, lineMap: map<Name, seq<Name>>,
                   visited1: map<Name, int>, st: Name, rw: Name)
    requires LineMapOK(g, base, maxT, dist, visited, lineMap)
    requires visited.Keys <= visited1.Keys && st in visited1 && st in RouteOf(g, rw) && !TooFar(g, base, st, dist)
    requires LineReached(g, base, maxT, dist, rw)
    ensures LineMapOK(g, base, maxT, dist, visited1, AddTo(lineMap, st, rw))
    ensures LinesKept(lineMap, AddTo(lineMap, st, rw))
  {
    var m := AddTo(lineMap, st, rw);
    assert m.Keys <= visited1.Keys;
    forall s | s in m ensures Distinct(m[s]) {
      if s != st {
        assert m[s] == lineMap[s];
      }
    }
    forall s, l | s in m && l in m[s] ensures LineOfStation(g, base, maxT, dist, s, l) {
      if s != st {
        assert m[s] == lineMap[s];
        assert s in lineMap && l in lineMap[s];
      } else if l != rw {
        assert st in lineMap && l in lineMap[st];
      }
    }
    forall s, l | s in lineMap && l in lineMap[s] ensures s in m && l in m[s] {
      if s != st {
        assert m[s] == lineMap[s];
      }
    }
  }

  /** queue extends queue0 by entries at t transfers whose pairs are not
      processed. */
  ghost predicate QueueGrows(queue0: seq<Entry>, queue: seq<Entry>, processed: set<(Name, Name)>, t: int) {
    && |queue| >= |queue0| && queue[..|queue0|] == queue0
    && (forall i :: |queue0| <= i < |queue| ==> (queue[i].station, queue[i].line) !in processed && queue[i].transfers == t)
  }

  lemma QueueGrowsTrans(q0: seq<Entry>, q1: seq<Entry>, q2: seq<Entry>, processed: set<(Name, Name)>, t: int)
    requires QueueGrows(q0, q1, processed, t) && QueueGrows(q1, q2, processed, t)
    ensures QueueGrows(q0, q2, processed, t)
  {
    assert q2[..|q1|][..|q0|] == q2[..|q0|];
    forall i | |q0| <= i < |q2| ensures (q2[i].station, q2[i].line) !in processed && q2[i].transfers == t {
      if i < |q1| {
        assert q2[i] == q2[..|q1|][i];
      }
    }
  }

  /** A queue that extends another keeps all its entries. */
  lemma ExtendKeeps(q0: seq<Entry>, q1: seq<Entry>)
    requires |q1| >= |q0| && q1[..|q0|] == q0
    ensures forall x :: x in q0 ==> x in q1
  {
    forall x | x in q0 ensures x in q1 {
      var i :| 0 <= i < |q0| && q0[i] == x;
      assert q1[i] == q1[..|q0|][i];
    }
  }

  /** Every station of prefix that is not too far is visited with at most t
      transfers and lists line rw. */
  ghost predicate Covered(g: Graph, base: Name, dist: DistFn, t: int, rw: Name, prefix: seq<Name>,
                          visited: map<Name, int>, lineMap: map<Name, seq<Name>>) {
    forall s :: s in prefix && !TooFar(g, base, s, dist) ==>
      s in visited && visited[s] <= t && s in lineMap && rw in lineMap[s]
  }

  /** Every transfer out of a station of prefix, from e's line to a line
      whose pair is not processed, is queued at one more transfer, while
      one more is allowed. */
  ghost predicate Queued(g: Graph, base: Name, maxT: int, dist: DistFn, e: Entry, prefix: seq<Name>,
                         processed: set<(Name, Name)>, queue: seq<Entry>) {
    e.transfers + 1 <= maxT ==>
      forall st, rw :: st in prefix && !TooFar(g, base, st, dist) && rw in LinesOf(g, st) && rw != e.line && (st, rw) !in processed ==>
        Entry(st, rw, e.transfers + 1) in queue
  }

  /** Coverage survives progress, and extends by one covered station. */
  lemma CoveredStep(g: Graph, base: Name, dist: DistFn, t: int, rw: Name, prefix: seq<Name>, st: Name,
                    visited: map<Name, int>, lineMap: map<Name, seq<Name>>,
                    visited1: map<Name, int>, lineMap1: map<Name, seq<Name>>)
    requires Covered(g, base, dist, t, rw, prefix, visited, lineMap)
    requires Improved(visited, visited1) && LinesKept(lineMap, lineMap1)
    requires !TooFar(g, base, st, dist) ==> st in visited1 && visited1[st] <= t && st in lineMap1 && rw in lineMap1[st]
    ensures Covered(g, base, dist, t, rw, prefix + [st], visited1, lineMap1)
  {
  }

  /** Queued entries stay queued as the queue grows, and the station just
      visited adds its own. */
  lemma QueuedStep(g: Graph, base: Name, maxT: int, dist: DistFn, e: Entry, prefix: seq<Name>, st: Name,
                   processed: set<(Name, Name)>, queue: seq<Entry>, queue1: seq<Entry>)
    requires Queued(g, base, maxT, dist, e, prefix, processed, queue)
    requires |queue1| >= |queue| && queue1[..|queue|] == queue
    requires e.transfers + 1 <= maxT && !TooFar(g, base, st, dist) ==>
      forall rw :: rw in LinesOf(g, st) && rw != e.line && (st, rw) !in processed ==> Entry(st, rw, e.transfers + 1) in queue1
    ensures Queued(g, base, maxT, dist, e, prefix + [st], processed, queue1)
  {
    ExtendKeeps(queue, queue1);
  }

  /** Visiting one station of the walked line (transport_api.py:360-376):
      the station is recorded with the smaller count and gets the line, and
      while one more transfer is allowed its other unprocessed lines are
      queued at one transfer more. */
  method VisitStation(g: Graph, base: Name, maxT: int, dist: DistFn, processed: set<(Name, Name)>,
                      e: Entry, ghost expanded: seq<Entry>, st: Name,
                      order0: seq<Name>, visited0: map<Name, int>, lineMap0: map<Name, seq<Name>>, queue0: seq<Entry>)
    returns (order: seq<Name>, visited: map<Name, int>, lineMap: map<Name, seq<Name>>, queue: seq<Entry>)
    requires WellFormed(g)
    requires |expanded| > 0 && expanded[|expanded| - 1] == e && Derivable(g, base, maxT, dist, e)
    requires st in RouteOf(g, e.line) && !TooFar(g, base, st, dist)
    requires Records(g, base, maxT, dist, expanded, order0, visited0, lineMap0)
    requires GoodQueue(g, base, maxT, dist, queue0)
    ensures Records(g, base, maxT, dist, expanded, order, visited, lineMap)
    ensures GoodQueue(g, base, maxT, dist, queue)
    ensures QueueGrows(queue0, queue, processed, e.transfers + 1)
    ensures st in visited && visited[st] <= e.transfers
    ensures st in lineMap && e.line in lineMap[st]
    ensures e.transfers + 1 <= maxT ==>
      forall rw :: rw in LinesOf(g, st) && rw != e.line && (st, rw) !in processed ==> Entry(st, rw, e.transfers + 1) in queue
    ensures Improved(visited0, visited) && LinesKept(lineMap0, lineMap)
  {
    order, visited := order0, visited0;
    if st !in visited {
      order := order + [st];
      visited := visited[st := e.transfers];
    } else if visited[st] > e.transfers {
      visited := visited[st := e.transfers];
    }
    RecordVisit(g, base, maxT, dist, expanded, order0, visited0, st, e.transfers, order, visited);
    EntryLineReached(g, base, maxT, dist, e);
    RecordLine(g, base, maxT, dist, visited0, lineMap0, visited, st, e.line);
    lineMap := AddTo(lineMap0, st, e.line);
    var succ := if e.transfers + 1 <= maxT then Successors(g, st, e.line, e.transfers, processed) else [];
    QueueAppend(g, base, maxT, dist, queue0, succ, processed, e, st);
    queue := queue0 + succ;
    SuccessorsQueued(g, maxT, st, e, processed, queue0, queue);
  }

  /** Appending a station's successors queues each of its other unprocessed
      lines while one more transfer is allowed. */
  lemma SuccessorsQueued(g: Graph, maxT: int, st: Name, e: Entry, processed: set<(Name, Name)>, queue0: seq<Entry>, queue: seq<Entry>)
    requires queue == queue0 + if e.transfers + 1 <= maxT then Successors(g, st, e.line, e.transfers, processed) else []
    ensures e.transfers + 1 <= maxT ==>
      forall rw :: rw in LinesOf(g, st) && rw != e.line && (st, rw) !in processed ==> Entry(st, rw, e.transfers + 1) in queue
  {
    if e.transfers + 1 <= maxT {
      var succ := Successors(g, st, e.line, e.transfers, processed);
      forall rw | rw in LinesOf(g, st) && rw != e.line && (st, rw) !in processed
        ensures Entry(st, rw, e.transfers + 1) in queue
      {
        var i :| 0 <= i < |succ| && succ[i] == Entry(st, rw, e.transfers + 1);
        assert queue[|queue0| + i] == succ[i];
      }
    }
  }

  /** Queueing a station's successors keeps the queue good and only adds
      unprocessed entries at one more transfer. */
  lemma QueueAppend(g: Graph, base: Name, maxT: int, dist: DistFn, queue0: seq<Entry>, succ: seq<Entry>,
                    processed: set<(Name, Name)>, e: Entry, st: Name)
    requires WellFormed(g) && GoodQueue(g, base, maxT, dist, queue0) && Derivable(g, base, maxT, dist, e)
    requires st in RouteOf(g, e.line) && !TooFar(g, base, st, dist)
    requires succ == if e.transfers + 1 <= maxT then Successors(g, st, e.line, e.transfers, processed) else []
    ensures GoodQueue(g, base, maxT, dist, queue0 + succ)
    ensures QueueGrows(queue0, queue0 + succ, processed, e.transfers + 1)
  {
    assert (queue0 + succ)[..|queue0|] == queue0;
    SuccessorsGood(g, base, maxT, dist, succ, processed, e, st);
    GoodQueueConcat(g, base, maxT, dist, queue0, succ);
  }

  /** The queued successors are graph pairs one transfer out of e. */
  lemma SuccessorsGood(g: Graph, base: Name, maxT: int, dist: DistFn, succ: seq<Entry>,
                       processed: set<(Name, Name)>, e: Entry, st: Name)
    requires WellFormed(g) && Derivable(g, base, maxT, dist, e)
    requires st in RouteOf(g, e.line) && !TooFar(g, base, st, dist)
    requires succ == if e.transfers + 1 <= maxT then Successors(g, st, e.line, e.transfers, processed) else []
    ensures GoodQueue(g, base, maxT, dist, succ)
  {
    forall i | 0 <= i < |succ|
      ensures (succ[i].station, succ[i].line) in Pairs(g) && Derivable(g, base, maxT, dist, succ[i])
    {
      assert succ[i].line in g.lines[st];
      DerivableNext(g, base, maxT, dist, e, st, succ[i].line);
      assert succ[i] == Entry(st, succ[i].line, e.transfers + 1);
    }
  }

  /** Two good queues make a good queue. */
  lemma GoodQueueConcat(g: Graph, base: Name, maxT: int, dist: DistFn, q0: seq<Entry>, q1: seq<Entry>)
    requires GoodQueue(g, base, maxT, dist, q0) && GoodQueue(g, base, maxT, dist, q1)
    ensures GoodQueue(g, base, maxT, dist, q0 + q1)
  {
    var q := q0 + q1;
    forall i | 0 <= i < |q|
      ensures (q[i].station, q[i].line) in Pairs(g)
      ensures Derivable(g, base, maxT, dist, q[i]) || (maxT < 0 && q[i].transfers == 0 && q[i].station == base)
    {
      if i >= |q0| {
        assert q[i] == q1[i - |q0|];
      } else {
        assert q[i] == q0[i];
      }
    }
  }

  /** The line of a reachable entry is walked. */
  lemma EntryLineReached(g: Graph, base: Name, maxT: int, dist: DistFn, e: Entry)
    requires Derivable(g, base, maxT, dist, e)
    ensures LineReached(g, base, maxT, dist, e.line)
  {
    assert Derivable(g, base, maxT, dist, Entry(e.station, e.line, e.transfers));
  }

  /** The walk along one line from an expanded entry (transport_api.py:359-376):
      each station not too far is recorded with the smaller transfer count
      and gets the line in its line set, and, while one more transfer is
      allowed, every transfer out of the line to a pair not yet processed is
      queued at one transfer more. */
  method WalkLine(g: Graph, base: Name, maxT: int, dist: DistFn, processed: set<(Name, Name)>,
                  e: Entry, ghost expanded: seq<Entry>,
                  order0: seq<Name>, visited0: map<Name, int>, lineMap0: map<Name, seq<Name>>, queue0: seq<Entry>)
    returns (order: seq<Name>, visited: map<Name, int>, lineMap: map<Name, seq<Name>>, queue: seq<Entry>)
    requires WellFormed(g)
    requires |expanded| > 0 && expanded[|expanded| - 1] == e && Derivable(g, base, maxT, dist, e)
    requires Records(g, base, maxT, dist, expanded, order0, visited0, lineMap0)
    requires GoodQueue(g, base, maxT, dist, queue0)
    ensures Records(g, base, maxT, dist, expanded, order, visited, lineMap)
    ensures GoodQueue(g, base, maxT, dist, queue)
    ensures QueueGrows(queue0, queue, processed, e.transfers + 1)
    ensures Covered(g, base, dist, e.transfers, e.line, RouteOf(g, e.line), visited, lineMap)
    ensures e.transfers + 1 <= maxT ==>
      forall st, rw :: Transfer(g, base, dist, e.line, st, rw) && (st, rw) !in processed ==> Entry(st, rw, e.transfers + 1) in queue
    ensures Improved(visited0, visited) && LinesKept(lineMap0, lineMap)
  {
    order, visited, lineMap, queue := order0, visited0, lineMap0, queue0;
    var stations := RouteOf(g, e.line);
    var j := 0;
    while j < |stations|
      invariant 0 <= j <= |stations|
      invariant Records(g, base, maxT, dist, expanded, order, visited, lineMap)
      invariant GoodQueue(g, base, maxT, dist, queue)
      invariant QueueGrows(queue0, queue, processed, e.transfers + 1)
      invariant Covered(g, base, dist, e.transfers, e.line, stations[..j], visited, lineMap)
      invariant Queued(g, base, maxT, dist, e, stations[..j], processed, queue)
      invariant Improved(visited0, visited) && LinesKept(lineMap0, lineMap)
    {
      order, visited, lineMap, queue := WalkStep(g, base, maxT, dist, processed, e, expanded, stations, j,
                                                 order0, visited0, lineMap0, queue0, order, visited, lineMap, queue);
      j := j + 1;
    }
    assert stations[..j] == stations;
  }

  /** One station of the walk: visit it unless it is too far, keeping what
      the walk promises for the stations before it and extending it to this
      one. */
  method WalkStep(g: Graph, base: Name, maxT: int, dist: DistFn, processed: set<(Name, Name)>,
                  e: Entry, ghost expanded: seq<Entry>, stations: seq<Name>, j: nat,
                  ghost order0: seq<Name>, ghost visited0: map<Name, int>, ghost lineMap0: map<Name, seq<Name>>, ghost queue0: seq<Entry>,
                  order: seq<Name>, visited: map<Name, int>, lineMap: map<Name, seq<Name>>, queue: seq<Entry>)
    returns (order1: seq<Name>, visited1: map<Name, int>, lineMap1: map<Name, seq<Name>>, queue1: seq<Entry>)
    requires WellFormed(g) && stations == RouteOf(g, e.line) && j < |stations|
    requires |expanded| > 0 && expanded[|expanded| - 1] == e && Derivable(g, base, maxT, dist, e)
    requires Records(g, base, maxT, dist, expanded, order, visited, lineMap)
    requires GoodQueue(g, base, maxT, dist, queue)
    requires QueueGrows(queue0, queue, processed, e.transfers + 1)
    requires Covered(g, base, dist, e.transfers, e.line, stations[..j], visited, lineMap)
    requires Queued(g, base, maxT, dist, e, stations[..j], processed, queue)
    requires Improved(visited0, visited) && LinesKept(lineMap0, lineMap)
    ensures Records(g, base, maxT, dist, expanded, order1, visited1, lineMap1)
    ensures GoodQueue(g, base, maxT, dist, queue1)
    ensures QueueGrows(queue0, queue1, processed, e.transfers + 1)
    ensures Covered(g, base, dist, e.transfers, e.line, stations[..j + 1], visited1, lineMap1)
    ensures Queued(g, base, maxT, dist, e, stations[..j + 1], processed, queue1)
    ensures Improved(visited0, visited1) && LinesKept(lineMap0, lineMap1)
  {
    var st := stations[j];
    assert stations[..j + 1] == stations[..j] + [st];
    if !TooFar(g, base, st, dist) {
      order1, visited1, lineMap1, queue1 := VisitStation(g, base, maxT, dist, processed, e, expanded, st, order, visited, lineMap, queue);
      QueueGrowsTrans(queue0, queue, queue1, processed, e.transfers + 1);
      CoveredStep(g, base, dist, e.transfers, e.line, stations[..j], st, visited, lineMap, visited1, lineMap1);
      QueuedStep(g, base, maxT, dist, e, stations[..j], st, processed, queue, queue1);
      KeptTrans(visited0, visited, visited1, lineMap0, lineMap, lineMap1);
    } else {
      order1, visited1, lineMap1, queue1 := order, visited, lineMap, queue;
      CoveredSkip(g, base, dist, e.transfers, e.line, stations[..j], st, visited, lineMap);
      QueuedStep(g, base, maxT, dist, e, stations[..j], st, processed, queue, queue1);
    }
  }

  /** Progress composes. */
  lemma KeptTrans(v0: map<Name, int>, v1: map<Name, int>, v2: map<Name, int>,
                  m0: map<Name, seq<Name>>, m1: map<Name, seq<Name>>, m2: map<Name, seq<Name>>)
    requires Improved(v0, v1) && Improved(v1, v2) && LinesKept(m0, m1) && LinesKept(m1, m2)
    ensures Improved(v0, v2) && LinesKept(m0, m2)
  {
  }

  /** A station too far away needs no coverage. */
  lemma CoveredSkip(g: Graph, base: Name, dist: DistFn, t: int, rw: Name, prefix: seq<Name>, st: Name,
                    visited: map<Name, int>, lineMap: map<Name, seq<Name>>)
    requires Covered(g, base, dist, t, rw, prefix, visited, lineMap) && TooFar(g, base, st, dist)
    ensures Covered(g, base, dist, t, rw, prefix + [st], visited, lineMap)
  {
  }

  /** No (station, line) pair is expanded twice. */
  ghost predicate ExpandedOnce(expanded: seq<Entry>) {
    forall i, j :: 0 <= i < j < |expanded| ==>
      (expanded[i].station, expanded[i].line) != (expanded[j].station, expanded[j].line)
  }

  /** Every expanded line is covered with its entry's transfer count. */
  ghost predicate AllCovered(g: Graph, base: Name, dist: DistFn, expanded: seq<Entry>,
                             visited: map<Name, int>, lineMap: map<Name, seq<Name>>) {
    forall i :: 0 <= i < |expanded| ==>
      Covered(g, base, dist, expanded[i].transfers, expanded[i].line, RouteOf(g, expanded[i].line), visited, lineMap)
  }

  /** What holds of the search state at the top of each pass. */
  ghost predicate SearchState(g: Graph, base: Name, maxT: int, dist: DistFn, queue: seq<Entry>, processed: set<(Name, Name)>,
                              expanded: seq<Entry>, order: seq<Name>, visited: map<Name, int>, lineMap: map<Name, seq<Name>>) {
    && processed <= Pairs(g)
    && GoodQueue(g, base, maxT, dist, queue) && Levelled(queue) && Behind(expanded, queue)
    && Records(g, base, maxT, dist, expanded, order, visited, lineMap)
    && GoodEntries(g, base, maxT, dist, expanded) && ExpandedOnce(expanded)
    && (forall i :: 0 <= i < |expanded| ==> (expanded[i].station, expanded[i].line) in processed)
    && (maxT >= 0 ==> forall p :: p in processed ==> ExpandedPair(expanded, p.0, p.1))
    && AllCovered(g, base, dist, expanded, visited, lineMap)
    && (maxT >= 0 ==> Closed(g, base, maxT, dist, expanded, queue))
    && (LinesOf(g, base) != [] ==> base in lineMap && (forall rw :: rw in LinesOf(g, base) ==> rw in lineMap[base]))
  }

  /** Appending the entry e to the expanded log keeps what the log
      promises. */
  lemma ExpandRecords(g: Graph, base: Name, maxT: int, dist: DistFn, e: Entry, processed: set<(Name, Name)>,
                      expanded: seq<Entry>, order: seq<Name>, visited: map<Name, int>, lineMap: map<Name, seq<Name>>)
    requires Records(g, base, maxT, dist, expanded, order, visited, lineMap)
    requires GoodEntries(g, base, maxT, dist, expanded) && ExpandedOnce(expanded)
    requires forall i :: 0 <= i < |expanded| ==> (expanded[i].station, expanded[i].line) in processed
    requires maxT >= 0 ==> forall p :: p in processed ==> ExpandedPair(expanded, p.0, p.1)
    requires (e.station, e.line) !in processed && Derivable(g, base, maxT, dist, e)
    ensures Records(g, base, maxT, dist, expanded + [e], order, visited, lineMap)
    ensures GoodEntries(g, base, maxT, dist, expanded + [e]) && ExpandedOnce(expanded + [e])
    ensures forall i :: 0 <= i < |expanded + [e]| ==>
      ((expanded + [e])[i].station, (expanded + [e])[i].line) in processed + {(e.station, e.line)}
    ensures maxT >= 0 ==> forall p :: p in processed + {(e.station, e.line)} ==> ExpandedPair(expanded + [e], p.0, p.1)
  {
    ExpandWitnessed(g, base, maxT, dist, e, expanded, order, visited);
    ExpandLog(g, base, maxT, dist, e, processed, expanded);
    if maxT >= 0 {
      ExpandPairs(e, processed, expanded);
    }
  }

  /** Every recorded count stays accounted for by a longer log. */
  lemma ExpandWitnessed(g: Graph, base: Name, maxT: int, dist: DistFn, e: Entry,
                        expanded: seq<Entry>, order: seq<Name>, visited: map<Name, int>)
    requires VisitedOK(g, base, maxT, dist, expanded, order, visited)
    ensures VisitedOK(g, base, maxT, dist, expanded + [e], order, visited)
  {
    var expanded1 := expanded + [e];
    forall s | s in visited && s != base ensures Witnessed(g, expanded1, s, visited[s]) {
      var i :| 0 <= i < |expanded| && expanded[i].transfers == visited[s] && s in RouteOf(g, expanded[i].line);
      assert expanded1[i] == expanded[i];
    }
  }

  /** The log stays reachable, duplicate-free and processed. */
  lemma ExpandLog(g: Graph, base: Name, maxT: int, dist: DistFn, e: Entry, processed: set<(Name, Name)>, expanded: seq<Entry>)
    requires GoodEntries(g, base, maxT, dist, expanded) && ExpandedOnce(expanded)
    requires forall i :: 0 <= i < |expanded| ==> (expanded[i].station, expanded[i].line) in processed
    requires (e.station, e.line) !in processed && Derivable(g, base, maxT, dist, e)
    ensures GoodEntries(g, base, maxT, dist, expanded + [e]) && ExpandedOnce(expanded + [e])
    ensures forall i :: 0 <= i < |expanded + [e]| ==>
      ((expanded + [e])[i].station, (expanded + [e])[i].line) in processed + {(e.station, e.line)}
  {
    var expanded1 := expanded + [e];
    assert forall i :: 0 <= i < |expanded| ==> expanded1[i] == expanded[i];
  }

  /** Every processed pair, e's included, is in the longer log. */
  lemma ExpandPairs(e: Entry, processed: set<(Name, Name)>, expanded: seq<Entry>)
    requires forall p :: p in processed ==> ExpandedPair(expanded, p.0, p.1)
    ensures forall p :: p in processed + {(e.station, e.line)} ==> ExpandedPair(expanded + [e], p.0, p.1)
  {
    var expanded1 := expanded + [e];
    forall p | p in processed + {(e.station, e.line)} ensures ExpandedPair(expanded1, p.0, p.1) {
      if p in processed {
        var i :| 0 <= i < |expanded| && expanded[i].station == p.0 && expanded[i].line == p.1;
        assert expanded1[i] == expanded[i];
      } else {
        assert expanded1[|expanded|] == e;
      }
    }
  }

  /** A pending pair stays pending when the head e is popped, as long as e
      itself ends up expanded with at most its count and the rest of the
      queue is kept. */
  lemma PendingKept(expanded: seq<Entry>, e: Entry, rest: seq<Entry>, expanded1: seq<Entry>, queue1: seq<Entry>,
                    s: Name, rw: Name, k: int)
    requires Pending(expanded, [e] + rest, s, rw, k)
    requires |expanded1| >= |expanded| && expanded1[..|expanded|] == expanded
    requires |queue1| >= |rest| && queue1[..|rest|] == rest
    requires DoneBy(expanded1, e.station, e.line, e.transfers)
    ensures Pending(expanded1, queue1, s, rw, k)
  {
    if DoneBy(expanded, s, rw, k) {
      var i :| 0 <= i < |expanded| && expanded[i].station == s && expanded[i].line == rw && expanded[i].transfers <= k;
      assert expanded1[i] == expanded1[..|expanded|][i];
    } else if Entry(s, rw, k) in rest {
      ExtendKeeps(rest, queue1);
    } else {
      assert Entry(s, rw, k) == e;
    }
  }

  /** Popping the head keeps every old promise of Closed. */
  lemma ClosedPop(g: Graph, base: Name, maxT: int, dist: DistFn, e: Entry, rest: seq<Entry>,
                  expanded: seq<Entry>, expanded1: seq<Entry>, queue1: seq<Entry>)
    requires Closed(g, base, maxT, dist, expanded, [e] + rest)
    requires |expanded1| >= |expanded| && expanded1[..|expanded|] == expanded
    requires |queue1| >= |rest| && queue1[..|rest|] == rest
    requires DoneBy(expanded1, e.station, e.line, e.transfers)
    ensures forall rw :: rw in LinesOf(g, base) ==> Pending(expanded1, queue1, base, rw, 0)
    ensures forall i, st, rw :: 0 <= i < |expanded| && expanded[i].transfers + 1 <= maxT && Transfer(g, base, dist, expanded[i].line, st, rw) ==>
              Pending(expanded1, queue1, st, rw, expanded[i].transfers + 1)
  {
    forall rw | rw in LinesOf(g, base) ensures Pending(expanded1, queue1, base, rw, 0) {
      PendingKept(expanded, e, rest, expanded1, queue1, base, rw, 0);
    }
    forall i, st, rw | 0 <= i < |expanded| && expanded[i].transfers + 1 <= maxT && Transfer(g, base, dist, expanded[i].line, st, rw)
      ensures Pending(expanded1, queue1, st, rw, expanded[i].transfers + 1)
    {
      PendingKept(expanded, e, rest, expanded1, queue1, st, rw, expanded[i].transfers + 1);
    }
  }

  /** An already processed head was expanded with at most its count. */
  lemma ProcessedDone(maxT: int, e: Entry, rest: seq<Entry>, processed: set<(Name, Name)>, expanded: seq<Entry>)
    requires maxT >= 0 && (e.station, e.line) in processed
    requires forall p :: p in processed ==> ExpandedPair(expanded, p.0, p.1)
    requires Behind(expanded, [e] + rest)
    ensures DoneBy(expanded, e.station, e.line, e.transfers)
  {
    var p := (e.station, e.line);
    assert ExpandedPair(expanded, p.0, p.1);
    var i :| 0 <= i < |expanded| && expanded[i].station == e.station && expanded[i].line == e.line;
    assert ([e] + rest)[0] == e;
  }

  /** The queue without its head keeps the queue's properties. */
  lemma DropHead(g: Graph, base: Name, maxT: int, dist: DistFn, e: Entry, rest: seq<Entry>, expanded: seq<Entry>)
    requires GoodQueue(g, base, maxT, dist, [e] + rest) && Levelled([e] + rest) && Behind(expanded, [e] + rest)
    ensures GoodQueue(g, base, maxT, dist, rest) && Levelled(rest) && Behind(expanded, rest)
    ensures (e.station, e.line) in Pairs(g)
    ensures Derivable(g, base, maxT, dist, e) || (maxT < 0 && e.transfers == 0 && e.station == base)
    ensures forall i :: 0 <= i < |rest| ==> e.transfers <= rest[i].transfers <= e.transfers + 1
  {
    var q := [e] + rest;
    assert q[0] == e;
    assert forall i :: 0 <= i < |rest| ==> rest[i] == q[i + 1];
  }

  /** Popping a head whose pair is already processed: the rest of the
      queue carries the state. */
  lemma PopProcessed(g: Graph, base: Name, maxT: int, dist: DistFn, e: Entry, rest: seq<Entry>, processed: set<(Name, Name)>,
                     expanded: seq<Entry>, order: seq<Name>, visited: map<Name, int>, lineMap: map<Name, seq<Name>>)
    requires SearchState(g, base, maxT, dist, [e] + rest, processed, expanded, order, visited, lineMap)
    requires (e.station, e.line) in processed
    ensures SearchState(g, base, maxT, dist, rest, processed, expanded, order, visited, lineMap)
  {
    DropHead(g, base, maxT, dist, e, rest, expanded);
    if maxT >= 0 {
      ProcessedDone(maxT, e, rest, processed, expanded);
      assert expanded[..|expanded|] == expanded && rest[..|rest|] == rest;
      ClosedPop(g, base, maxT, dist, e, rest, expanded, expanded, rest);
    }
  }

  /** Popping a head beyond the bound, which only the origin's entries
      under a negative bound can be: it is marked processed and dropped. */
  lemma PopBeyond(g: Graph, base: Name, maxT: int, dist: DistFn, e: Entry, rest: seq<Entry>, processed: set<(Name, Name)>,
                  expanded: seq<Entry>, order: seq<Name>, visited: map<Name, int>, lineMap: map<Name, seq<Name>>)
    requires SearchState(g, base, maxT, dist, [e] + rest, processed, expanded, order, visited, lineMap)
    requires (e.station, e.line) !in processed && e.transfers > maxT
    ensures SearchState(g, base, maxT, dist, rest, processed + {(e.station, e.line)}, expanded, order, visited, lineMap)
  {
    DropHead(g, base, maxT, dist, e, rest, expanded);
  }

  /** After a walk the queue stays levelled and the expanded entries,
      e included, stay behind its head. */
  lemma LevelledGrow(e: Entry, rest: seq<Entry>, queue1: seq<Entry>, processed: set<(Name, Name)>, expanded: seq<Entry>)
    requires forall i :: 0 <= i < |rest| ==> e.transfers <= rest[i].transfers <= e.transfers + 1
    requires Levelled(rest) && Behind(expanded, [e] + rest)
    requires QueueGrows(rest, queue1, processed, e.transfers + 1)
    ensures Levelled(queue1) && Behind(expanded + [e], queue1)
  {
    assert ([e] + rest)[0] == e;
    forall i | 0 <= i < |queue1| ensures e.transfers <= queue1[i].transfers <= e.transfers + 1 {
      if i < |rest| {
        assert queue1[i] == queue1[..|rest|][i];
      }
    }
    forall i, j | 0 <= i < j < |queue1| ensures queue1[i].transfers <= queue1[j].transfers {
      if j < |rest| {
        assert queue1[i] == queue1[..|rest|][i] && queue1[j] == queue1[..|rest|][j];
      }
    }
  }

  /** Every expanded line stays covered after the walk, e's line included. */
  lemma AllCoveredStep(g: Graph, base: Name, dist: DistFn, expanded: seq<Entry>, e: Entry,
                       visited: map<Name, int>, lineMap: map<Name, seq<Name>>,
                       visited1: map<Name, int>, lineMap1: map<Name, seq<Name>>)
    requires AllCovered(g, base, dist, expanded, visited, lineMap)
    requires Improved(visited, visited1) && LinesKept(lineMap, lineMap1)
    requires Covered(g, base, dist, e.transfers, e.line, RouteOf(g, e.line), visited1, lineMap1)
    ensures AllCovered(g, base, dist, expanded + [e], visited1, lineMap1)
  {
    var x := expanded + [e];
    forall i | 0 <= i < |x|
      ensures Covered(g, base, dist, x[i].transfers, x[i].line, RouteOf(g, x[i].line), visited1, lineMap1)
    {
      if i < |expanded| {
        assert x[i] == expanded[i];
      }
    }
  }

  /** The transfers out of the entry just expanded are pending: a pair
      already processed was expanded no later than e, and any other was
      queued by the walk. */
  lemma ClosedNew(g: Graph, base: Name, maxT: int, dist: DistFn, e: Entry, rest: seq<Entry>,
                  processed: set<(Name, Name)>, expanded: seq<Entry>, queue1: seq<Entry>)
    requires maxT >= 0 && forall p :: p in processed ==> ExpandedPair(expanded, p.0, p.1)
    requires Behind(expanded, [e] + rest)
    requires e.transfers + 1 <= maxT ==>
      forall st, rw :: Transfer(g, base, dist, e.line, st, rw) && (st, rw) !in processed + {(e.station, e.line)} ==> Entry(st, rw, e.transfers + 1) in queue1
    ensures e.transfers + 1 <= maxT ==>
      forall st, rw :: Transfer(g, base, dist, e.line, st, rw) ==> Pending(expanded + [e], queue1, st, rw, e.transfers + 1)
  {
    assert ([e] + rest)[0] == e;
    var x := expanded + [e];
    if e.transfers + 1 <= maxT {
      forall st, rw | Transfer(g, base, dist, e.line, st, rw) ensures Pending(x, queue1, st, rw, e.transfers + 1) {
        if (st, rw) in processed {
          var p := (st, rw);
          assert ExpandedPair(expanded, p.0, p.1);
          var i :| 0 <= i < |expanded| && expanded[i].station == st && expanded[i].line == rw;
          assert x[i] == expanded[i];
        }
      }
    }
  }

  /** Closed after the expansion of e, from the old promises and e's own. */
  lemma ClosedJoin(g: Graph, base: Name, maxT: int, dist: DistFn, expanded: seq<Entry>, e: Entry, queue1: seq<Entry>)
    requires forall rw :: rw in LinesOf(g, base) ==> Pending(expanded + [e], queue1, base, rw, 0)
    requires forall i, st, rw :: 0 <= i < |expanded| && expanded[i].transfers + 1 <= maxT && Transfer(g, base, dist, expanded[i].line, st, rw) ==>
               Pending(expanded + [e], queue1, st, rw, expanded[i].transfers + 1)
    requires e.transfers + 1 <= maxT ==>
      forall st, rw :: Transfer(g, base, dist, e.line, st, rw) ==> Pending(expanded + [e], queue1, st, rw, e.transfers + 1)
    ensures Closed(g, base, maxT, dist, expanded + [e], queue1)
  {
    var x := expanded + [e];
    forall i, st, rw | 0 <= i < |x| && x[i].transfers + 1 <= maxT && Transfer(g, base, dist, x[i].line, st, rw)
      ensures Pending(x, queue1, st, rw, x[i].transfers + 1)
    {
      if i < |expanded| {
        assert x[i] == expanded[i];
      }
    }
  }

  /** Expanding the popped entry e, whose pair was not processed and whose
      count is within the bound: mark it processed and walk its line. */
  method Expand(g: Graph, base: Name, maxT: int, dist: DistFn, e: Entry, rest: seq<Entry>, processed: set<(Name, Name)>,
                ghost expanded: seq<Entry>, order: seq<Name>, visited: map<Name, int>, lineMap: map<Name, seq<Name>>)
    returns (queue1: seq<Entry>, processed1: set<(Name, Name)>, ghost expanded1: seq<Entry>,
             order1: seq<Name>, visited1: map<Name, int>, lineMap1: map<Name, seq<Name>>)
    requires WellFormed(g)
    requires SearchState(g, base, maxT, dist, [e] + rest, processed, expanded, order, visited, lineMap)
    requires (e.station, e.line) !in processed && e.transfers <= maxT
    ensures SearchState(g, base, maxT, dist, queue1, processed1, expanded1, order1, visited1, lineMap1)
    ensures processed1 == processed + {(e.station, e.line)}
  {
    DropHead(g, base, maxT, dist, e, rest, expanded);
    processed1 := processed + {(e.station, e.line)};
    expanded1 := expanded + [e];
    ExpandRecords(g, base, maxT, dist, e, processed, expanded, order, visited, lineMap);
    order1, visited1, lineMap1, queue1 := WalkLine(g, base, maxT, dist, processed1, e, expanded1, order, visited, lineMap, rest);
    LevelledGrow(e, rest, queue1, processed1, expanded);
    AllCoveredStep(g, base, dist, expanded, e, visited, lineMap, visited1, lineMap1);
    if maxT >= 0 {
      assert expanded1[..|expanded|] == expanded;
      assert DoneBy(expanded1, e.station, e.line, e.transfers) by {
        assert expanded1[|expanded|] == e;
      }
      ClosedPop(g, base, maxT, dist, e, rest, expanded, expanded1, queue1);
      ClosedNew(g, base, maxT, dist, e, rest, processed, expanded, queue1);
      ClosedJoin(g, base, maxT, dist, expanded, e, queue1);
    }
    BaseLinesKept(LinesOf(g, base), base, lineMap, lineMap1);
  }

  lemma BaseLinesKept(lines: seq<Name>, base: Name, lineMap: map<Name, seq<Name>>, lineMap1: map<Name, seq<Name>>)
    requires LinesKept(lineMap, lineMap1)
    requires lines != [] ==> base in lineMap && (forall rw :: rw in lines ==> rw in lineMap[base])
    ensures lines != [] ==> base in lineMap1 && (forall rw :: rw in lines ==> rw in lineMap1[base])
  {
    if lines != [] {
      assert lines[0] in lines;
    }
  }

  /** One pass of the loop (transport_api.py:348-376): pop the head; drop
      it when its pair is processed; otherwise mark the pair processed and
      walk its line unless the count exceeds the bound. Either the queue
      shrinks with nothing processed, or one more pair is processed. */
  method Pass(g: Graph, base: Name, maxT: int, dist: DistFn, queue: seq<Entry>, processed: set<(Name, Name)>,
              ghost expanded: seq<Entry>, order: seq<Name>, visited: map<Name, int>, lineMap: map<Name, seq<Name>>)
    returns (queue1: seq<Entry>, processed1: set<(Name, Name)>, ghost expanded1: seq<Entry>,
             order1: seq<Name>, visited1: map<Name, int>, lineMap1: map<Name, seq<Name>>)
    requires WellFormed(g) && |queue| > 0
    requires SearchState(g, base, maxT, dist, queue, processed, expanded, order, visited, lineMap)
    ensures SearchState(g, base, maxT, dist, queue1, processed1, expanded1, order1, visited1, lineMap1)
    ensures (processed1 == processed && |queue1| < |queue|) || |Pairs(g) - processed1| < |Pairs(g) - processed|
  {
    var e := queue[0];
    var rest := queue[1..];
    assert queue == [e] + rest;
    if (e.station, e.line) in processed {
      PopProcessed(g, base, maxT, dist, e, rest, processed, expanded, order, visited, lineMap);
      queue1, processed1, expanded1, order1, visited1, lineMap1 := rest, processed, expanded, order, visited, lineMap;
    } else {
      DropHead(g, base, maxT, dist, e, rest, expanded);
      processed1 := processed + {(e.station, e.line)};
      assert Pairs(g) - processed == (Pairs(g) - processed1) + {(e.station, e.line)};
      if e.transfers > maxT {
        PopBeyond(g, base, maxT, dist, e, rest, processed, expanded, order, visited, lineMap);
        queue1, expanded1, order1, visited1, lineMap1 := rest, expanded, order, visited, lineMap;
      } else {
        var p;
        queue1, p, expanded1, order1, visited1, lineMap1 := Expand(g, base, maxT, dist, e, rest, processed, expanded, order, visited, lineMap);
      }
    }
  }

  /** The search loop (transport_api.py:336-376): the origin is visited at
      zero transfers, its lines are queued at zero transfers, and the queue
      is drained first in, first out; a popped pair already processed is
      dropped, and one beyond the transfer bound is marked processed but
      not walked. The returned order is the insertion order of `visited`.
      A station is visited exactly when it is the origin or is reached
      within the bound, and its count is the least number of transfers
      that reaches it; a station lists exactly the walked lines through it
      (and the origin its own lines). */
  method Explore(g: Graph, base: Name, maxT: int, dist: DistFn)
    returns (order: seq<Name>, visited: map<Name, int>, lineMap: map<Name, seq<Name>>, ghost expanded: seq<Entry>)
    requires WellFormed(g) && base in g.lines
    ensures Records(g, base, maxT, dist, expanded, order, visited, lineMap)
    ensures GoodEntries(g, base, maxT, dist, expanded) && ExpandedOnce(expanded)
    ensures LeastCounts(g, base, maxT, dist, visited)
    ensures WalkedLinesListed(g, base, maxT, dist, lineMap)
    ensures LinesOf(g, base) != [] ==> base in lineMap && (forall rw :: rw in LinesOf(g, base) ==> rw in lineMap[base])
    ensures forall s :: s in visited && s != base && visited[s] == 0 ==> OnLineOf(g, base, s) && !TooFar(g, base, s, dist)
    ensures maxT >= 0 ==> forall rw, s :: rw in LinesOf(g, base) && s in RouteOf(g, rw) && !TooFar(g, base, s, dist) ==>
      s in visited && visited[s] == 0 && s in lineMap && rw in lineMap[s]
    ensures maxT < 0 ==> order == [base]
  {
    var rws := g.lines[base];
    order := [base];
    visited := map[base := 0];
    lineMap := if rws == [] then map[] else map[base := rws];
    var queue := seq(|rws|, i requires 0 <= i < |rws| => Entry(base, rws[i], 0));
    InitState(g, base, maxT, dist, queue, lineMap);
    var processed;
    processed, expanded, order, visited, lineMap := Drain(g, base, maxT, dist, queue, {}, [], order, visited, lineMap);
    FinalState(g, base, maxT, dist, processed, expanded, order, visited, lineMap);
  }

  /** The loop itself: passes until the queue is empty. */
  method Drain(g: Graph, base: Name, maxT: int, dist: DistFn, queue0: seq<Entry>, processed0: set<(Name, Name)>,
               ghost expanded0: seq<Entry>, order0: seq<Name>, visited0: map<Name, int>, lineMap0: map<Name, seq<Name>>)
    returns (processed: set<(Name, Name)>, ghost expanded: seq<Entry>,
             order: seq<Name>, visited: map<Name, int>, lineMap: map<Name, seq<Name>>)
    requires WellFormed(g)
    requires SearchState(g, base, maxT, dist, queue0, processed0, expanded0, order0, visited0, lineMap0)
    ensures SearchState(g, base, maxT, dist, [], processed, expanded, order, visited, lineMap)
  {
    var queue := queue0;
    processed, expanded, order, visited, lineMap := processed0, expanded0, order0, visited0, lineMap0;
    ghost var all := Pairs(g);
    while |queue| > 0
      invariant SearchState(g, base, maxT, dist, queue, processed, expanded, order, visited, lineMap)
      decreases |all - processed|, |queue|
    {
      queue, processed, expanded, order, visited, lineMap := Pass(g, base, maxT, dist, queue, processed, expanded, order, visited, lineMap);
    }
    assert queue == [];
  }

  /** The state before the first pass. */
  lemma InitState(g: Graph, base: Name, maxT: int, dist: DistFn, queue: seq<Entry>, lineMap: map<Name, seq<Name>>)
    requires WellFormed(g) && base in g.lines
    requires |queue| == |g.lines[base]| && forall i :: 0 <= i < |queue| ==> queue[i] == Entry(base, g.lines[base][i], 0)
    requires lineMap == if g.lines[base] == [] then map[] else map[base := g.lines[base]]
    ensures SearchState(g, base, maxT, dist, queue, {}, [], [base], map[base := 0], lineMap)
  {
    var rws := g.lines[base];
    forall rw | rw in LinesOf(g, base) ensures Entry(base, rw, 0) in queue {
      var i :| 0 <= i < |rws| && rws[i] == rw;
      assert queue[i] == Entry(base, rw, 0);
    }
    forall i | 0 <= i < |queue|
      ensures (queue[i].station, queue[i].line) in Pairs(g)
      ensures Derivable(g, base, maxT, dist, queue[i]) || (maxT < 0 && queue[i].transfers == 0 && queue[i].station == base)
    {
      assert queue[i].line in g.lines[base];
    }
  }

  /** With an empty queue, every reachable entry's pair was expanded with
      at most its count (by induction on the count). */
  lemma {:induction false} DerivableDone(g: Graph, base: Name, maxT: int, dist: DistFn, expanded: seq<Entry>, x: Name, l: Name, k: int)
    requires Closed(g, base, maxT, dist, expanded, [])
    requires Derivable(g, base, maxT, dist, Entry(x, l, k))
    ensures DoneBy(expanded, x, l, k)
    decreases k
  {
    if k == 0 {
      assert Pending(expanded, [], base, l, 0);
    } else {
      var y: Name, l0: Name :| Derivable(g, base, maxT, dist, Entry(y, l0, k - 1)) && Transfer(g, base, dist, l0, x, l);
      DerivableDone(g, base, maxT, dist, expanded, y, l0, k - 1);
      var i :| 0 <= i < |expanded| && expanded[i].station == y && expanded[i].line == l0 && expanded[i].transfers <= k - 1;
      assert Pending(expanded, [], x, l, expanded[i].transfers + 1);
      var j :| 0 <= j < |expanded| && expanded[j].station == x && expanded[j].line == l && expanded[j].transfers <= expanded[i].transfers + 1;
    }
  }

  /** Visited stations are reached at their recorded count. */
  lemma VisitedReached(g: Graph, base: Name, maxT: int, dist: DistFn, expanded: seq<Entry>,
                       order: seq<Name>, visited: map<Name, int>)
    requires VisitedOK(g, base, maxT, dist, expanded, order, visited) && GoodEntries(g, base, maxT, dist, expanded)
    ensures forall s :: s in visited && s != base ==> ReachedAt(g, base, maxT, dist, s, visited[s])
  {
    forall s | s in visited && s != base ensures ReachedAt(g, base, maxT, dist, s, visited[s]) {
      var i :| 0 <= i < |expanded| && expanded[i].transfers == visited[s] && s in RouteOf(g, expanded[i].line);
      assert Entry(expanded[i].station, expanded[i].line, visited[s]) == expanded[i];
    }
  }

  /** Reached stations are visited no later than any count that reaches
      them, and carry every walked line through them. */
  lemma ReachedVisited(g: Graph, base: Name, maxT: int, dist: DistFn, expanded: seq<Entry>,
                       visited: map<Name, int>, lineMap: map<Name, seq<Name>>)
    requires Closed(g, base, maxT, dist, expanded, []) && AllCovered(g, base, dist, expanded, visited, lineMap)
    ensures forall s, k :: ReachedAt(g, base, maxT, dist, s, k) ==> s in visited && visited[s] <= k
    ensures forall s, rw :: LineReached(g, base, maxT, dist, rw) && s in RouteOf(g, rw) && !TooFar(g, base, s, dist) ==>
      s in lineMap && rw in lineMap[s]
  {
    forall s, k | ReachedAt(g, base, maxT, dist, s, k) ensures s in visited && visited[s] <= k {
      var x: Name, l: Name :| Derivable(g, base, maxT, dist, Entry(x, l, k)) && s in RouteOf(g, l) && !TooFar(g, base, s, dist);
      DerivableDone(g, base, maxT, dist, expanded, x, l, k);
      var i :| 0 <= i < |expanded| && expanded[i].station == x && expanded[i].line == l && expanded[i].transfers <= k;
      assert Covered(g, base, dist, expanded[i].transfers, l, RouteOf(g, l), visited, lineMap);
    }
    forall s, rw | LineReached(g, base, maxT, dist, rw) && s in RouteOf(g, rw) && !TooFar(g, base, s, dist)
      ensures s in lineMap && rw in lineMap[s]
    {
      var x: Name, k: int :| Derivable(g, base, maxT, dist, Entry(x, rw, k));
      DerivableDone(g, base, maxT, dist, expanded, x, rw, k);
      var i :| 0 <= i < |expanded| && expanded[i].station == x && expanded[i].line == rw && expanded[i].transfers <= k;
      assert Covered(g, base, dist, expanded[i].transfers, rw, RouteOf(g, rw), visited, lineMap);
    }
  }

  /** What the drained loop leaves behind. */
  lemma FinalState(g: Graph, base: Name, maxT: int, dist: DistFn, processed: set<(Name, Name)>,
                   expanded: seq<Entry>, order: seq<Name>, visited: map<Name, int>, lineMap: map<Name, seq<Name>>)
    requires SearchState(g, base, maxT, dist, [], processed, expanded, order, visited, lineMap)
    ensures Records(g, base, maxT, dist, expanded, order, visited, lineMap)
    ensures GoodEntries(g, base, maxT, dist, expanded) && ExpandedOnce(expanded)
    ensures LeastCounts(g, base, maxT, dist, visited)
    ensures WalkedLinesListed(g, base, maxT, dist, lineMap)
    ensures forall s :: s in visited && s != base && visited[s] == 0 ==> OnLineOf(g, base, s) && !TooFar(g, base, s, dist)
    ensures maxT >= 0 ==> forall rw, s :: rw in LinesOf(g, base) && s in RouteOf(g, rw) && !TooFar(g, base, s, dist) ==>
      s in visited && visited[s] == 0 && s in lineMap && rw in lineMap[s]
    ensures LinesOf(g, base) != [] ==> base in lineMap && (forall rw :: rw in LinesOf(g, base) ==> rw in lineMap[base])
    ensures maxT < 0 ==> order == [base]
  {
    VisitedReached(g, base, maxT, dist, expanded, order, visited);
    if maxT >= 0 {
      ReachedVisited(g, base, maxT, dist, expanded, visited, lineMap);
      OriginLinesAtZero(g, base, maxT, dist, visited, lineMap);
    } else {
      NothingReached(g, base, maxT, dist);
      OnlyOrigin(base, maxT, order, visited);
    }
    OnLineAtZero(g, base, maxT, dist, visited);
  }

  /** Under a negative bound nothing is reachable. */
  lemma NothingReached(g: Graph, base: Name, maxT: int, dist: DistFn)
    requires maxT < 0
    ensures forall s, k :: !ReachedAt(g, base, maxT, dist, s, k)
    ensures forall rw :: !LineReached(g, base, maxT, dist, rw)
  {
  }

  /** The origin's lines are walked at zero transfers, so their stations
      are visited at zero. */
  lemma OriginLinesAtZero(g: Graph, base: Name, maxT: int, dist: DistFn, visited: map<Name, int>, lineMap: map<Name, seq<Name>>)
    requires maxT >= 0 && base in visited && visited[base] == 0
    requires forall s :: s in visited && s != base ==> ReachedAt(g, base, maxT, dist, s, visited[s])
    requires forall s, k :: ReachedAt(g, base, maxT, dist, s, k) ==> s in visited && visited[s] <= k
    requires forall s, rw :: LineReached(g, base, maxT, dist, rw) && s in RouteOf(g, rw) && !TooFar(g, base, s, dist) ==>
      s in lineMap && rw in lineMap[s]
    ensures forall rw, s :: rw in LinesOf(g, base) && s in RouteOf(g, rw) && !TooFar(g, base, s, dist) ==>
      s in visited && visited[s] == 0 && s in lineMap && rw in lineMap[s]
  {
    forall rw, s | rw in LinesOf(g, base) && s in RouteOf(g, rw) && !TooFar(g, base, s, dist)
      ensures s in visited && visited[s] == 0 && s in lineMap && rw in lineMap[s]
    {
      assert Derivable(g, base, maxT, dist, Entry(base, rw, 0));
      assert ReachedAt(g, base, maxT, dist, s, 0);
      assert LineReached(g, base, maxT, dist, rw);
      if s != base {
        assert ReachedAt(g, base, maxT, dist, s, visited[s]);
      }
    }
  }

  /** With a negative bound no station but the origin can be recorded. */
  lemma OnlyOrigin(base: Name, maxT: int, order: seq<Name>, visited: map<Name, int>)
    requires maxT < 0
    requires Distinct(order) && |order| > 0 && order[0] == base && Elems(order) == visited.Keys
    requires forall s :: s in visited && s != base ==> 0 <= visited[s] <= maxT
    ensures order == [base]
  {
    assert visited.Keys == {base};
    DistinctCard(order);
    assert |order| == 1;
    assert order == [order[0]];
  }

  /** A station at zero transfers was reached on one of the origin's lines. */
  lemma OnLineAtZero(g: Graph, base: Name, maxT: int, dist: DistFn, visited: map<Name, int>)
    requires forall s :: s in visited && s != base ==> ReachedAt(g, base, maxT, dist, s, visited[s])
    ensures forall s :: s in visited && s != base && visited[s] == 0 ==> OnLineOf(g, base, s) && !TooFar(g, base, s, dist)
  {
    forall s | s in visited && s != base && visited[s] == 0 ensures OnLineOf(g, base, s) && !TooFar(g, base, s, dist) {
      var x: Name, l: Name :| Derivable(g, base, maxT, dist, Entry(x, l, 0)) && s in RouteOf(g, l) && !TooFar(g, base, s, dist);
      assert l in LinesOf(g, base);
    }
  }

  /** The transfer count recorded for a station (`visited[s]`). */
  function TransfersIn(visited: map<Name, int>): Name -> int {
    s => if s in visited then visited[s] else 0
  }

  /** `sorted([s for s in visited if s != base], key=lambda s: visited[s])`
      (transport_api.py:378-381): the stations other than the origin,
      ascending by transfer count, and, Python's sort being stable, in
      visit order among stations with the same count. */
  function ReachableList(order: seq<Name>, visited: map<Name, int>, base: Name): (r: seq<Name>)
    ensures SortedBy(r, KeyOrder(TransfersIn(visited)))
    ensures multiset(r) == multiset(Filter(order, (s: Name) => s != base))
    ensures forall k :: KeyRun(r, TransfersIn(visited), k) == KeyRun(Filter(order, (s: Name) => s != base), TransfersIn(visited), k)
  {
    var key := TransfersIn(visited);
    KeyOrderTotal(key);
    var others := Filter(order, (s: Name) => s != base);
    var r := SortWith(others, KeyOrder(key));
    assert forall k :: KeyRun(r, key, k) == KeyRun(others, key, k) by {
      forall k ensures KeyRun(r, key, k) == KeyRun(others, key, k) {
        SortStable(others, KeyOrder(key), key, k);
      }
    }
    r
  }

  /** `find_reachable_stations` (transport_api.py:302-386): resolve the name;
      with no match, nothing is reachable and there is no line map;
      otherwise search from the matched station. The reachable list holds
      once each station other than the origin that some chain of at most
      `max_transfer` transfers reaches, in ascending order of the least
      such count (`visited`); the line map gives a reached station exactly
      the walked lines through it; with a bound of zero, only stations on
      the origin's own lines are reachable. */
  method FindReachable(g: Graph, q: Name, maxT: int, close: FuzzyFn, dist: DistFn)
    returns (reachable: seq<Name>, lineMap: map<Name, seq<Name>>, matched: Option<Name>, ghost visited: map<Name, int>)
    requires WellFormed(g) && FuzzyOracle(close)
    ensures matched == Resolve(g, q, close)
    ensures matched.None? ==> reachable == [] && lineMap == map[]
    ensures matched.Some? ==> forall s :: s in reachable <==> s in visited && s != matched.value
    ensures matched.Some? ==> forall s :: s in reachable <==> s != matched.value && exists k :: ReachedAt(g, matched.value, maxT, dist, s, k)
    ensures matched.Some? ==> LeastCounts(g, matched.value, maxT, dist, visited)
    ensures Distinct(reachable)
    ensures SortedBy(reachable, KeyOrder(TransfersIn(visited)))
    ensures forall s :: s in reachable ==> 0 <= visited[s] <= maxT
    ensures matched.Some? ==> forall s :: s in reachable ==> !TooFar(g, matched.value, s, dist)
    ensures matched.Some? ==> LineMapOK(g, matched.value, maxT, dist, visited, lineMap)
    ensures matched.Some? ==> WalkedLinesListed(g, matched.value, maxT, dist, lineMap)
    ensures matched.Some? && maxT == 0 ==> forall s :: s in reachable ==> OnLineOf(g, matched.value, s)
  {
    matched := Resolve(g, q, close);
    if matched.None? {
      return [], map[], None, map[];
    }
    reachable, lineMap, visited := ReachFrom(g, matched.value, maxT, dist);
  }

  /** The search from a station of the graph and the sorted list of what
      it reaches (transport_api.py:332-381). */
  method ReachFrom(g: Graph, base: Name, maxT: int, dist: DistFn)
    returns (reachable: seq<Name>, lineMap: map<Name, seq<Name>>, ghost visited: map<Name, int>)
    requires WellFormed(g) && base in g.lines
    ensures forall s :: s in reachable <==> s in visited && s != base
    ensures forall s :: s in reachable <==> s != base && exists k :: ReachedAt(g, base, maxT, dist, s, k)
    ensures LeastCounts(g, base, maxT, dist, visited)
    ensures Distinct(reachable)
    ensures SortedBy(reachable, KeyOrder(TransfersIn(visited)))
    ensures forall s :: s in reachable ==> 0 <= visited[s] <= maxT
    ensures forall s :: s in reachable ==> !TooFar(g, base, s, dist)
    ensures LineMapOK(g, base, maxT, dist, visited, lineMap)
    ensures WalkedLinesListed(g, base, maxT, dist, lineMap)
    ensures maxT == 0 ==> forall s :: s in reachable ==> OnLineOf(g, base, s)
  {
    var order, v;
    ghost var expanded;
    order, v, lineMap, expanded := Explore(g, base, maxT, dist);
    visited := v;
    reachable := ReachableList(order, v, base);
    var others := Filter(order, (s: Name) => s != base);
    FilterDistinct(order, (s: Name) => s != base);
    DistinctPerm(reachable, others);
    assert forall s :: s in reachable <==> s in others by {
      forall s ensures s in reachable <==> s in multiset(reachable) {
      }
      forall s ensures s in others <==> s in multiset(others) {
      }
    }
    ReachableExactly(g, base, maxT, dist, reachable, v);
    if maxT == 0 {
      ZeroBoundOnLine(g, base, maxT, dist, reachable, v);
    }
  }

  /** With a bound of zero every reached station other than the origin is
      on one of the origin's own lines. */
  lemma ZeroBoundOnLine(g: Graph, base: Name, maxT: int, dist: DistFn, reachable: seq<Name>, visited: map<Name, int>)
    requires maxT == 0
    requires forall s :: s in reachable ==> s in visited && s != base && 0 <= visited[s] <= maxT
    requires forall s :: s in visited && s != base && visited[s] == 0 ==> OnLineOf(g, base, s) && !TooFar(g, base, s, dist)
    ensures forall s :: s in reachable ==> OnLineOf(g, base, s)
  {
  }

  /** The reachable list holds exactly the stations other than the origin
      that are reached within the bound. */
  lemma ReachableExactly(g: Graph, base: Name, maxT: int, dist: DistFn, reachable: seq<Name>, visited: map<Name, int>)
    requires forall s :: s in reachable <==> s in visited && s != base
    requires LeastCounts(g, base, maxT, dist, visited)
    ensures forall s :: s in reachable <==> s != base && exists k :: ReachedAt(g, base, maxT, dist, s, k)
  {
  }
}
