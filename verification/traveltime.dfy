/** `_estimate_travel_time` (station_mode.py:29-87): minutes from the origin
    to a target, along one shared line, or with one transfer at a +5 minute
    penalty; a segment is timed from the summed distance between adjacent
    stations, or from the number of station gaps when a coordinate is
    missing. Floats are modelled as reals. */
module TravelTime {
  import opened Seqs
  import opened Geo
  import opened RailGraph

  const TransferPenalty: int := 5

  /** Python 3's `round(x)`: the nearest integer, a tie going to the even
      neighbour. */
  function RoundHalfEven(x: real): (n: int)
    ensures x - 0.5 <= n as real <= x + 0.5
    ensures (n as real == x - 0.5 || n as real == x + 0.5) ==> n % 2 == 0
  {
    var f := x.Floor;
    var d := x - f as real;
    if d < 0.5 then f
    else if d > 0.5 then f + 1
    else if f % 2 == 0 then f
    else f + 1
  }

  /** Round-half-even is the only integer within a half whose ties are
      even. */
  lemma RoundUnique(x: real, n: int)
    requires x - 0.5 <= n as real <= x + 0.5
    requires (n as real == x - 0.5 || n as real == x + 0.5) ==> n % 2 == 0
    ensures n == RoundHalfEven(x)
  {
  }

  function Max1(n: int): int {
    if n < 1 then 1 else n
  }

  /** Every station from index lo through hi has coordinates. */
  ghost predicate CoordsThrough(g: Graph, stations: seq<Name>, lo: nat, hi: nat)
    requires lo <= hi < |stations|
  {
    forall k :: lo <= k <= hi ==> stations[k] in g.coords
  }

  /** The summed distance between adjacent stations from lo to hi. */
  function PathKm(g: Graph, stations: seq<Name>, lo: nat, hi: nat, dist: DistFn): real
    requires lo <= hi < |stations| && CoordsThrough(g, stations, lo, hi)
    decreases hi - lo
  {
    if lo == hi then 0.0
    else dist(g.coords[stations[lo]], g.coords[stations[lo + 1]]) + PathKm(g, stations, lo + 1, hi, dist)
  }

  /** The loop of station_mode.py:44-51: sums adjacent distances from j on,
      stopping at the first pair with a missing coordinate. */
  function SumFrom(g: Graph, stations: seq<Name>, j: nat, hi: nat, dist: DistFn): (r: Option<real>)
    requires j <= hi < |stations|
    ensures (j < hi ==> (r.Some? <==> CoordsThrough(g, stations, j, hi)))
    ensures j == hi ==> r == Some(0.0)
    ensures r.Some? && j < hi ==> r.value == PathKm(g, stations, j, hi, dist)
    decreases hi - j
  {
    if j == hi then Some(0.0)
    else if stations[j] in g.coords && stations[j + 1] in g.coords then
      var rest := SumFrom(g, stations, j + 1, hi, dist);
      if rest.None? then None
      else Some(rest.value + dist(g.coords[stations[j]], g.coords[stations[j + 1]]))
    else None
  }

  function Min(a: int, b: int): int {
    if a < b then a else b
  }

  function Max(a: int, b: int): int {
    if a < b then b else a
  }

  /** `_route_time` (station_mode.py:39-56): with coordinates at every
      station between the two indices and a positive summed distance d,
      round(d * 1.3 / 60 * 60) minutes; otherwise round(gaps * 2.5); never
      below one minute. */
  function RouteTime(g: Graph, stations: seq<Name>, i: nat, j: nat, dist: DistFn): (t: int)
    requires i < |stations| && j < |stations|
    ensures t >= 1
    ensures Min(i, j) < Max(i, j) && CoordsThrough(g, stations, Min(i, j), Max(i, j))
            && PathKm(g, stations, Min(i, j), Max(i, j), dist) > 0.0 ==>
      t == Max1(RoundHalfEven(PathKm(g, stations, Min(i, j), Max(i, j), dist) * 1.3 / 60.0 * 60.0))
    ensures !(Min(i, j) < Max(i, j) && CoordsThrough(g, stations, Min(i, j), Max(i, j))
              && PathKm(g, stations, Min(i, j), Max(i, j), dist) > 0.0) ==>
      t == Max1(RoundHalfEven((Max(i, j) - Min(i, j)) as real * 2.5))
  {
    var lo := Min(i, j);
    var hi := Max(i, j);
    var total := SumFrom(g, stations, lo, hi, dist);
    if total.Some? && total.value > 0.0 then Max1(RoundHalfEven(total.value * 1.3 / 60.0 * 60.0))
    else Max1(RoundHalfEven((hi - lo) as real * 2.5))
  }

  /** The segment time depends only on the two indices, not their order. */
  lemma RouteTimeSymmetric(g: Graph, stations: seq<Name>, i: nat, j: nat, dist: DistFn)
    requires i < |stations| && j < |stations|
    ensures RouteTime(g, stations, i, j, dist) == RouteTime(g, stations, j, i, dist)
  {
    assert Min(i, j) == Min(j, i) && Max(i, j) == Max(j, i);
  }

  /** The fallback in whole numbers, with half-to-even rounding: no gap
      gives one minute, one gap 2 (2.5 rounds down), two gaps 5, three gaps
      8 (7.5 rounds up). */
  lemma FallbackMinutes()
    ensures Max1(RoundHalfEven(0 as real * 2.5)) == 1
    ensures Max1(RoundHalfEven(1 as real * 2.5)) == 2
    ensures Max1(RoundHalfEven(2 as real * 2.5)) == 5
    ensures Max1(RoundHalfEven(3 as real * 2.5)) == 8
  {
    RoundUnique(0.0, 0);
    RoundUnique(2.5, 2);
    RoundUnique(5.0, 5);
    RoundUnique(7.5, 8);
  }

  /** rw is a line of both stations whose station list holds both. */
  predicate SameLine(g: Graph, base: Name, target: Name, rw: Name) {
    rw in LinesOf(g, base) && rw in LinesOf(g, target) && base in RouteOf(g, rw) && target in RouteOf(g, rw)
  }

  /** Minutes along a shared line between the first occurrences of the two
      stations (`stations.index`). */
  function SameLineTime(g: Graph, base: Name, target: Name, rw: Name, dist: DistFn): int
    requires SameLine(g, base, target, rw)
  {
    var st := RouteOf(g, rw);
    RouteTime(g, st, IndexOf(st, base), IndexOf(st, target), dist)
  }

  /** A one-transfer route: along line b from the origin to an
      intermediate station s other than the origin, then along line t,
      shared by s and the target, to the target. */
  predicate TransferRoute(g: Graph, base: Name, target: Name, x: (Name, Name, Name)) {
    && x.0 in LinesOf(g, base) && base in RouteOf(g, x.0) && x.1 in RouteOf(g, x.0) && x.1 != base
    && x.2 in LinesOf(g, x.1) && x.2 in LinesOf(g, target) && x.1 in RouteOf(g, x.2) && target in RouteOf(g, x.2)
  }

  /** Both legs plus the transfer penalty (station_mode.py:79-83). */
  function TransferTime(g: Graph, base: Name, target: Name, x: (Name, Name, Name), dist: DistFn): (t: int)
    requires TransferRoute(g, base, target, x)
    ensures t >= 2 + TransferPenalty
  {
    var sb := RouteOf(g, x.0);
    var st := RouteOf(g, x.2);
    RouteTime(g, sb, IndexOf(sb, base), IndexOf(sb, x.1), dist) + TransferPenalty
      + RouteTime(g, st, IndexOf(st, x.1), IndexOf(st, target), dist)
  }

  /** The innermost loop (station_mode.py:76-78) for intermediate s. */
  function TargetLegs(g: Graph, target: Name, s: Name): (r: seq<Name>)
    ensures forall rw :: rw in r <==> rw in LinesOf(g, s) && rw in LinesOf(g, target) && s in RouteOf(g, rw) && target in RouteOf(g, rw)
  {
    Filter(LinesOf(g, s), (rw: Name) => rw in LinesOf(g, target) && s in RouteOf(g, rw) && target in RouteOf(g, rw))
  }

  /** The middle loop (station_mode.py:72-78) over stations ss of line b. */
  function ViaStations(g: Graph, base: Name, target: Name, b: Name, ss: seq<Name>): (r: seq<(Name, Name, Name)>)
    ensures forall x :: x in r <==>
      x.0 == b && x.1 in ss && x.1 != base && x.2 in TargetLegs(g, target, x.1)
  {
    if |ss| == 0 then []
    else
      var rest := ViaStations(g, base, target, b, ss[1..]);
      var s := ss[0];
      var here := if s == base then [] else
        var legs := TargetLegs(g, target, s);
        seq(|legs|, k requires 0 <= k < |legs| => (b, s, legs[k]));
      assert forall x :: x in here <==> x.0 == b && x.1 == s && s != base && x.2 in TargetLegs(g, target, s) by {
        forall x ensures x in here <==> x.0 == b && x.1 == s && s != base && x.2 in TargetLegs(g, target, s) {
          if x.0 == b && x.1 == s && s != base && x.2 in TargetLegs(g, target, s) {
            var legs := TargetLegs(g, target, s);
            var k :| 0 <= k < |legs| && legs[k] == x.2;
            assert here[k] == x;
          }
        }
      }
      assert forall y :: y in ss <==> y == s || y in ss[1..] by {
        assert ss == [s] + ss[1..];
      }
      here + rest
  }

  /** The outer loop (station_mode.py:68-78) over the origin's lines. */
  function ViaLines(g: Graph, base: Name, target: Name, bs: seq<Name>): (r: seq<(Name, Name, Name)>)
    ensures forall x :: x in r <==>
      x.0 in bs && base in RouteOf(g, x.0) && x.1 in RouteOf(g, x.0) && x.1 != base && x.2 in TargetLegs(g, target, x.1)
  {
    if |bs| == 0 then []
    else
      var b := bs[0];
      var here := if base in RouteOf(g, b) then ViaStations(g, base, target, b, RouteOf(g, b)) else [];
      assert forall y :: y in bs <==> y == b || y in bs[1..] by {
        assert bs == [b] + bs[1..];
      }
      here + ViaLines(g, base, target, bs[1..])
  }

  /** The one-transfer enumeration visits exactly the one-transfer
      routes. */
  lemma TransferEnumeration(g: Graph, base: Name, target: Name)
    ensures forall x :: x in ViaLines(g, base, target, LinesOf(g, base)) <==> TransferRoute(g, base, target, x)
  {
  }

  /** The first route of xs with the least time (the running `best` of
      station_mode.py:79-85 keeps the time; the route is its witness). */
  function Fastest(g: Graph, base: Name, target: Name, xs: seq<(Name, Name, Name)>, dist: DistFn)
    : (r: Option<(Name, Name, Name)>)
    requires forall x :: x in xs ==> TransferRoute(g, base, target, x)
    ensures r.None? <==> xs == []
    ensures r.Some? ==> r.value in xs
    ensures r.Some? ==> forall x :: x in xs ==>
      TransferTime(g, base, target, r.value, dist) <= TransferTime(g, base, target, x, dist)
  {
    if |xs| == 0 then None
    else
      assert forall x :: x in xs[1..] ==> x in xs;
      var rest := Fastest(g, base, target, xs[1..], dist);
      var t0 := TransferTime(g, base, target, xs[0], dist);
      var y := if rest.None? || t0 <= TransferTime(g, base, target, rest.value, dist) then xs[0] else rest.value;
      assert forall x :: x in xs ==> TransferTime(g, base, target, y, dist) <= TransferTime(g, base, target, x, dist) by {
        forall x | x in xs ensures TransferTime(g, base, target, y, dist) <= TransferTime(g, base, target, x, dist) {
          if x != xs[0] {
            assert x in xs[1..];
          }
        }
      }
      Some(y)
  }

  /** The one-transfer search (station_mode.py:66-87): the least time over
      all one-transfer routes, None when there is none. */
  function BestTransfer(g: Graph, base: Name, target: Name, dist: DistFn): (r: Option<int>)
    ensures r.None? <==> forall x :: !TransferRoute(g, base, target, x)
    ensures r.Some? ==> exists x :: TransferRoute(g, base, target, x) && r.value == TransferTime(g, base, target, x, dist)
    ensures r.Some? ==> forall x :: TransferRoute(g, base, target, x) ==> r.value <= TransferTime(g, base, target, x, dist)
  {
    var xs := ViaLines(g, base, target, LinesOf(g, base));
    TransferEnumeration(g, base, target);
    var best := Fastest(g, base, target, xs, dist);
    if best.Some? then
      Some(TransferTime(g, base, target, best.value, dist))
    else
      assert forall x :: !TransferRoute(g, base, target, x) by {
        forall x ensures !TransferRoute(g, base, target, x) {
          assert x !in xs;
        }
      }
      None
  }

  /** `_estimate_travel_time`: the time along a shared line holding both
      stations if there is one; otherwise the least one-transfer time;
      None exactly when neither kind of route exists. A shared-line time
      is at least 1 minute, a one-transfer time at least 7. Which shared
      line is timed follows the origin's line order; the source takes the
      first one its set intersection yields. */
  function Estimate(g: Graph, base: Name, target: Name, dist: DistFn): (r: Option<int>)
    ensures (exists rw :: SameLine(g, base, target, rw)) ==>
      r.Some? && exists rw :: SameLine(g, base, target, rw) && r.value == SameLineTime(g, base, target, rw, dist)
    ensures (forall rw :: !SameLine(g, base, target, rw)) ==> r == BestTransfer(g, base, target, dist)
    ensures (forall rw :: !SameLine(g, base, target, rw)) && r.Some? ==> r.value >= 2 + TransferPenalty
    ensures r.None? <==>
      (forall rw :: !SameLine(g, base, target, rw)) && (forall x :: !TransferRoute(g, base, target, x))
    ensures r.Some? ==> r.value >= 1
  {
    var same := Filter(LinesOf(g, base), (rw: Name) => SameLine(g, base, target, rw));
    if same != [] then
      assert same[0] in same;
      Some(SameLineTime(g, base, target, same[0], dist))
    else
      assert forall rw :: !SameLine(g, base, target, rw);
      BestTransfer(g, base, target, dist)
  }
}
