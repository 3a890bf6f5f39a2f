/** The rail graph every later stage reads: the three dictionaries the
    builder returns (transport_api.py:64-73). Python sets of line names are
    duplicate-free sequences in iteration order; the station list records
    the key order of the station->lines dictionary, which decides the order
    of substring candidates. */
module RailGraph {
  import opened Seqs
  import opened Geo

  type Name = string

  /** `station_to_railways` (keys in `stations`, values in `lines`),
      `railway_stations` (`routes`) and `station_coords` (`coords`). */
  datatype Graph = Graph(
    stations: seq<Name>,
    lines: map<Name, seq<Name>>,
    routes: map<Name, seq<Name>>,
    coords: map<Name, Coord>)

  /** The key order lists each station once and exactly the keys of the
      station->lines map, and every line set is duplicate-free. */
  ghost predicate WellFormed(g: Graph) {
    && Distinct(g.stations)
    && Elems(g.stations) == g.lines.Keys
    && (forall s :: s in g.lines ==> Distinct(g.lines[s]))
  }

  /** `station_to_railways.get(s, set())`. */
  function LinesOf(g: Graph, s: Name): seq<Name> {
    if s in g.lines then g.lines[s] else []
  }

  /** `railway_stations.get(rw, [])`. */
  function RouteOf(g: Graph, rw: Name): seq<Name> {
    if rw in g.routes then g.routes[rw] else []
  }

  /** `station_coords.get(s)`. */
  function CoordOf(g: Graph, s: Name): Option<Coord> {
    if s in g.coords then Some(g.coords[s]) else None
  }
}
