/** The pure parts of city mode (city_mode.py): the station-name
    extraction loops, the bounding-box filter over the coordinate table,
    and the ranking of stations by how many lines serve them. */
module CityMode {
  import opened Seqs
  import opened Text
  import opened Sorting
  import opened Geo
  import opened RailGraph
  import opened Matching

  const StationSuffix: char := '駅'

  /** No trailing 駅: what the extraction stores in its seen set. */
  predicate Clean(s: string) {
    |s| > 0 ==> s[|s| - 1] != StationSuffix
  }

  /** A name with every trailing 駅 removed (`name.rstrip("駅")`). */
  function CleanName(s: string): (r: string)
    ensures Clean(r)
    ensures exists k :: 0 <= k <= |s| && r == s[..k] && forall i :: k <= i < |s| ==> s[i] == StationSuffix
  {
    RStripChar(s, StationSuffix)
  }

  /** A clean name is its own cleaned form. */
  lemma CleanNameNoop(s: string)
    requires Clean(s)
    ensures CleanName(s) == s
  {
    assert |s| > 0 ==> s[|s| - 1] != StationSuffix;
  }

  /** The names an element list contributes, cleaned, in order: a missing or
      empty `name` tag contributes nothing. */
  function CleanNames(raw: seq<string>): (r: seq<string>)
    ensures forall x :: x in r <==> exists s :: s in raw && s != "" && x == CleanName(s)
  {
    if |raw| == 0 then []
    else
      var rest := CleanNames(raw[1..]);
      assert forall s :: s in raw <==> s == raw[0] || s in raw[1..];
      if raw[0] == "" then rest else [CleanName(raw[0])] + rest
  }

  /** The extraction loop (city_mode.py:66-78, and again at 113-123): a
      non-empty name not yet in `seen` is cleaned, and the cleaned name is
      kept and marked seen unless it was seen already. */
  function ExtractFrom(raw: seq<string>, seen: set<string>): (r: seq<string>)
    ensures Distinct(r)
    ensures forall x :: x in r ==> Clean(x) && x !in seen
    decreases |raw|
  {
    if |raw| == 0 then []
    else
      var name := raw[0];
      if name != "" && name !in seen && CleanName(name) !in seen then
        var rest := ExtractFrom(raw[1..], seen + {CleanName(name)});
        DistinctCons(CleanName(name), rest);
        [CleanName(name)] + rest
      else ExtractFrom(raw[1..], seen)
  }

  function ExtractNames(raw: seq<string>): (r: seq<string>)
    ensures Distinct(r)
    ensures forall x :: x in r ==> Clean(x)
  {
    ExtractFrom(raw, {})
  }

  /** The loop yields the cleaned names without repeats, in first-seen
      order. Its test of the raw name against `seen` never decides
      anything: `seen` holds only clean names, and a clean raw name is its
      own cleaned form. */
  lemma {:induction false} ExtractIsDedup(raw: seq<string>, seen: set<string>)
    requires forall x :: x in seen ==> Clean(x)
    ensures ExtractFrom(raw, seen) == Dedup(CleanNames(raw), seen)
    decreases |raw|
  {
    if |raw| > 0 {
      var name := raw[0];
      if name == "" {
        ExtractIsDedup(raw[1..], seen);
      } else {
        assert CleanNames(raw) == [CleanName(name)] + CleanNames(raw[1..]);
        assert ([CleanName(name)] + CleanNames(raw[1..]))[1..] == CleanNames(raw[1..]);
        if name in seen {
          CleanNameNoop(name);
          ExtractIsDedup(raw[1..], seen);
        } else if CleanName(name) in seen {
          ExtractIsDedup(raw[1..], seen);
        } else {
          ExtractIsDedup(raw[1..], seen + {CleanName(name)});
        }
      }
    }
  }

  /** Every non-empty raw name shows up, cleaned, exactly once. */
  lemma ExtractNamesComplete(raw: seq<string>)
    ensures forall x :: x in ExtractNames(raw) <==> exists s :: s in raw && s != "" && x == CleanName(s)
  {
    ExtractIsDedup(raw, {});
  }

  /** A coordinate record that may lack either field. */
  datatype CoordFields = CoordFields(lat: Option<real>, lon: Option<real>)

  /** `coords.get(field, 0)`. */
  function FieldOr0(f: Option<real>): real {
    if f.Some? then f.value else 0.0
  }

  /** The bounding box of a city: `[lat_min, lat_max, lon_min, lon_max]`. */
  datatype BBox = BBox(latMin: real, latMax: real, lonMin: real, lonMax: real)

  /** Inclusive on all four sides; a missing field counts as 0. */
  predicate InsideBox(c: CoordFields, b: BBox) {
    && b.latMin <= FieldOr0(c.lat) <= b.latMax
    && b.lonMin <= FieldOr0(c.lon) <= b.lonMax
  }

  /** Some row of the table names s and lies inside the box. */
  predicate HasInside(table: seq<(Name, CoordFields)>, b: BBox, s: Name) {
    exists i :: 0 <= i < |table| && table[i].0 == s && InsideBox(table[i].1, b)
  }

  lemma HasInsideCons(table: seq<(Name, CoordFields)>, b: BBox, s: Name)
    requires |table| > 0
    ensures HasInside(table, b, s) <==> (table[0].0 == s && InsideBox(table[0].1, b)) || HasInside(table[1..], b, s)
  {
    if HasInside(table, b, s) {
      var i :| 0 <= i < |table| && table[i].0 == s && InsideBox(table[i].1, b);
      if i > 0 {
        assert table[1..][i - 1] == table[i];
      }
    }
    if HasInside(table[1..], b, s) {
      var i :| 0 <= i < |table[1..]| && table[1..][i].0 == s && InsideBox(table[1..][i].1, b);
      assert table[i + 1] == table[1..][i];
    }
  }

  /** The bbox loop (city_mode.py:156-164) over the coordinate table in
      iteration order: a name already kept is skipped, a name whose
      coordinate lies inside the box is kept. */
  function BboxFrom(table: seq<(Name, CoordFields)>, b: BBox, seen: set<Name>): (r: seq<Name>)
    ensures Distinct(r)
    ensures forall s :: s in r <==> s !in seen && HasInside(table, b, s)
    decreases |table|
  {
    if |table| == 0 then []
    else
      var s := table[0].0;
      var skip := s in seen || !InsideBox(table[0].1, b);
      var rest := BboxFrom(table[1..], b, if skip then seen else seen + {s});
      assert forall x :: HasInside(table, b, x) <==> (x == s && InsideBox(table[0].1, b)) || HasInside(table[1..], b, x) by {
        forall x ensures HasInside(table, b, x) <==> (x == s && InsideBox(table[0].1, b)) || HasInside(table[1..], b, x) {
          HasInsideCons(table, b, x);
        }
      }
      if skip then rest
      else
        DistinctCons(s, rest);
        [s] + rest
  }

  function BboxFilter(table: seq<(Name, CoordFields)>, b: BBox): (r: seq<Name>)
    ensures Distinct(r)
    ensures forall s :: s in r <==> HasInside(table, b, s)
  {
    BboxFrom(table, b, {})
  }

  /** The names of the table rows inside the box, in table order. */
  function NamesInside(table: seq<(Name, CoordFields)>, b: BBox): seq<Name> {
    if |table| == 0 then []
    else (if InsideBox(table[0].1, b) then [table[0].0] else []) + NamesInside(table[1..], b)
  }

  /** The filter lists the names inside the box in order of first
      appearance. */
  lemma {:induction false} BboxIsDedup(table: seq<(Name, CoordFields)>, b: BBox, seen: set<Name>)
    ensures BboxFrom(table, b, seen) == Dedup(NamesInside(table, b), seen)
    decreases |table|
  {
    if |table| > 0 {
      var s := table[0].0;
      if InsideBox(table[0].1, b) {
        assert NamesInside(table, b) == [s] + NamesInside(table[1..], b);
        assert ([s] + NamesInside(table[1..], b))[1..] == NamesInside(table[1..], b);
        if s in seen {
          BboxIsDedup(table[1..], b, seen);
        } else {
          BboxIsDedup(table[1..], b, seen + {s});
        }
      } else {
        assert NamesInside(table, b) == NamesInside(table[1..], b);
        BboxIsDedup(table[1..], b, seen);
      }
    }
  }

  /** One ranked station (city_mode.py:265-275). */
  datatype Ranked = Ranked(name: Name, lineCount: nat, railways: seq<Name>, coord: Option<Coord>)

  /** The entry for one name: its lines in ascending order, their number,
      and its coordinate if known. */
  function RankEntry(g: Graph, name: Name): (e: Ranked)
    ensures e.name == name && e.coord == CoordOf(g, name)
    ensures e.lineCount == |LinesOf(g, name)| == |e.railways|
    ensures SortedBy(e.railways, (a: string, b: string) => LexLe(a, b))
    ensures multiset(e.railways) == multiset(LinesOf(g, name))
  {
    var rws := SortedLines(g, name);
    Ranked(name, |rws|, rws, CoordOf(g, name))
  }

  function RankEntries(g: Graph, names: seq<Name>): (r: seq<Ranked>)
    ensures |r| == |names| && forall i :: 0 <= i < |names| ==> r[i] == RankEntry(g, names[i])
  {
    seq(|names|, i requires 0 <= i < |names| => RankEntry(g, names[i]))
  }

  /** The sort key of `sort(key=line_count, reverse=True)`. */
  function NegCount(e: Ranked): int {
    -(e.lineCount as int)
  }

  function RankedNames(r: seq<Ranked>): (ns: seq<Name>)
    ensures |ns| == |r| && forall i :: 0 <= i < |r| ==> ns[i] == r[i].name
  {
    seq(|r|, i requires 0 <= i < |r| => r[i].name)
  }

  function Min(a: int, b: int): int {
    if a <= b then a else b
  }

  /** `_rank_stations_by_popularity` (city_mode.py:252-283): the top_n
      stations by number of lines. The result has min(top_n, |names|)
      entries in non-increasing line count, each the entry of an input
      name; a name left out has no more lines than any name kept; and
      among equal counts the input order is kept. */
  function RankStations(g: Graph, names: seq<Name>, topN: nat): (r: seq<Ranked>)
    ensures |r| == Min(topN, |names|)
    ensures forall i, j :: 0 <= i < j < |r| ==> r[i].lineCount >= r[j].lineCount
    ensures forall e :: e in r ==> e.name in names && e == RankEntry(g, e.name)
    ensures forall s :: s in names && s !in RankedNames(r) ==>
      forall i :: 0 <= i < |r| ==> r[i].lineCount >= |LinesOf(g, s)|
    ensures forall k :: |KeyRun(r, NegCount, k)| <= |KeyRun(RankEntries(g, names), NegCount, k)|
    ensures forall k :: KeyRun(r, NegCount, k) == KeyRun(RankEntries(g, names), NegCount, k)[..|KeyRun(r, NegCount, k)|]
  {
    var entries := RankEntries(g, names);
    KeyOrderTotal(NegCount);
    var p := SortWith(entries, KeyOrder(NegCount));
    var r := p[..Min(topN, |names|)];
    RankFacts(g, names, entries, p, r);
    RankStable(entries, p, r);
    r
  }

  /** The kept entries come from the input, in non-increasing line count,
      and none left out beats one kept. */
  lemma RankFacts(g: Graph, names: seq<Name>, entries: seq<Ranked>, p: seq<Ranked>, r: seq<Ranked>)
    requires entries == RankEntries(g, names)
    requires SortedBy(p, KeyOrder(NegCount)) && multiset(p) == multiset(entries)
    requires |r| <= |p| && r == p[..|r|]
    ensures forall i, j :: 0 <= i < j < |r| ==> r[i].lineCount >= r[j].lineCount
    ensures forall e :: e in r ==> e.name in names && e == RankEntry(g, e.name)
    ensures forall s :: s in names && s !in RankedNames(r) ==>
      forall i :: 0 <= i < |r| ==> r[i].lineCount >= |LinesOf(g, s)|
  {
    forall i, j | 0 <= i < j < |r| ensures r[i].lineCount >= r[j].lineCount {
      assert r[i] == p[i] && r[j] == p[j];
      assert KeyOrder(NegCount)(p[i], p[j]);
      assert NegCount(p[i]) <= NegCount(p[j]);
    }
    forall e | e in r ensures e.name in names && e == RankEntry(g, e.name) {
      RankedFromInput(g, names, entries, p, e);
    }
    forall s | s in names && s !in RankedNames(r)
      ensures forall i :: 0 <= i < |r| ==> r[i].lineCount >= |LinesOf(g, s)|
    {
      LeftOutIsSmaller(g, names, entries, p, |r|, s);
    }
  }

  /** Among equal line counts the kept entries are the first ones of the
      input, in input order. */
  lemma RankStable(entries: seq<Ranked>, p: seq<Ranked>, r: seq<Ranked>)
    requires TotalPreorder(KeyOrder(NegCount))
    requires p == SortWith(entries, KeyOrder(NegCount))
    requires |r| <= |p| && r == p[..|r|]
    ensures forall k :: |KeyRun(r, NegCount, k)| <= |KeyRun(entries, NegCount, k)|
    ensures forall k :: KeyRun(r, NegCount, k) == KeyRun(entries, NegCount, k)[..|KeyRun(r, NegCount, k)|]
  {
    KeyOrderTotal(NegCount);
    forall k ensures |KeyRun(r, NegCount, k)| <= |KeyRun(entries, NegCount, k)|
      && KeyRun(r, NegCount, k) == KeyRun(entries, NegCount, k)[..|KeyRun(r, NegCount, k)|]
    {
      SortStable(entries, KeyOrder(NegCount), NegCount, k);
      KeyRunPrefix(p, |r|, NegCount, k);
    }
  }

  lemma RankedFromInput(g: Graph, names: seq<Name>, entries: seq<Ranked>, p: seq<Ranked>, e: Ranked)
    requires entries == RankEntries(g, names)
    requires multiset(p) == multiset(entries)
    requires e in p
    ensures e.name in names && e == RankEntry(g, e.name)
  {
    assert e in multiset(entries);
    var i :| 0 <= i < |entries| && entries[i] == e;
  }

  lemma LeftOutIsSmaller(g: Graph, names: seq<Name>, entries: seq<Ranked>, p: seq<Ranked>, n: nat, s: Name)
    requires entries == RankEntries(g, names)
    requires SortedBy(p, KeyOrder(NegCount)) && multiset(p) == multiset(entries)
    requires n <= |p|
    requires s in names && s !in RankedNames(p[..n])
    ensures forall i :: 0 <= i < n ==> p[i].lineCount >= |LinesOf(g, s)|
  {
    var m :| 0 <= m < |names| && names[m] == s;
    assert entries[m] in multiset(p);
    var j :| 0 <= j < |p| && p[j] == entries[m];
    assert forall t :: 0 <= t < n ==> p[t].name in RankedNames(p[..n]);
    assert p[j].name == s;
    var e := RankEntry(g, s);
    assert p[j] == e && e.lineCount == |LinesOf(g, s)|;
    forall i | 0 <= i < n ensures p[i].lineCount >= e.lineCount {
      assert i < j;
      assert KeyOrder(NegCount)(p[i], p[j]);
      assert NegCount(p[i]) <= NegCount(e);
    }
  }
}
