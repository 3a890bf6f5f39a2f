/** Three small rules of the web front end (app.py): how a typed station
    name is narrowed to one search or a choice among candidates, which
    stations the travel-time filter shows, and how a remembered time limit
    is restored. Rendering and session handling are not modelled. */
module AppRules {
  import opened Seqs
  import opened Text
  import opened RailGraph
  import opened Matching

  /** What pressing the search button leads to. */
  datatype Decision =
    | InputError            // no name typed
    | NotFound              // no candidate: a warning
    | Search(name: Name)    // run the search for this station
    | Offer(options: seq<Candidate>)  // let the user choose
    | Idle                  // a single candidate with an empty name: nothing runs

  function Exact(input: Name, cands: seq<Candidate>): (r: seq<Candidate>)
    ensures forall c :: c in r <==> c in cands && c.name == input
  {
    Filter(cands, (c: Candidate) => c.name == input)
  }

  function Primary(input: Name, cands: seq<Candidate>): (r: seq<Candidate>)
    ensures forall c :: c in r <==> c in cands && IsPrefix(input, c.name)
    ensures IsSubseq(r, cands)
  {
    FilterIsSubseq(cands, (c: Candidate) => IsPrefix(input, c.name));
    Filter(cands, (c: Candidate) => IsPrefix(input, c.name))
  }

  /** The narrowing rule (app.py:601-633) for the typed name and the
      candidates `find_station_candidates` returned. */
  function Narrow(input: Name, cands: seq<Candidate>): (d: Decision)
    ensures d == InputError <==> input == ""
    ensures d == NotFound <==> input != "" && cands == []
    ensures d == Idle <==> input != "" && |cands| == 1 && cands[0].name == ""
    ensures input != "" && |cands| == 1 && cands[0].name != "" ==> d == Search(cands[0].name)
    ensures d.Search? ==> d.name != "" && exists c :: c in cands && c.name == d.name
    ensures d.Search? && |cands| > 1 ==> IsPrefix(input, d.name)
    ensures d.Offer? ==> |d.options| >= 2 && IsSubseq(d.options, cands)
    ensures d.Offer? ==> d.options == cands || forall c :: c in d.options ==> IsPrefix(input, c.name)
    ensures input != "" && |cands| >= 2 && |Exact(input, cands)| != 1 ==>
      var primary := Primary(input, cands);
      && (|primary| >= 2 ==> d == Offer(primary))
      && (|primary| == 1 ==> d == Search(primary[0].name))
      && (|primary| == 0 ==> d == Offer(cands))
  {
    if input == "" then InputError
    else if |cands| == 0 then NotFound
    else if |cands| == 1 then (if cands[0].name != "" then Search(cands[0].name) else Idle)
    else
      var exact := Exact(input, cands);
      if |exact| == 1 then
        assert exact[0] in exact;
        Search(exact[0].name)
      else
        var primary := Primary(input, cands);
        if |primary| == 1 then
          assert primary[0] in primary;
          assert |primary[0].name| >= |input|;
          Search(primary[0].name)
        else if |primary| > 1 then Offer(primary)
        else
          SubseqRefl(cands);
          Offer(cands)
  }

  /** A name typed in full is searched directly when exactly one candidate
      carries it, whatever else matched. */
  lemma ExactWins(input: Name, cands: seq<Candidate>)
    requires input != "" && |Exact(input, cands)| == 1
    ensures Narrow(input, cands) == Search(input)
  {
    assert Exact(input, cands)[0] in Exact(input, cands);
  }

  /** When exactly one candidate starts with the typed name, that one is
      searched: an exact match also starts with the name, so the exact
      test can only pick the same station. */
  lemma UniquePrefixSearched(input: Name, cands: seq<Candidate>, c: Candidate)
    requires Distinct(cands)
    requires input != "" && c in cands && IsPrefix(input, c.name)
    requires forall x :: x in cands && IsPrefix(input, x.name) ==> x == c
    ensures Narrow(input, cands) == Search(c.name)
  {
    if |cands| == 1 {
      assert cands[0] == c;
    } else {
      var exact := Exact(input, cands);
      var primary := Primary(input, cands);
      assert c in primary;
      assert forall x :: x in primary ==> x == c;
      FilterDistinct(cands, (x: Candidate) => IsPrefix(input, x.name));
      OnlyOne(primary, c);
      if |exact| == 1 {
        assert exact[0] in exact;
        assert exact[0].name == input;
        assert IsPrefix(input, exact[0].name);
      }
    }
  }

  /** A duplicate-free list whose every element is c, and which holds c,
      is [c]. */
  lemma OnlyOne(s: seq<Candidate>, c: Candidate)
    requires Distinct(s) && c in s && forall x :: x in s ==> x == c
    ensures s == [c]
  {
    assert Elems(s) == {c};
    DistinctCard(s);
    assert s[0] in s;
  }

  /** A station as the result screen holds it. */
  datatype Shown = Shown(name: Name, travelTime: Option<int>)

  predicate WithinLimit(s: Shown, limit: int) {
    s.travelTime.Some? && s.travelTime.value <= limit
  }

  /** The travel-time filter (app.py:761-766): stations with a known
      travel time within the limit, in their order. */
  function FilterByTime(stations: seq<Shown>, limit: int): (r: seq<Shown>)
    ensures forall s :: s in r <==> s in stations && WithinLimit(s, limit)
    ensures IsSubseq(r, stations)
  {
    FilterIsSubseq(stations, (s: Shown) => WithinLimit(s, limit));
    Filter(stations, (s: Shown) => WithinLimit(s, limit))
  }

  /** Filtering twice is filtering once by the smaller limit. */
  lemma {:induction false} FilterByTimeTwice(stations: seq<Shown>, a: int, b: int)
    ensures FilterByTime(FilterByTime(stations, a), b) == FilterByTime(stations, if a <= b then a else b)
    decreases |stations|
  {
    if |stations| > 0 {
      FilterByTimeTwice(stations[1..], a, b);
      var s := stations[0];
      if WithinLimit(s, a) {
        assert FilterByTime(stations, a) == [s] + FilterByTime(stations[1..], a);
        assert ([s] + FilterByTime(stations[1..], a))[1..] == FilterByTime(stations[1..], a);
      }
    }
  }

  /** The slider's upper end (app.py:750-751): the largest known non-zero
      travel time, or 120 when there is none. */
  function MaxTime(times: seq<Option<int>>): (r: int)
    ensures forall i :: 0 <= i < |times| && times[i].Some? && times[i].value != 0 ==> times[i].value <= r
    ensures r == 120 || exists i :: 0 <= i < |times| && times[i].Some? && times[i].value != 0 && times[i].value == r
    ensures (forall i :: 0 <= i < |times| ==> times[i].None? || times[i].value == 0) ==> r == 120
  {
    var known := Filter(times, (t: Option<int>) => t.Some? && t.value != 0);
    assert forall i :: 0 <= i < |times| && times[i].Some? && times[i].value != 0 ==> times[i] in known;
    if known == [] then 120 else MaxOf(known)
  }

  /** The largest value of a non-empty list of present values. */
  function MaxOf(ts: seq<Option<int>>): (r: int)
    requires |ts| > 0 && forall t :: t in ts ==> t.Some?
    ensures forall t :: t in ts ==> t.value <= r
    ensures Some(r) in ts
  {
    if |ts| == 1 then ts[0].value
    else
      assert forall t :: t in ts[1..] ==> t in ts;
      var m := MaxOf(ts[1..]);
      if ts[0].value >= m then ts[0].value else m
  }

  /** The slider's starting value (app.py:753-757): a remembered limit is
      brought into [5, maxTime] (`max(5, min(saved, max_time))`), and
      without one the start is at most 60. */
  function DefaultLimit(saved: Option<int>, maxTime: int): (r: int)
    ensures saved.Some? ==> r >= 5 && (r <= maxTime || r == 5)
    ensures saved.Some? && 5 <= saved.value <= maxTime ==> r == saved.value
    ensures saved.Some? && saved.value > maxTime ==> r == (if maxTime >= 5 then maxTime else 5)
    ensures saved.Some? && saved.value < 5 ==> r == 5
    ensures saved.None? ==> r == (if maxTime <= 60 then maxTime else 60)
  {
    match saved
    case Some(t) => Max(5, Min(t, maxTime))
    case None => Min(60, maxTime)
  }

  function Min(a: int, b: int): int {
    if a <= b then a else b
  }

  function Max(a: int, b: int): int {
    if a >= b then a else b
  }

  /** Restoring a limit that was itself restored changes nothing. */
  lemma DefaultLimitStable(saved: int, maxTime: int)
    ensures DefaultLimit(Some(DefaultLimit(Some(saved), maxTime)), maxTime) == DefaultLimit(Some(saved), maxTime)
  {
  }
}
