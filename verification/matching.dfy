/** Resolving a typed station name against the graph's station keys
    (transport_api.py:311-329 and 442-475): exact key, else every key
    containing the input, else the fuzzy matcher's suggestions. */
module Matching {
  import opened Seqs
  import opened Text
  import opened Sorting
  import opened RailGraph

  /** `difflib.get_close_matches(word, possibilities, n)`, left abstract. */
  type FuzzyFn = (Name, seq<Name>, nat) -> seq<Name>

  /** What the fuzzy matcher promises: at most n suggestions, each one of
      the offered names. */
  ghost predicate FuzzyOracle(close: FuzzyFn) {
    forall q, names, n :: |close(q, names, n)| <= n && forall x :: x in close(q, names, n) ==> x in names
  }

  /** The station keys containing q, in key order. */
  function SubstringMatches(g: Graph, q: Name): (r: seq<Name>)
    ensures forall s :: s in r <==> s in g.stations && Contains(s, q)
    ensures IsSubseq(r, g.stations)
  {
    FilterIsSubseq(g.stations, (s: Name) => Contains(s, q));
    Filter(g.stations, (s: Name) => Contains(s, q))
  }

  /** The silent pick in `find_reachable_stations`: the name itself when it
      is a station, else the first substring match, else the first of at
      most three fuzzy suggestions; None when nothing matches. A candidate
      equal to the name would win (the first element of the exact-match
      list is the name itself), but no candidate can equal a name that is
      not a key. */
  function Resolve(g: Graph, q: Name, close: FuzzyFn): (r: Option<Name>)
    requires WellFormed(g) && FuzzyOracle(close)
    ensures r.Some? ==> r.value in g.lines
    ensures q in g.lines ==> r == Some(q)
    ensures q !in g.lines && SubstringMatches(g, q) != [] ==> r == Some(SubstringMatches(g, q)[0])
    ensures r.None? <==> q !in g.lines && SubstringMatches(g, q) == [] && close(q, g.stations, 3) == []
    ensures r.Some? && q !in g.lines ==> Contains(r.value, q) || r.value in close(q, g.stations, 3)
    ensures q !in g.lines && SubstringMatches(g, q) == [] && close(q, g.stations, 3) != [] ==>
      r == Some(close(q, g.stations, 3)[0])
  {
    if q in g.lines then Some(q)
    else
      var sub := SubstringMatches(g, q);
      var candidates := if sub != [] then sub else close(q, g.stations, 3);
      if candidates == [] then None
      else
        assert candidates[0] in candidates;
        Some(if q in candidates then q else candidates[0])
  }

  /** Python's `sorted` on strings is a total preorder. */
  lemma LexOrder()
    ensures TotalPreorder((a: string, b: string) => LexLe(a, b))
  {
    forall a: string, b: string ensures LexLe(a, b) || LexLe(b, a) {
      LexLeTotal(a, b);
    }
    forall a: string, b: string, c: string | LexLe(a, b) && LexLe(b, c) ensures LexLe(a, c) {
      LexLeTransitive(a, b, c);
    }
  }

  /** A station's lines in ascending name order. */
  function SortedLines(g: Graph, s: Name): (r: seq<Name>)
    ensures SortedBy(r, (a: string, b: string) => LexLe(a, b))
    ensures multiset(r) == multiset(LinesOf(g, s))
  {
    LexOrder();
    SortWith(LinesOf(g, s), (a: string, b: string) => LexLe(a, b))
  }

  /** One entry of the candidate list. */
  datatype Candidate = Candidate(name: Name, railways: seq<Name>, caption: string)

  /** The candidate for a station: its sorted lines and the caption
      `name（line / line）`, or the bare name for a station without lines. */
  function MakeCandidate(g: Graph, name: Name): (c: Candidate)
    ensures c.name == name && c.railways == SortedLines(g, name)
    ensures c.railways == [] <==> LinesOf(g, name) == []
    ensures c.railways == [] ==> c.caption == name
    ensures c.railways != [] ==> IsPrefix(name + "（", c.caption) && c.caption[|c.caption| - 1] == '）'
    ensures c.railways != [] ==> c.caption[|name| + 1..|c.caption| - 1] == Join(c.railways, " / ")
  {
    var rws := SortedLines(g, name);
    if rws == [] then
      assert |multiset(LinesOf(g, name))| == 0;
      Candidate(name, rws, name)
    else
      var mid := Join(rws, " / ");
      Bracketed(name, mid);
      Candidate(name, rws, name + "（" + mid + "）")
  }

  /** Where the pieces of `name（mid）` sit. */
  lemma Bracketed(name: string, mid: string)
    ensures var cap := name + "（" + mid + "）";
      && IsPrefix(name + "（", cap) && cap[|cap| - 1] == '）'
      && cap[|name| + 1..|cap| - 1] == mid
  {
    var cap := name + "（" + mid + "）";
    assert cap[..|name + "（"|] == name + "（";
    assert cap[|name| + 1..|cap| - 1] == mid;
  }

  /** Every line of a station is written out in its caption. */
  lemma CaptionNamesLines(g: Graph, name: Name, rw: Name)
    requires rw in LinesOf(g, name)
    ensures Contains(MakeCandidate(g, name).caption, rw)
  {
    var c := MakeCandidate(g, name);
    assert rw in multiset(c.railways);
    var i :| 0 <= i < |c.railways| && c.railways[i] == rw;
    var joined := Join(c.railways, " / ");
    JoinContainsPart(c.railways, " / ", i);
    ContainsExtend(joined, "）", rw);
    ContainsAfter(name + "（", joined + "）", rw);
    assert c.caption == name + "（" + (joined + "）");
  }

  /** The names offered: the exact key alone, else the substring matches,
      else at most five fuzzy suggestions. */
  function CandidateNames(g: Graph, q: Name, close: FuzzyFn): (r: seq<Name>)
    requires FuzzyOracle(close)
    ensures q in g.lines ==> r == [q]
    ensures q !in g.lines && SubstringMatches(g, q) != [] ==> r == SubstringMatches(g, q)
    ensures q !in g.lines && SubstringMatches(g, q) == [] ==> r == close(q, g.stations, 5) && |r| <= 5
    ensures forall s :: s in r ==> s in g.stations || s == q
  {
    if q in g.lines then [q]
    else
      var sub := SubstringMatches(g, q);
      if sub != [] then sub else close(q, g.stations, 5)
  }

  /** `find_station_candidates`: one candidate per offered name, in order;
      the list is empty exactly when the name is no key and nothing
      matches. */
  function FindStationCandidates(g: Graph, q: Name, close: FuzzyFn): (r: seq<Candidate>)
    requires FuzzyOracle(close)
    ensures |r| == |CandidateNames(g, q, close)|
    ensures forall i :: 0 <= i < |r| ==> r[i] == MakeCandidate(g, CandidateNames(g, q, close)[i])
    ensures q in g.lines ==> |r| == 1 && r[0].name == q
    ensures r == [] <==> q !in g.lines && SubstringMatches(g, q) == [] && close(q, g.stations, 5) == []
  {
    var names := CandidateNames(g, q, close);
    seq(|names|, i requires 0 <= i < |names| => MakeCandidate(g, names[i]))
  }
}
