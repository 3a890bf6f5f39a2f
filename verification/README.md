# Station Studio rail core in Dafny

This project models the rail-network core of Station Studio. Station Studio builds a rail graph from OpenStreetMap data. It searches which stations can be reached from a chosen station within a number of transfers, groups them by line, and estimates travel times. Around that core sit a few pure helpers: city-mode station lists and ranking, the web front end's candidate narrowing and travel-time filter, and the image fetcher's file-name and relevance rules.

The graph has three maps. `station_to_railways` maps a station to its set of lines. `railway_stations` maps a line to its ordered station list. `station_coords` maps a station to its coordinate. In the model these are `RailGraph.Graph`:
- a Python set of line names is a duplicate-free sequence in its iteration order, and every property is proved for every such order;
- a dictionary is a Dafny `map`, plus a key-order sequence where insertion order matters;
- floats are reals.

Modules, in the order the program runs:

- `Seqs`, `Text`, `Sorting`: the Python building blocks. These are distinctness, `Filter`, first-occurrence `Dedup`, `strip`, `rstrip`, `split(sep)[0]`, `str(n)` and string order. `sorted` is a stable insertion sort under a total preorder, with a stability lemma for key-induced orders.
- `Geo`: coordinates, the abstract great-circle distance `DistFn`, and the ordered region table with first-match lookup.
- `RailGraph`: the graph datatype and its well-formedness.
- `Clustering`: splitting nodes of one raw name into clusters 50 km apart, and naming the clusters.
- `Routes`: base line names, stop members, the median-point outlier filter, collapsing repeats, and merging the two directions of a line.
- `Build`: the whole `_build_graph_from_overpass`.
- `Matching`: exact, substring and fuzzy resolution of a typed name, and the candidate list.
- `Reach`: the breadth-first transfer search, as an imperative method over a FIFO queue with a processed set.
- `Grouping`: per-line groups of reachable stations, and the removal of groups contained in a larger one.
- `TravelTime`: `_estimate_travel_time` with half-to-even rounding.
- `StationMode`: the assembly of the station-mode result.
- `CityMode`: name extraction, the bounding-box filter and popularity ranking.
- `AppRules`: the narrowing rule, the travel-time filter and the slider's limits.
- `Images`: the file-name sanitiser, bracket stripping and the relevance test.

Behaviours of the code that the model keeps:
- Same-name clustering visits nodes in element order, the insertion order of `node_names_raw`. It does not visit them in ascending node id.
- When the incoming direction of a line is longer, the merge stores that very list and then appends to it. Stations missing from the old list therefore appear twice, and stations only the old list had are lost (`Routes.MergeAliasing`). So a station can list a line that no longer holds it (`Build.LinesOutliveMerge`).
- `find_reachable_stations` checks a candidate list for an entry equal to the input. The check only runs when the input is not a key, and every candidate is a key or a fuzzy suggestion drawn from the keys, so it never changes the pick. `Matching.Resolve` states the pick.
- The same-line travel time uses the first shared line that set iteration yields. The model takes the origin's line order.

## Model

| member | source | states |
|---|---|---|
| Text.Strip | transport_api.py:193 | `strip()` returns a contiguous piece of its input; only white space is cut on either side, and the result neither starts nor ends with white space |
| Text.StripIdempotent | image_fetcher.py:40 | stripping twice is stripping once |
| Text.RStripChar | transport_api.py:83 | `rstrip(c)` removes exactly the trailing run of c: the result is a prefix, everything cut is c, and the result does not end in c |
| Text.BeforeFirst | transport_api.py:193 | `split(sep)[0]` is a prefix without sep; it is the whole string exactly when sep does not occur, and otherwise is followed by sep in the input |
| Text.NatStrInjective | transport_api.py:165 | different running numbers print as different decimal strings |
| Text.LexLeTotal | transport_api.py:471 | Python's string order is total |
| Text.LexLeTransitive | transport_api.py:471 | Python's string order is transitive |
| Text.LexLeAntisymmetric | transport_api.py:471 | two strings ordered both ways are equal |
| Text.Join | transport_api.py:472 | `sep.join(parts)` is empty for no parts, starts with the first part, and puts the separator right after it when more parts follow |
| Text.JoinContainsPart | transport_api.py:472 | every part can be found in the joined string |
| Seqs.DedupOrder | city_mode.py:66-78 | first-occurrence de-duplication keeps the input order of first occurrences |
| Sorting.SortWith | city_mode.py:279 | `sorted` returns an ordered permutation of its input |
| Sorting.SortStable | city_mode.py:278-279 | sorting by a key keeps the input order among elements with equal keys |
| Sorting.KeyRunPrefix | city_mode.py:281 | cutting a sorted list short cuts each equal-key run to a prefix of that run |
| Geo.RegionFrom | transport_api.py:122-125 | scanning the table from position i gives "" iff no later box contains the point, else the label of the first box that does |
| Geo.RegionOf | transport_api.py:119-125 | `_get_region` is "" for a missing coordinate or a point in no box, and otherwise the label of the first box containing it; labels have no digits |
| Geo.LabelsNoDigits | transport_api.py:100-117 | no region label contains an ASCII digit |
| Geo.FirstMatchWins | transport_api.py:99-125 | a point in both the Tokyo and the Kanagawa box is labelled Tokyo, because table order decides |
| Clustering.FirstNear | transport_api.py:139-143 | the index found is the first cluster whose representative is under 50 km away, or the number of clusters when none is |
| Clustering.Place | transport_api.py:130-145 | a node with a coordinate joins the first near cluster, or opens a new cluster at its point; a coordinate-less node joins cluster 0, or opens a coordinate-less cluster when there is none |
| Clustering.ClusterNodes | transport_api.py:127-146 | every node lands in exactly one cluster (multiset of members equals the node ids), clusters are non-empty, there are no more clusters than nodes, and representatives are pairwise 50 km apart |
| Clustering.OneClusterEach | transport_api.py:130-146 | a node id lies in one cluster only |
| Clustering.NoCoordinatesOneCluster | transport_api.py:131-137 | nodes without coordinates never form more than one cluster |
| Clustering.ClusterNames | transport_api.py:159-170 | the names given to the clusters of one raw name are pairwise distinct |
| Clustering.NameFoldIsLabel | transport_api.py:159-168 | the running-count loop gives each cluster `name(region)` for the first cluster of its region and `name(region<n>)` for the n-th |
| Clustering.ClusterNamesDistinct | transport_api.py:159-170 | distinct clusters of a raw name receive distinct display names |
| Clustering.LabelInjective | transport_api.py:162-168 | different (region, running number) pairs give different labels |
| Clustering.GroupEntries | transport_api.py:150-170 | with at most one cluster every node keeps the raw name; otherwise every member of cluster k gets the k-th cluster name |
| Clustering.GroupEntriesIds | transport_api.py:150-170 | a raw name's nodes receive display-name entries exactly for their own ids |
| Clustering.AssignClusters | transport_api.py:160-170 | the entries pair each member id with its own cluster's name and nothing else |
| Routes.RouteName | transport_api.py:185-189 | the route name is the name tag, else the stripped `operator ref`, else `route_<id>`; it is never empty |
| Routes.BaseName | transport_api.py:193 | the base name is the route name cut at the first " : " and at the first full-width colon, then stripped; it contains neither separator |
| Routes.BaseNameIdempotent | transport_api.py:193 | the base name of a base name is itself |
| Routes.BaseNameOfDirection | transport_api.py:191-193 | for a trimmed line name x without separators, `x : direction` has base name x |
| Routes.SelectMembers | transport_api.py:197-205 | exactly the known node ids of members with a stop or platform role, or any node member of a `railway` route, are selected, in member order |
| Routes.SelectMembersConcat | transport_api.py:197-205 | selection works member by member, so the selected ids keep member order |
| Routes.Median | transport_api.py:211-212 | `sorted(xs)[n // 2]` is a value of xs with at most n/2 values below it and at most n - n/2 - 1 above |
| Routes.KeepMembers | transport_api.py:207-218 | with fewer than three coordinates every member is kept; otherwise exactly the members not more than 150 km from the median point are kept, each as often as in the input; coordinate-less members are always kept; order is preserved |
| Routes.Collapse | transport_api.py:220-225 | the ordered list has no two equal neighbours, holds exactly the names of the input, and ends with the input's last name |
| Routes.CollapseFixed | transport_api.py:220-225 | a list without adjacent repeats is left unchanged |
| Routes.CollapseIdempotent | transport_api.py:220-225 | collapsing twice is collapsing once |
| Routes.CollapseIsRuns | transport_api.py:220-225 | the collapsing loop leaves one name for each run of equal neighbours, in order |
| Routes.OrderedStations | transport_api.py:195-225 | a route's station list has no adjacent repeats, and each station is the display name of a selected member that survived the outlier filter |
| Routes.MergeLine | transport_api.py:229-239 | after a merge every incoming station is on the line; when the incoming list is not longer, the line is the old list followed by the new stations, each once, in encounter order; when it is longer, the line starts with the incoming list and holds only incoming stations |
| Routes.MergeLineOrder | transport_api.py:234-237 | the stations appended after the kept list come in the order of the incoming list |
| Routes.MergeLineCovered | transport_api.py:229-237 | merging a direction that is not longer and whose stations are all on the line leaves the line as it was |
| Routes.MergeAliasing | transport_api.py:232-239 | merging [A, C, D] into [A, B] stores [A, C, D, C, D] and loses B |
| Build.IndexNodes | transport_api.py:77-86 | every station node is indexed under its id; the last node of an id decides the cleaned name, the last one with a coordinate decides the coordinate, and ids keep their first position |
| Build.GroupNodes | transport_api.py:91-97 | `name_to_nodes[cname]` lists exactly the indexed nodes with that raw name, each with its coordinate if it has one |
| Build.GroupNames | transport_api.py:150 | the raw names are listed once each, and every indexed node's raw name is listed |
| Build.Assign | transport_api.py:149-170 | dictionary assignment in order: the keys are the ids assigned, and the last write of an id wins |
| Build.NodeNames | transport_api.py:148-170 | every indexed station node gets a display name, and no other id does |
| Build.NodeNamesOneArea | transport_api.py:152-155 | a node whose raw name forms a single cluster is named by the raw name |
| Build.NodeNamesApart | transport_api.py:156-170 | two nodes of one raw name in different clusters get different display names |
| Build.NodeNameOrder | transport_api.py:148-170 | the key order of `node_names` lists each id once, and only indexed ids |
| Build.StationCoords | transport_api.py:246-250 | a display name has a coordinate iff one of its nodes has one, and it is the coordinate of the first such node in key order |
| Build.AddLine | transport_api.py:243-244 | adding a line to a station gives it exactly its old lines plus that line, appends a new station to the station order, and leaves every other station as it was |
| Build.AddLines | transport_api.py:243-244 | the station order grows by the route's new stations in first-occurrence order; each station of the route lists exactly its old lines plus the line; other stations are untouched |
| Build.AddRoute | transport_api.py:227-244 | a route of fewer than two stations changes nothing; otherwise the line becomes the merge of its stored list with the route, every station of the route lists exactly its old lines plus the line, other stations and lines are untouched, and "every station of a stored line lists it, every stored line has two stations" is kept |
| Build.MergedStations | transport_api.py:229-239 | the merged line holds every incoming station, and nothing but incoming or previously stored stations |
| Build.RelationStep | transport_api.py:176-244 | one relation changes only what it feeds: a line exists afterwards iff it existed or the relation adds it, a station lists a line iff it did or the relation feeds it that line, every station on a line was on it before or was fed by the relation, every station the relation feeds is on the line afterwards, and lines it does not add are unchanged |
| Build.AddRelations | transport_api.py:176-244 | over all relations: a line exists iff some relation adds it, a station lists a line iff some relation feeds it, every station on a line was fed to it, and the last relation adding a line leaves all its stations on it |
| Build.BuildGraph | transport_api.py:64-252 | the graph is well formed, every station of a stored line lists it, every stored line has at least two stations; the lines are exactly those some relation adds, a station lists a line exactly when some relation feeds it, and the coordinates are those of the first node of each display name |
| Build.LinesOutliveMerge | transport_api.py:229-244 | after a route [A, B] and a longer route [C, D, E] of one line, A still lists the line but the line no longer holds A |
| Build.LongerRouteDrops | transport_api.py:229-244 | for any line stored first from route a and then from a longer route b, a station of a missing from b still lists the line but is no longer on it |
| Matching.SubstringMatches | transport_api.py:314 | the substring candidates are exactly the station keys containing the input, in key order |
| Matching.Resolve | transport_api.py:311-329 | the silent pick is the input when it is a key, else the first substring match, else the first fuzzy suggestion; it is None exactly when nothing matches, and always a key otherwise |
| Matching.SortedLines | transport_api.py:471 | a station's lines come sorted, as a permutation of its line set |
| Matching.MakeCandidate | transport_api.py:470-473 | a candidate carries its sorted lines; its caption is the name, a full-width opening bracket, the lines joined by " / " and a full-width closing bracket, or the bare name when it has no line |
| Matching.CaptionNamesLines | transport_api.py:470-473 | every line of the station is written out in its caption |
| Matching.CandidateNames | transport_api.py:453-463 | the offered names are the input alone on an exact key, else all substring matches, else at most five fuzzy suggestions |
| Matching.FindStationCandidates | transport_api.py:442-475 | one candidate per offered name, in order; exactly one on an exact key; empty exactly when nothing matches |
| Reach.AddTo | transport_api.py:344 | `station_railway_map[s].add(rw)` adds rw to s's lines, keeps them duplicate-free, and changes no other station |
| Reach.Successors | transport_api.py:372-376 | the entries queued from a station are its other lines whose pair is not processed, at one more transfer, in line order |
| Reach.SuccessorsCover | transport_api.py:372-376 | the queued entries are exactly the station's other unprocessed lines, at the given transfer count |
| Reach.SuccessorsOrder | transport_api.py:372-376 | the queued lines follow the station's line order, without repeats |
| Reach.VisitStation | transport_api.py:368-376 | visiting a station records it with the smaller transfer count, adds the line to its lines, and queues only unprocessed pairs within the bound |
| Reach.WalkLine | transport_api.py:358-376 | walking a line visits every station of it that is not too far, keeping the search invariants |
| Reach.Explore | transport_api.py:336-376 | every recorded station other than the origin is within the bound, not too far, and witnessed by an expanded entry; no (station, line) pair is expanded twice, and none beyond the bound; with a non-negative bound, a station is at zero transfers iff it is on an origin line and not too far |
| Reach.ReachableList | transport_api.py:378-381 | the reachable list is the visited stations minus the origin, ascending by transfer count, stable among equal counts |
| Reach.VisitedReached | transport_api.py:336-376 | soundness: every recorded station other than the origin is reachable at its recorded transfer count |
| Reach.ReachedVisited | transport_api.py:336-376 | completeness: every station reachable with k transfers is recorded with at most k, and every station of a reached line that is not too far is mapped to that line |
| Reach.ReachFrom | transport_api.py:336-381 | from a station key, the list holds exactly the stations other than the origin that are reachable within the bound, each recorded at its least transfer count, ascending by that count |
| Reach.FindReachable | transport_api.py:302-386 | an unknown name without a match yields no stations and an empty map; otherwise the list holds exactly the stations other than the resolved origin that are reachable within the bound, once each, ascending by their least transfer count, none too far; with a bound of 0 only stations on the origin's lines |
| Grouping.LineGroup | transport_api.py:416-421 | one line's group holds, once each and in line order, exactly its reachable stations other than the origin |
| Grouping.LineGroupIsDedup | transport_api.py:416-421 | the line group is the line filtered to reachable non-origin stations, with first occurrences kept |
| Grouping.ByRailway | transport_api.py:411-423 | `by_railway` has the non-empty group of every relevant line that has a station list, and nothing else |
| Grouping.SortBySize | transport_api.py:428 | groups are sorted by non-increasing size, as a permutation, and stably among equal sizes |
| Grouping.Absorb | transport_api.py:429-437 | a group is kept unless an already kept group contains all its stations |
| Grouping.AbsorbCovers | transport_api.py:429-437 | every group is kept or contained in a kept group |
| Grouping.Antichain | transport_api.py:427-437 | kept groups taken largest first are never contained in one another |
| Grouping.MergedGroups | transport_api.py:403-437 | the merged groups are full, non-empty groups of reachable non-origin stations, largest first; none is contained in another; every dropped group is contained in a kept one; every reachable station on a relevant line is in some group |
| TravelTime.RoundHalfEven | station_mode.py:54-56 | `round` returns an integer within one half, with ties going to the even neighbour |
| TravelTime.SumFrom | station_mode.py:44-51 | the distance loop succeeds iff every station in range has a coordinate, and then returns the summed adjacent distances |
| TravelTime.RouteTime | station_mode.py:39-56 | `_route_time` is at least 1; with coordinates throughout and a positive distance d it is `max(1, round(d*1.3/60*60))`, otherwise `max(1, round(gaps*2.5))` |
| TravelTime.RouteTimeSymmetric | station_mode.py:41 | `_route_time` does not depend on the order of its two indices |
| TravelTime.FallbackMinutes | station_mode.py:56 | the fallback gives 1, 2, 5 and 8 minutes for 0 to 3 gaps |
| TravelTime.TransferTime | station_mode.py:79-83 | a one-transfer time is both legs plus 5, so at least 7 |
| TravelTime.ViaLines | station_mode.py:68-78 | the transfer loops enumerate exactly the routes from an origin line, via an intermediate station other than the origin, to a line shared with the target |
| TravelTime.Fastest | station_mode.py:79-85 | the running best is attained by a listed route, and no listed route is faster |
| TravelTime.BestTransfer | station_mode.py:66-87 | the one-transfer estimate is the least time over all one-transfer routes, and None exactly when there is none |
| TravelTime.Estimate | station_mode.py:29-87 | with a shared line holding both stations, the estimate is that line's time; otherwise it is the best one-transfer time, at least 7; it is None exactly when neither route kind exists |
| StationMode.LineEntries | station_mode.py:116-138 | a group emits, in line order and once each, exactly its unseen stations with an estimate of at most 90 minutes, and marks exactly those seen |
| StationMode.GroupEntries | station_mode.py:112-144 | railway entries are non-empty, the flat station list is their concatenation, no station is emitted twice, and every listed station of any group is emitted |
| StationMode.GroupEntriesNames | station_mode.py:112-144 | the emitted stations are the listed stations of all groups in group order, each at its first occurrence |
| StationMode.GroupEntriesRailOrder | station_mode.py:112-144 | railway entries appear in group order |
| StationMode.GroupEntriesHolder | station_mode.py:112-144 | each emitted station sits in the railway entry of the first group that holds it |
| StationMode.PickBase | station_mode.py:102 | `matched_name or base_station` falls back to the input for a missing or empty match |
| StationMode.Assemble | station_mode.py:97-153 | no result iff nothing was reachable and there were no groups; otherwise the emitted stations are the listed stations of the groups in group order, once each, each under the railway entry of the first group holding it; empty railways are dropped and the total is the length of the flat list |
| StationMode.ListedExactly | station_mode.py:112-144 | starting from nothing seen, a station of a group is emitted exactly when its estimate is at most 90 minutes |
| StationMode.RelevantOrder | transport_api.py:406-409 | the relevant lines are every line of a reachable station, each once |
| StationMode.RunStationMode | station_mode.py:90-153 | no result iff the name does not resolve or nothing is reachable from it; a result's total is its station count and its match is the resolved name; every entry is a reachable station with an estimate of at most 90 minutes; every reachable station on one of its lines with such an estimate is emitted |
| StationMode.Search | transport_api.py:302-386 | the search resolves the name and lists exactly the stations reachable from it |
| CityMode.CleanName | city_mode.py:74 | `rstrip("駅")` removes exactly the trailing 駅 run |
| CityMode.ExtractIsDedup | city_mode.py:66-78 | the extraction loop equals first-occurrence de-duplication of the cleaned non-empty names |
| CityMode.ExtractNamesComplete | city_mode.py:113-123 | every non-empty raw name appears, cleaned, exactly once, and nothing else does |
| CityMode.BboxFilter | city_mode.py:156-164 | a name is kept iff some row for it lies inside the box (bounds inclusive, a missing field read as 0), each name once |
| CityMode.BboxIsDedup | city_mode.py:156-164 | the box filter lists the names inside the box in order of first appearance |
| CityMode.RankEntry | city_mode.py:265-276 | a ranked entry's line count is the number of lines of the name, and its lines are sorted |
| CityMode.RankStations | city_mode.py:252-283 | the ranking has min(top_n, n) entries of input names, in non-increasing line count; no name left out has more lines than one kept; equal counts keep input order |
| AppRules.Narrow | app.py:601-633 | an empty name is an error; no candidate is a warning; a single candidate is searched; otherwise a unique exact match is searched, else a unique prefix match is searched, else two or more prefix matches are offered, else all candidates are offered |
| AppRules.ExactWins | app.py:617-620 | with a unique exact-name candidate the typed name is searched |
| AppRules.UniquePrefixSearched | app.py:622-626 | with exactly one candidate starting with the typed name, that one is searched |
| AppRules.FilterByTime | app.py:761-766 | the filter keeps, in order, exactly the stations with a known travel time within the limit |
| AppRules.FilterByTimeTwice | app.py:761-766 | filtering twice is filtering once by the smaller limit |
| AppRules.MaxTime | app.py:750-751 | the slider's upper end is the largest known non-zero travel time, or 120 when there is none |
| AppRules.DefaultLimit | app.py:753-757 | a remembered limit is clamped to `max(5, min(saved, max_time))`; without one the start is `min(60, max_time)` |
| AppRules.DefaultLimitStable | app.py:753-755 | restoring an already restored limit changes nothing |
| Images.Fix | image_fetcher.py:39 | a character changes iff it is forbidden in file names, and the result is never forbidden |
| Images.Sanitize | image_fetcher.py:37-40 | the sanitised name has no forbidden character and is the replaced string with only surrounding white space cut |
| Images.SanitizeIdempotent | image_fetcher.py:37-40 | sanitising twice is sanitising once |
| Images.CloserFrom | image_fetcher.py:354 | the non-greedy search finds the first position where a bracketed segment can close |
| Images.StripSegments | image_fetcher.py:354 | removing bracketed segments yields a subsequence of the name; a name without openers is unchanged; a leading closed segment is dropped and a leading character that opens nothing is kept |
| Images.KeepPlain | image_fetcher.py:354 | text without openers is kept in front of whatever the rest becomes |
| Images.DropSegment | image_fetcher.py:354 | a closed bracketed segment at the front is removed whole |
| Images.KeepUnclosed | image_fetcher.py:354 | an opener with no closer after it is kept |
| Images.SearchName | image_fetcher.py:354-355 | the search name is the cleaned name, or the original when cleaning leaves nothing; it is empty exactly for an empty name |
| Images.RegionSuffixExample | image_fetcher.py:351-355 | `赤坂(東京)` is searched as `赤坂` |
| Images.LineSuffixExample | image_fetcher.py:351-355 | `二重橋前〈丸の内〉` is searched as `二重橋前` |
| Images.FoundReduced | image_fetcher.py:248-252 | checking the four names, empty ones skipped, amounts to finding the name, the cleaned name, or 駅 when the cleaned name is empty |
| Images.IsRelevant | image_fetcher.py:239-257 | a hit is relevant iff its text contains the name or the cleaned name, or 駅 when the cleaned name is empty |

## Left out

- HTTP calls: Overpass, Nominatim, Wikipedia, Google and Wikimedia requests, with their retries. The model starts from the element list they return.
- The graph cache in `fetch_rail_graph` and every file read or write, including the JSON report of `run_station_mode`.
- The haversine formula. Distances come from the parameter `dist`, a function of two coordinates, and the 50, 80 and 150 km thresholds are stated against it.
- `difflib.get_close_matches`. It is the parameter `close`, constrained only to return at most n of the offered names.
- `fetch_passenger_count`, the Streamlit rendering, login, archive packaging, map zoom and the background download thread: scraping, user interface and concurrency.
- The fallback searches of `run_city_mode` and how city mode picks between them: network control flow around the modelled loops.
- Floating-point rounding. Reals stand for floats, so `d * 1.3 / 60 * 60` is exact in the model.
- Python set iteration order. Properties are proved for every order, except that the shared line the travel time uses follows the origin's line order.
- TravelTime.Estimate: states the time for some shared line holding both stations, not which line set iteration would yield first.
- Reach.FindReachable: the source returns no transfer counts, so the ordering is stated against `visited`, which the method returns only as a ghost out-parameter.
- CityMode.RankStations: `top_n` is a natural number; Python's negative slice bound is not modelled.
