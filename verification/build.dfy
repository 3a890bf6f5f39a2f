/** `_build_graph_from_overpass` (transport_api.py:64-252): station nodes
    are indexed by id, same-named nodes get display names, every rail route
    relation is reduced to an ordered station list and merged into its line,
    and each display name gets the coordinate of its first node. */
module Build {
  import opened Seqs
  import opened Text
  import opened Geo
  import opened Clustering
  import opened RailGraph
  import opened Routes

  /** The Overpass elements the builder reads; ways and anything else are
      ignored. An absent string tag reads as "". */
  datatype Element =
    | NodeElem(id: NodeId, name: string, railway: string, coord: Option<Coord>)
    | RelationElem(rel: Relation)
    | OtherElem

  /** A named node tagged as a station, halt or stop. */
  predicate IsStationNode(e: Element) {
    e.NodeElem? && e.name != "" && (e.railway == "station" || e.railway == "halt" || e.railway == "stop")
  }

  /** `name.rstrip("駅")`. */
  function CleanName(name: string): string {
    RStripChar(name, '駅')
  }

  /** `node_names_raw` (its keys in insertion order and its values) and
      `node_coords`. */
  datatype RawIndex = RawIndex(order: seq<NodeId>, names: map<NodeId, Name>, coords: map<NodeId, Coord>)

  ghost predicate IndexWF(ix: RawIndex) {
    Distinct(ix.order) && Elems(ix.order) == ix.names.Keys && ix.coords.Keys <= ix.names.Keys
  }

  predicate StationAt(es: seq<Element>, i: int, id: NodeId) {
    0 <= i < |es| && IsStationNode(es[i]) && es[i].id == id
  }

  /** Some station node has this id. */
  predicate HasStation(es: seq<Element>, id: NodeId) {
    exists i :: 0 <= i < |es| && StationAt(es, i, id)
  }

  /** Some station node with this id carries a coordinate. */
  predicate HasCoord(es: seq<Element>, id: NodeId) {
    exists i :: 0 <= i < |es| && StationAt(es, i, id) && es[i].coord.Some?
  }

  /** es[i] is the last station node with its id: a later node with the
      same id overwrites the name (dictionary assignment). */
  predicate LastStationAt(es: seq<Element>, i: int) {
    && 0 <= i < |es| && IsStationNode(es[i])
    && forall j :: i < j < |es| ==> !StationAt(es, j, es[i].id)
  }

  /** es[i] is the last station node with its id that carries a coordinate;
      a later coordinate-less node does not remove it. */
  predicate LastCoordAt(es: seq<Element>, i: int) {
    && 0 <= i < |es| && IsStationNode(es[i]) && es[i].coord.Some?
    && forall j :: i < j < |es| ==> !(StationAt(es, j, es[i].id) && es[j].coord.Some?)
  }

  /** The ids of the station nodes in element order, repeats included. */
  function StationIds(es: seq<Element>): seq<NodeId>
    decreases |es|
  {
    if |es| == 0 then []
    else
      var e := es[|es| - 1];
      StationIds(es[..|es| - 1]) + (if IsStationNode(e) then [e.id] else [])
  }

  /** StationIds lists exactly the ids that have a station node. */
  lemma {:induction false} StationIdsHas(es: seq<Element>)
    ensures forall id :: id in StationIds(es) <==> HasStation(es, id)
    decreases |es|
  {
    if |es| > 0 {
      StationIdsHas(es[..|es| - 1]);
      StationsStep(es);
    } else {
      assert forall id :: !HasStation(es, id);
    }
  }

  /** What the node loop leaves behind for the elements es. */
  ghost predicate Indexes(es: seq<Element>, r: RawIndex) {
    && IndexWF(r)
    && r.order == Dedup(StationIds(es), {})
    && (forall id :: id in r.names <==> HasStation(es, id))
    && (forall i :: LastStationAt(es, i) ==> es[i].id in r.names && r.names[es[i].id] == CleanName(es[i].name))
    && (forall id :: id in r.coords <==> HasCoord(es, id))
    && (forall i :: LastCoordAt(es, i) ==> es[i].id in r.coords && r.coords[es[i].id] == es[i].coord.value)
  }

  /** The node loop: every station node is indexed under its id, the last
      node of an id deciding its cleaned name and the last one with a
      coordinate deciding its coordinate; ids keep their first position. */
  function IndexNodes(es: seq<Element>): (r: RawIndex)
    ensures Indexes(es, r)
    decreases |es|
  {
    if |es| == 0 then RawIndex([], map[], map[])
    else
      var init := es[..|es| - 1];
      var e := es[|es| - 1];
      var r := IndexNodes(init);
      if IsStationNode(e) then
        var r' := RawIndex(if e.id in r.names then r.order else r.order + [e.id],
                           r.names[e.id := CleanName(e.name)],
                           if e.coord.Some? then r.coords[e.id := e.coord.value] else r.coords);
        IndexStep(es, r, r');
        r'
      else
        IndexSkip(es, r);
        r
  }

  lemma IndexStep(es: seq<Element>, r: RawIndex, r': RawIndex)
    requires |es| > 0 && IsStationNode(es[|es| - 1])
    requires Indexes(es[..|es| - 1], r)
    requires var e := es[|es| - 1];
      r' == RawIndex(if e.id in r.names then r.order else r.order + [e.id],
                     r.names[e.id := CleanName(e.name)],
                     if e.coord.Some? then r.coords[e.id := e.coord.value] else r.coords)
    ensures Indexes(es, r')
  {
    StationsStep(es);
    CoordsStep(es);
    LastNameStep(es, r.names);
    LastCoordStep(es, r.coords);
    IndexOrderStep(es, r, r');
  }

  /** The key order of the grown index. */
  lemma IndexOrderStep(es: seq<Element>, r: RawIndex, r': RawIndex)
    requires |es| > 0 && IsStationNode(es[|es| - 1])
    requires IndexWF(r) && r.order == Dedup(StationIds(es[..|es| - 1]), {})
    requires forall id :: id in r.names <==> HasStation(es[..|es| - 1], id)
    requires var e := es[|es| - 1];
      r' == RawIndex(if e.id in r.names then r.order else r.order + [e.id],
                     r.names[e.id := CleanName(e.name)],
                     if e.coord.Some? then r.coords[e.id := e.coord.value] else r.coords)
    ensures IndexWF(r') && r'.order == Dedup(StationIds(es), {})
  {
    var e := es[|es| - 1];
    OrderStep(es, r.order, r.names);
    assert r'.order == Dedup(StationIds(es), {});
    IndexKeysStep(r, e.id, CleanName(e.name), r');
  }

  /** Adding an id to the key order on its first assignment keeps the key
      order and the keys in step. */
  lemma IndexKeysStep(r: RawIndex, id: NodeId, name: Name, r': RawIndex)
    requires Elems(r.order) == r.names.Keys && r.coords.Keys <= r.names.Keys
    requires r'.order == (if id in r.names then r.order else r.order + [id])
    requires r'.names == r.names[id := name]
    requires r'.coords.Keys <= r.coords.Keys + {id}
    ensures Elems(r'.order) == r'.names.Keys && r'.coords.Keys <= r'.names.Keys
  {
    if id !in r.names {
      assert Elems(r.order + [id]) == Elems(r.order) + {id};
    }
  }

  /** An id joins the key order when its first station node is met. */
  lemma OrderStep(es: seq<Element>, order: seq<NodeId>, names: map<NodeId, Name>)
    requires |es| > 0
    requires order == Dedup(StationIds(es[..|es| - 1]), {})
    requires forall id :: id in names <==> HasStation(es[..|es| - 1], id)
    ensures var e := es[|es| - 1];
      Dedup(StationIds(es), {}) ==
        if !IsStationNode(e) || e.id in names then order else order + [e.id]
  {
    var init := es[..|es| - 1];
    var e := es[|es| - 1];
    var ids := StationIds(init);
    if IsStationNode(e) {
      assert StationIds(es) == ids + [e.id];
      StationIdsHas(init);
      assert e.id in names <==> e.id in ids;
      DedupSnoc(ids, {}, e.id);
      assert Dedup(ids + [e.id], {}) == if e.id in ids then order else order + [e.id];
    } else {
      assert StationIds(es) == ids + [];
      assert ids + [] == ids;
    }
  }

  /** The ids with a station node grow by the last element's id when it is
      a station node. */
  lemma StationsStep(es: seq<Element>)
    requires |es| > 0
    ensures forall id :: HasStation(es, id) <==>
      HasStation(es[..|es| - 1], id) || StationAt(es, |es| - 1, id)
  {
    var init := es[..|es| - 1];
    forall id ensures HasStation(es, id) <==> HasStation(init, id) || StationAt(es, |es| - 1, id) {
      if HasStation(init, id) {
        var i :| 0 <= i < |init| && StationAt(init, i, id);
        assert StationAt(es, i, id);
      }
      if HasStation(es, id) {
        var i :| 0 <= i < |es| && StationAt(es, i, id);
        if i < |init| {
          assert StationAt(init, i, id);
        }
      }
    }
  }

  /** Likewise for the ids with a coordinate-carrying station node. */
  lemma CoordsStep(es: seq<Element>)
    requires |es| > 0
    ensures forall id :: HasCoord(es, id) <==>
      HasCoord(es[..|es| - 1], id) || (StationAt(es, |es| - 1, id) && es[|es| - 1].coord.Some?)
  {
    var init := es[..|es| - 1];
    forall id ensures HasCoord(es, id) <==> HasCoord(init, id) || (StationAt(es, |es| - 1, id) && es[|es| - 1].coord.Some?) {
      if HasCoord(init, id) {
        var i :| 0 <= i < |init| && StationAt(init, i, id) && init[i].coord.Some?;
        assert StationAt(es, i, id);
      }
      if HasCoord(es, id) {
        var i :| 0 <= i < |es| && StationAt(es, i, id) && es[i].coord.Some?;
        if i < |init| {
          assert StationAt(init, i, id);
        }
      }
    }
  }

  /** A node that is last of its id in es, other than the last element, is
      last of its id in the prefix too. */
  lemma LastStationInit(es: seq<Element>, i: int)
    requires LastStationAt(es, i) && i < |es| - 1
    ensures LastStationAt(es[..|es| - 1], i)
  {
    var init := es[..|es| - 1];
    forall j | i < j < |init| ensures !StationAt(init, j, init[i].id) {
      assert !StationAt(es, j, es[i].id);
    }
  }

  lemma LastCoordInit(es: seq<Element>, i: int)
    requires LastCoordAt(es, i) && i < |es| - 1
    ensures LastCoordAt(es[..|es| - 1], i)
  {
    var init := es[..|es| - 1];
    forall j | i < j < |init| ensures !(StationAt(init, j, init[i].id) && init[j].coord.Some?) {
      assert !(StationAt(es, j, es[i].id) && es[j].coord.Some?);
    }
  }

  /** Assigning the last node's cleaned name keeps every last-of-its-id
      node's name. */
  lemma LastNameStep(es: seq<Element>, names: map<NodeId, Name>)
    requires |es| > 0
    requires forall i :: LastStationAt(es[..|es| - 1], i) ==>
      es[i].id in names && names[es[i].id] == CleanName(es[i].name)
    ensures var e := es[|es| - 1];
      var names' := if IsStationNode(e) then names[e.id := CleanName(e.name)] else names;
      forall i :: LastStationAt(es, i) ==> es[i].id in names' && names'[es[i].id] == CleanName(es[i].name)
  {
    var n := |es| - 1;
    var e := es[n];
    var names' := if IsStationNode(e) then names[e.id := CleanName(e.name)] else names;
    forall i | LastStationAt(es, i)
      ensures es[i].id in names' && names'[es[i].id] == CleanName(es[i].name)
    {
      if i < n {
        LastStationInit(es, i);
        assert !StationAt(es, n, es[i].id);
      }
    }
  }

  /** Assigning the last node's coordinate, when it has one, keeps every
      last-of-its-id coordinate. */
  lemma LastCoordStep(es: seq<Element>, coords: map<NodeId, Coord>)
    requires |es| > 0
    requires forall i :: LastCoordAt(es[..|es| - 1], i) ==>
      es[i].id in coords && coords[es[i].id] == es[i].coord.value
    ensures var e := es[|es| - 1];
      var coords' := if IsStationNode(e) && e.coord.Some? then coords[e.id := e.coord.value] else coords;
      forall i :: LastCoordAt(es, i) ==> es[i].id in coords' && coords'[es[i].id] == es[i].coord.value
  {
    var n := |es| - 1;
    var e := es[n];
    var coords' := if IsStationNode(e) && e.coord.Some? then coords[e.id := e.coord.value] else coords;
    forall i | LastCoordAt(es, i)
      ensures es[i].id in coords' && coords'[es[i].id] == es[i].coord.value
    {
      if i < n {
        LastCoordInit(es, i);
        assert !(StationAt(es, n, es[i].id) && es[n].coord.Some?);
      }
    }
  }

  lemma IndexSkip(es: seq<Element>, r: RawIndex)
    requires |es| > 0 && !IsStationNode(es[|es| - 1])
    requires Indexes(es[..|es| - 1], r)
    ensures Indexes(es, r)
  {
    StationsStep(es);
    CoordsStep(es);
    LastNameStep(es, r.names);
    LastCoordStep(es, r.coords);
    OrderStep(es, r.order, r.names);
  }

  // ---------------------------------------------------------------------
  // Display names

  /** The raw names in key order. */
  function RawNameSeq(ix: RawIndex): (r: seq<Name>)
    requires IndexWF(ix)
    ensures |r| == |ix.order|
    ensures forall i :: 0 <= i < |r| ==> ix.order[i] in ix.names && r[i] == ix.names[ix.order[i]]
  {
    seq(|ix.order|, i requires 0 <= i < |ix.order| => ix.names[ix.order[i]])
  }

  /** `name_to_nodes[cname]`: the nodes with that raw name in key order,
      each with its coordinate when it has one. */
  function GroupNodes(ix: RawIndex, cname: Name): (r: seq<RawNode>)
    requires IndexWF(ix)
    ensures forall i :: 0 <= i < |r| ==> r[i].id in ix.names && ix.names[r[i].id] == cname
    ensures forall i :: 0 <= i < |r| ==> r[i].coord == if r[i].id in ix.coords then Some(ix.coords[r[i].id]) else None
    ensures forall id :: id in ix.names && ix.names[id] == cname ==> exists i :: 0 <= i < |r| && r[i].id == id
    ensures IsSubseq(Ids(r), ix.order) && Distinct(Ids(r))
  {
    var p := (id: NodeId) => id in ix.names && ix.names[id] == cname;
    var ids := Filter(ix.order, p);
    var r := seq(|ids|, i requires 0 <= i < |ids| =>
                   RawNode(ids[i], if ids[i] in ix.coords then Some(ix.coords[ids[i]]) else None));
    assert Ids(r) == ids;
    FilterIsSubseq(ix.order, p);
    FilterDistinct(ix.order, p);
    assert forall id :: id in ix.names && ix.names[id] == cname ==> exists i :: 0 <= i < |r| && r[i].id == id by {
      forall id | id in ix.names && ix.names[id] == cname ensures exists i :: 0 <= i < |r| && r[i].id == id {
        assert id in ids;
        var i :| 0 <= i < |ids| && ids[i] == id;
        assert r[i].id == id;
      }
    }
    r
  }

  /** Every raw name in key order is the raw name of an indexed node. */
  lemma RawNamesIndexed(ix: RawIndex)
    requires IndexWF(ix)
    ensures forall n :: n in RawNameSeq(ix) ==> exists id :: id in ix.names && ix.names[id] == n
  {
    var raw := RawNameSeq(ix);
    forall n | n in raw ensures exists id :: id in ix.names && ix.names[id] == n {
      var i :| 0 <= i < |raw| && raw[i] == n;
      var id := ix.order[i];
      assert id in ix.names && ix.names[id] == n;
    }
  }

  /** The distinct raw names, in order of first appearance. */
  function GroupNames(ix: RawIndex): (r: seq<Name>)
    requires IndexWF(ix)
    ensures Distinct(r)
    ensures forall id :: id in ix.names ==> ix.names[id] in r
    ensures forall n :: n in r ==> exists id :: id in ix.names && ix.names[id] == n
    ensures FirstSeenOrder(r, RawNameSeq(ix))
  {
    var raw := RawNameSeq(ix);
    DedupFirstSeen(raw, {});
    RawNamesIndexed(ix);
    assert forall id :: id in ix.names ==> ix.names[id] in raw by {
      forall id | id in ix.names ensures ix.names[id] in raw {
        assert id in Elems(ix.order);
        var i :| 0 <= i < |ix.order| && ix.order[i] == id;
        assert raw[i] == ix.names[id];
      }
    }
    Dedup(raw, {})
  }

  /** Every (node, display name) assignment of the renaming loop, in order. */
  function NodeNameEntries(ix: RawIndex, dist: DistFn): seq<(NodeId, Name)>
    requires IndexWF(ix)
  {
    Flatten(GroupEntryLists(ix, dist))
  }

  /** entries[k] is the last write of its id. */
  predicate LastWriteAt(entries: seq<(NodeId, Name)>, k: int) {
    0 <= k < |entries| && forall k' :: k < k' < |entries| ==> entries[k'].0 != entries[k].0
  }

  /** Dictionary assignment in order: the keys of the resulting map are
      the ids assigned, and the value of each is its last write. */
  function Assign(entries: seq<(NodeId, Name)>): (m: map<NodeId, Name>)
    ensures forall id :: id in m <==> exists e :: e in entries && e.0 == id
    ensures forall k :: LastWriteAt(entries, k) ==> entries[k].0 in m && m[entries[k].0] == entries[k].1
    ensures forall id :: id in m ==> (id, m[id]) in entries
    decreases |entries|
  {
    if |entries| == 0 then map[]
    else
      var init := entries[..|entries| - 1];
      var e := entries[|entries| - 1];
      assert forall x :: x in entries <==> x in init || x == e by {
        assert entries == init + [e];
      }
      var m0 := Assign(init);
      var m := m0[e.0 := e.1];
      assert forall k :: LastWriteAt(entries, k) ==> entries[k].0 in m && m[entries[k].0] == entries[k].1 by {
        forall k | LastWriteAt(entries, k) ensures entries[k].0 in m && m[entries[k].0] == entries[k].1 {
          if k < |init| {
            assert entries[k] == init[k];
            assert LastWriteAt(init, k);
          }
        }
      }
      m
  }

  /** The entries of each raw name's group, in raw-name order. */
  function GroupEntryLists(ix: RawIndex, dist: DistFn): (ss: seq<seq<(NodeId, Name)>>)
    requires IndexWF(ix)
    ensures |ss| == |GroupNames(ix)|
    ensures forall k :: 0 <= k < |ss| ==> ss[k] == GroupEntries(GroupNames(ix)[k], GroupNodes(ix, GroupNames(ix)[k]), dist)
  {
    var gn := GroupNames(ix);
    seq(|gn|, k requires 0 <= k < |gn| => GroupEntries(gn[k], GroupNodes(ix, gn[k]), dist))
  }

  /** `node_names`: every indexed station node receives a display name,
      no other id does, and the name is one its own raw-name group assigns
      it. */
  function NodeNames(ix: RawIndex, dist: DistFn): (m: map<NodeId, Name>)
    requires IndexWF(ix)
    ensures m.Keys == ix.names.Keys
    ensures forall id :: id in m ==> id in ix.names && (id, m[id]) in GroupEntries(ix.names[id], GroupNodes(ix, ix.names[id]), dist)
  {
    var m := Assign(NodeNameEntries(ix, dist));
    forall id | id in m
      ensures id in ix.names && (id, m[id]) in GroupEntries(ix.names[id], GroupNodes(ix, ix.names[id]), dist)
    {
      EntryIsIndexed(ix, dist, (id, m[id]));
    }
    forall id ensures id in m <==> id in ix.names {
      if id in ix.names {
        IndexedHasEntry(ix, dist, id);
      }
      if id in m {
        var e :| e in NodeNameEntries(ix, dist) && e.0 == id;
        EntryIsIndexed(ix, dist, e);
      }
    }
    m
  }

  lemma IndexedHasEntry(ix: RawIndex, dist: DistFn, id: NodeId)
    requires IndexWF(ix) && id in ix.names
    ensures exists e :: e in NodeNameEntries(ix, dist) && e.0 == id
  {
    var gn := GroupNames(ix);
    var ss := GroupEntryLists(ix, dist);
    var c := ix.names[id];
    var k :| 0 <= k < |gn| && gn[k] == c;
    var nodes := GroupNodes(ix, c);
    var i :| 0 <= i < |nodes| && nodes[i].id == id;
    GroupEntriesIds(c, nodes, dist, id);
    assert ss[k] == GroupEntries(c, nodes, dist);
    var e: (NodeId, Name) :| e in ss[k] && e.0 == id;
    InFlatten(ss, e);
    assert e in NodeNameEntries(ix, dist);
  }

  lemma EntryIsIndexed(ix: RawIndex, dist: DistFn, e: (NodeId, Name))
    requires IndexWF(ix)
    requires e in NodeNameEntries(ix, dist)
    ensures e.0 in ix.names
    ensures e in GroupEntries(ix.names[e.0], GroupNodes(ix, ix.names[e.0]), dist)
  {
    var gn := GroupNames(ix);
    var ss := GroupEntryLists(ix, dist);
    InFlatten(ss, e);
    var k :| 0 <= k < |ss| && e in ss[k];
    var nodes := GroupNodes(ix, gn[k]);
    GroupEntriesIds(gn[k], nodes, dist, e.0);
    var i :| 0 <= i < |nodes| && nodes[i].id == e.0;
    assert ix.names[e.0] == gn[k];
  }

  /** A raw name whose nodes all lie in one area is every one of its
      nodes' display name. */
  lemma NodeNamesOneArea(ix: RawIndex, dist: DistFn, id: NodeId)
    requires IndexWF(ix) && id in ix.names
    requires |ClusterNodes(GroupNodes(ix, ix.names[id]), dist)| <= 1
    ensures NodeNames(ix, dist)[id] == ix.names[id]
  {
    var m := NodeNames(ix, dist);
    var c := ix.names[id];
    OneClusterName(c, GroupNodes(ix, c), dist, id, m[id]);
  }

  /** In a group of at most one cluster, every entry carries the raw name. */
  lemma OneClusterName(c: Name, nodes: seq<RawNode>, dist: DistFn, id: NodeId, n: Name)
    requires |ClusterNodes(nodes, dist)| <= 1 && (id, n) in GroupEntries(c, nodes, dist)
    ensures n == c
  {
  }

  /** Nodes of one raw name in different clusters get different display
      names. */
  lemma NodeNamesApart(ix: RawIndex, dist: DistFn, a: NodeId, b: NodeId, ka: nat, kb: nat)
    requires IndexWF(ix) && a in ix.names && b in ix.names && ix.names[a] == ix.names[b]
    requires var cs := ClusterNodes(GroupNodes(ix, ix.names[a]), dist);
      |cs| > 1 && ka < |cs| && kb < |cs| && ka != kb && a in cs[ka].members && b in cs[kb].members
    ensures NodeNames(ix, dist)[a] != NodeNames(ix, dist)[b]
  {
    var m := NodeNames(ix, dist);
    var c := ix.names[a];
    var nodes := GroupNodes(ix, c);
    var cs := ClusterNodes(nodes, dist);
    var names := ClusterNames(c, cs);
    var ja := ClusterNameOf(c, nodes, dist, a, m[a]);
    var jb := ClusterNameOf(c, nodes, dist, b, m[b]);
    OneClusterEach(nodes, dist, a, ja, ka);
    OneClusterEach(nodes, dist, b, jb, kb);
    assert names[ka] != names[kb];
  }

  /** In a group of several clusters, an entry's name is its cluster's. */
  lemma ClusterNameOf(c: Name, nodes: seq<RawNode>, dist: DistFn, id: NodeId, n: Name) returns (k: nat)
    requires |ClusterNodes(nodes, dist)| > 1 && (id, n) in GroupEntries(c, nodes, dist)
    ensures k < |ClusterNodes(nodes, dist)| && id in ClusterNodes(nodes, dist)[k].members
    ensures n == ClusterNames(c, ClusterNodes(nodes, dist))[k]
  {
    var cs := ClusterNodes(nodes, dist);
    var e := (id, n);
    k :| 0 <= k < |cs| && e.0 in cs[k].members && e.1 == ClusterNames(c, cs)[k];
  }

  /** The ids in assignment order, repeats included. */
  function NodeNameIds(ix: RawIndex, dist: DistFn): (ids: seq<NodeId>)
    requires IndexWF(ix)
    ensures forall id :: id in ids ==> id in ix.names
    ensures var entries := NodeNameEntries(ix, dist);
      |ids| == |entries| && forall j :: 0 <= j < |ids| ==> ids[j] == entries[j].0
  {
    var entries := NodeNameEntries(ix, dist);
    forall j | 0 <= j < |entries| ensures entries[j].0 in ix.names {
      EntryIsIndexed(ix, dist, entries[j]);
    }
    seq(|entries|, i requires 0 <= i < |entries| => entries[i].0)
  }

  /** The key order of `node_names`: first assignment first. */
  function NodeNameOrder(ix: RawIndex, dist: DistFn): (r: seq<NodeId>)
    requires IndexWF(ix)
    ensures Distinct(r)
    ensures forall id :: id in r <==> id in ix.names
    ensures FirstSeenOrder(r, NodeNameIds(ix, dist))
  {
    var ids := NodeNameIds(ix, dist);
    IndexedIdsListed(ix, dist);
    DedupFirstSeen(ids, {});
    Dedup(ids, {})
  }

  /** Every indexed id is assigned a display name at some point. */
  lemma IndexedIdsListed(ix: RawIndex, dist: DistFn)
    requires IndexWF(ix)
    ensures forall id :: id in ix.names ==> id in NodeNameIds(ix, dist)
  {
    var ids := NodeNameIds(ix, dist);
    var entries := NodeNameEntries(ix, dist);
    forall id | id in ix.names ensures id in ids {
      IndexedHasEntry(ix, dist, id);
      KeyListed(entries, ids, id);
    }
  }

  /** An id with an entry is among the entries' ids. */
  lemma KeyListed(entries: seq<(NodeId, Name)>, ids: seq<NodeId>, id: NodeId)
    requires |ids| == |entries| && forall j :: 0 <= j < |ids| ==> ids[j] == entries[j].0
    requires exists e :: e in entries && e.0 == id
    ensures id in ids
  {
    var e :| e in entries && e.0 == id;
    var j :| 0 <= j < |entries| && entries[j] == e;
    assert ids[j] == id;
  }

  // ---------------------------------------------------------------------
  // Station coordinates

  /** order[i] is the first node, in order, whose display name is that of
      order[i] and which has a coordinate. */
  predicate FirstCoordAt(order: seq<NodeId>, nn: map<NodeId, Name>, coords: map<NodeId, Coord>, i: int) {
    && 0 <= i < |order| && order[i] in nn && order[i] in coords
    && forall j :: 0 <= j < i ==> !(order[j] in nn && order[j] in coords && nn[order[j]] == nn[order[i]])
  }

  /** `station_coords`: a display name has a coordinate iff one of its
      nodes has one, and it is the coordinate of the first such node. */
  function StationCoords(order: seq<NodeId>, nn: map<NodeId, Name>, coords: map<NodeId, Coord>): (r: map<Name, Coord>)
    requires forall i :: 0 <= i < |order| ==> order[i] in nn
    ensures forall s :: s in r <==> exists i :: 0 <= i < |order| && order[i] in coords && nn[order[i]] == s
    ensures forall i :: FirstCoordAt(order, nn, coords, i) ==> nn[order[i]] in r && r[nn[order[i]]] == coords[order[i]]
    decreases |order|
  {
    if |order| == 0 then map[]
    else
      var init := order[..|order| - 1];
      var id := order[|order| - 1];
      var m := StationCoords(init, nn, coords);
      var r := if nn[id] !in m && id in coords then m[nn[id] := coords[id]] else m;
      StationCoordsKeys(order, nn, coords, m, r);
      StationCoordsFirst(order, nn, coords, m, r);
      r
  }

  lemma StationCoordsKeys(order: seq<NodeId>, nn: map<NodeId, Name>, coords: map<NodeId, Coord>,
                          m: map<Name, Coord>, r: map<Name, Coord>)
    requires |order| > 0 && forall i :: 0 <= i < |order| ==> order[i] in nn
    requires var init := order[..|order| - 1];
      forall s :: s in m <==> exists i :: 0 <= i < |init| && init[i] in coords && nn[init[i]] == s
    requires var id := order[|order| - 1];
      r == if nn[id] !in m && id in coords then m[nn[id] := coords[id]] else m
    ensures forall s :: s in r <==> exists i :: 0 <= i < |order| && order[i] in coords && nn[order[i]] == s
  {
    var init := order[..|order| - 1];
    forall s ensures s in r <==> exists i :: 0 <= i < |order| && order[i] in coords && nn[order[i]] == s {
      if s in m {
        var i :| 0 <= i < |init| && init[i] in coords && nn[init[i]] == s;
        assert order[i] == init[i];
      }
      if exists i :: 0 <= i < |order| && order[i] in coords && nn[order[i]] == s {
        var i :| 0 <= i < |order| && order[i] in coords && nn[order[i]] == s;
        if i < |init| {
          assert init[i] == order[i];
        }
      }
    }
  }

  lemma StationCoordsFirst(order: seq<NodeId>, nn: map<NodeId, Name>, coords: map<NodeId, Coord>,
                           m: map<Name, Coord>, r: map<Name, Coord>)
    requires |order| > 0 && forall i :: 0 <= i < |order| ==> order[i] in nn
    requires var init := order[..|order| - 1];
      && (forall s :: s in m <==> exists i :: 0 <= i < |init| && init[i] in coords && nn[init[i]] == s)
      && (forall i :: FirstCoordAt(init, nn, coords, i) ==> nn[init[i]] in m && m[nn[init[i]]] == coords[init[i]])
    requires var id := order[|order| - 1];
      r == if nn[id] !in m && id in coords then m[nn[id] := coords[id]] else m
    ensures forall i :: FirstCoordAt(order, nn, coords, i) ==> nn[order[i]] in r && r[nn[order[i]]] == coords[order[i]]
  {
    var init := order[..|order| - 1];
    var id := order[|order| - 1];
    forall i | FirstCoordAt(order, nn, coords, i)
      ensures nn[order[i]] in r && r[nn[order[i]]] == coords[order[i]]
    {
      if i < |init| {
        assert init[i] == order[i];
        forall j | 0 <= j < i ensures !(init[j] in nn && init[j] in coords && nn[init[j]] == nn[init[i]]) {
          assert init[j] == order[j];
        }
        assert FirstCoordAt(init, nn, coords, i);
      }
    }
  }

  // ---------------------------------------------------------------------
  // Lines

  /** The two dictionaries the relation loop fills: `station_to_railways`
      (key order in `stations`) and `railway_stations`. */
  datatype LineTables = LineTables(stations: seq<Name>, lines: map<Name, seq<Name>>, routes: map<Name, seq<Name>>)

  /** The station->lines dictionary is well formed. */
  ghost predicate KeysOK(t: LineTables) {
    && Distinct(t.stations)
    && Elems(t.stations) == t.lines.Keys
    && (forall s :: s in t.lines ==> Distinct(t.lines[s]))
  }

  /** The builder's invariant: every station of a stored line lists that
      line, and every stored line has at least two stations. */
  ghost predicate Consistent(t: LineTables) {
    && KeysOK(t)
    && (forall rw, s :: rw in t.routes && s in t.routes[rw] ==> s in t.lines && rw in t.lines[s])
    && (forall rw :: rw in t.routes ==> |t.routes[rw]| >= 2)
  }

  /** Outside the stations ss, the station->lines dictionary is the same. */
  ghost predicate SameOutside(a: map<Name, seq<Name>>, b: map<Name, seq<Name>>, ss: seq<Name>) {
    forall x :: x !in ss ==> (x in b <==> x in a) && (x in a ==> b[x] == a[x])
  }

  /** Station s lists line l in t. */
  predicate Lists(t: LineTables, s: Name, l: Name) {
    s in t.lines && l in t.lines[s]
  }

  /** In r, station s lists exactly the lines it lists in t, and rw. */
  ghost predicate ListsPlus(r: LineTables, t: LineTables, s: Name, rw: Name) {
    s in r.lines && forall l :: Lists(r, s, l) <==> l == rw || Lists(t, s, l)
  }

  /** `station_to_railways[s].add(rw)`: a new station goes to the end of
      the key order; s then lists exactly its old lines and rw, with rw
      last if it is new; no other station changes. */
  function AddLine(t: LineTables, s: Name, rw: Name): (r: LineTables)
    requires KeysOK(t)
    ensures KeysOK(r) && r.routes == t.routes
    ensures r.stations == if s in t.lines then t.stations else t.stations + [s]
    ensures ListsPlus(r, t, s, rw)
    ensures s in t.lines ==> r.lines[s] == if rw in t.lines[s] then t.lines[s] else t.lines[s] + [rw]
    ensures SameOutside(t.lines, r.lines, [s])
  {
    if s !in t.lines then
      LineTables(t.stations + [s], t.lines[s := [rw]], t.routes)
    else if rw in t.lines[s] then t
    else LineTables(t.stations, t.lines[s := t.lines[s] + [rw]], t.routes)
  }

  /** `for s in ordered: station_to_railways[s].add(rw)`: the new stations
      join the key order in order of first occurrence, every station of ss
      lists exactly its old lines and rw, and no other station changes. */
  function AddLines(t: LineTables, ss: seq<Name>, rw: Name): (r: LineTables)
    requires KeysOK(t)
    ensures KeysOK(r) && r.routes == t.routes
    ensures r.stations == t.stations + Dedup(ss, Elems(t.stations))
    ensures forall s :: s in ss ==> ListsPlus(r, t, s, rw)
    ensures SameOutside(t.lines, r.lines, ss)
    decreases |ss|
  {
    if |ss| == 0 then t
    else
      var t1 := AddLine(t, ss[0], rw);
      var r := AddLines(t1, ss[1..], rw);
      assert ss == [ss[0]] + ss[1..];
      AddLinesOrder(t, ss[0], ss[1..], rw, t1);
      AddLinesPlus(t, t1, r, ss[0], ss[1..], rw);
      AddLinesOutside(t.lines, t1.lines, r.lines, ss[0], ss[1..]);
      r
  }

  /** Every station of [x] + rest lists its old lines and rw afterwards. */
  lemma AddLinesPlus(t: LineTables, t1: LineTables, r: LineTables, x: Name, rest: seq<Name>, rw: Name)
    requires ListsPlus(t1, t, x, rw) && SameOutside(t.lines, t1.lines, [x])
    requires forall s :: s in rest ==> ListsPlus(r, t1, s, rw)
    requires SameOutside(t1.lines, r.lines, rest)
    ensures forall s :: s in [x] + rest ==> ListsPlus(r, t, s, rw)
  {
    forall s | s in [x] + rest ensures ListsPlus(r, t, s, rw) {
      if s in rest {
        if s != x {
          assert s !in [x];
          assert forall l :: Lists(t1, s, l) <==> Lists(t, s, l);
        }
      } else {
        assert s == x;
        assert forall l :: Lists(r, s, l) <==> Lists(t1, s, l);
      }
    }
  }

  /** Stations outside [x] + rest keep their lines. */
  lemma AddLinesOutside(a: map<Name, seq<Name>>, b: map<Name, seq<Name>>, c: map<Name, seq<Name>>, x: Name, rest: seq<Name>)
    requires SameOutside(a, b, [x]) && SameOutside(b, c, rest)
    ensures SameOutside(a, c, [x] + rest)
  {
    forall y | y !in [x] + rest ensures (y in c <==> y in a) && (y in a ==> c[y] == a[y]) {
      assert y !in rest && y !in [x];
    }
  }

  /** The key order after the first station's addition and the rest. */
  lemma AddLinesOrder(t: LineTables, x: Name, rest: seq<Name>, rw: Name, t1: LineTables)
    requires KeysOK(t)
    requires t1.stations == if x in t.lines then t.stations else t.stations + [x]
    ensures t1.stations + Dedup(rest, Elems(t1.stations)) == t.stations + Dedup([x] + rest, Elems(t.stations))
  {
    assert ([x] + rest)[1..] == rest;
    DedupHead([x] + rest, Elems(t.stations));
    if x !in t.lines {
      assert Elems(t.stations + [x]) == Elems(t.stations) + {x};
      var d := Dedup(rest, Elems(t.stations) + {x});
      ConcatAssoc(t.stations, [x], d);
    }
  }

  /** One route's contribution: a sequence of at least two stations is
      merged into the line of its base name, and every one of its stations
      gets that line. Shorter sequences change nothing. */
  function AddRoute(t: LineTables, base: Name, ordered: seq<Name>): (r: LineTables)
    requires Consistent(t)
    ensures Consistent(r)
    ensures |ordered| < 2 ==> r == t
    ensures |ordered| >= 2 ==>
      r.routes == t.routes[base := if base in t.routes then MergeLine(t.routes[base], ordered) else ordered]
    ensures |ordered| >= 2 ==> r.stations == t.stations + Dedup(ordered, Elems(t.stations))
    ensures |ordered| >= 2 ==> forall s :: s in ordered ==> ListsPlus(r, t, s, base)
    ensures |ordered| >= 2 ==> SameOutside(t.lines, r.lines, ordered)
  {
    if |ordered| < 2 then t
    else
      var merged := if base in t.routes then MergeLine(t.routes[base], ordered) else ordered;
      var t1 := t.(routes := t.routes[base := merged]);
      var r := AddLines(t1, ordered, base);
      AddRouteConsistent(t, base, ordered, merged, r);
      r
  }

  /** The merged line and the lines it lists keep the builder's invariant. */
  lemma AddRouteConsistent(t: LineTables, base: Name, ordered: seq<Name>, merged: seq<Name>, r: LineTables)
    requires Consistent(t) && |ordered| >= 2
    requires merged == if base in t.routes then MergeLine(t.routes[base], ordered) else ordered
    requires KeysOK(r) && r.routes == t.routes[base := merged]
    requires forall s :: s in ordered ==> ListsPlus(r, t, s, base)
    requires SameOutside(t.lines, r.lines, ordered)
    ensures Consistent(r)
  {
    assert forall s :: s in merged ==> s in ordered || (base in t.routes && s in t.routes[base]);
    forall rw, s | rw in r.routes && s in r.routes[rw] ensures s in r.lines && rw in r.lines[s] {
      if s in ordered {
        assert ListsPlus(r, t, s, base);
        assert Lists(r, s, rw);
      } else {
        assert Lists(t, s, rw);
      }
    }
  }

  /** What the relation loop reads besides the elements: the display names
      and coordinates of the nodes, and the distance. */
  datatype Ctx = Ctx(nn: map<NodeId, Name>, coords: map<NodeId, Coord>, dist: DistFn)

  /** A rail route relation's base name and ordered stations; None for any
      other element. */
  type RouteEntry = Option<(Name, seq<Name>)>

  function RouteOfElement(e: Element, cx: Ctx): RouteEntry {
    if e.RelationElem? && IsRailRoute(e.rel.route) then
      Some((BaseName(RouteName(e.rel)), OrderedStations(e.rel, cx.nn, cx.coords, cx.dist)))
    else None
  }

  /** The relation loop's input, one entry per element. */
  function RouteList(es: seq<Element>, cx: Ctx): (r: seq<RouteEntry>)
    ensures |r| == |es| && forall i :: 0 <= i < |es| ==> r[i] == RouteOfElement(es[i], cx)
  {
    seq(|es|, i requires 0 <= i < |es| => RouteOfElement(es[i], cx))
  }

  /** The entry contributes to line rw: a route of that base name with at
      least two stations. */
  predicate Adds(c: RouteEntry, rw: Name) {
    c.Some? && c.value.0 == rw && |c.value.1| >= 2
  }

  /** The entry contributes station s to line rw. */
  predicate Feeds(c: RouteEntry, rw: Name, s: Name) {
    Adds(c, rw) && s in c.value.1
  }

  /** Line rw of r holds station s. */
  predicate OnLine(r: LineTables, rw: Name, s: Name) {
    rw in r.routes && s in r.routes[rw]
  }

  /** cs[i] is the last entry that contributes to line rw. */
  predicate LastAdds(cs: seq<RouteEntry>, i: int, rw: Name) {
    0 <= i < |cs| && Adds(cs[i], rw) && forall j :: i < j < |cs| ==> !Adds(cs[j], rw)
  }

  /** What one pass with entry c does to t, giving r: a contributing
      entry adds its line and lists the line on its stations; its stations
      are all on the line afterwards; a line it does not contribute to
      keeps its stations. */
  ghost predicate Stepped(t: LineTables, c: RouteEntry, r: LineTables) {
    && (forall rw :: rw in r.routes <==> rw in t.routes || Adds(c, rw))
    && (forall s, rw :: Lists(r, s, rw) <==> Lists(t, s, rw) || Feeds(c, rw, s))
    && (forall rw, s :: OnLine(r, rw, s) ==> OnLine(t, rw, s) || Feeds(c, rw, s))
    && (forall rw, s :: Feeds(c, rw, s) ==> OnLine(r, rw, s))
    && (forall rw :: rw in t.routes && !Adds(c, rw) ==> rw in r.routes && r.routes[rw] == t.routes[rw])
  }

  /** One pass of the relation loop. */
  function RelationStep(t: LineTables, c: RouteEntry): (r: LineTables)
    requires Consistent(t)
    ensures Consistent(r)
    ensures Stepped(t, c, r)
  {
    if c.Some? && |c.value.1| >= 2 then
      var base := c.value.0;
      var o := c.value.1;
      var merged := if base in t.routes then MergeLine(t.routes[base], o) else o;
      var r := AddRoute(t, base, o);
      MergedStations(t, base, o, merged);
      RouteStepFacts(t, c, merged, r);
      r
    else t
  }

  /** The stations of a merged line: all of the route's, and otherwise
      only the line's earlier ones. */
  lemma MergedStations(t: LineTables, base: Name, o: seq<Name>, merged: seq<Name>)
    requires merged == if base in t.routes then MergeLine(t.routes[base], o) else o
    ensures forall s :: s in o ==> s in merged
    ensures forall s :: s in merged ==> s in o || (base in t.routes && s in t.routes[base])
  {
  }

  lemma RouteStepFacts(t: LineTables, c: RouteEntry, merged: seq<Name>, r: LineTables)
    requires Consistent(t) && c.Some? && |c.value.1| >= 2
    requires forall s :: s in c.value.1 ==> s in merged
    requires forall s :: s in merged ==> s in c.value.1 || (c.value.0 in t.routes && s in t.routes[c.value.0])
    requires r.routes == t.routes[c.value.0 := merged]
    requires forall s :: s in c.value.1 ==> ListsPlus(r, t, s, c.value.0)
    requires SameOutside(t.lines, r.lines, c.value.1)
    ensures Stepped(t, c, r)
  {
    var base := c.value.0;
    var o := c.value.1;
    forall s, rw ensures Lists(r, s, rw) <==> Lists(t, s, rw) || Feeds(c, rw, s) {
      if s in o {
        assert ListsPlus(r, t, s, base);
      } else {
        assert (s in r.lines <==> s in t.lines) && (s in t.lines ==> r.lines[s] == t.lines[s]);
      }
    }
  }

  /** What the relation loop over cs builds on top of t: exactly the
      contributed lines are added; a station lists a line iff it did
      before or some entry contributed it to that line; a line holds only
      contributed stations; and the last contribution to a line is all on
      it. */
  ghost predicate Built(t: LineTables, cs: seq<RouteEntry>, r: LineTables) {
    && Consistent(r)
    && (forall rw :: rw in r.routes <==> rw in t.routes || exists i :: 0 <= i < |cs| && Adds(cs[i], rw))
    && (forall s, rw :: Lists(r, s, rw) <==> Lists(t, s, rw) || exists i :: 0 <= i < |cs| && Feeds(cs[i], rw, s))
    && (forall rw, s :: OnLine(r, rw, s) ==> OnLine(t, rw, s) || exists i :: 0 <= i < |cs| && Feeds(cs[i], rw, s))
    && (forall i, rw, s :: LastAdds(cs, i, rw) && Feeds(cs[i], rw, s) ==> OnLine(r, rw, s))
  }

  /** The relation loop over all elements' entries. */
  function AddRelations(t: LineTables, cs: seq<RouteEntry>): (r: LineTables)
    requires Consistent(t)
    ensures Built(t, cs, r)
    decreases |cs|
  {
    if |cs| == 0 then t
    else
      var r0 := AddRelations(t, cs[..|cs| - 1]);
      var r := RelationStep(r0, cs[|cs| - 1]);
      BuiltStep(t, cs, r0, r);
      r
  }

  /** One more pass of the loop extends what it has built. */
  lemma BuiltStep(t: LineTables, cs: seq<RouteEntry>, r0: LineTables, r: LineTables)
    requires |cs| > 0 && Consistent(r0) && Built(t, cs[..|cs| - 1], r0)
    requires Consistent(r) && Stepped(r0, cs[|cs| - 1], r)
    ensures Built(t, cs, r)
  {
    BuiltKeys(t, cs, r0, r);
    BuiltLines(t, cs, r0, r);
    BuiltSources(t, cs, r0, r);
    BuiltLast(t, cs, r0, r);
  }

  lemma BuiltKeys(t: LineTables, cs: seq<RouteEntry>, r0: LineTables, r: LineTables)
    requires |cs| > 0 && Consistent(r0) && Built(t, cs[..|cs| - 1], r0)
    requires Consistent(r) && Stepped(r0, cs[|cs| - 1], r)
    ensures forall rw :: rw in r.routes <==> rw in t.routes || exists i :: 0 <= i < |cs| && Adds(cs[i], rw)
  {
    var init := cs[..|cs| - 1];
    forall rw ensures rw in r.routes <==> rw in t.routes || exists i :: 0 <= i < |cs| && Adds(cs[i], rw) {
      if exists i :: 0 <= i < |cs| && Adds(cs[i], rw) {
        var i :| 0 <= i < |cs| && Adds(cs[i], rw);
        if i < |init| {
          assert Adds(init[i], rw);
        }
      }
      if exists i :: 0 <= i < |init| && Adds(init[i], rw) {
        var i :| 0 <= i < |init| && Adds(init[i], rw);
        assert Adds(cs[i], rw);
      }
    }
  }

  lemma BuiltLines(t: LineTables, cs: seq<RouteEntry>, r0: LineTables, r: LineTables)
    requires |cs| > 0 && Consistent(r0) && Built(t, cs[..|cs| - 1], r0)
    requires Consistent(r) && Stepped(r0, cs[|cs| - 1], r)
    ensures forall s, rw :: Lists(r, s, rw) <==> Lists(t, s, rw) || exists i :: 0 <= i < |cs| && Feeds(cs[i], rw, s)
  {
    var init := cs[..|cs| - 1];
    forall s, rw ensures Lists(r, s, rw) <==> Lists(t, s, rw) || exists i :: 0 <= i < |cs| && Feeds(cs[i], rw, s) {
      if exists i :: 0 <= i < |cs| && Feeds(cs[i], rw, s) {
        var i :| 0 <= i < |cs| && Feeds(cs[i], rw, s);
        if i < |init| {
          assert Feeds(init[i], rw, s);
        }
      }
      if exists i :: 0 <= i < |init| && Feeds(init[i], rw, s) {
        var i :| 0 <= i < |init| && Feeds(init[i], rw, s);
        assert Feeds(cs[i], rw, s);
      }
    }
  }

  lemma BuiltSources(t: LineTables, cs: seq<RouteEntry>, r0: LineTables, r: LineTables)
    requires |cs| > 0 && Consistent(r0) && Built(t, cs[..|cs| - 1], r0)
    requires Consistent(r) && Stepped(r0, cs[|cs| - 1], r)
    ensures forall rw, s :: OnLine(r, rw, s) ==> OnLine(t, rw, s) || exists i :: 0 <= i < |cs| && Feeds(cs[i], rw, s)
  {
    var init := cs[..|cs| - 1];
    forall rw, s | OnLine(r, rw, s) ensures OnLine(t, rw, s) || exists i :: 0 <= i < |cs| && Feeds(cs[i], rw, s)
    {
      if Feeds(cs[|cs| - 1], rw, s) {
      } else if exists i :: 0 <= i < |init| && Feeds(init[i], rw, s) {
        var i :| 0 <= i < |init| && Feeds(init[i], rw, s);
        assert Feeds(cs[i], rw, s);
      }
    }
  }

  lemma BuiltLast(t: LineTables, cs: seq<RouteEntry>, r0: LineTables, r: LineTables)
    requires |cs| > 0 && Consistent(r0) && Built(t, cs[..|cs| - 1], r0)
    requires Consistent(r) && Stepped(r0, cs[|cs| - 1], r)
    ensures forall i, rw, s :: LastAdds(cs, i, rw) && Feeds(cs[i], rw, s) ==> OnLine(r, rw, s)
  {
    forall i, rw, s | LastAdds(cs, i, rw) && Feeds(cs[i], rw, s) ensures OnLine(r, rw, s) {
      BuiltLastAt(t, cs, r0, r, i, rw, s);
    }
  }

  lemma BuiltLastAt(t: LineTables, cs: seq<RouteEntry>, r0: LineTables, r: LineTables, i: int, rw: Name, s: Name)
    requires |cs| > 0 && Consistent(r0) && Built(t, cs[..|cs| - 1], r0)
    requires Consistent(r) && Stepped(r0, cs[|cs| - 1], r)
    requires LastAdds(cs, i, rw) && Feeds(cs[i], rw, s)
    ensures rw in r.routes && s in r.routes[rw]
  {
    var init := cs[..|cs| - 1];
    var c := cs[|cs| - 1];
    if i < |init| {
      assert !Adds(c, rw);
      assert init[i] == cs[i];
      forall j | i < j < |init| ensures !Adds(init[j], rw) {
        assert init[j] == cs[j];
      }
      assert LastAdds(init, i, rw) && Feeds(init[i], rw, s);
      assert OnLine(r0, rw, s);
    } else {
      assert Feeds(c, rw, s);
    }
  }

  /** The context the relation loop runs in for the elements es. */
  function Context(es: seq<Element>, dist: DistFn): Ctx {
    var ix := IndexNodes(es);
    Ctx(NodeNames(ix, dist), ix.coords, dist)
  }

  /** `_build_graph_from_overpass`, with cs the elements' route entries.
      The graph is well formed; its lines are exactly the base names of
      rail routes with two or more stations; a station lists a line iff
      some such route of that line has it; a line holds only stations of
      its routes and every station of its last route; every station of a
      line lists it; and the coordinates are those of the display names'
      first nodes. */
  function BuildGraph(es: seq<Element>, dist: DistFn): (g: Graph)
    ensures WellFormed(g)
    ensures forall rw, s :: rw in g.routes && s in g.routes[rw] ==> rw in LinesOf(g, s)
    ensures forall rw :: rw in g.routes ==> |g.routes[rw]| >= 2
    ensures var cs := RouteList(es, Context(es, dist));
      && (forall rw :: rw in g.routes <==> exists i :: 0 <= i < |cs| && Adds(cs[i], rw))
      && (forall s, rw :: rw in LinesOf(g, s) <==> exists i :: 0 <= i < |cs| && Feeds(cs[i], rw, s))
      && (forall rw, s :: rw in g.routes && s in g.routes[rw] ==> exists i :: 0 <= i < |cs| && Feeds(cs[i], rw, s))
      && (forall i, rw, s :: LastAdds(cs, i, rw) && Feeds(cs[i], rw, s) ==> s in RouteOf(g, rw))
    ensures g.coords == GraphCoords(IndexNodes(es), dist)
  {
    GraphOf(RouteList(es, Context(es, dist)), GraphCoords(IndexNodes(es), dist))
  }

  /** The graph's coordinates: `station_coords` over the named nodes in
      the order their names were first assigned. */
  function GraphCoords(ix: RawIndex, dist: DistFn): map<Name, Coord>
    requires IndexWF(ix)
  {
    var order := NodeNameOrder(ix, dist);
    var nn := NodeNames(ix, dist);
    OrderNamed(order, nn, ix.names.Keys);
    StationCoords(order, nn, ix.coords)
  }

  lemma OrderNamed(order: seq<NodeId>, nn: map<NodeId, Name>, ids: set<NodeId>)
    requires forall id :: id in order ==> id in ids
    requires nn.Keys == ids
    ensures forall i :: 0 <= i < |order| ==> order[i] in nn
  {
    forall i | 0 <= i < |order| ensures order[i] in nn {
      var x := order[i];
      assert x in order;
      assert x in nn.Keys;
    }
  }

  /** The relation loop over cs from empty tables, read as a graph with
      the given coordinates. */
  function GraphOf(cs: seq<RouteEntry>, coords: map<Name, Coord>): (g: Graph)
    ensures WellFormed(g) && g.coords == coords
    ensures forall rw, s :: rw in g.routes && s in g.routes[rw] ==> rw in LinesOf(g, s)
    ensures forall rw :: rw in g.routes ==> |g.routes[rw]| >= 2
    ensures forall rw :: rw in g.routes <==> exists i :: 0 <= i < |cs| && Adds(cs[i], rw)
    ensures forall s, rw :: rw in LinesOf(g, s) <==> exists i :: 0 <= i < |cs| && Feeds(cs[i], rw, s)
    ensures forall rw, s :: rw in g.routes && s in g.routes[rw] ==> exists i :: 0 <= i < |cs| && Feeds(cs[i], rw, s)
    ensures forall i, rw, s :: LastAdds(cs, i, rw) && Feeds(cs[i], rw, s) ==> s in RouteOf(g, rw)
  {
    var t := AddRelations(LineTables([], map[], map[]), cs);
    var g := Graph(t.stations, t.lines, t.routes, coords);
    BuiltGraphLines(cs, t, g);
    BuiltGraphLast(cs, t, g);
    g
  }

  /** A station lists a line iff some entry fed it to that line. */
  lemma BuiltGraphLines(cs: seq<RouteEntry>, t: LineTables, g: Graph)
    requires Built(LineTables([], map[], map[]), cs, t)
    requires g.lines == t.lines
    ensures forall s, rw :: rw in LinesOf(g, s) <==> exists i :: 0 <= i < |cs| && Feeds(cs[i], rw, s)
  {
    var t0 := LineTables([], map[], map[]);
    assert forall s, rw :: !Lists(t0, s, rw);
    forall s, rw ensures rw in LinesOf(g, s) <==> Lists(t, s, rw) {
    }
  }

  /** Every station of a line's last contributing entry is on it, and a
      line holds only fed stations. */
  lemma BuiltGraphLast(cs: seq<RouteEntry>, t: LineTables, g: Graph)
    requires Built(LineTables([], map[], map[]), cs, t)
    requires g.routes == t.routes
    ensures forall rw, s :: rw in g.routes && s in g.routes[rw] ==> exists i :: 0 <= i < |cs| && Feeds(cs[i], rw, s)
    ensures forall i, rw, s :: LastAdds(cs, i, rw) && Feeds(cs[i], rw, s) ==> s in RouteOf(g, rw)
  {
    var t0 := LineTables([], map[], map[]);
    assert forall rw, s :: !OnLine(t0, rw, s);
    forall rw, s | rw in g.routes && s in g.routes[rw] ensures exists i :: 0 <= i < |cs| && Feeds(cs[i], rw, s) {
      assert OnLine(t, rw, s);
    }
    forall i, rw, s | LastAdds(cs, i, rw) && Feeds(cs[i], rw, s) ensures s in RouteOf(g, rw) {
      assert OnLine(t, rw, s);
    }
  }

  /** The converse of the builder's invariant fails: after a route [A, B]
      and a longer route [C, D, E] of the same line, A still lists the line
      but the stored line no longer holds A. */
  lemma LinesOutliveMerge()
    ensures var t := AddRoute(AddRoute(LineTables([], map[], map[]), "L", ["A", "B"]), "L", ["C", "D", "E"]);
      "A" in t.lines && "L" in t.lines["A"] && "L" in t.routes && "A" !in t.routes["L"]
  {
    var cde: seq<Name> := ["C", "D", "E"];
    assert "A" !in cde;
    LongerRouteDrops(LineTables([], map[], map[]), "L", ["A", "B"], cde, "A");
  }

  /** A station of a line's first route that a longer second route of the
      line leaves out still lists the line but is no longer on it. */
  lemma LongerRouteDrops(t0: LineTables, base: Name, a: seq<Name>, b: seq<Name>, x: Name)
    requires Consistent(t0) && base !in t0.routes
    requires 2 <= |a| < |b| && x in a && x !in b
    ensures var t := AddRoute(AddRoute(t0, base, a), base, b);
      x in t.lines && base in t.lines[x] && base in t.routes && x !in t.routes[base]
  {
    var t1 := AddRoute(t0, base, a);
    assert t1.routes[base] == a;
    assert ListsPlus(t1, t0, x, base);
    assert Lists(t1, x, base);
    var t2 := AddRoute(t1, base, b);
    assert t2.lines[x] == t1.lines[x];
    assert t2.routes[base] == MergeLine(a, b);
  }

}
