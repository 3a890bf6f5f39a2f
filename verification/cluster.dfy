/** Station identity resolution (transport_api.py:88-170): nodes sharing one
    cleaned name are split into geographic clusters by first fit against each
    cluster's representative point, and with more than one cluster each
    cluster gets a region-suffixed display name. */
module Clustering {
  import opened Seqs
  import opened Text
  import opened Geo

  type NodeId = int

  /** One node of a raw name, in the order the nodes were read. */
  datatype RawNode = RawNode(id: NodeId, coord: Option<Coord>)

  /** A cluster: the representative point is the coordinate of the node
      that opened it (None when a coordinate-less node opened it). */
  datatype Cluster = Cluster(rep: Option<Coord>, members: seq<NodeId>)

  const SameNameThresholdKm: real := 50.0

  /** c is strictly within the threshold of the cluster's representative. */
  predicate Near(cl: Cluster, c: Coord, dist: DistFn) {
    cl.rep.Some? && dist(c, cl.rep.value) < SameNameThresholdKm
  }

  /** Cluster k is the first cluster near c. */
  predicate FirstNearAt(cs: seq<Cluster>, c: Coord, dist: DistFn, k: int) {
    0 <= k < |cs| && Near(cs[k], c, dist) && forall j :: 0 <= j < k ==> !Near(cs[j], c, dist)
  }

  function FirstNear(cs: seq<Cluster>, c: Coord, dist: DistFn): (k: nat)
    ensures k <= |cs|
    ensures forall j :: 0 <= j < k ==> !Near(cs[j], c, dist)
    ensures k < |cs| ==> Near(cs[k], c, dist)
  {
    if |cs| == 0 then 0 else if Near(cs[0], c, dist) then 0 else 1 + FirstNear(cs[1..], c, dist)
  }

  /** r is cs after node nid was appended to cluster k; nothing else changed. */
  predicate JoinedAt(cs: seq<Cluster>, r: seq<Cluster>, nid: NodeId, k: int) {
    && 0 <= k < |cs| && |r| == |cs|
    && r[k] == Cluster(cs[k].rep, cs[k].members + [nid])
    && forall j :: 0 <= j < |cs| && j != k ==> r[j] == cs[j]
  }

  function AddTo(cs: seq<Cluster>, k: nat, nid: NodeId): seq<Cluster>
    requires k < |cs|
  {
    cs[k := cs[k].(members := cs[k].members + [nid])]
  }

  /** One step of `_cluster_nodes`. A node with a coordinate joins the first
      cluster whose representative is under 50 km away, else opens a new
      cluster at its own coordinate; a coordinate-less node joins cluster 0,
      or opens a coordinate-less cluster when there is none. */
  function Place(cs: seq<Cluster>, n: RawNode, dist: DistFn): (r: seq<Cluster>)
    ensures n.coord.None? && |cs| > 0 ==> JoinedAt(cs, r, n.id, 0)
    ensures n.coord.None? && |cs| == 0 ==> r == [Cluster(None, [n.id])]
    ensures n.coord.Some? && (exists k :: 0 <= k < |cs| && Near(cs[k], n.coord.value, dist))
      ==> exists k :: FirstNearAt(cs, n.coord.value, dist, k) && JoinedAt(cs, r, n.id, k)
    ensures n.coord.Some? && (forall k :: 0 <= k < |cs| ==> !Near(cs[k], n.coord.value, dist))
      ==> r == cs + [Cluster(n.coord, [n.id])]
  {
    match n.coord
    case None =>
      if |cs| > 0 then AddTo(cs, 0, n.id) else [Cluster(None, [n.id])]
    case Some(c) =>
      var k := FirstNear(cs, c, dist);
      if k < |cs| then
        assert FirstNearAt(cs, c, dist, k);
        AddTo(cs, k, n.id)
      else cs + [Cluster(n.coord, [n.id])]
  }

  /** All member ids, cluster by cluster. */
  function Members(cs: seq<Cluster>): seq<NodeId> {
    if |cs| == 0 then [] else cs[0].members + Members(cs[1..])
  }

  function Ids(nodes: seq<RawNode>): seq<NodeId> {
    seq(|nodes|, i requires 0 <= i < |nodes| => nodes[i].id)
  }

  /** Only cluster 0 can lack a representative, and a representative never
      lies under the threshold from an earlier cluster's representative. */
  ghost predicate Separated(cs: seq<Cluster>, dist: DistFn) {
    && (forall i :: 0 < i < |cs| ==> cs[i].rep.Some?)
    && (forall i, j :: 0 <= i < j < |cs| && cs[i].rep.Some? && cs[j].rep.Some?
          ==> dist(cs[j].rep.value, cs[i].rep.value) >= SameNameThresholdKm)
  }

  /** `_cluster_nodes`: first-fit clustering in input order. Every node ends
      up in exactly one cluster, no cluster is empty, and the clusters'
      representatives are pairwise separated. */
  function ClusterNodes(nodes: seq<RawNode>, dist: DistFn): (r: seq<Cluster>)
    ensures |r| <= |nodes|
    ensures |r| == 0 <==> |nodes| == 0
    ensures forall i :: 0 <= i < |r| ==> |r[i].members| > 0
    ensures multiset(Members(r)) == multiset(Ids(nodes))
    ensures Separated(r, dist)
    decreases |nodes|
  {
    if |nodes| == 0 then []
    else
      var prefix := nodes[..|nodes| - 1];
      var n := nodes[|nodes| - 1];
      var cs := ClusterNodes(prefix, dist);
      var r := Place(cs, n, dist);
      assert Ids(nodes) == Ids(prefix) + [n.id];
      PlaceMembers(cs, n, dist);
      PlaceSeparated(cs, n, dist);
      r
  }

  lemma {:induction false} MembersConcat(a: seq<Cluster>, b: seq<Cluster>)
    ensures Members(a + b) == Members(a) + Members(b)
    decreases |a|
  {
    if |a| == 0 {
      assert a + b == b;
    } else {
      MembersConcat(a[1..], b);
      assert (a + b)[1..] == a[1..] + b;
    }
  }

  lemma {:induction false} MembersAppend(cs: seq<Cluster>, c: Cluster)
    ensures Members(cs + [c]) == Members(cs) + c.members
    decreases |cs|
  {
    if |cs| == 0 {
      assert Members([c]) == c.members + Members([]);
    } else {
      MembersAppend(cs[1..], c);
      assert (cs + [c])[1..] == cs[1..] + [c];
    }
  }

  lemma MembersAround(pre: seq<Cluster>, x: Cluster, post: seq<Cluster>)
    ensures Members(pre + ([x] + post)) == Members(pre) + (x.members + Members(post))
  {
    MembersConcat(pre, [x] + post);
    assert ([x] + post)[1..] == post;
  }

  lemma JoinMembers(cs: seq<Cluster>, k: nat, nid: NodeId)
    requires k < |cs|
    ensures multiset(Members(AddTo(cs, k, nid))) == multiset(Members(cs)) + multiset{nid}
  {
    var c := Cluster(cs[k].rep, cs[k].members + [nid]);
    var pre, post := cs[..k], cs[k + 1..];
    SplitAt(cs, k, c);
    MembersAround(pre, cs[k], post);
    MembersAround(pre, c, post);
    MultisetInsert(Members(pre), cs[k].members, Members(post), nid);
  }

  lemma MultisetInsert(p: seq<NodeId>, m: seq<NodeId>, q: seq<NodeId>, nid: NodeId)
    ensures multiset(p + ((m + [nid]) + q)) == multiset(p + (m + q)) + multiset{nid}
  {
  }

  lemma PlaceMembers(cs: seq<Cluster>, n: RawNode, dist: DistFn)
    requires forall i :: 0 <= i < |cs| ==> |cs[i].members| > 0
    ensures multiset(Members(Place(cs, n, dist))) == multiset(Members(cs)) + multiset{n.id}
    ensures forall i :: 0 <= i < |Place(cs, n, dist)| ==> |Place(cs, n, dist)[i].members| > 0
    ensures |Place(cs, n, dist)| <= |cs| + 1
  {
    if n.coord.None? && |cs| > 0 {
      JoinMembers(cs, 0, n.id);
    } else if n.coord.None? {
      assert Members([Cluster(None, [n.id])]) == [n.id] + Members([]);
    } else {
      var k := FirstNear(cs, n.coord.value, dist);
      if k < |cs| {
        JoinMembers(cs, k, n.id);
      } else {
        MembersAppend(cs, Cluster(n.coord, [n.id]));
      }
    }
  }

  lemma PlaceSeparated(cs: seq<Cluster>, n: RawNode, dist: DistFn)
    requires Separated(cs, dist)
    ensures Separated(Place(cs, n, dist), dist)
  {
    var r := Place(cs, n, dist);
    if n.coord.Some? {
      var k := FirstNear(cs, n.coord.value, dist);
      if k == |cs| {
        forall i | 0 <= i < |cs| && cs[i].rep.Some?
          ensures dist(r[|cs|].rep.value, r[i].rep.value) >= SameNameThresholdKm
        {
          assert !Near(cs[i], n.coord.value, dist);
        }
      }
    }
  }

  /** A name whose nodes all lack coordinates cannot be split: it yields at
      most one cluster. */
  lemma {:induction false} NoCoordinatesOneCluster(nodes: seq<RawNode>, dist: DistFn)
    requires forall i :: 0 <= i < |nodes| ==> nodes[i].coord.None?
    ensures |ClusterNodes(nodes, dist)| <= 1
    decreases |nodes|
  {
    if |nodes| > 0 {
      NoCoordinatesOneCluster(nodes[..|nodes| - 1], dist);
    }
  }

  // ---------------------------------------------------------------------
  // Display names

  /** `base_suffix`: `name(region)`, or the plain name when the region is
      unknown. */
  function BaseSuffix(cname: string, region: string): string {
    if region != "" then cname + "(" + region + ")" else cname
  }

  /** One cluster's name from the running count of its base suffix. The
      running count starts at 1 on first use; later clusters with the same
      base get `name(region<count>)`. */
  function NameFold(cname: string, regions: seq<string>, used: map<string, nat>): (r: seq<string>)
    ensures |r| == |regions|
  {
    if |regions| == 0 then []
    else
      var b := BaseSuffix(cname, regions[0]);
      if b in used then
        var n := used[b] + 1;
        [cname + "(" + (regions[0] + NatStr(n)) + ")"] + NameFold(cname, regions[1..], used[b := n])
      else
        [b] + NameFold(cname, regions[1..], used[b := 1])
  }

  function RegionsOf(cs: seq<Cluster>): (r: seq<string>)
    ensures |r| == |cs|
    ensures forall i :: 0 <= i < |r| ==> r[i] == RegionOf(cs[i].rep) && NoDigits(r[i])
  {
    seq(|cs|, i requires 0 <= i < |cs| => RegionOf(cs[i].rep))
  }

  /** The names the clusters of one raw name receive, in cluster order. */
  function ClusterNames(cname: string, cs: seq<Cluster>): (r: seq<string>)
    ensures |r| == |cs|
    ensures Distinct(r)
  {
    var rs := RegionsOf(cs);
    ClusterNamesDistinct(cname, rs);
    NameFold(cname, rs, map[])
  }

  /** The name a cluster gets when it is the n-th cluster (n >= 1) of its
      region: the base suffix for the first, `name(region<n>)` after. */
  function Label(cname: string, region: string, n: nat): string {
    if n <= 1 && region == "" then cname else cname + "(" + (region + Tail(n)) + ")"
  }

  /** The running-number part of a label: empty for the first cluster. */
  function Tail(n: nat): string {
    if n <= 1 then "" else NatStr(n)
  }

  /** `used` holds, for every region already seen in h, the number of times
      it was seen, keyed by its base suffix, and nothing for the others. */
  ghost predicate Tracks(cname: string, used: map<string, nat>, h: seq<string>, rs: seq<string>) {
    forall r :: r in h || r in rs ==>
      && (BaseSuffix(cname, r) in used <==> r in h)
      && (r in h ==> used[BaseSuffix(cname, r)] == Count(h, r))
  }

  lemma BaseSuffixInjective(cname: string, r1: string, r2: string)
    requires BaseSuffix(cname, r1) == BaseSuffix(cname, r2)
    ensures r1 == r2
  {
    var b := BaseSuffix(cname, r1);
    if r1 != "" && r2 != "" {
      assert r1 == b[|cname| + 1..|b| - 1] == r2;
    }
  }

  lemma {:induction false} CountAppend<T>(s: seq<T>, x: T, y: T)
    ensures Count(s + [x], y) == Count(s, y) + (if x == y then 1 else 0)
    decreases |s|
  {
    if |s| == 0 {
      assert [x][1..] == [];
    } else {
      CountAppend(s[1..], x, y);
      assert (s + [x])[1..] == s[1..] + [x];
    }
  }

  lemma {:induction false} CountPositive<T>(s: seq<T>, x: T)
    requires x in s
    ensures Count(s, x) > 0
    decreases |s|
  {
    if s[0] != x {
      CountPositive(s[1..], x);
    }
  }

  /** The fold equals the closed form: each cluster's name is its label
      for the number of clusters of its region so far. */
  lemma NameFoldIsLabel(cname: string, rs: seq<string>, used: map<string, nat>, h: seq<string>)
    requires Tracks(cname, used, h, rs)
    ensures forall i :: 0 <= i < |rs| ==>
      NameFold(cname, rs, used)[i] == Label(cname, rs[i], Count(h + rs[..i + 1], rs[i]))
  {
    forall i | 0 <= i < |rs|
      ensures NameFold(cname, rs, used)[i] == Label(cname, rs[i], Count(h + rs[..i + 1], rs[i]))
    {
      NameFoldAt(cname, rs, used, h, i);
    }
  }

  lemma {:induction false} NameFoldAt(cname: string, rs: seq<string>, used: map<string, nat>, h: seq<string>, i: nat)
    requires Tracks(cname, used, h, rs)
    requires i < |rs|
    ensures NameFold(cname, rs, used)[i] == Label(cname, rs[i], Count(h + rs[..i + 1], rs[i]))
    decreases i
  {
    var b := BaseSuffix(cname, rs[0]);
    var n := if b in used then used[b] + 1 else 1;
    TracksStep(cname, used, h, rs);
    var names := NameFold(cname, rs, used);
    if i > 0 {
      NameFoldAt(cname, rs[1..], used[b := n], h + [rs[0]], i - 1);
      assert names[i] == NameFold(cname, rs[1..], used[b := n])[i - 1];
      PrefixShift(h, rs, i);
    } else {
      assert h + rs[..1] == h + [rs[0]];
    }
  }

  lemma PrefixShift<T>(h: seq<T>, rs: seq<T>, i: nat)
    requires 0 < i < |rs|
    ensures (h + [rs[0]]) + rs[1..][..i] == h + rs[..i + 1]
  {
    assert rs[..i + 1] == [rs[0]] + rs[1..][..i];
  }

  /** One step of the fold: the new running count is the number of times
      the region has now been seen, and `used` keeps tracking. */
  lemma TracksStep(cname: string, used: map<string, nat>, h: seq<string>, rs: seq<string>)
    requires |rs| > 0 && Tracks(cname, used, h, rs)
    ensures var b := BaseSuffix(cname, rs[0]);
      var n := if b in used then used[b] + 1 else 1;
      && n == Count(h + [rs[0]], rs[0])
      && (b in used <==> n >= 2)
      && Tracks(cname, used[b := n], h + [rs[0]], rs[1..])
  {
    var r0 := rs[0];
    var b := BaseSuffix(cname, r0);
    var n := if b in used then used[b] + 1 else 1;
    var used' := used[b := n];
    var h' := h + [r0];
    CountAppend(h, r0, r0);
    if r0 !in h {
      if Count(h, r0) > 0 {
        CountNonZero(h, r0);
      }
    } else {
      CountPositive(h, r0);
    }
    forall r | r in h' || r in rs[1..]
      ensures (BaseSuffix(cname, r) in used' <==> r in h')
      ensures r in h' ==> used'[BaseSuffix(cname, r)] == Count(h', r)
    {
      CountAppend(h, r0, r);
      if BaseSuffix(cname, r) == b {
        BaseSuffixInjective(cname, r, r0);
      }
      if r in h' && r != r0 {
        assert r in h;
      }
      if r in rs[1..] {
        assert r in rs;
      }
    }
  }

  lemma {:induction false} CountNonZero<T>(s: seq<T>, x: T)
    requires Count(s, x) > 0
    ensures x in s
    decreases |s|
  {
    if s[0] != x {
      CountNonZero(s[1..], x);
    }
  }

  lemma {:induction false} CountConcat<T>(a: seq<T>, b: seq<T>, x: T)
    ensures Count(a + b, x) == Count(a, x) + Count(b, x)
    decreases |a|
  {
    if |a| == 0 {
      assert a + b == b;
    } else {
      CountConcat(a[1..], b, x);
      assert (a + b)[1..] == a[1..] + b;
      assert (a + b)[0] == a[0];
    }
  }

  /** Length of the longest digit-free prefix. */
  function NonDigitPrefixLen(w: string): nat {
    if |w| == 0 || IsDigit(w[0]) then 0 else 1 + NonDigitPrefixLen(w[1..])
  }

  /** A digit-free string followed by digits splits back at its end. */
  lemma {:induction false} NonDigitPrefix(r: string, d: string)
    requires NoDigits(r) && AllDigits(d)
    ensures NonDigitPrefixLen(r + d) == |r|
    decreases |r|
  {
    if |r| == 0 {
      assert r + d == d;
    } else {
      NonDigitPrefix(r[1..], d);
      assert (r + d)[1..] == r[1..] + d;
    }
  }

  lemma TailInjective(n1: nat, n2: nat)
    requires Tail(n1) == Tail(n2)
    ensures n1 <= 1 <==> n2 <= 1
    ensures n1 >= 2 ==> n1 == n2
  {
    if n1 >= 2 && n2 >= 2 {
      NatStrInjective(n1, n2);
    }
  }

  /** A label is the bare raw name exactly for the first cluster without a
      region; every other label is longer. */
  lemma LabelLength(cname: string, r: string, n: nat)
    ensures (n <= 1 && r == "") <==> |Label(cname, r, n)| == |cname|
  {
  }

  /** Distinct (region, count) pairs give distinct labels. */
  lemma LabelInjective(cname: string, r1: string, n1: nat, r2: string, n2: nat)
    requires NoDigits(r1) && NoDigits(r2) && n1 >= 1 && n2 >= 1
    requires Label(cname, r1, n1) == Label(cname, r2, n2)
    ensures r1 == r2 && n1 == n2
  {
    LabelLength(cname, r1, n1);
    LabelLength(cname, r2, n2);
    if !(n1 <= 1 && r1 == "") && !(n2 <= 1 && r2 == "") {
      BracketedInjective(cname, r1, n1, r2, n2);
    }
  }

  lemma BracketedInjective(cname: string, r1: string, n1: nat, r2: string, n2: nat)
    requires NoDigits(r1) && NoDigits(r2)
    requires cname + "(" + (r1 + Tail(n1)) + ")" == cname + "(" + (r2 + Tail(n2)) + ")"
    ensures r1 == r2 && (n1 <= 1 <==> n2 <= 1) && (n1 >= 2 ==> n1 == n2)
  {
    Unbracket(cname, r1 + Tail(n1), r2 + Tail(n2));
    assert AllDigits(Tail(n1)) && AllDigits(Tail(n2));
    SplitDigits(r1, Tail(n1), r2, Tail(n2));
    TailInjective(n1, n2);
  }

  lemma Unbracket(cname: string, w1: string, w2: string)
    requires cname + "(" + w1 + ")" == cname + "(" + w2 + ")"
    ensures w1 == w2
  {
    var l := cname + "(" + w1 + ")";
    assert w1 == l[|cname| + 1..|l| - 1];
  }

  lemma SplitDigits(r1: string, d1: string, r2: string, d2: string)
    requires NoDigits(r1) && NoDigits(r2) && AllDigits(d1) && AllDigits(d2)
    requires r1 + d1 == r2 + d2
    ensures r1 == r2 && d1 == d2
  {
    NonDigitPrefix(r1, d1);
    NonDigitPrefix(r2, d2);
    var w := r1 + d1;
    assert r1 == w[..|r1|] && r2 == w[..|r2|];
    assert d1 == w[|r1|..] && d2 == w[|r2|..];
  }

  /** A later occurrence of the same region has a strictly larger running
      count. */
  lemma CountGrows<T>(rs: seq<T>, i: nat, j: nat)
    requires i < j < |rs| && rs[i] == rs[j]
    ensures Count(rs[..i + 1], rs[i]) < Count(rs[..j + 1], rs[j])
  {
    assert rs[..j + 1] == rs[..i + 1] + rs[i + 1..j + 1];
    CountConcat(rs[..i + 1], rs[i + 1..j + 1], rs[i]);
    assert rs[i + 1..j + 1] == rs[i + 1..j] + [rs[j]];
    CountAppend(rs[i + 1..j], rs[j], rs[i]);
  }

  lemma CountLast<T>(rs: seq<T>, i: nat)
    requires i < |rs|
    ensures Count(rs[..i + 1], rs[i]) >= 1
  {
    assert rs[..i + 1] == rs[..i] + [rs[i]];
    CountAppend(rs[..i], rs[i], rs[i]);
  }

  /** Clusters of one raw name get pairwise-distinct display names. */
  lemma ClusterNamesDistinct(cname: string, rs: seq<string>)
    requires forall i :: 0 <= i < |rs| ==> NoDigits(rs[i])
    ensures Distinct(NameFold(cname, rs, map[]))
  {
    var names := NameFold(cname, rs, map[]);
    NameFoldIsLabel(cname, rs, map[], []);
    forall i, j | 0 <= i < j < |names|
      ensures names[i] != names[j]
    {
      DistinctAt(cname, rs, names, i, j);
    }
  }

  lemma DistinctAt(cname: string, rs: seq<string>, names: seq<string>, i: nat, j: nat)
    requires forall i :: 0 <= i < |rs| ==> NoDigits(rs[i])
    requires |names| == |rs| && i < j < |rs|
    requires forall i :: 0 <= i < |rs| ==> names[i] == Label(cname, rs[i], Count([] + rs[..i + 1], rs[i]))
    ensures names[i] != names[j]
  {
    assert [] + rs[..i + 1] == rs[..i + 1];
    assert [] + rs[..j + 1] == rs[..j + 1];
    CountLast(rs, i);
    CountLast(rs, j);
    if names[i] == names[j] {
      LabelInjective(cname, rs[i], Count(rs[..i + 1], rs[i]), rs[j], Count(rs[..j + 1], rs[j]));
      CountGrows(rs, i, j);
    }
  }

  // ---------------------------------------------------------------------
  // Assigning names to nodes

  /** The (node, display name) entries of one cluster, in member order. */
  function ClusterEntries(c: Cluster, name: string): (r: seq<(NodeId, string)>)
    ensures forall e :: e in r <==> e.0 in c.members && e.1 == name
  {
    var r := seq(|c.members|, i requires 0 <= i < |c.members| => (c.members[i], name));
    assert forall e: (NodeId, string) :: e.0 in c.members && e.1 == name ==> e in r by {
      forall e: (NodeId, string) | e.0 in c.members && e.1 == name ensures e in r {
        var i :| 0 <= i < |c.members| && c.members[i] == e.0;
        assert r[i] == e;
      }
    }
    r
  }

  function AssignClusters(cs: seq<Cluster>, names: seq<string>): (r: seq<(NodeId, string)>)
    requires |names| == |cs|
    ensures forall e :: e in r <==> exists k :: 0 <= k < |cs| && e.0 in cs[k].members && e.1 == names[k]
  {
    if |cs| == 0 then []
    else
      var rest := AssignClusters(cs[1..], names[1..]);
      assert forall e :: e in rest <==> exists k :: 1 <= k < |cs| && e.0 in cs[k].members && e.1 == names[k] by {
        forall e ensures e in rest <==> exists k :: 1 <= k < |cs| && e.0 in cs[k].members && e.1 == names[k] {
          if e in rest {
            var k :| 0 <= k < |cs[1..]| && e.0 in cs[1..][k].members && e.1 == names[1..][k];
            assert e.0 in cs[k + 1].members && e.1 == names[k + 1];
          }
          if exists k :: 1 <= k < |cs| && e.0 in cs[k].members && e.1 == names[k] {
            var k :| 1 <= k < |cs| && e.0 in cs[k].members && e.1 == names[k];
            assert e.0 in cs[1..][k - 1].members && e.1 == names[1..][k - 1];
          }
        }
      }
      ClusterEntries(cs[0], names[0]) + rest
  }

  /** Every node paired with the raw name itself. */
  function SameName(cname: string, nodes: seq<RawNode>): (r: seq<(NodeId, string)>)
    ensures forall e :: e in r <==> (exists i :: 0 <= i < |nodes| && e.0 == nodes[i].id) && e.1 == cname
  {
    var r := seq(|nodes|, i requires 0 <= i < |nodes| => (nodes[i].id, cname));
    assert forall e :: e in r <==> (exists i :: 0 <= i < |nodes| && e.0 == nodes[i].id) && e.1 == cname by {
      forall e ensures e in r <==> (exists i :: 0 <= i < |nodes| && e.0 == nodes[i].id) && e.1 == cname {
        if (exists i :: 0 <= i < |nodes| && e.0 == nodes[i].id) && e.1 == cname {
          var i :| 0 <= i < |nodes| && e.0 == nodes[i].id;
          assert r[i] == e;
        }
      }
    }
    r
  }

  /** The display-name entries for all nodes of one raw name, in the order
      the source inserts them into `node_names`. With at most one cluster
      every node keeps the raw name; otherwise every member of cluster k
      gets the k-th cluster name, and those names are pairwise distinct. */
  function GroupEntries(cname: string, nodes: seq<RawNode>, dist: DistFn): (r: seq<(NodeId, string)>)
    ensures |ClusterNodes(nodes, dist)| <= 1 ==>
      forall e :: e in r <==> (exists i :: 0 <= i < |nodes| && e.0 == nodes[i].id) && e.1 == cname
    ensures |ClusterNodes(nodes, dist)| > 1 ==>
      var cs := ClusterNodes(nodes, dist);
      forall e :: e in r <==> exists k :: 0 <= k < |cs| && e.0 in cs[k].members && e.1 == ClusterNames(cname, cs)[k]
  {
    var cs := ClusterNodes(nodes, dist);
    if |cs| <= 1 then SameName(cname, nodes)
    else
      AssignClusters(cs, ClusterNames(cname, cs))
  }

  lemma {:induction false} InMembers(cs: seq<Cluster>, id: NodeId)
    ensures id in Members(cs) <==> exists k :: 0 <= k < |cs| && id in cs[k].members
    decreases |cs|
  {
    if |cs| > 0 {
      InMembers(cs[1..], id);
      if id in Members(cs[1..]) {
        var k :| 0 <= k < |cs[1..]| && id in cs[1..][k].members;
        assert id in cs[k + 1].members;
      }
      if exists k :: 0 <= k < |cs| && id in cs[k].members {
        var k :| 0 <= k < |cs| && id in cs[k].members;
        if k > 0 {
          assert id in cs[1..][k - 1].members;
        }
      }
    }
  }

  /** Nodes with distinct ids lie in one cluster each. */
  lemma OneClusterEach(nodes: seq<RawNode>, dist: DistFn, id: NodeId, j: nat, k: nat)
    requires Distinct(Ids(nodes))
    requires var cs := ClusterNodes(nodes, dist);
      j < |cs| && k < |cs| && id in cs[j].members && id in cs[k].members
    ensures j == k
  {
    var cs := ClusterNodes(nodes, dist);
    MemberTwice(cs, id, j, k);
    DistinctMultiset(Ids(nodes));
    assert j != k ==> multiset(Ids(nodes))[id] >= 2;
  }

  /** An id in two different clusters occurs twice among the members. */
  lemma MemberTwice(cs: seq<Cluster>, id: NodeId, j: nat, k: nat)
    requires j < |cs| && k < |cs| && id in cs[j].members && id in cs[k].members
    ensures j != k ==> multiset(Members(cs))[id] >= 2
  {
    if j < k {
      MemberTwiceOrdered(cs, id, j, k);
    } else if k < j {
      MemberTwiceOrdered(cs, id, k, j);
    }
  }

  lemma MemberTwiceOrdered(cs: seq<Cluster>, id: NodeId, lo: nat, hi: nat)
    requires lo < hi < |cs| && id in cs[lo].members && id in cs[hi].members
    ensures multiset(Members(cs))[id] >= 2
  {
    assert cs == cs[..hi] + cs[hi..];
    MembersConcat(cs[..hi], cs[hi..]);
    assert cs[..hi][lo] == cs[lo] && cs[hi..][0] == cs[hi];
    InMembers(cs[..hi], id);
    InMembers(cs[hi..], id);
    assert multiset(Members(cs))[id] == multiset(Members(cs[..hi]))[id] + multiset(Members(cs[hi..]))[id];
  }

  /** Every node of the raw name gets exactly the display-name entries of
      its own id: an entry exists for an id iff the id is one of the nodes. */
  lemma GroupEntriesIds(cname: string, nodes: seq<RawNode>, dist: DistFn, id: NodeId)
    ensures (exists e :: e in GroupEntries(cname, nodes, dist) && e.0 == id)
        <==> exists i :: 0 <= i < |nodes| && nodes[i].id == id
  {
    if exists i :: 0 <= i < |nodes| && nodes[i].id == id {
      var i :| 0 <= i < |nodes| && nodes[i].id == id;
      NodeHasEntry(cname, nodes, dist, i);
    }
    if exists e :: e in GroupEntries(cname, nodes, dist) && e.0 == id {
      var e :| e in GroupEntries(cname, nodes, dist) && e.0 == id;
      EntryHasNode(cname, nodes, dist, e);
    }
  }

  lemma NodeHasEntry(cname: string, nodes: seq<RawNode>, dist: DistFn, i: nat)
    requires i < |nodes|
    ensures exists e :: e in GroupEntries(cname, nodes, dist) && e.0 == nodes[i].id
  {
    var id := nodes[i].id;
    var cs := ClusterNodes(nodes, dist);
    var r := GroupEntries(cname, nodes, dist);
    if |cs| <= 1 {
      assert (id, cname) in r;
    } else {
      var k := ClusterOf(nodes, dist, i);
      assert (id, ClusterNames(cname, cs)[k]) in r;
    }
  }

  /** The cluster a node ended up in. */
  lemma ClusterOf(nodes: seq<RawNode>, dist: DistFn, i: nat) returns (k: nat)
    requires i < |nodes|
    ensures k < |ClusterNodes(nodes, dist)| && nodes[i].id in ClusterNodes(nodes, dist)[k].members
  {
    var cs := ClusterNodes(nodes, dist);
    var id := nodes[i].id;
    assert Ids(nodes)[i] == id;
    assert id in multiset(Ids(nodes));
    assert id in multiset(Members(cs));
    InMembers(cs, id);
    k :| 0 <= k < |cs| && id in cs[k].members;
  }

  lemma EntryHasNode(cname: string, nodes: seq<RawNode>, dist: DistFn, e: (NodeId, string))
    requires e in GroupEntries(cname, nodes, dist)
    ensures exists i :: 0 <= i < |nodes| && nodes[i].id == e.0
  {
    var cs := ClusterNodes(nodes, dist);
    if |cs| > 1 {
      var k :| 0 <= k < |cs| && e.0 in cs[k].members && e.1 == ClusterNames(cname, cs)[k];
      InMembers(cs, e.0);
      assert e.0 in multiset(Ids(nodes));
      var i :| 0 <= i < |Ids(nodes)| && Ids(nodes)[i] == e.0;
      assert nodes[i].id == e.0;
    }
  }
}
