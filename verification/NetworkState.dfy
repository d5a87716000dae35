/** The masternode's view of the content nodes: filled from gateway updates, queried by location. */
module NetworkState {
  import opened Wrappers
  import opened Metric
  import opened Ranges
  import opened KDSearch
  import opened ResultSet
  import opened SingleIndex
  import opened Geo

  /** One member of the gateway's node map; `None` where reading the field throws. */
  datatype RawEntry = RawEntry(address: string, ip: Option<string>, port: Option<int>, heartbeat: Option<int>,
      contentEmpty: Option<bool>)

  function LowerChar(c: char): char {
    if 'A' <= c <= 'Z' then c - 'A' + 'a' else c
  }

  function Lower(s: string): (t: string)
    ensures |t| == |s| && forall i :: 0 <= i < |s| ==> t[i] == LowerChar(s[i])
  {
    seq(|s|, i requires 0 <= i < |s| => LowerChar(s[i]))
  }

  /** An entry becomes a node if it reads well, is recent enough (two minutes) and has content. */
  predicate Accepted(e: RawEntry, now: int, ignoreHeartbeat: bool) {
    && e.ip.Some? && e.port.Some? && e.heartbeat.Some? && e.contentEmpty.Some?
    && (ignoreHeartbeat || now - e.heartbeat.value <= 2 * 60)
    && !e.contentEmpty.value
  }

  /** Port and heartbeat are narrowed to 16 and 32 bits. */
  function NodeOf(e: RawEntry, located: bool, locate: string -> Location): EdgeNode
    requires e.ip.Some? && e.port.Some? && e.heartbeat.Some?
  {
    EdgeNode(e.ip.value, e.port.value % 0x1_0000, Lower(e.address), e.heartbeat.value % 0x1_0000_0000,
             if located then Some(locate(e.ip.value)) else None)
  }

  /**
   * `nodes` are the nodes of exactly the accepted entries, in order: `from` gives the position of
   * the entry each node was made from.
   */
  ghost predicate ParsedFrom(nodes: seq<EdgeNode>, from: seq<nat>, entries: seq<RawEntry>, now: int,
        ignoreHeartbeat: bool,
                             located: bool, locate: string -> Location) {
    && |from| == |nodes|
    && (forall i, j :: 0 <= i < j < |from| ==> from[i] < from[j])
    && (forall i :: 0 <= i < |from| ==> MadeFrom(nodes[i], from[i], entries, now, ignoreHeartbeat, located, locate))
    && (forall p: nat :: p < |entries| && Accepted(entries[p], now, ignoreHeartbeat) ==> p in from)
  }

  ghost predicate MadeFrom(node: EdgeNode, p: nat, entries: seq<RawEntry>, now: int, ignoreHeartbeat: bool,
                           located: bool, locate: string -> Location) {
    p < |entries| && Accepted(entries[p], now, ignoreHeartbeat) && Represents(node, entries[p], located, locate)
  }

  /**
   * The node of an entry: its IP address, the location of that address, its port and heartbeat as far as
   * 16 and 32 bits go, and its Ethereum address in small letters.
   */
  ghost predicate Represents(node: EdgeNode, e: RawEntry, located: bool, locate: string -> Location)
    requires e.ip.Some? && e.port.Some? && e.heartbeat.Some?
  {
    && node.ip == e.ip.value
    && node.location == (if located then Some(locate(node.ip)) else None)
    && node.port < 0x1_0000 && (node.port - e.port.value) % 0x1_0000 == 0
    && node.heartbeat < 0x1_0000_0000 && (node.heartbeat - e.heartbeat.value) % 0x1_0000_0000 == 0
    && SameButCase(node.ethAddress, e.address) && NoCapitals(node.ethAddress)
  }

  predicate IsLetter(c: char) { 'a' <= c <= 'z' || 'A' <= c <= 'Z' }

  predicate NoCapitals(s: string) { forall i :: 0 <= i < |s| ==> !('A' <= s[i] <= 'Z') }

  /** The two cases of a letter are 32 apart. */
  predicate SameButCase(s: string, t: string) {
    |s| == |t| && forall i :: 0 <= i < |s| ==>
      s[i] == t[i] || (IsLetter(s[i]) && IsLetter(t[i]) && (s[i] as int - t[i] as int) % 32 == 0)
  }

  lemma LowerFolds(s: string)
    ensures SameButCase(Lower(s), s) && NoCapitals(Lower(s))
  {
  }

  /** Strings that differ only in case have the same small form, and only they. */
  lemma {:induction false} SameLowerIff(s: string, t: string)
    ensures Lower(s) == Lower(t) <==> SameButCase(s, t)
  {
    if SameButCase(s, t) {
      assert Lower(s) == Lower(t);
    } else if Lower(s) == Lower(t) {
      forall i | 0 <= i < |s|
        ensures s[i] == t[i] || (IsLetter(s[i]) && IsLetter(t[i]) && (s[i] as int - t[i] as int) % 32 == 0)
      {
        assert Lower(s)[i] == Lower(t)[i];
      }
    }
  }

  lemma {:induction false} NodeRepresents(e: RawEntry, located: bool, locate: string -> Location)
    requires e.ip.Some? && e.port.Some? && e.heartbeat.Some?
    ensures Represents(NodeOf(e, located, locate), e, located, locate)
  {
    LowerFolds(e.address);
  }

  /** There is only one such node. */
  lemma {:induction false} OneRepresents(a: EdgeNode, b: EdgeNode, e: RawEntry, located: bool,
                                         locate: string -> Location)
    requires e.ip.Some? && e.port.Some? && e.heartbeat.Some?
    requires Represents(a, e, located, locate) && Represents(b, e, located, locate)
    ensures a == b
  {
    hide SameButCase, NoCapitals;
    SamePort(a.port, b.port, e.port.value);
    SameHeartbeat(a.heartbeat, b.heartbeat, e.heartbeat.value);
    OneSmallForm(a.ethAddress, b.ethAddress, e.address);
  }

  lemma SamePort(x: nat, y: nat, z: int)
    requires x < 0x1_0000 && y < 0x1_0000 && (x - z) % 0x1_0000 == 0 && (y - z) % 0x1_0000 == 0
    ensures x == y
  {
    var p, q := (x - z) / 0x1_0000, (y - z) / 0x1_0000;
    assert x - z == 0x1_0000 * p && y - z == 0x1_0000 * q;
  }

  lemma SameHeartbeat(x: nat, y: nat, z: int)
    requires x < 0x1_0000_0000 && y < 0x1_0000_0000
    requires (x - z) % 0x1_0000_0000 == 0 && (y - z) % 0x1_0000_0000 == 0
    ensures x == y
  {
    var p, q := (x - z) / 0x1_0000_0000, (y - z) / 0x1_0000_0000;
    assert x - z == 0x1_0000_0000 * p && y - z == 0x1_0000_0000 * q;
  }

  lemma {:induction false} OneSmallForm(a: string, b: string, s: string)
    requires SameButCase(a, s) && NoCapitals(a) && SameButCase(b, s) && NoCapitals(b)
    ensures a == b
  {
    forall i | 0 <= i < |s| ensures a[i] == b[i] {
    }
  }

  /** The last moment at which an entry is recent enough. */
  lemma TwoMinutes(e: RawEntry, now: int)
    requires e.ip.Some? && e.port.Some? && e.contentEmpty == Some(false)
    ensures e.heartbeat == Some(now - 120) ==> Accepted(e, now, false)
    ensures e.heartbeat == Some(now - 121) ==> !Accepted(e, now, false) && Accepted(e, now, true)
    ensures forall later :: later >= now && Accepted(e, later, false) ==> Accepted(e, now, false)
  {
  }

  class NetworkState {
    var edgeNodes: seq<EdgeNode>
    const geo: GeoIndex?
    const geoEnabled: bool

    ghost predicate Valid()
      reads this, geo, if geo == null || geo.treeData == null then {} else {geo.treeData, geo.treeData.tree}
    {
      geoEnabled ==> geo != null && (geo.treeData != null ==> geo.treeData.Valid())
    }

    /** No update is half done: the tree and the node list are those of the same update. */
    ghost predicate Synced()
      reads this, geo, if geo == null || geo.treeData == null then {} else {geo.treeData, geo.treeData.tree}
    {
      Valid() && geo != null && geo.treeData != null && geo.treeData.Valid() && geo.treeData.cloud == edgeNodes
    }

    constructor (geo: GeoIndex?, geoEnabled: bool)
      requires geoEnabled ==> geo != null && (geo.treeData != null ==> geo.treeData.Valid())
      ensures Valid() && edgeNodes == [] && this.geo == geo && this.geoEnabled == geoEnabled
    {
      edgeNodes := [];
      this.geo, this.geoEnabled := geo, geoEnabled;
    }

    /** Replaces the node list, and with location lookup enabled the tree, by those of a gateway update. */
    method ParseStateUpdate(entries: seq<RawEntry>, now: int, ignoreHeartbeat: bool, locate: string -> Location)
      returns (ghost from: seq<nat>)
      requires Valid()
      modifies this, geo
      ensures ParsedFrom(edgeNodes, from, entries, now, ignoreHeartbeat, geoEnabled, locate)
      ensures Valid() && (geoEnabled ==> Synced())
      ensures geo != null && !geoEnabled ==> geo.treeData == old(geo.treeData)
    {
      var newList: seq<EdgeNode> := [];
      from := [];
      for i := 0 to |entries|
        invariant ParsedFrom(newList, from, entries[..i], now, ignoreHeartbeat, geoEnabled, locate)
        invariant geo != null ==> geo.treeData == old(geo.treeData)
      {
        var e := entries[i];
        ghost var before, fromBefore := newList, from;
        if e.ip.Some? && e.port.Some? && e.heartbeat.Some? && e.contentEmpty.Some? {
          if !(!ignoreHeartbeat && now - e.heartbeat.value > 2 * 60) && !e.contentEmpty.value {
            newList := newList + [NodeOf(e, geoEnabled, locate)];
            from := from + [i];
          }
        }
        ParseStep(before, fromBefore, entries[..i], e, now, ignoreHeartbeat, geoEnabled, locate);
        assert entries[..i + 1] == entries[..i] + [e];
      }
      assert entries[..|entries|] == entries;
      if geoEnabled {
        var newTreeData := new TreeData(newList);
        geo.SetTreeData(newTreeData);
      }
      edgeNodes := newList;
    }

    method SetEdgeNodes(nodes: seq<EdgeNode>)
      requires Valid()
      modifies this
      ensures Valid() && edgeNodes == nodes
    {
      edgeNodes := nodes;
    }

    /**
     * The nodes nearest to a location. Positions come from the tree and are looked up in the list; a
     * position the list does not have raises an error.
     */
    method GetNearestEdgeNodes(l: Location, n: nat) returns (r: Result<seq<EdgeNode>>)
      requires 0 < n && Valid() && geo != null && geo.treeData != null && geo.treeData.Valid()
      requires BelowMax(geo.MAX, geo.treeData.tree.pts, PointOf(l), 1.0)
      ensures exists picks :: IsPadded(picks, n, geo.treeData.tree.pts, PointOf(l))
                              && NearestNodes(picks, n, geo.treeData.cloud, l) && LooksUp(r, picks, edgeNodes)
    {
      var indices := geo.GetNearestNodes(l, n);
      var nodes: seq<EdgeNode> := [];
      for k := 0 to |indices|
        invariant |nodes| == k
        invariant forall i :: 0 <= i < k ==> indices[i] < |edgeNodes| && nodes[i] == edgeNodes[indices[i]]
      {
        if indices[k] >= |edgeNodes| {
          r := Err("out_of_range");
          assert LooksUp(r, indices, edgeNodes);
          return;
        }
        nodes := nodes + [edgeNodes[indices[k]]];
      }
      r := Ok(nodes);
      assert LooksUp(r, indices, edgeNodes);
    }
  }

  /** The nodes at the given positions of a list, or an error if the list is too short for one of them. */
  ghost predicate LooksUp(r: Result<seq<EdgeNode>>, picks: seq<nat>, nodes: seq<EdgeNode>) {
    && (r.Ok? <==> forall i :: 0 <= i < |picks| ==> picks[i] < |nodes|)
    && (r.Ok? ==> |r.value| == |picks| && forall i :: 0 <= i < |picks| ==>
        picks[i] < |nodes| && r.value[i] == nodes[picks[i]])
  }

  lemma AcceptedReads(e: RawEntry, now: int, ignoreHeartbeat: bool)
    requires Accepted(e, now, ignoreHeartbeat)
    ensures e.ip.Some? && e.port.Some? && e.heartbeat.Some?
  {
  }

  lemma {:induction false} ParseStep(nodes: seq<EdgeNode>, from: seq<nat>, entries: seq<RawEntry>, e: RawEntry,
        now: int, ignoreHeartbeat: bool,
                                     located: bool, locate: string -> Location)
    requires ParsedFrom(nodes, from, entries, now, ignoreHeartbeat, located, locate)
    ensures if Accepted(e, now, ignoreHeartbeat)
      then ParsedFrom(nodes + [NodeOf(e, located, locate)], from + [|entries|], entries + [e], now, ignoreHeartbeat,
          located, locate)
      else ParsedFrom(nodes, from, entries + [e], now, ignoreHeartbeat, located, locate)
  {
    hide Accepted, NodeOf, Represents;
    if Accepted(e, now, ignoreHeartbeat) {
      AcceptedReads(e, now, ignoreHeartbeat);
      NodeRepresents(e, located, locate);
    }
    assert forall i :: 0 <= i < |from| ==> MadeFrom(nodes[i], from[i], entries, now, ignoreHeartbeat, located, locate);
  }

  /** The parse result is determined by the entries. */
  lemma {:induction false} ParseIsUnique(nodes: seq<EdgeNode>, from: seq<nat>, nodes': seq<EdgeNode>, from': seq<nat>,
                                         entries: seq<RawEntry>, now: int, ignoreHeartbeat: bool, located: bool,
                                          locate: string -> Location)
    requires ParsedFrom(nodes, from, entries, now, ignoreHeartbeat, located, locate)
    requires ParsedFrom(nodes', from', entries, now, ignoreHeartbeat, located, locate)
    ensures nodes == nodes' && from == from'
  {
    SameSteps(from, from');
    SameSteps(from', from);
    forall i | 0 <= i < |nodes| ensures nodes[i] == nodes'[i] {
      assert MadeFrom(nodes[i], from[i], entries, now, ignoreHeartbeat, located, locate);
      assert MadeFrom(nodes'[i], from'[i], entries, now, ignoreHeartbeat, located, locate);
      OneRepresents(nodes[i], nodes'[i], entries[from[i]], located, locate);
    }
  }

  lemma {:induction false} SameSteps(a: seq<nat>, b: seq<nat>)
    requires forall i, j :: 0 <= i < j < |a| ==> a[i] < a[j]
    requires forall i, j :: 0 <= i < j < |b| ==> b[i] < b[j]
    requires forall x :: x in a <==> x in b
    ensures a == b
  {
    assert b != [] ==> b[0] in a;
    if a != [] {
      assert a[|a| - 1] in b && b[|b| - 1] in a;
      var a', b' := a[..|a| - 1], b[..|b| - 1];
      assert a[|a| - 1] == b[|b| - 1];
      forall x ensures x in a' <==> x in b' {
        assert x in a' <==> x in a && x != a[|a| - 1];
        assert x in b' <==> x in b && x != b[|b| - 1];
      }
      SameSteps(a', b');
    }
  }

  /**
   * A query answers with distinct nodes exactly when it asks for no more than there are; asking an
   * empty list is an error.
   */
  lemma {:induction false} DistinctIffEnough(picks: seq<nat>, n: nat, pts: seq<Point>, query: Point)
    requires 0 < n && IsPadded(picks, n, pts, query)
    ensures pts != [] ==> (Distinct(picks) <==> n <= |pts|)
    ensures (forall i :: 0 <= i < n ==> picks[i] < |pts|) <==> pts != []
  {
    var m := Available(n, |pts|);
    var dists: seq<real> :| IsKnn(picks[..m], dists, pts, query);
    forall i | 0 <= i < m ensures picks[i] < |pts| {
      assert IsRanked(picks[..m][i], dists[i], i, pts, query);
    }
    assert picks[0] < |pts| ==> pts != [];
    if n <= |pts| {
      assert picks[..m] == picks;
    } else if pts != [] {
      ZeroIsPicked(picks[..m], |pts|);
      var z :| 0 <= z < m && picks[..m][z] == 0;
      assert picks[z] == 0 == picks[m];
    }
  }

  /**
   * From a gateway update to an answer: asked for no more nodes than the update has, the masternode
   * returns that many distinct ones, each the node of an accepted entry, nearest first, and every accepted
   * entry's node is among them, or its address lies no closer than any of them.
   */
  lemma {:induction false} NearestOfUpdate(nodes: seq<EdgeNode>, from: seq<nat>, entries: seq<RawEntry>, now: int,
                                           ignoreHeartbeat: bool, locate: string -> Location, picks: seq<nat>, n: nat,
                                           l: Location)
    requires ParsedFrom(nodes, from, entries, now, ignoreHeartbeat, true, locate) && Located(nodes)
    requires 0 < n <= |nodes| && NearestNodes(picks, n, nodes, l)
    ensures Distinct(picks) && |picks| == n
    ensures forall i :: 0 <= i < n ==>
      picks[i] < |nodes| && MadeFrom(nodes[picks[i]], from[picks[i]], entries, now, ignoreHeartbeat, true, locate)
    ensures forall i, j :: 0 <= i <= j < n ==> Away(nodes, picks[i], l) <= Away(nodes, picks[j], l)
    ensures forall p: nat :: p < |entries| && Accepted(entries[p], now, ignoreHeartbeat) ==>
      (exists i :: 0 <= i < n && from[picks[i]] == p)
      || forall i :: 0 <= i < n ==> Away(nodes, picks[i], l) <= SquaredDistance(l, locate(entries[p].ip.value))
  {
    hide SquaredDistance, MadeFrom, Away, NearestNodes, Distinct;
    EnoughNodes(picks, n, nodes, l);
    forall p: nat | p < |entries| && Accepted(entries[p], now, ignoreHeartbeat)
      ensures (exists i :: 0 <= i < n && from[picks[i]] == p)
              || forall i :: 0 <= i < n ==> Away(nodes, picks[i], l) <= SquaredDistance(l, locate(entries[p].ip.value))
    {
      var q: nat :| q < |from| && from[q] == p;
      LiesAt(nodes, q, p, entries, now, ignoreHeartbeat, locate, l);
      if q in picks {
        var i :| 0 <= i < n && picks[i] == q;
        assert from[picks[i]] == p;
      }
    }
  }

  /** With enough nodes there, all that was asked for is listed. */
  lemma {:induction false} EnoughNodes(picks: seq<nat>, n: nat, nodes: seq<EdgeNode>, l: Location)
    requires Located(nodes) && n <= |nodes| && NearestNodes(picks, n, nodes, l)
    ensures |picks| == n && Distinct(picks) && forall i :: 0 <= i < n ==> picks[i] < |nodes|
    ensures forall i, j :: 0 <= i <= j < n ==> Away(nodes, picks[i], l) <= Away(nodes, picks[j], l)
    ensures forall q, i :: 0 <= q < |nodes| && q !in picks && 0 <= i < n ==>
      Away(nodes, picks[i], l) <= Away(nodes, q, l)
  {
    hide Away;
    assert picks[..n] == picks;
  }

  /** A node lies where its entry's address does. */
  lemma LiesAt(nodes: seq<EdgeNode>, q: nat, p: nat, entries: seq<RawEntry>, now: int, ignoreHeartbeat: bool,
               locate: string -> Location, l: Location)
    requires Located(nodes) && q < |nodes|
    requires MadeFrom(nodes[q], p, entries, now, ignoreHeartbeat, true, locate)
    ensures entries[p].ip.Some? && Away(nodes, q, l) == SquaredDistance(l, locate(entries[p].ip.value))
  {
  }

  lemma {:induction false} ZeroIsPicked(s: seq<nat>, n: nat)
    requires |s| == n > 0 && Distinct(s) && forall i :: 0 <= i < n ==> s[i] < n
    ensures 0 in s
  {
    if 0 !in s {
      var shifted := seq(n, i requires 0 <= i < n => s[i] - 1);
      assert forall i :: 0 <= i < n ==> shifted[i] == s[i] - 1 && 0 <= shifted[i] < n - 1;
      TooMany(shifted, n - 1);
    }
  }

  /** There are not more than n distinct numbers below n. */
  lemma {:induction false} TooMany(s: seq<int>, n: nat)
    requires Distinct(s) && forall i :: 0 <= i < |s| ==> 0 <= s[i] < n
    ensures |s| <= n
    decreases |s|
  {
    if s != [] {
      var last, x := |s| - 1, s[|s| - 1];
      var t := seq(last, i requires 0 <= i < last => if s[i] == n - 1 then x else s[i]);
      assert forall i :: 0 <= i < last ==> t[i] == if s[i] == n - 1 then x else s[i];
      TooMany(t, n - 1);
    }
  }
}
