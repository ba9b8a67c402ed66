/** The node/edge topology of the neural-network illustration.

    The page builds its nodes layer by layer, tagging each with the index of
    its layer, and then joins every node of each layer to every node of the
    next one. Only the tagging and the `(from, to)` index pairs are modelled:
    positions and the animated pulse and progress values are left out. */
module Topology {

  /** A node of the illustration, reduced to the index of its layer. */
  datatype Node = Node(layer: nat)

  /** An edge between two nodes, given by their indices in the node list. */
  datatype Connection = Connection(from: nat, to: nat)

  /** The layer sizes the page uses. */
  const PageLayers: seq<nat> := [4, 6, 6, 4]

  /** The index of the first node of layer `l`: the total size of the layers
      before it. */
  function Start(layers: seq<nat>, l: nat): nat
    requires l <= |layers|
  {
    if l == 0 then 0 else Start(layers, l - 1) + layers[l - 1]
  }

  /** The total of the layer sizes. */
  function Sum(layers: seq<nat>): nat {
    Start(layers, |layers|)
  }

  /** The sum of the products of the sizes of adjacent layers among the
      first `m`. */
  function AdjacentProducts(layers: seq<nat>, m: nat): nat
    requires m <= |layers|
  {
    if m < 2 then 0 else AdjacentProducts(layers, m - 1) + layers[m - 2] * layers[m - 1]
  }

  /** The sum of the products of the sizes of adjacent layers. */
  function CrossSum(layers: seq<nat>): nat {
    AdjacentProducts(layers, |layers|)
  }

  /** Node index `k` lies in the index range of layer `l`. */
  predicate InLayer(layers: seq<nat>, k: nat, l: nat) {
    l < |layers| && Start(layers, l) <= k < Start(layers, l + 1)
  }

  /** Layer starts never decrease. */
  lemma {:induction false} StartMonotone(layers: seq<nat>, l: nat, m: nat)
    requires l <= m <= |layers|
    ensures Start(layers, l) <= Start(layers, m)
    decreases m - l
  {
    if l < m {
      StartMonotone(layers, l + 1, m);
    }
  }

  /** A node index lies in at most one layer. */
  lemma LayerUnique(layers: seq<nat>, k: nat, l: nat, m: nat)
    requires InLayer(layers, k, l) && InLayer(layers, k, m)
    ensures l == m
  {
    if l < m {
      StartMonotone(layers, l + 1, m);
    } else if m < l {
      StartMonotone(layers, m + 1, l);
    }
  }

  // ---------------------------------------------------------------------
  // Nodes

  /** The nodes of one layer, all tagged with its index. */
  function LayerNodes(l: nat, count: nat): (r: seq<Node>)
    ensures |r| == count && forall k :: 0 <= k < count ==> r[k] == Node(l)
  {
    seq(count, _ => Node(l))
  }

  /** The nodes of the first `m` layers, layer after layer. */
  function NodesUpTo(layers: seq<nat>, m: nat): (r: seq<Node>)
    requires m <= |layers|
    ensures |r| == Start(layers, m)
  {
    if m == 0 then [] else NodesUpTo(layers, m - 1) + LayerNodes(m - 1, layers[m - 1])
  }

  /** The node list built for the given layer sizes. */
  function Nodes(layers: seq<nat>): seq<Node> {
    NodesUpTo(layers, |layers|)
  }

  /** Among the nodes of the first `m` layers, each carries the layer whose
      index range holds it. */
  lemma {:induction false} NodesUpToTagged(layers: seq<nat>, m: nat)
    requires m <= |layers|
    ensures forall k :: 0 <= k < |NodesUpTo(layers, m)| ==>
      InLayer(layers, k, NodesUpTo(layers, m)[k].layer)
  {
    if m > 0 {
      NodesUpToTagged(layers, m - 1);
    }
  }

  /** There is one node per unit of layer size, and every node carries the
      layer whose index range holds it: the nodes of layer `l` occupy the
      indices from `Start(layers, l)` up to `Start(layers, l + 1)`. */
  lemma NodesTagged(layers: seq<nat>)
    ensures |Nodes(layers)| == Sum(layers)
    ensures forall k :: 0 <= k < |Nodes(layers)| ==> InLayer(layers, k, Nodes(layers)[k].layer)
  {
    NodesUpToTagged(layers, |layers|);
  }

  /** The layer of a node is exactly the layer whose index range holds it. */
  lemma NodeLayerIff(layers: seq<nat>, k: nat, l: nat)
    requires k < Sum(layers)
    ensures Nodes(layers)[k].layer == l <==> InLayer(layers, k, l)
  {
    NodesTagged(layers);
    if InLayer(layers, k, l) {
      LayerUnique(layers, k, l, Nodes(layers)[k].layer);
    }
  }

  /** A layer of size zero holds no node (and building it does not fail). */
  lemma EmptyLayerHasNoNodes(layers: seq<nat>, l: nat)
    requires l < |layers| && layers[l] == 0
    ensures forall k :: 0 <= k < |Nodes(layers)| ==> Nodes(layers)[k].layer != l
  {
    NodesTagged(layers);
  }

  /** The node-creation loop of the illustration: for each layer in order,
      push `count` nodes tagged with the layer's index. */
  method BuildNodes(layers: seq<nat>) returns (nodes: seq<Node>)
    ensures nodes == Nodes(layers)
    ensures |nodes| == Sum(layers)
    ensures forall k :: 0 <= k < |nodes| ==> InLayer(layers, k, nodes[k].layer)
  {
    nodes := [];
    var layerIndex := 0;
    while layerIndex < |layers|
      invariant 0 <= layerIndex <= |layers|
      invariant nodes == NodesUpTo(layers, layerIndex)
    {
      var count := layers[layerIndex];
      ghost var before := nodes;
      var i := 0;
      while i < count
        invariant 0 <= i <= count
        invariant nodes == before + LayerNodes(layerIndex, i)
      {
        nodes := nodes + [Node(layerIndex)];
        i := i + 1;
      }
      layerIndex := layerIndex + 1;
    }
    NodesTagged(layers);
  }

  // ---------------------------------------------------------------------
  // Connections

  /** The edges from node `i` to each node in `[ts, te)`, in order. */
  function Row(i: nat, ts: nat, te: nat): (r: seq<Connection>)
    ensures |r| == if ts <= te then te - ts else 0
    ensures forall k :: 0 <= k < |r| ==> r[k] == Connection(i, ts + k)
    decreases te
  {
    if te <= ts then [] else Row(i, ts, te - 1) + [Connection(i, te - 1)]
  }

  /** The edges from each node in `[fs, fe)` to each node in `[ts, te)`, row
      after row. */
  function Block(fs: nat, fe: nat, ts: nat, te: nat): seq<Connection>
    decreases fe
  {
    if fe <= fs then [] else Block(fs, fe - 1, ts, te) + Row(fe - 1, ts, te)
  }

  /** The connections between the first `m` layers: the block between each
      pair of adjacent layers, in layer order. */
  function ConnectionsUpTo(layers: seq<nat>, m: nat): seq<Connection>
    requires m <= |layers|
  {
    if m < 2 then []
    else
      ConnectionsUpTo(layers, m - 1) +
        Block(Start(layers, m - 2), Start(layers, m - 1), Start(layers, m - 1), Start(layers, m))
  }

  /** The connection list built for the given layer sizes. */
  function Connections(layers: seq<nat>): seq<Connection> {
    ConnectionsUpTo(layers, |layers|)
  }

  /** A row holds exactly the edges from `i` into `[ts, te)`. */
  lemma RowMembers(i: nat, ts: nat, te: nat)
    ensures forall c :: c in Row(i, ts, te) <==> c.from == i && ts <= c.to < te
  {
    var row := Row(i, ts, te);
    forall c: Connection ensures c in row <==> c.from == i && ts <= c.to < te {
      if c.from == i && ts <= c.to < te {
        assert row[c.to - ts] == c;
      }
    }
  }

  /** A block has one edge per pair of its two ranges. */
  lemma {:induction false} BlockLength(fs: nat, fe: nat, ts: nat, te: nat)
    requires fs <= fe && ts <= te
    ensures |Block(fs, fe, ts, te)| == (fe - fs) * (te - ts)
    decreases fe
  {
    if fs < fe {
      BlockLength(fs, fe - 1, ts, te);
      var rows, width := fe - 1 - fs, te - ts;
      assert |Block(fs, fe, ts, te)| == rows * width + width;
      assert rows * width + width == (rows + 1) * width;
    }
  }

  /** A block holds exactly the pairs of its two ranges. */
  lemma {:induction false} BlockMembers(fs: nat, fe: nat, ts: nat, te: nat)
    ensures forall c :: c in Block(fs, fe, ts, te) <==> fs <= c.from < fe && ts <= c.to < te
    decreases fe
  {
    if fs < fe {
      BlockMembers(fs, fe - 1, ts, te);
      RowMembers(fe - 1, ts, te);
      var b, row := Block(fs, fe - 1, ts, te), Row(fe - 1, ts, te);
      assert Block(fs, fe, ts, te) == b + row;
      forall c: Connection ensures c in b + row <==> fs <= c.from < fe && ts <= c.to < te {
        assert c in b + row <==> c in b || c in row;
      }
    }
  }

  /** `a` comes strictly before `b` in lexicographic `(from, to)` order. */
  predicate Before(a: Connection, b: Connection) {
    a.from < b.from || (a.from == b.from && a.to < b.to)
  }

  /** The connections are in strictly increasing lexicographic order, so
      there is no duplicate among them. */
  predicate Ordered(cs: seq<Connection>) {
    forall a, b :: 0 <= a < b < |cs| ==> Before(cs[a], cs[b])
  }

  /** Two ordered lists, every element of the first before every element of
      the second, concatenate to an ordered list. */
  lemma OrderedAppend(xs: seq<Connection>, ys: seq<Connection>)
    requires Ordered(xs) && Ordered(ys)
    requires forall x, y :: x in xs && y in ys ==> Before(x, y)
    ensures Ordered(xs + ys)
  {
    forall a, b | 0 <= a < b < |xs + ys| ensures Before((xs + ys)[a], (xs + ys)[b]) {
      if b < |xs| {
      } else if a >= |xs| {
        assert (xs + ys)[a] == ys[a - |xs|] && (xs + ys)[b] == ys[b - |xs|];
      } else {
        assert (xs + ys)[a] in xs && (xs + ys)[b] == ys[b - |xs|];
      }
    }
  }

  /** A row is ordered. */
  lemma RowOrdered(i: nat, ts: nat, te: nat)
    ensures Ordered(Row(i, ts, te))
  {
    var row := Row(i, ts, te);
    forall a, b | 0 <= a < b < |row| ensures Before(row[a], row[b]) {
      assert row[a] == Connection(i, ts + a) && row[b] == Connection(i, ts + b);
    }
  }

  /** A block is ordered. */
  lemma {:induction false} BlockOrdered(fs: nat, fe: nat, ts: nat, te: nat)
    ensures Ordered(Block(fs, fe, ts, te))
    decreases fe
  {
    if fs < fe {
      BlockOrdered(fs, fe - 1, ts, te);
      BlockMembers(fs, fe - 1, ts, te);
      RowMembers(fe - 1, ts, te);
      RowOrdered(fe - 1, ts, te);
      OrderedAppend(Block(fs, fe - 1, ts, te), Row(fe - 1, ts, te));
    }
  }

  /** `c` joins a node of some layer `l` to a node of layer `l + 1`, both
      among the first `m` layers. */
  ghost predicate JoinsAdjacentBelow(layers: seq<nat>, m: nat, c: Connection) {
    exists l: nat :: l + 1 < m && InLayer(layers, c.from, l) && InLayer(layers, c.to, l + 1)
  }

  /** `c` joins a node of some layer `l` to a node of layer `l + 1`. */
  ghost predicate JoinsAdjacent(layers: seq<nat>, c: Connection) {
    JoinsAdjacentBelow(layers, |layers|, c)
  }

  /** There is one connection among the first `m` layers per pair of nodes
      in adjacent layers. */
  lemma {:induction false} ConnectionsUpToCount(layers: seq<nat>, m: nat)
    requires m <= |layers|
    ensures |ConnectionsUpTo(layers, m)| == AdjacentProducts(layers, m)
  {
    if m >= 2 {
      ConnectionsUpToCount(layers, m - 1);
      BlockLength(Start(layers, m - 2), Start(layers, m - 1), Start(layers, m - 1), Start(layers, m));
    }
  }

  /** The connections among the first `m` layers are exactly the pairs of
      nodes in adjacent layers among them. */
  lemma {:induction false} ConnectionsUpToMembers(layers: seq<nat>, m: nat)
    requires m <= |layers|
    ensures forall c :: c in ConnectionsUpTo(layers, m) <==> JoinsAdjacentBelow(layers, m, c)
  {
    if m >= 2 {
      ConnectionsUpToMembers(layers, m - 1);
      var s0, s1, s2 := Start(layers, m - 2), Start(layers, m - 1), Start(layers, m);
      BlockMembers(s0, s1, s1, s2);
      forall c ensures c in ConnectionsUpTo(layers, m) <==> JoinsAdjacentBelow(layers, m, c) {
        if c in Block(s0, s1, s1, s2) {
          assert InLayer(layers, c.from, m - 2) && InLayer(layers, c.to, m - 1);
        }
        if JoinsAdjacentBelow(layers, m, c) {
          var l: nat :| l + 1 < m && InLayer(layers, c.from, l) && InLayer(layers, c.to, l + 1);
          if l + 1 < m - 1 {
            assert JoinsAdjacentBelow(layers, m - 1, c);
          }
        }
      }
    }
  }

  /** The connections among the first `m` layers are ordered. */
  lemma {:induction false} ConnectionsUpToOrdered(layers: seq<nat>, m: nat)
    requires m <= |layers|
    ensures Ordered(ConnectionsUpTo(layers, m))
  {
    if m >= 2 {
      var prev := ConnectionsUpTo(layers, m - 1);
      ConnectionsUpToOrdered(layers, m - 1);
      ConnectionsUpToMembers(layers, m - 1);
      var s0, s1, s2 := Start(layers, m - 2), Start(layers, m - 1), Start(layers, m);
      var block := Block(s0, s1, s1, s2);
      BlockMembers(s0, s1, s1, s2);
      BlockOrdered(s0, s1, s1, s2);
      forall x, y | x in prev && y in block ensures Before(x, y) {
        var l: nat :| l + 1 < m - 1 && InLayer(layers, x.from, l) && InLayer(layers, x.to, l + 1);
        StartMonotone(layers, l + 1, m - 2);
      }
      OrderedAppend(prev, block);
    }
  }

  /** What the connection list holds, and in which order: one edge per pair
      of nodes in adjacent layers, each pair once, sorted by `(from, to)`;
      no intra-layer edges, no edges that skip a layer, none missing. */
  lemma ConnectionsShape(layers: seq<nat>)
    ensures |Connections(layers)| == CrossSum(layers)
    ensures Ordered(Connections(layers))
    ensures forall c :: c in Connections(layers) <==> JoinsAdjacent(layers, c)
  {
    ConnectionsUpToCount(layers, |layers|);
    ConnectionsUpToOrdered(layers, |layers|);
    ConnectionsUpToMembers(layers, |layers|);
  }

  /** Every connection joins two existing nodes whose layer tags differ by
      one; conversely, any two nodes whose tags differ by one are connected. */
  lemma ConnectionsMatchNodes(layers: seq<nat>)
    ensures forall c :: c in Connections(layers) ==>
      && c.from < |Nodes(layers)| && c.to < |Nodes(layers)|
      && Nodes(layers)[c.to].layer == Nodes(layers)[c.from].layer + 1
    ensures forall i, j ::
      (0 <= i < |Nodes(layers)| && 0 <= j < |Nodes(layers)| &&
       Nodes(layers)[j].layer == Nodes(layers)[i].layer + 1) ==>
      Connection(i, j) in Connections(layers)
  {
    var nodes := Nodes(layers);
    NodesTagged(layers);
    ConnectionsShape(layers);
    forall c | c in Connections(layers)
      ensures c.from < |nodes| && c.to < |nodes| && nodes[c.to].layer == nodes[c.from].layer + 1
    {
      var l: nat :| l + 1 < |layers| && InLayer(layers, c.from, l) && InLayer(layers, c.to, l + 1);
      StartMonotone(layers, l + 2, |layers|);
      NodeLayerIff(layers, c.from, l);
      NodeLayerIff(layers, c.to, l + 1);
    }
    forall i, j | 0 <= i < |nodes| && 0 <= j < |nodes| && nodes[j].layer == nodes[i].layer + 1
      ensures Connection(i, j) in Connections(layers)
    {
      assert InLayer(layers, i, nodes[i].layer) && InLayer(layers, j, nodes[j].layer);
      assert JoinsAdjacent(layers, Connection(i, j));
    }
  }

  /** The body of the connection-creation loop for one pair of layers: join
      every node in `[fs, fe)` to every node in `[ts, te)`, row after row,
      appending to `connections`. */
  method JoinLayers(connections: seq<Connection>, fs: nat, fe: nat, ts: nat, te: nat)
    returns (r: seq<Connection>)
    requires fs <= fe && ts <= te
    ensures r == connections + Block(fs, fe, ts, te)
  {
    r := connections;
    var i := fs;
    while i < fe
      invariant fs <= i <= fe
      invariant r == connections + Block(fs, i, ts, te)
    {
      var j := ts;
      while j < te
        invariant ts <= j <= te
        invariant r == connections + Block(fs, i, ts, te) + Row(i, ts, j)
      {
        r := r + [Connection(i, j)];
        j := j + 1;
      }
      i := i + 1;
    }
  }

  /** The connection-creation loop of the illustration: with a running
      `nodeIndex` at the first node of layer `l`, join every node of layer
      `l` to every node of layer `l + 1`, for each `l` but the last. */
  method BuildConnections(layers: seq<nat>) returns (connections: seq<Connection>)
    ensures connections == Connections(layers)
    ensures |connections| == CrossSum(layers)
    ensures Ordered(connections)
    ensures forall c :: c in connections <==> JoinsAdjacent(layers, c)
  {
    connections := [];
    var nodeIndex := 0;
    var l := 0;
    while l < |layers| - 1
      invariant 0 <= l <= if |layers| == 0 then 0 else |layers| - 1
      invariant nodeIndex == Start(layers, l)
      invariant connections == ConnectionsUpTo(layers, if |layers| == 0 then 0 else l + 1)
    {
      var currentLayerStart := nodeIndex;
      var currentLayerEnd := nodeIndex + layers[l];
      var nextLayerStart := currentLayerEnd;
      var nextLayerEnd := nextLayerStart + layers[l + 1];
      connections := JoinLayers(connections, currentLayerStart, currentLayerEnd,
                                nextLayerStart, nextLayerEnd);
      nodeIndex := currentLayerEnd;
      l := l + 1;
    }
    ConnectionsShape(layers);
  }

  /** The page's four layers start at nodes 0, 4, 10 and 16 and hold 20
      nodes together. */
  lemma PageStarts()
    ensures Start(PageLayers, 1) == 4 && Start(PageLayers, 2) == 10
    ensures Start(PageLayers, 3) == 16 && Start(PageLayers, 4) == 20
  {
    assert Start(PageLayers, 1) == 4;
    assert Start(PageLayers, 2) == 10;
    assert Start(PageLayers, 3) == 16;
  }

  /** The page's four layers give 20 nodes and 4*6 + 6*6 + 6*4 = 84 edges. */
  lemma PageTopology()
    ensures |Nodes(PageLayers)| == 20
    ensures |Connections(PageLayers)| == 84
  {
    PageStarts();
    ConnectionsUpToCount(PageLayers, 4);
    assert AdjacentProducts(PageLayers, 2) == 24;
    assert AdjacentProducts(PageLayers, 3) == 60;
  }
}
