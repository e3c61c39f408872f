/**
 * The tree index of Core/Graph/TreeGraph.py: grouping nodes by the labels the
 * clustering assigns (`_clustering`, which re-clusters an oversized group), the node
 * store the builder fills (`_create_node`, `_extract_entity_relationship`,
 * `_extract_cluster_relationship`), and the layer loop (`_build_tree_from_leaves`,
 * `_build_graph`). The clustering of a list of nodes, the token count of a text,
 * the summary of a cluster and the embedding of a text are inputs.
 */
module TreeGraph {
  import opened Wrappers
  import opened ClusterEngine

  datatype TreeNode = TreeNode(index: nat, layer: nat, text: string, children: set<nat>, embedding: seq<real>)

  // ---------------------------------------------------------------------------
  // np.unique(np.concatenate(clusters))
  // ---------------------------------------------------------------------------

  /** A bound above every label in `s`. */
  function Bound(s: seq<nat>): (r: nat)
    ensures forall x :: x in s ==> x < r
  {
    if s == [] then 0
    else
      var b := Bound(s[1..]);
      assert forall x :: x in s ==> x == s[0] || x in s[1..];
      if s[0] < b then b else s[0] + 1
  }

  /** `np.concatenate` */
  function Concatenate(ls: seq<seq<nat>>): (r: seq<nat>)
    ensures forall x :: x in r <==> exists i :: 0 <= i < |ls| && x in ls[i]
  {
    if ls == [] then []
    else
      var rest := Concatenate(ls[1..]);
      assert forall i :: 1 <= i < |ls| ==> ls[i] == ls[1..][i - 1];
      ls[0] + rest
  }

  /** The labels of `s` in `lo .. hi - 1`, ascending, each once. */
  function DistinctBetween(s: seq<nat>, lo: nat, hi: nat): (r: seq<nat>)
    ensures forall x :: x in r <==> lo <= x < hi && x in s
    ensures forall a :: 0 <= a < |r| ==> lo <= r[a]
    ensures Ascending(r)
    decreases hi - lo
  {
    if lo >= hi then []
    else (if lo in s then [lo] else []) + DistinctBetween(s, lo + 1, hi)
  }

  /** `np.unique(np.concatenate(labels))` */
  function UniqueLabels(labels: seq<seq<nat>>): seq<nat> {
    var flat := Concatenate(labels);
    DistinctBetween(flat, 0, Bound(flat))
  }

  /** The unique labels are every label some point carries, ascending and without
      repetition. */
  lemma UniqueLabelsExact(labels: seq<seq<nat>>)
    ensures Ascending(UniqueLabels(labels))
    ensures forall x: nat :: x in UniqueLabels(labels) <==> exists i :: 0 <= i < |labels| && x in labels[i]
  {
    var flat := Concatenate(labels);
    assert forall x: nat :: x in UniqueLabels(labels) <==> x in flat;
  }

  /** `[nodes[i] for i, cluster in enumerate(clusters) if label in cluster]` */
  function Group(nodes: seq<TreeNode>, labels: seq<seq<nat>>, c: nat): (g: seq<TreeNode>)
    requires |labels| == |nodes|
    ensures |g| == |Members(labels, c)| <= |nodes|
    ensures forall k :: 0 <= k < |g| ==> g[k] == nodes[Members(labels, c)[k]]
  {
    var idx := Members(labels, c);
    seq(|idx|, k requires 0 <= k < |idx| => nodes[idx[k]])
  }

  /** The groups of one clustering: a label that some node carries has a non-empty
      group, made of exactly the nodes carrying it, in their original order; a node
      carrying no label is in no group. */
  lemma GroupsOfLabels(nodes: seq<TreeNode>, labels: seq<seq<nat>>, c: nat)
    requires |labels| == |nodes|
    ensures c in UniqueLabels(labels) ==> |Group(nodes, labels, c)| > 0
    ensures forall i :: i in Members(labels, c) <==> 0 <= i < |nodes| && c in labels[i]
    ensures Ascending(Members(labels, c))
    ensures forall x :: x in Group(nodes, labels, c) ==> x in nodes
    ensures forall i :: 0 <= i < |nodes| && labels[i] == [] ==> i !in Members(labels, c)
  {
    UniqueLabelsExact(labels);
    if c in UniqueLabels(labels) {
      var i :| 0 <= i < |labels| && c in labels[i];
      assert i in Members(labels, c);
    }
    var g := Group(nodes, labels, c);
    forall x | x in g ensures x in nodes {
      var k :| 0 <= k < |g| && g[k] == x;
      assert Members(labels, c)[k] < |nodes|;
    }
  }

  // ---------------------------------------------------------------------------
  // _clustering
  // ---------------------------------------------------------------------------

  /** `max_length_in_cluster` and `config.reduction_dimension` */
  datatype ClusterConfig = ClusterConfig(maxLengthInCluster: int, reductionDimension: nat)

  /** The clustering yields one label list per node it is given. */
  ghost predicate WellShaped(cluster: seq<TreeNode> -> seq<seq<nat>>) {
    forall ns :: |cluster(ns)| == |ns|
  }

  /** The summed token length of a group's texts. */
  function TotalTokens(g: seq<TreeNode>, tokenLen: string -> nat): nat {
    if g == [] then 0 else tokenLen(g[0].text) + TotalTokens(g[1..], tokenLen)
  }

  /** The re-cluster condition: more tokens than allowed and more than
      `reduction_dimension + 1` nodes. */
  predicate Oversized(g: seq<TreeNode>, cfg: ClusterConfig, tokenLen: string -> nat) {
    TotalTokens(g, tokenLen) > cfg.maxLengthInCluster && |g| > cfg.reductionDimension + 1
  }

  /** `Some(acc + rest)`, or no result if `rest` is none. */
  function Prepend(acc: seq<seq<TreeNode>>, rest: Option<seq<seq<TreeNode>>>): Option<seq<seq<TreeNode>>> {
    match rest
    case None => None
    case Some(r) => Some(acc + r)
  }

  /** The groups `_clustering` returns, with at most `fuel` nested clusterings; no
      result when the fuel runs out. */
  function ClusterGroups(nodes: seq<TreeNode>, cfg: ClusterConfig, cluster: seq<TreeNode> -> seq<seq<nat>>,
                         tokenLen: string -> nat, fuel: nat): Option<seq<seq<TreeNode>>>
    requires WellShaped(cluster)
    decreases fuel, 0, 0
  {
    if fuel == 0 then None
    else
      var labels := cluster(nodes);
      EmitGroups(nodes, labels, UniqueLabels(labels), 0, cfg, cluster, tokenLen, fuel - 1)
  }

  /** What one group becomes: a singleton or a group within bounds is kept as is,
      an oversized one is replaced by its own clustering. */
  function Expanded(g: seq<TreeNode>, cfg: ClusterConfig, cluster: seq<TreeNode> -> seq<seq<nat>>,
                    tokenLen: string -> nat, fuel: nat): Option<seq<seq<TreeNode>>>
    requires WellShaped(cluster)
    decreases fuel, 1, 0
  {
    if |g| == 1 then Some([g])
    else if Oversized(g, cfg, tokenLen) then ClusterGroups(g, cfg, cluster, tokenLen, fuel)
    else Some([g])
  }

  /** The groups of the labels `todo[from..]`, in order, each expanded. */
  function EmitGroups(nodes: seq<TreeNode>, labels: seq<seq<nat>>, todo: seq<nat>, from: nat, cfg: ClusterConfig,
                      cluster: seq<TreeNode> -> seq<seq<nat>>, tokenLen: string -> nat, fuel: nat): Option<seq<seq<TreeNode>>>
    requires WellShaped(cluster) && |labels| == |nodes|
    decreases fuel, 2, |todo| - from
  {
    if from >= |todo| then Some([])
    else
      match Expanded(Group(nodes, labels, todo[from]), cfg, cluster, tokenLen, fuel)
      case None => None
      case Some(h) => Prepend(h, EmitGroups(nodes, labels, todo, from + 1, cfg, cluster, tokenLen, fuel))
  }

  lemma PrependAssoc(acc: seq<seq<TreeNode>>, h: seq<seq<TreeNode>>, rest: Option<seq<seq<TreeNode>>>)
    ensures Prepend(acc, Prepend(h, rest)) == Prepend(acc + h, rest)
  {
    if rest.Some? {
      assert acc + (h + rest.value) == (acc + h) + rest.value;
    }
  }

  /** `_clustering(nodes, ...)` with a nesting budget of `fuel`. */
  method Clustering(nodes: seq<TreeNode>, cfg: ClusterConfig, cluster: seq<TreeNode> -> seq<seq<nat>>,
                    tokenLen: string -> nat, fuel: nat) returns (r: Option<seq<seq<TreeNode>>>)
    requires WellShaped(cluster)
    ensures r == ClusterGroups(nodes, cfg, cluster, tokenLen, fuel)
    decreases fuel, 0
  {
    if fuel == 0 {
      return None;
    }
    var clusters := cluster(nodes);
    var unique := UniqueLabels(clusters);
    var nodeClusters: seq<seq<TreeNode>> := [];
    ghost var all := EmitGroups(nodes, clusters, unique, 0, cfg, cluster, tokenLen, fuel - 1);
    assert all == ClusterGroups(nodes, cfg, cluster, tokenLen, fuel);
    if all.Some? {
      assert [] + all.value == all.value;
    }
    for t := 0 to |unique|
      invariant Prepend(nodeClusters, EmitGroups(nodes, clusters, unique, t, cfg, cluster, tokenLen, fuel - 1)) == all
    {
      var clusterNodes := Group(nodes, clusters, unique[t]);
      ghost var rest := EmitGroups(nodes, clusters, unique, t + 1, cfg, cluster, tokenLen, fuel - 1);
      var head := ClusterOneGroup(clusterNodes, cfg, cluster, tokenLen, fuel - 1);
      if head.None? {
        return None;
      }
      PrependAssoc(nodeClusters, head.value, rest);
      nodeClusters := nodeClusters + head.value;
    }
    assert nodeClusters + [] == nodeClusters;
    r := Some(nodeClusters);
  }

  /** The loop body of `_clustering` for one group: a singleton is appended, an
      oversized group is replaced by its own clustering, any other is appended. */
  method ClusterOneGroup(clusterNodes: seq<TreeNode>, cfg: ClusterConfig, cluster: seq<TreeNode> -> seq<seq<nat>>,
                         tokenLen: string -> nat, fuel: nat) returns (r: Option<seq<seq<TreeNode>>>)
    requires WellShaped(cluster)
    ensures r == Expanded(clusterNodes, cfg, cluster, tokenLen, fuel)
    decreases fuel, 1
  {
    if |clusterNodes| == 1 {
      return Some([clusterNodes]);
    }
    var totalLength := TotalTokens(clusterNodes, tokenLen);
    if totalLength > cfg.maxLengthInCluster && |clusterNodes| > cfg.reductionDimension + 1 {
      r := Clustering(clusterNodes, cfg, cluster, tokenLen, fuel);
    } else {
      r := Some([clusterNodes]);
    }
  }

  /** What every emitted group satisfies: it is non-empty, made of the given nodes,
      and within bounds — at most `max_length_in_cluster` tokens, or at most
      `reduction_dimension + 1` nodes. */
  ghost predicate GroupsWithin(gs: seq<seq<TreeNode>>, nodes: seq<TreeNode>, cfg: ClusterConfig, tokenLen: string -> nat) {
    forall g :: g in gs ==> g != [] && (forall x :: x in g ==> x in nodes) && !Oversized(g, cfg, tokenLen)
  }

  lemma GroupsWithinWider(gs: seq<seq<TreeNode>>, inner: seq<TreeNode>, nodes: seq<TreeNode>, cfg: ClusterConfig,
                          tokenLen: string -> nat)
    requires GroupsWithin(gs, inner, cfg, tokenLen)
    requires forall x :: x in inner ==> x in nodes
    ensures GroupsWithin(gs, nodes, cfg, tokenLen)
  {
  }

  /** Every group `_clustering` returns is non-empty, made of its input nodes, and
      within bounds. */
  lemma {:induction false} ClusterGroupsWithin(nodes: seq<TreeNode>, cfg: ClusterConfig, cluster: seq<TreeNode> -> seq<seq<nat>>,
                                               tokenLen: string -> nat, fuel: nat)
    requires WellShaped(cluster)
    ensures var r := ClusterGroups(nodes, cfg, cluster, tokenLen, fuel);
      r.Some? ==> GroupsWithin(r.value, nodes, cfg, tokenLen)
    decreases fuel, 0, 0
  {
    if fuel > 0 {
      var labels := cluster(nodes);
      EmitGroupsWithin(nodes, labels, UniqueLabels(labels), 0, cfg, cluster, tokenLen, fuel - 1);
    }
  }

  lemma {:induction false} EmitGroupsWithin(nodes: seq<TreeNode>, labels: seq<seq<nat>>, todo: seq<nat>, from: nat,
                                            cfg: ClusterConfig, cluster: seq<TreeNode> -> seq<seq<nat>>,
                                            tokenLen: string -> nat, fuel: nat)
    requires WellShaped(cluster) && |labels| == |nodes|
    requires forall l :: l in todo ==> l in UniqueLabels(labels)
    ensures var r := EmitGroups(nodes, labels, todo, from, cfg, cluster, tokenLen, fuel);
      r.Some? ==> GroupsWithin(r.value, nodes, cfg, tokenLen)
    decreases fuel, 2, |todo| - from
  {
    if from < |todo| {
      var g := Group(nodes, labels, todo[from]);
      GroupsOfLabels(nodes, labels, todo[from]);
      EmitGroupsWithin(nodes, labels, todo, from + 1, cfg, cluster, tokenLen, fuel);
      if |g| != 1 && Oversized(g, cfg, tokenLen) {
        ClusterGroupsWithin(g, cfg, cluster, tokenLen, fuel);
        var sub := ClusterGroups(g, cfg, cluster, tokenLen, fuel);
        if sub.Some? {
          GroupsWithinWider(sub.value, g, nodes, cfg, tokenLen);
        }
      } else {
        assert !Oversized(g, cfg, tokenLen);
      }
    }
  }

  /** The assumption under which `_clustering` terminates: every group of a clustering
      of two or more nodes is strictly smaller than the nodes clustered. */
  ghost predicate Shrinks(cluster: seq<TreeNode> -> seq<seq<nat>>) {
    forall ns, l :: |ns| >= 2 && |cluster(ns)| == |ns| && l in UniqueLabels(cluster(ns)) ==> |Group(ns, cluster(ns), l)| < |ns|
  }

  /** Under that assumption a budget above the number of nodes always suffices. */
  lemma {:induction false} ClusterGroupsTerminates(nodes: seq<TreeNode>, cfg: ClusterConfig, cluster: seq<TreeNode> -> seq<seq<nat>>,
                                                   tokenLen: string -> nat, fuel: nat)
    requires WellShaped(cluster) && Shrinks(cluster)
    requires fuel > |nodes|
    ensures ClusterGroups(nodes, cfg, cluster, tokenLen, fuel).Some?
    decreases fuel, 0, 0
  {
    var labels := cluster(nodes);
    var todo := UniqueLabels(labels);
    forall l | l in todo && |Group(nodes, labels, l)| >= 2 ensures |Group(nodes, labels, l)| < fuel - 1 {
    }
    EmitGroupsTerminates(nodes, labels, todo, 0, cfg, cluster, tokenLen, fuel - 1);
  }

  lemma {:induction false} EmitGroupsTerminates(nodes: seq<TreeNode>, labels: seq<seq<nat>>, todo: seq<nat>, from: nat,
                                                cfg: ClusterConfig, cluster: seq<TreeNode> -> seq<seq<nat>>,
                                                tokenLen: string -> nat, fuel: nat)
    requires WellShaped(cluster) && Shrinks(cluster) && |labels| == |nodes|
    requires forall l :: l in todo && |Group(nodes, labels, l)| >= 2 ==> |Group(nodes, labels, l)| < fuel
    ensures EmitGroups(nodes, labels, todo, from, cfg, cluster, tokenLen, fuel).Some?
    decreases fuel, 2, |todo| - from
  {
    if from < |todo| {
      var g := Group(nodes, labels, todo[from]);
      EmitGroupsTerminates(nodes, labels, todo, from + 1, cfg, cluster, tokenLen, fuel);
      if |g| != 1 && Oversized(g, cfg, tokenLen) {
        ClusterGroupsTerminates(g, cfg, cluster, tokenLen, fuel);
      }
    }
  }

  // ---------------------------------------------------------------------------
  // The node store
  // ---------------------------------------------------------------------------

  /** The children a node of `layer` may have when the nodes before it are those of
      `nodes` below `bound`: none for a leaf; for a parent, a non-empty set of indices
      of earlier nodes one layer down. */
  ghost predicate ChildrenFit(nodes: seq<TreeNode>, bound: nat, layer: nat, children: set<nat>) {
    && (layer == 0 ==> children == {})
    && (layer > 0 ==> children != {} && forall c :: c in children ==> c < bound && c < |nodes| && nodes[c].layer == layer - 1)
  }

  /** The tree storage: `nodes[k]` is the node with index `k`, and `layers[L]` lists
      the indices of layer `L` in insertion order. */
  class TreeStore {
    var nodes: seq<TreeNode>
    var layers: seq<seq<nat>>

    ghost predicate Valid()
      reads this
    {
      && (forall k :: 0 <= k < |nodes| ==> nodes[k].index == k && nodes[k].layer < |layers|)
      && (forall k :: 0 <= k < |nodes| ==> ChildrenFit(nodes, k, nodes[k].layer, nodes[k].children))
      && (forall l, t :: 0 <= l < |layers| && 0 <= t < |layers[l]| ==> layers[l][t] < |nodes| && nodes[layers[l][t]].layer == l)
    }

    /** `num_nodes` */
    function NumNodes(): nat
      reads this
    {
      |nodes|
    }

    /** `get_layer(layer)`: the nodes of a layer, in insertion order. */
    function GetLayer(layer: nat): (r: seq<TreeNode>)
      reads this
      requires Valid() && layer < |layers|
      ensures |r| == |layers[layer]|
      ensures forall t :: 0 <= t < |r| ==> r[t] == nodes[layers[layer][t]] && r[t].layer == layer && r[t].index < |nodes|
    {
      LayerNodes(nodes, layers[layer])
    }

    constructor ()
      ensures nodes == [] && layers == [] && Valid()
    {
      nodes := [];
      layers := [];
    }

    /** `clear()` */
    method Clear()
      modifies this
      ensures nodes == [] && layers == [] && Valid()
    {
      nodes := [];
      layers := [];
    }

    /** `add_layer()` */
    method AddLayer()
      requires Valid()
      modifies this
      ensures nodes == old(nodes) && layers == old(layers) + [[]] && Valid()
    {
      layers := layers + [[]];
    }

    /** `upsert_node(node_id, node_data)` for a fresh index. */
    method UpsertNode(node: TreeNode)
      requires Valid()
      requires node.index == |nodes| && node.layer < |layers| && ChildrenFit(nodes, |nodes|, node.layer, node.children)
      modifies this
      ensures nodes == old(nodes) + [node]
      ensures layers == old(layers)[node.layer := old(layers)[node.layer] + [node.index]]
      ensures Valid()
    {
      ghost var before := nodes;
      nodes := nodes + [node];
      layers := layers[node.layer := layers[node.layer] + [node.index]];
      forall k | 0 <= k < |nodes|
        ensures ChildrenFit(nodes, k, nodes[k].layer, nodes[k].children)
      {
        if k < |before| {
          ChildrenFitGrow(before, nodes, k, nodes[k].layer, nodes[k].children);
        } else {
          ChildrenFitGrow(before, nodes, k, node.layer, node.children);
        }
      }
    }
  }

  lemma ChildrenFitGrow(nodes: seq<TreeNode>, more: seq<TreeNode>, bound: nat, layer: nat, children: set<nat>)
    requires nodes <= more && ChildrenFit(nodes, bound, layer, children)
    ensures ChildrenFit(more, bound, layer, children)
  {
  }

  // ---------------------------------------------------------------------------
  // Node creation
  // ---------------------------------------------------------------------------

  /** `_create_node`: the new node takes the store's node count as its index. */
  method CreateNode(store: TreeStore, layer: nat, text: string, children: set<nat>, embed: string -> seq<real>)
    returns (node: TreeNode)
    requires store.Valid() && layer < |store.layers| && ChildrenFit(store.nodes, |store.nodes|, layer, children)
    modifies store
    ensures node == TreeNode(old(store.NumNodes()), layer, text, children, embed(text))
    ensures store.nodes == old(store.nodes) + [node]
    ensures store.layers == old(store.layers)[layer := old(store.layers)[layer] + [node.index]]
    ensures store.Valid()
  {
    var embedding := embed(text);
    var nodeId := store.NumNodes();
    node := TreeNode(nodeId, layer, text, children, embedding);
    store.UpsertNode(node);
  }

  /** `_extract_entity_relationship`: a leaf holding a chunk's content. */
  method ExtractEntityRelationship(store: TreeStore, content: string, embed: string -> seq<real>)
    returns (leaf: TreeNode)
    requires store.Valid() && 0 < |store.layers|
    modifies store
    ensures leaf == TreeNode(old(store.NumNodes()), 0, content, {}, embed(content))
    ensures store.nodes == old(store.nodes) + [leaf]
    ensures store.layers == old(store.layers)[0 := old(store.layers)[0] + [leaf.index]]
    ensures store.Valid()
  {
    leaf := CreateNode(store, 0, content, {}, embed);
  }

  /** The children of a parent: `{node.index for node in cluster}`. */
  function ChildIndices(cluster: seq<TreeNode>): set<nat> {
    set k | 0 <= k < |cluster| :: cluster[k].index
  }

  /** `_extract_cluster_relationship`: a parent over the cluster, whose children are
      exactly the cluster members' indices and whose text is the cluster's summary. */
  method ExtractClusterRelationship(store: TreeStore, layer: nat, cluster: seq<TreeNode>,
                                    summarize: seq<TreeNode> -> string, embed: string -> seq<real>)
    returns (parent: TreeNode)
    requires store.Valid() && 0 < layer < |store.layers| && cluster != []
    requires InLayer(store.nodes, cluster, layer - 1)
    modifies store
    ensures parent == TreeNode(old(store.NumNodes()), layer, summarize(cluster), ChildIndices(cluster), embed(summarize(cluster)))
    ensures store.nodes == old(store.nodes) + [parent]
    ensures store.layers == old(store.layers)[layer := old(store.layers)[layer] + [parent.index]]
    ensures store.Valid()
  {
    var summarizedText := summarize(cluster);
    assert cluster[0].index in ChildIndices(cluster);
    parent := CreateNode(store, layer, summarizedText, ChildIndices(cluster), embed);
  }

  // ---------------------------------------------------------------------------
  // The layer loop
  // ---------------------------------------------------------------------------

  /** `num_layers`, `reduction_dimension` and `max_length_in_cluster` */
  datatype TreeConfig = TreeConfig(numLayers: nat, reductionDimension: nat, maxLengthInCluster: int)

  /** The nodes of `cluster` all have an index into `nodes` at which a node of `layer`
      sits. */
  ghost predicate InLayer(nodes: seq<TreeNode>, cluster: seq<TreeNode>, layer: nat) {
    forall k :: 0 <= k < |cluster| ==> cluster[k].index < |nodes| && nodes[cluster[k].index].layer == layer
  }

  lemma InLayerGrows(nodes: seq<TreeNode>, more: seq<TreeNode>, cluster: seq<TreeNode>, layer: nat)
    requires InLayer(nodes, cluster, layer) && nodes <= more
    ensures InLayer(more, cluster, layer)
  {
    forall k | 0 <= k < |cluster| ensures more[cluster[k].index] == nodes[cluster[k].index] {
    }
  }

  lemma UpdateLast<T>(s: seq<T>, x: T, y: T)
    ensures (s + [x])[|s| := y] == s + [y]
  {
  }

  /** The parent `_extract_cluster_relationship` creates for `cluster` at `index`. */
  function Parent(index: nat, layer: nat, cluster: seq<TreeNode>,
                  summarize: seq<TreeNode> -> string, embed: string -> seq<real>): TreeNode {
    TreeNode(index, layer, summarize(cluster), ChildIndices(cluster), embed(summarize(cluster)))
  }

  /** The parents of `clusters`, in order, the `d`-th at index `ids[d]`. */
  function ParentsAt(ids: seq<nat>, layer: nat, clusters: seq<seq<TreeNode>>,
                     summarize: seq<TreeNode> -> string, embed: string -> seq<real>): seq<TreeNode>
    requires |ids| == |clusters|
  {
    seq(|clusters|, d requires 0 <= d < |clusters| => Parent(ids[d], layer, clusters[d], summarize, embed))
  }

  /** The indices `from, from + 1, ..., from + n - 1`. */
  function Span(from: nat, n: nat): seq<nat> {
    seq(n, d => from + d)
  }

  lemma SpanNext(from: nat, n: nat)
    ensures Span(from, n + 1) == Span(from, n) + [from + n]
  {
  }

  lemma ParentsAtNext(from: nat, layer: nat, clusters: seq<seq<TreeNode>>, c: nat,
                      summarize: seq<TreeNode> -> string, embed: string -> seq<real>)
    requires c < |clusters|
    ensures ParentsAt(Span(from, c + 1), layer, clusters[..c + 1], summarize, embed)
         == ParentsAt(Span(from, c), layer, clusters[..c], summarize, embed) + [Parent(from + c, layer, clusters[c], summarize, embed)]
  {
  }

  /** The nodes listed by `ids`, in order. */
  function LayerNodes(nodes: seq<TreeNode>, ids: seq<nat>): (r: seq<TreeNode>)
    requires InRange(nodes, ids)
    ensures |r| == |ids|
  {
    seq(|ids|, t requires 0 <= t < |ids| => nodes[ids[t]])
  }

  predicate InRange(nodes: seq<TreeNode>, ids: seq<nat>) {
    forall t :: 0 <= t < |ids| ==> ids[t] < |nodes|
  }

  /** Appending nodes does not change what a list of existing indices denotes. */
  lemma LayerNodesGrow(nodes: seq<TreeNode>, more: seq<TreeNode>, ids: seq<nat>)
    requires nodes <= more && InRange(nodes, ids)
    ensures InRange(more, ids) && LayerNodes(more, ids) == LayerNodes(nodes, ids)
  {
  }

  /** Listing the parents just appended gives the parents. */
  lemma LayerNodesOfParents(nodes: seq<TreeNode>, layer: nat, clusters: seq<seq<TreeNode>>,
                            summarize: seq<TreeNode> -> string, embed: string -> seq<real>)
    ensures var more := nodes + ParentsAt(Span(|nodes|, |clusters|), layer, clusters, summarize, embed);
      && InRange(more, Span(|nodes|, |clusters|))
      && LayerNodes(more, Span(|nodes|, |clusters|)) == ParentsAt(Span(|nodes|, |clusters|), layer, clusters, summarize, embed)
  {
  }

  /** Layer `l + 1` of the store holds one parent per cluster of `_clustering` of
      layer `l`, in cluster order: as many nodes as clusters, the `d`-th over the
      `d`-th cluster. */
  ghost predicate LayerBuilt(nodes: seq<TreeNode>, layers: seq<seq<nat>>, l: nat, cfg: ClusterConfig,
                             cluster: seq<TreeNode> -> seq<seq<nat>>, tokenLen: string -> nat,
                             summarize: seq<TreeNode> -> string, embed: string -> seq<real>, fuel: nat)
    requires WellShaped(cluster)
  {
    && l + 1 < |layers| && InRange(nodes, layers[l]) && InRange(nodes, layers[l + 1])
    && var groups := ClusterGroups(LayerNodes(nodes, layers[l]), cfg, cluster, tokenLen, fuel);
       && groups.Some?
       && |layers[l + 1]| == |groups.value|
       && LayerNodes(nodes, layers[l + 1]) == ParentsAt(layers[l + 1], l + 1, groups.value, summarize, embed)
  }

  lemma LayerBuiltGrow(nodes: seq<TreeNode>, layers: seq<seq<nat>>, more: seq<TreeNode>, wider: seq<seq<nat>>,
                       l: nat, cfg: ClusterConfig, cluster: seq<TreeNode> -> seq<seq<nat>>, tokenLen: string -> nat,
                       summarize: seq<TreeNode> -> string, embed: string -> seq<real>, fuel: nat)
    requires WellShaped(cluster) && LayerBuilt(nodes, layers, l, cfg, cluster, tokenLen, summarize, embed, fuel)
    requires nodes <= more && l + 1 < |wider| && wider[l] == layers[l] && wider[l + 1] == layers[l + 1]
    ensures LayerBuilt(more, wider, l, cfg, cluster, tokenLen, summarize, embed, fuel)
  {
    LayerNodesGrow(nodes, more, layers[l]);
    LayerNodesGrow(nodes, more, layers[l + 1]);
  }

  /** The loop over `clusters`: one parent per cluster, in order, appended to layer
      `layer + 1` at the next free indices. */
  method AddParents(store: TreeStore, layer: nat, clusters: seq<seq<TreeNode>>,
                    summarize: seq<TreeNode> -> string, embed: string -> seq<real>)
    requires store.Valid() && layer + 1 < |store.layers|
    requires forall c :: c in clusters ==> c != [] && InLayer(store.nodes, c, layer)
    modifies store
    ensures store.Valid()
    ensures store.nodes == old(store.nodes) + ParentsAt(Span(old(|store.nodes|), |clusters|), layer + 1, clusters, summarize, embed)
    ensures store.layers == old(store.layers)[layer + 1 := old(store.layers[layer + 1]) + Span(old(|store.nodes|), |clusters|)]
  {
    ghost var before := store.nodes;
    ghost var layers0 := store.layers;
    assert Span(|before|, 0) == [] && layers0[layer + 1] + [] == layers0[layer + 1];
    assert layers0[layer + 1 := layers0[layer + 1] + Span(|before|, 0)] == layers0;
    assert before + ParentsAt(Span(|before|, 0), layer + 1, clusters[..0], summarize, embed) == before;
    for c := 0 to |clusters|
      invariant store.Valid()
      invariant store.nodes == before + ParentsAt(Span(|before|, c), layer + 1, clusters[..c], summarize, embed)
      invariant store.layers == layers0[layer + 1 := layers0[layer + 1] + Span(|before|, c)]
    {
      assert clusters[c] in clusters;
      InLayerGrows(before, store.nodes, clusters[c], layer);
      var parent := ExtractClusterRelationship(store, layer + 1, clusters[c], summarize, embed);
      ParentsAtNext(|before|, layer + 1, clusters, c, summarize, embed);
      SpanNext(|before|, c);
      assert (layers0[layer + 1] + Span(|before|, c)) + [|before| + c] == layers0[layer + 1] + Span(|before|, c + 1);
    }
    assert clusters[..|clusters|] == clusters;
  }

  /** One pass of the layer loop past the stop rule: add layer `layer + 1`, cluster
      the nodes of `layer` and give each cluster its parent. It fails, leaving the new
      layer empty, exactly when the clustering budget runs out, which cannot happen
      when the clustering shrinks groups and the budget exceeds the layer's size. */
  method BuildLayer(store: TreeStore, layer: nat, clusterCfg: ClusterConfig, cluster: seq<TreeNode> -> seq<seq<nat>>,
                    tokenLen: string -> nat, summarize: seq<TreeNode> -> string,
                    embed: string -> seq<real>, fuel: nat)
    returns (ok: bool)
    requires store.Valid() && |store.layers| == layer + 1 && WellShaped(cluster)
    modifies store
    ensures store.Valid() && old(store.nodes) <= store.nodes
    ensures |store.layers| == layer + 2 && forall l :: 0 <= l <= layer ==> store.layers[l] == old(store.layers[l])
    ensures var groups := ClusterGroups(old(store.GetLayer(layer)), clusterCfg, cluster, tokenLen, fuel);
      && (ok <==> groups.Some?)
      && (ok ==> && store.nodes == old(store.nodes) + ParentsAt(Span(old(|store.nodes|), |groups.value|), layer + 1, groups.value, summarize, embed)
                 && store.layers == old(store.layers) + [Span(old(|store.nodes|), |groups.value|)])
      && (!ok ==> store.nodes == old(store.nodes) && store.layers == old(store.layers) + [[]])
    ensures ok ==> LayerBuilt(store.nodes, store.layers, layer, clusterCfg, cluster, tokenLen, summarize, embed, fuel)
    ensures Shrinks(cluster) && fuel > |old(store.layers[layer])| ==> ok
  {
    store.AddLayer();
    var current := store.GetLayer(layer);
    if Shrinks(cluster) && fuel > |current| {
      ClusterGroupsTerminates(current, clusterCfg, cluster, tokenLen, fuel);
    }
    var clusters := Clustering(current, clusterCfg, cluster, tokenLen, fuel);
    if clusters.None? {
      return false;
    }
    ClusterGroupsWithin(current, clusterCfg, cluster, tokenLen, fuel);
    forall c: seq<TreeNode> | c in clusters.value ensures c != [] && InLayer(store.nodes, c, layer) {
      forall k | 0 <= k < |c| ensures c[k].index < |store.nodes| && store.nodes[c[k].index].layer == layer {
        assert c[k] in current;
      }
    }
    ghost var mid := store.nodes;
    ghost var ids := store.layers[layer];
    assert InRange(mid, ids);
    assert current == LayerNodes(mid, ids);
    ghost var layers1 := store.layers;
    AddParents(store, layer, clusters.value, summarize, embed);
    assert layers1 == old(store.layers) + [[]] && [] + Span(|mid|, |clusters.value|) == Span(|mid|, |clusters.value|);
    UpdateLast(old(store.layers), [], Span(|mid|, |clusters.value|));
    LayerNodesGrow(mid, store.nodes, ids);
    LayerNodesOfParents(mid, layer + 1, clusters.value, summarize, embed);
    ok := true;
  }

  /** What the layer loop leaves above the leaves: every layer but the top has more
      than `reduction_dimension + 1` nodes and is one round of clustering below the
      next (`LayerBuilt`); after a round whose
      clustering budget ran out, the top layer is empty, the clustering of the layer
      below it has no result, and — when the clustering shrinks groups — that layer
      has at least `fuel` nodes. */
  ghost predicate Grown(nodes: seq<TreeNode>, layers: seq<seq<nat>>, complete: bool, cfg: ClusterConfig,
                        cluster: seq<TreeNode> -> seq<seq<nat>>, tokenLen: string -> nat,
                        summarize: seq<TreeNode> -> string, embed: string -> seq<real>, fuel: nat)
    requires WellShaped(cluster)
  {
    && (forall l :: 0 <= l < |layers| - 1 ==> |layers[l]| > cfg.reductionDimension + 1)
    && (forall l :: 0 <= l < |layers| - 1 && (complete || l < |layers| - 2) ==>
          LayerBuilt(nodes, layers, l, cfg, cluster, tokenLen, summarize, embed, fuel))
    && (!complete ==>
          && |layers| >= 2 && layers[|layers| - 1] == [] && InRange(nodes, layers[|layers| - 2])
          && ClusterGroups(LayerNodes(nodes, layers[|layers| - 2]), cfg, cluster, tokenLen, fuel).None?
          && (Shrinks(cluster) ==> fuel <= |layers[|layers| - 2]|))
  }

  /** The layers below the top of `wider` are those of `layers`, all larger than `bound`. */
  lemma AllAboveGrow(layers: seq<seq<nat>>, wider: seq<seq<nat>>, bound: nat)
    requires |layers| > 0 && |wider| == |layers| + 1
    requires forall l :: 0 <= l < |layers| ==> wider[l] == layers[l]
    requires forall l :: 0 <= l < |layers| ==> |layers[l]| > bound
    ensures forall l :: 0 <= l < |wider| - 1 ==> |wider[l]| > bound
  {
    forall l | 0 <= l < |wider| - 1 ensures |wider[l]| > bound {
      assert wider[l] == layers[l];
    }
  }

  /** Every layer built below the top stays built when nodes and layers are appended. */
  lemma AllBuiltGrow(nodes: seq<TreeNode>, layers: seq<seq<nat>>, more: seq<TreeNode>, wider: seq<seq<nat>>,
                     cfg: ClusterConfig, cluster: seq<TreeNode> -> seq<seq<nat>>, tokenLen: string -> nat,
                     summarize: seq<TreeNode> -> string, embed: string -> seq<real>, fuel: nat)
    requires WellShaped(cluster) && nodes <= more && |wider| == |layers| + 1
    requires forall l :: 0 <= l < |layers| ==> wider[l] == layers[l]
    requires forall l :: 0 <= l < |layers| - 1 ==> LayerBuilt(nodes, layers, l, cfg, cluster, tokenLen, summarize, embed, fuel)
    ensures forall l :: 0 <= l < |layers| - 1 ==> LayerBuilt(more, wider, l, cfg, cluster, tokenLen, summarize, embed, fuel)
  {
    forall l | 0 <= l < |layers| - 1
      ensures LayerBuilt(more, wider, l, cfg, cluster, tokenLen, summarize, embed, fuel)
    {
      LayerBuiltGrow(nodes, layers, more, wider, l, cfg, cluster, tokenLen, summarize, embed, fuel);
    }
  }

  /** One round keeps what earlier rounds built and adds its own layer. */
  lemma GrownStep(nodes: seq<TreeNode>, layers: seq<seq<nat>>, more: seq<TreeNode>, wider: seq<seq<nat>>, ok: bool,
                  cfg: ClusterConfig, cluster: seq<TreeNode> -> seq<seq<nat>>, tokenLen: string -> nat,
                  summarize: seq<TreeNode> -> string, embed: string -> seq<real>, fuel: nat)
    requires WellShaped(cluster) && Grown(nodes, layers, true, cfg, cluster, tokenLen, summarize, embed, fuel)
    requires |layers| > 0 && nodes <= more && |wider| == |layers| + 1 && forall l :: 0 <= l < |layers| ==> wider[l] == layers[l]
    requires InRange(nodes, layers[|layers| - 1]) && |layers[|layers| - 1]| > cfg.reductionDimension + 1
    requires ok ==> LayerBuilt(more, wider, |layers| - 1, cfg, cluster, tokenLen, summarize, embed, fuel)
    requires !ok ==> && more == nodes && wider[|layers|] == []
                     && ClusterGroups(LayerNodes(nodes, layers[|layers| - 1]), cfg, cluster, tokenLen, fuel).None?
                     && (Shrinks(cluster) ==> fuel <= |layers[|layers| - 1]|)
    ensures Grown(more, wider, ok, cfg, cluster, tokenLen, summarize, embed, fuel)
  {
    AllAboveGrow(layers, wider, cfg.reductionDimension + 1);
    AllBuiltGrow(nodes, layers, more, wider, cfg, cluster, tokenLen, summarize, embed, fuel);
    if !ok {
      assert wider[|layers| - 1] == layers[|layers| - 1];
      assert LayerNodes(more, wider[|wider| - 2]) == LayerNodes(nodes, layers[|layers| - 1]);
    }
  }


  /** One iteration of the `for layer` loop: stop, changing nothing, when the layer
      has at most `reduction_dimension + 1` nodes; otherwise build the next layer. */
  method LayerRound(store: TreeStore, layer: nat, clusterCfg: ClusterConfig, cluster: seq<TreeNode> -> seq<seq<nat>>,
                    tokenLen: string -> nat, summarize: seq<TreeNode> -> string,
                    embed: string -> seq<real>, fuel: nat)
    returns (stop: bool, ok: bool)
    requires store.Valid() && |store.layers| == layer + 1 && WellShaped(cluster)
    requires Grown(store.nodes, store.layers, true, clusterCfg, cluster, tokenLen, summarize, embed, fuel)
    modifies store
    ensures store.Valid() && old(store.nodes) <= store.nodes
    ensures |store.layers| == if stop then layer + 1 else layer + 2
    ensures forall l :: 0 <= l <= layer ==> store.layers[l] == old(store.layers[l])
    ensures stop <==> |old(store.layers[layer])| <= clusterCfg.reductionDimension + 1
    ensures stop ==> ok && store.nodes == old(store.nodes) && store.layers == old(store.layers)
    ensures Grown(store.nodes, store.layers, ok, clusterCfg, cluster, tokenLen, summarize, embed, fuel)
  {
    if |store.GetLayer(layer)| <= clusterCfg.reductionDimension + 1 {
      return true, true;
    }
    stop := false;
    ghost var nodes0 := store.nodes;
    ghost var layers0 := store.layers;
    ok := BuildLayer(store, layer, clusterCfg, cluster, tokenLen, summarize, embed, fuel);
    GrownStep(nodes0, layers0, store.nodes, store.layers, ok, clusterCfg, cluster, tokenLen, summarize, embed, fuel);
  }

  /** `_build_tree_from_leaves`: at most `num_layers` rounds. A round stops the loop,
      adding nothing, when the current layer has at most `reduction_dimension + 1`
      nodes; otherwise it adds the next layer, holding one parent per cluster of the
      current one. No completion is reported when the clustering budget runs out. */
  method BuildTreeFromLeaves(store: TreeStore, cfg: TreeConfig, cluster: seq<TreeNode> -> seq<seq<nat>>,
                             tokenLen: string -> nat, summarize: seq<TreeNode> -> string,
                             embed: string -> seq<real>, fuel: nat)
    returns (complete: bool)
    requires store.Valid() && |store.layers| == 1 && WellShaped(cluster)
    modifies store
    ensures store.Valid()
    ensures 1 <= |store.layers| <= cfg.numLayers + 1
    ensures store.layers[0] == old(store.layers[0]) && old(store.nodes) <= store.nodes
    ensures Grown(store.nodes, store.layers, complete, ClusterConfig(cfg.maxLengthInCluster, cfg.reductionDimension),
                  cluster, tokenLen, summarize, embed, fuel)
    ensures complete ==> |store.layers| == cfg.numLayers + 1 ||
                         |store.layers[|store.layers| - 1]| <= cfg.reductionDimension + 1
  {
    var clusterCfg := ClusterConfig(cfg.maxLengthInCluster, cfg.reductionDimension);
    complete := true;
    for layer := 0 to cfg.numLayers
      invariant store.Valid() && |store.layers| == layer + 1 && complete
      invariant store.layers[0] == old(store.layers[0]) && old(store.nodes) <= store.nodes
      invariant Grown(store.nodes, store.layers, true, clusterCfg, cluster, tokenLen, summarize, embed, fuel)
    {
      var stop;
      stop, complete := LayerRound(store, layer, clusterCfg, cluster, tokenLen, summarize, embed, fuel);
      if stop || !complete {
        return;
      }
    }
  }

  /** `_build_graph`: clear the store, add the leaf layer, one leaf per chunk in order,
      then build the layers above them. */
  method BuildGraph(store: TreeStore, chunks: seq<string>, cfg: TreeConfig, cluster: seq<TreeNode> -> seq<seq<nat>>,
                    tokenLen: string -> nat, summarize: seq<TreeNode> -> string,
                    embed: string -> seq<real>, fuel: nat)
    returns (complete: bool)
    requires WellShaped(cluster)
    modifies store
    ensures store.Valid()
    ensures 1 <= |store.layers| <= cfg.numLayers + 1
    ensures store.layers[0] == Span(0, |chunks|) && |store.nodes| >= |chunks|
    ensures forall k :: 0 <= k < |chunks| ==> store.nodes[k] == TreeNode(k, 0, chunks[k], {}, embed(chunks[k]))
    ensures Grown(store.nodes, store.layers, complete, ClusterConfig(cfg.maxLengthInCluster, cfg.reductionDimension),
                  cluster, tokenLen, summarize, embed, fuel)
    ensures complete ==> |store.layers| == cfg.numLayers + 1 ||
                         |store.layers[|store.layers| - 1]| <= cfg.reductionDimension + 1
  {
    store.Clear();
    store.AddLayer();
    for k := 0 to |chunks|
      invariant store.Valid() && |store.layers| == 1 && |store.nodes| == k
      invariant store.layers[0] == Span(0, k)
      invariant forall i :: 0 <= i < k ==> store.nodes[i] == TreeNode(i, 0, chunks[i], {}, embed(chunks[i]))
    {
      var leaf := ExtractEntityRelationship(store, chunks[k], embed);
      SpanNext(0, k);
    }
    ghost var leaves := store.nodes;
    complete := BuildTreeFromLeaves(store, cfg, cluster, tokenLen, summarize, embed, fuel);
    assert forall k :: 0 <= k < |chunks| ==> store.nodes[k] == leaves[k];
  }
}
