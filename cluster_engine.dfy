/**
 * The bookkeeping around the clustering library calls in Core/Graph/TreeGraph.py:
 * `_GMM_cluster`'s threshold labelling and choice of component count, and
 * `_perform_clustering`'s mapping of per-global-cluster local labels into one id
 * space. The fits themselves (UMAP, GaussianMixture) are inputs: a BIC value per
 * candidate count, a probability row per point, and the local clustering of each
 * global cluster's members.
 */
module ClusterEngine {
  import opened Wrappers

  function Min(a: int, b: int): int {
    if a < b then a else b
  }

  predicate Ascending(s: seq<nat>) {
    forall a, b :: 0 <= a < b < |s| ==> s[a] < s[b]
  }

  // ---------------------------------------------------------------------------
  // _GMM_cluster
  // ---------------------------------------------------------------------------

  /** `np.where(prob > threshold)[0]` restricted to components at or after `from`. */
  function Above(prob: seq<real>, threshold: real, from: nat): (r: seq<nat>)
    ensures forall c :: c in r <==> from <= c < |prob| && prob[c] > threshold
    ensures forall a :: 0 <= a < |r| ==> from <= r[a]
    ensures Ascending(r)
    decreases |prob| - from
  {
    if from >= |prob| then []
    else (if prob[from] > threshold then [from] else []) + Above(prob, threshold, from + 1)
  }

  /** One label list per point: exactly the components whose probability strictly
      exceeds the threshold, ascending; with `k` components per row every label is
      below `k`. */
  function ThresholdLabels(probs: seq<seq<real>>, threshold: real): (labels: seq<seq<nat>>)
    ensures |labels| == |probs|
    ensures forall i :: 0 <= i < |probs| ==> Ascending(labels[i])
    ensures forall i, c :: 0 <= i < |probs| ==> (c in labels[i] <==> 0 <= c < |probs[i]| && probs[i][c] > threshold)
  {
    var labels := seq(|probs|, i requires 0 <= i < |probs| => Above(probs[i], threshold, 0));
    assert forall i :: 0 <= i < |probs| ==> labels[i] == Above(probs[i], threshold, 0);
    labels
  }

  /** `np.argmin`: the first position of a minimum. */
  function FirstMin(s: seq<real>): (r: nat)
    requires |s| > 0
    ensures r < |s|
    ensures forall j :: 0 <= j < |s| ==> s[r] <= s[j]
    ensures forall j :: 0 <= j < r ==> s[j] > s[r]
    decreases |s|
  {
    if |s| == 1 then 0
    else
      var m := FirstMin(s[..|s| - 1]);
      if s[|s| - 1] < s[m] then |s| - 1 else m
  }

  /** `np.arange(1, min(50, n))`: the component counts tried. */
  function CandidateCounts(n: nat): (r: seq<nat>)
    ensures |r| == if n <= 1 then 0 else Min(50, n) - 1
    ensures forall i :: 0 <= i < |r| ==> r[i] == i + 1
  {
    if n <= 1 then [] else seq(Min(50, n) - 1, i => i + 1)
  }

  /** The chosen component count: none when no count can be tried (argmin of an empty
      list raises); otherwise a count in `1 .. min(50, n) - 1` with the least BIC,
      every smaller count having a strictly larger one. */
  function ChosenCount(n: nat, bic: nat -> real): (r: Option<nat>)
    ensures r.None? <==> n <= 1
    ensures r.Some? ==> 1 <= r.value < Min(50, n)
    ensures r.Some? ==> forall k :: 1 <= k < Min(50, n) ==> bic(r.value) <= bic(k)
    ensures r.Some? ==> forall k :: 1 <= k < r.value ==> bic(k) > bic(r.value)
  {
    var counts := CandidateCounts(n);
    if |counts| == 0 then None
    else
      var bics := seq(|counts|, i requires 0 <= i < |counts| => bic(counts[i]));
      var m := FirstMin(bics);
      assert forall k :: 1 <= k < Min(50, n) ==> bics[k - 1] == bic(k);
      Some(counts[m])
  }

  /** The labels and count of `_GMM_cluster` for `n` points: the BIC loop over the
      candidate counts, the first minimum, and the threshold labels of the refit's
      probability rows (`probsFor(k)`, for the chosen `k`). */
  method GmmCluster(n: nat, bic: nat -> real, probsFor: nat -> seq<seq<real>>, threshold: real)
    returns (r: Option<(seq<seq<nat>>, nat)>)
    ensures r.None? <==> ChosenCount(n, bic).None?
    ensures r.Some? ==> r.value.1 == ChosenCount(n, bic).value
    ensures r.Some? ==> r.value.0 == ThresholdLabels(probsFor(r.value.1), threshold)
  {
    var nClusters := CandidateCounts(n);
    var bics: seq<real> := [];
    for t := 0 to |nClusters|
      invariant bics == seq(t, i requires 0 <= i < t => bic(nClusters[i]))
    {
      bics := bics + [bic(nClusters[t])];
    }
    if |bics| == 0 {
      return None;
    }
    var optimalClusters := nClusters[FirstMin(bics)];
    var probs := probsFor(optimalClusters);
    var labels := ThresholdLabels(probs, threshold);
    r := Some((labels, optimalClusters));
  }

  // ---------------------------------------------------------------------------
  // _perform_clustering
  // ---------------------------------------------------------------------------

  /** The positions, at or after `from`, whose label list holds `c`:
      `[i in gc for gc in global_clusters]` as an index list. */
  function MembersFrom(labels: seq<seq<nat>>, c: nat, from: nat): (r: seq<nat>)
    ensures forall p :: p in r <==> from <= p < |labels| && c in labels[p]
    ensures forall a :: 0 <= a < |r| ==> from <= r[a] < |labels|
    ensures Ascending(r)
    ensures from <= |labels| ==> |r| <= |labels| - from
    decreases |labels| - from
  {
    if from >= |labels| then []
    else (if c in labels[from] then [from] else []) + MembersFrom(labels, c, from + 1)
  }

  /** The points of cluster `c`, ascending. */
  function Members(labels: seq<seq<nat>>, c: nat): seq<nat> {
    MembersFrom(labels, c, 0)
  }

  /** The local clustering of one global cluster: a label list per member and the
      number of local clusters. */
  datatype LocalClusters = LocalClusters(labels: seq<seq<nat>>, count: nat)

  /** The local fit returns one label list per member it is given. */
  ghost predicate OracleShape(local: seq<nat> -> LocalClusters) {
    forall m :: |local(m).labels| == |m|
  }

  /** A cluster with at most `dim + 1` members is not refit: every member gets local
      label 0 and the cluster counts as one local cluster. */
  function Local(m: seq<nat>, dim: nat, local: seq<nat> -> LocalClusters): (r: LocalClusters)
    requires OracleShape(local)
    ensures |r.labels| == |m|
    ensures |m| <= dim + 1 ==> r.count == 1 && forall k :: 0 <= k < |m| ==> r.labels[k] == [0]
    ensures |m| > dim + 1 ==> r == local(m)
  {
    if |m| <= dim + 1 then LocalClusters(seq(|m|, _ => [0]), 1) else local(m)
  }

  /** The members, from position `from` on, whose local label list holds `j`. */
  function TaggedFrom(m: seq<nat>, lc: seq<seq<nat>>, j: nat, from: nat): (r: seq<nat>)
    requires |lc| == |m|
    ensures forall p :: p in r <==> exists k :: from <= k < |m| && m[k] == p && j in lc[k]
    ensures forall a :: 0 <= a < |r| ==> r[a] in m && from < |m| && (Ascending(m) ==> m[from] <= r[a])
    ensures Ascending(m) ==> Ascending(r)
    decreases |m| - from
  {
    if from >= |m| then []
    else
      var rest := TaggedFrom(m, lc, j, from + 1);
      (if j in lc[from] then [m[from]] else []) + rest
  }

  /** The points of local cluster `j`: `global_cluster_embeddings_[[j in lc for lc in
      local_clusters]]`, given by their original indices. */
  function Tagged(m: seq<nat>, lc: seq<seq<nat>>, j: nat): seq<nat>
    requires |lc| == |m|
  {
    TaggedFrom(m, lc, j, 0)
  }

  /** The ids a point receives from local labels `0 .. j - 1` of a cluster whose ids
      start at `offset`. */
  function NewIds(m: seq<nat>, lc: LocalClusters, offset: nat, p: nat, j: nat): seq<nat>
    requires |lc.labels| == |m|
  {
    if j == 0 then [] else NewIds(m, lc, offset, p, j - 1) + (if p in Tagged(m, lc.labels, j - 1) then [j - 1 + offset] else [])
  }

  /** The id lists and the running `total_clusters` after the first `i` global clusters. */
  datatype Assignment = Assignment(labels: seq<seq<nat>>, total: nat)

  /** The assignment after one more non-empty global cluster, with members `m`, local
      clustering `lc`, and ids starting at the running total. */
  function Step(prev: Assignment, m: seq<nat>, lc: LocalClusters): (r: Assignment)
    requires |lc.labels| == |m|
    ensures |r.labels| == |prev.labels| && r.total == prev.total + lc.count
    ensures forall p :: 0 <= p < |prev.labels| ==> r.labels[p] == prev.labels[p] + NewIds(m, lc, prev.total, p, lc.count)
  {
    Assignment(seq(|prev.labels|, p requires 0 <= p < |prev.labels| => prev.labels[p] + NewIds(m, lc, prev.total, p, lc.count)),
               prev.total + lc.count)
  }

  function AssignUpTo(global: seq<seq<nat>>, dim: nat, local: seq<nat> -> LocalClusters, i: nat): (r: Assignment)
    requires OracleShape(local)
    ensures |r.labels| == |global|
  {
    if i == 0 then Assignment(seq(|global|, _ => []), 0)
    else
      var prev := AssignUpTo(global, dim, local, i - 1);
      var m := Members(global, i - 1);
      if m == [] then prev else Step(prev, m, Local(m, dim, local))
  }

  /** The ids of local labels `0 .. j - 1` are the offset labels the point carries. */
  lemma {:induction false} NewIdsMembership(m: seq<nat>, lc: LocalClusters, offset: nat, p: nat, j: nat, x: nat)
    requires |lc.labels| == |m|
    ensures x in NewIds(m, lc, offset, p, j) <==> offset <= x < offset + j && p in Tagged(m, lc.labels, x - offset)
  {
    if j > 0 {
      NewIdsMembership(m, lc, offset, p, j - 1, x);
    }
  }

  /** `np.append(all_local_clusters[idx], id)` for every index of `idxs`. */
  method AppendId(labels: seq<seq<nat>>, idxs: seq<nat>, id: nat) returns (r: seq<seq<nat>>)
    requires Ascending(idxs)
    requires forall t :: 0 <= t < |idxs| ==> idxs[t] < |labels|
    ensures |r| == |labels|
    ensures forall p :: 0 <= p < |labels| ==> r[p] == labels[p] + (if p in idxs then [id] else [])
  {
    r := labels;
    for t := 0 to |idxs|
      invariant |r| == |labels|
      invariant forall p :: 0 <= p < |labels| ==> r[p] == labels[p] + (if p in idxs[..t] then [id] else [])
    {
      var idx := idxs[t];
      assert idx !in idxs[..t];
      r := r[idx := r[idx] + [id]];
      assert idxs[..t + 1] == idxs[..t] + [idx];
    }
    assert idxs[..|idxs|] == idxs;
  }

  /** The loop over the local clusters of one global cluster with members `members`:
      local label `j` becomes id `j + totalClusters`. */
  method AssignCluster(labels: seq<seq<nat>>, totalClusters: nat, members: seq<nat>, lc: LocalClusters)
    returns (r: seq<seq<nat>>)
    requires |lc.labels| == |members|
    requires forall p :: p in members ==> p < |labels|
    requires Ascending(members)
    ensures r == Step(Assignment(labels, totalClusters), members, lc).labels
  {
    r := labels;
    for j := 0 to lc.count
      invariant |r| == |labels|
      invariant forall p :: 0 <= p < |labels| ==> r[p] == labels[p] + NewIds(members, lc, totalClusters, p, j)
    {
      var indices := Tagged(members, lc.labels, j);
      assert forall t :: 0 <= t < |indices| ==> indices[t] < |labels| by {
        forall t | 0 <= t < |indices| ensures indices[t] < |labels| {
          assert indices[t] in members;
        }
      }
      r := AppendId(r, indices, j + totalClusters);
    }
  }

  /** The offset loop of `_perform_clustering`: `global[p]` holds the global labels of
      point `p`, `nGlobal` is the global count, and `local(m)` the local fit of the
      members `m` of a global cluster too large to keep whole. */
  method PerformClustering(global: seq<seq<nat>>, nGlobal: nat, dim: nat, local: seq<nat> -> LocalClusters)
    returns (allLocalClusters: seq<seq<nat>>)
    requires OracleShape(local)
    ensures allLocalClusters == AssignUpTo(global, dim, local, nGlobal).labels
  {
    allLocalClusters := seq(|global|, _ => []);
    var totalClusters: nat := 0;
    for i := 0 to nGlobal
      invariant AssignUpTo(global, dim, local, i) == Assignment(allLocalClusters, totalClusters)
    {
      var members := Members(global, i);
      if |members| == 0 {
        continue;
      }
      var lc := Local(members, dim, local);
      allLocalClusters := AssignCluster(allLocalClusters, totalClusters, members, lc);
      totalClusters := totalClusters + lc.count;
    }
  }

  /** Every id assigned is below the final `total_clusters`. */
  lemma {:induction false} AssignedIdsBelowTotal(global: seq<seq<nat>>, dim: nat, local: seq<nat> -> LocalClusters, i: nat)
    requires OracleShape(local)
    ensures var a := AssignUpTo(global, dim, local, i);
      forall p: nat, x: nat :: p < |global| && x in a.labels[p] ==> x < a.total
  {
    if i > 0 {
      AssignedIdsBelowTotal(global, dim, local, i - 1);
      var prev := AssignUpTo(global, dim, local, i - 1);
      assert var a := AssignUpTo(global, dim, local, i - 1);
        forall p: nat, x: nat :: p < |global| && x in a.labels[p] ==> x < a.total;
      var m := Members(global, i - 1);
      if m != [] {
        var lc := Local(m, dim, local);
        var a := AssignUpTo(global, dim, local, i);
        assert a == Step(prev, m, lc);
        forall p: nat, x: nat | p < |global| && x in a.labels[p]
          ensures x < a.total
        {
          if x in prev.labels[p] {
            assert x < prev.total;
          } else {
            assert x in NewIds(m, lc, prev.total, p, lc.count);
            NewIdsMembership(m, lc, prev.total, p, lc.count, x);
          }
        }
      }
    }
  }

  /** Global cluster `c` gave point `p` the id `x`: it is non-empty, and `x` is the
      offset of `c` plus a local label of `p` in `c`. */
  ghost predicate GaveId(global: seq<seq<nat>>, dim: nat, local: seq<nat> -> LocalClusters, c: nat, p: nat, x: nat)
    requires OracleShape(local)
  {
    var m := Members(global, c);
    var offset := AssignUpTo(global, dim, local, c).total;
    var lc := Local(m, dim, local);
    m != [] && offset <= x < offset + lc.count && p in Tagged(m, lc.labels, x - offset)
  }

  /** One more global cluster adds to point `p`'s list exactly the ids it gave `p`. */
  lemma AssignStepMembership(global: seq<seq<nat>>, dim: nat, local: seq<nat> -> LocalClusters,
                             i: nat, p: nat, x: nat)
    requires OracleShape(local) && p < |global| && 0 < i
    ensures x in AssignUpTo(global, dim, local, i).labels[p] <==>
      x in AssignUpTo(global, dim, local, i - 1).labels[p] || GaveId(global, dim, local, i - 1, p, x)
  {
    var m := Members(global, i - 1);
    var prev := AssignUpTo(global, dim, local, i - 1);
    if m != [] {
      var lc := Local(m, dim, local);
      assert AssignUpTo(global, dim, local, i).labels[p] == prev.labels[p] + NewIds(m, lc, prev.total, p, lc.count);
      NewIdsMembership(m, lc, prev.total, p, lc.count, x);
    }
  }

  /** The id `x` is in point `p`'s list exactly when some global cluster among the
      first `i` gave it, at the offset equal to the sum of the local counts of the
      non-empty clusters before it. */
  lemma {:induction false} AssignedIdsExact(global: seq<seq<nat>>, dim: nat, local: seq<nat> -> LocalClusters,
                                            i: nat, p: nat, x: nat)
    requires OracleShape(local) && p < |global|
    ensures x in AssignUpTo(global, dim, local, i).labels[p] <==> exists c :: 0 <= c < i && GaveId(global, dim, local, c, p, x)
  {
    if i > 0 {
      AssignedIdsExact(global, dim, local, i - 1, p, x);
      AssignStepMembership(global, dim, local, i, p, x);
      if x in AssignUpTo(global, dim, local, i).labels[p] {
        if !GaveId(global, dim, local, i - 1, p, x) {
          var c :| 0 <= c < i - 1 && GaveId(global, dim, local, c, p, x);
        }
      } else {
        forall c | 0 <= c < i ensures !GaveId(global, dim, local, c, p, x) {
          if c < i - 1 {
          }
        }
      }
    }
  }

  /** The running offset grows by each non-empty global cluster's local count, and an
      empty global cluster leaves the whole assignment as it was. */
  lemma OffsetsAdvance(global: seq<seq<nat>>, dim: nat, local: seq<nat> -> LocalClusters, i: nat)
    requires OracleShape(local)
    ensures Members(global, i) == [] ==> AssignUpTo(global, dim, local, i + 1) == AssignUpTo(global, dim, local, i)
    ensures Members(global, i) != [] ==>
      AssignUpTo(global, dim, local, i + 1).total == AssignUpTo(global, dim, local, i).total + Local(Members(global, i), dim, local).count
    ensures AssignUpTo(global, dim, local, i).total <= AssignUpTo(global, dim, local, i + 1).total
  {
  }

  /** A member of a small non-empty global cluster (at most `dim + 1` members) gets
      exactly that cluster's offset from it, as its single local label 0. */
  lemma SmallClusterGetsOffset(global: seq<seq<nat>>, dim: nat, local: seq<nat> -> LocalClusters,
                               c: nat, i: nat, p: nat)
    requires OracleShape(local)
    requires c < i && p < |global| && c in global[p]
    requires |Members(global, c)| <= dim + 1
    ensures AssignUpTo(global, dim, local, c).total in AssignUpTo(global, dim, local, i).labels[p]
  {
    var m := Members(global, c);
    assert p in m;
    var k :| 0 <= k < |m| && m[k] == p;
    var lc := Local(m, dim, local);
    assert 0 in lc.labels[k];
    assert p in Tagged(m, lc.labels, 0);
    assert GaveId(global, dim, local, c, p, AssignUpTo(global, dim, local, c).total);
    AssignedIdsExact(global, dim, local, i, p, AssignUpTo(global, dim, local, c).total);
  }
}
