/**
 * The per-vertex clustering of RemoveNonManifold: the triangles of one vertex
 * star are grouped by repeatedly growing a cluster from an unvisited member,
 * absorbing every unvisited member that shares an unordered edge with a
 * member already in the cluster.  The shared edge need not contain the
 * pivot vertex.
 */
module StarClustering {
  import opened MeshEdges
  import opened Selection

  /** Two triangles are linked when a side of one equals a side of the other as an unordered pair. */
  predicate ShareEdge(t: Triangle, u: Triangle)
  {
    var e0, e1, e2 := GetEdge(t, 0), GetEdge(t, 1), GetEdge(t, 2);
    var e3, e4, e5 := GetEdge(u, 0), GetEdge(u, 1), GetEdge(u, 2);
    || PairPredUnordered(e0, e3) || PairPredUnordered(e0, e4) || PairPredUnordered(e0, e5)
    || PairPredUnordered(e1, e3) || PairPredUnordered(e1, e4) || PairPredUnordered(e1, e5)
    || PairPredUnordered(e2, e3) || PairPredUnordered(e2, e4) || PairPredUnordered(e2, e5)
  }

  /** Linking is symmetric, and every triangle is linked to itself. */
  lemma ShareEdgeSymmetric(t: Triangle, u: Triangle)
    ensures ShareEdge(t, u) <==> ShareEdge(u, t)
    ensures ShareEdge(t, t)
  {
  }

  /** Linked exactly when some side of `t` and some side of `u` are the same undirected edge. */
  lemma ShareEdgeIffCommonSide(t: Triangle, u: Triangle)
    ensures ShareEdge(t, u) <==> exists i, j | 0 <= i < 3 && 0 <= j < 3 :: UKey(GetEdge(t, i)) == UKey(GetEdge(u, j))
  {
    forall i, j | 0 <= i < 3 && 0 <= j < 3
      ensures PairPredUnordered(GetEdge(t, i), GetEdge(u, j)) <==> UKey(GetEdge(t, i)) == UKey(GetEdge(u, j))
    {
      UnorderedPredIsSameKey(GetEdge(t, i), GetEdge(u, j));
    }
  }

  predicate IndicesValid(faces: seq<Triangle>, star: seq<nat>)
  {
    forall m | 0 <= m < |star| :: star[m] < |faces|
  }

  /** The triangles a star's face indices refer to, position by position. */
  function StarTriangles(faces: seq<Triangle>, star: seq<nat>): (tris: seq<Triangle>)
    requires IndicesValid(faces, star)
    ensures |tris| == |star|
  {
    seq(|star|, m requires 0 <= m < |star| => faces[star[m]])
  }

  /** A walk through star positions in which each step crosses a shared edge. */
  ghost predicate IsPath(tris: seq<Triangle>, p: seq<nat>)
  {
    && |p| > 0
    && (forall m | 0 <= m < |p| :: p[m] < |tris|)
    && (forall m | 0 < m < |p| :: ShareEdge(tris[p[m - 1]], tris[p[m]]))
  }

  ghost predicate Reach(tris: seq<Triangle>, x: nat, y: nat)
  {
    exists p: seq<nat> :: IsPath(tris, p) && p[0] == x && p[|p| - 1] == y
  }

  /** The star forms a single edge-connected fan. */
  ghost predicate Connected(tris: seq<Triangle>)
  {
    forall x: nat, y: nat | x < |tris| && y < |tris| :: Reach(tris, x, y)
  }

  /**
   * A labelling of star positions by cluster number: every cluster has a
   * seed, every member is reachable from its seed, and linked members share
   * a cluster.
   */
  ghost predicate IsClustering(tris: seq<Triangle>, cid: seq<nat>, seeds: seq<nat>)
  {
    && |cid| == |tris|
    && (forall j | 0 <= j < |tris| :: cid[j] < |seeds|)
    && (forall c | 0 <= c < |seeds| :: seeds[c] < |tris| && cid[seeds[c]] == c)
    && (forall j | 0 <= j < |tris| :: Reach(tris, seeds[cid[j]], j))
    && (forall a, b | 0 <= a < |tris| && 0 <= b < |tris| && ShareEdge(tris[a], tris[b]) :: cid[a] == cid[b])
  }

  /** The positions reachable from `x`. */
  ghost function ReachClass(tris: seq<Triangle>, x: nat): set<nat>
  {
    set y: nat | y < |tris| && Reach(tris, x, y)
  }

  /** The connected components of the "shares an unordered edge" relation on the star. */
  ghost function Components(tris: seq<Triangle>): set<set<nat>>
  {
    set x: nat | x < |tris| :: ReachClass(tris, x)
  }

  ghost function ClusterOf(cid: seq<nat>, c: nat): set<nat>
  {
    set y: nat | y < |cid| && cid[y] == c
  }

  lemma ReachSelf(tris: seq<Triangle>, x: nat)
    requires x < |tris|
    ensures Reach(tris, x, x)
  {
    assert IsPath(tris, [x]);
  }

  lemma ReachStep(tris: seq<Triangle>, x: nat, y: nat, z: nat)
    requires Reach(tris, x, y) && y < |tris| && z < |tris| && ShareEdge(tris[y], tris[z])
    ensures Reach(tris, x, z)
  {
    var p: seq<nat> :| IsPath(tris, p) && p[0] == x && p[|p| - 1] == y;
    var q := p + [z];
    assert IsPath(tris, q);
  }

  lemma ReachSymmetric(tris: seq<Triangle>, x: nat, y: nat)
    requires Reach(tris, x, y)
    ensures Reach(tris, y, x)
  {
    var p: seq<nat> :| IsPath(tris, p) && p[0] == x && p[|p| - 1] == y;
    var n := |p|;
    var q: seq<nat> := seq(n, k requires 0 <= k < n => p[n - 1 - k]);
    forall m | 0 < m < n
      ensures ShareEdge(tris[q[m - 1]], tris[q[m]])
    {
      assert q[m - 1] == p[n - m] && q[m] == p[n - m - 1];
      assert ShareEdge(tris[p[n - m - 1]], tris[p[n - m]]);
      ShareEdgeSymmetric(tris[p[n - m - 1]], tris[p[n - m]]);
    }
    assert IsPath(tris, q);
  }

  lemma ReachTransitive(tris: seq<Triangle>, x: nat, y: nat, z: nat)
    requires Reach(tris, x, y) && Reach(tris, y, z)
    ensures Reach(tris, x, z)
  {
    var p: seq<nat> :| IsPath(tris, p) && p[0] == x && p[|p| - 1] == y;
    var q: seq<nat> :| IsPath(tris, q) && q[0] == y && q[|q| - 1] == z;
    var r := p + q[1..];
    forall m | 0 < m < |r|
      ensures ShareEdge(tris[r[m - 1]], tris[r[m]])
    {
      if m < |p| {
        assert r[m - 1] == p[m - 1] && r[m] == p[m];
      } else {
        assert r[m - 1] == q[m - |p|] && r[m] == q[m - |p| + 1];
      }
    }
    assert IsPath(tris, r);
  }

  lemma {:induction false} PathStaysInCluster(tris: seq<Triangle>, cid: seq<nat>, seeds: seq<nat>, p: seq<nat>)
    requires IsClustering(tris, cid, seeds) && IsPath(tris, p)
    ensures cid[p[0]] == cid[p[|p| - 1]]
    decreases |p|
  {
    if |p| > 1 {
      var p' := p[..|p| - 1];
      assert IsPath(tris, p');
      PathStaysInCluster(tris, cid, seeds, p');
      assert ShareEdge(tris[p[|p| - 2]], tris[p[|p| - 1]]);
    }
  }

  /** Reachable positions lie in the same cluster. */
  lemma ReachSameCluster(tris: seq<Triangle>, cid: seq<nat>, seeds: seq<nat>, x: nat, y: nat)
    requires IsClustering(tris, cid, seeds) && Reach(tris, x, y)
    ensures x < |tris| && y < |tris| && cid[x] == cid[y]
  {
    var p: seq<nat> :| IsPath(tris, p) && p[0] == x && p[|p| - 1] == y;
    PathStaysInCluster(tris, cid, seeds, p);
  }

  /** Each reach class is exactly one cluster. */
  lemma ReachClassIsCluster(tris: seq<Triangle>, cid: seq<nat>, seeds: seq<nat>, x: nat)
    requires IsClustering(tris, cid, seeds) && x < |tris|
    ensures ReachClass(tris, x) == ClusterOf(cid, cid[x])
  {
    var c := cid[x];
    forall y: nat
      ensures y in ReachClass(tris, x) <==> y in ClusterOf(cid, c)
    {
      if y in ReachClass(tris, x) {
        ReachSameCluster(tris, cid, seeds, x, y);
      }
      if y in ClusterOf(cid, c) {
        ReachSymmetric(tris, seeds[c], x);
        ReachTransitive(tris, x, seeds[c], y);
      }
    }
  }

  lemma {:induction false} ClusterImageSize(cid: seq<nat>, seeds: seq<nat>, k: nat)
    requires k <= |seeds|
    requires forall c | 0 <= c < |seeds| :: seeds[c] < |cid| && cid[seeds[c]] == c
    ensures |set c: nat | c < k :: ClusterOf(cid, c)| == k
    decreases k
  {
    if k > 0 {
      ClusterImageSize(cid, seeds, k - 1);
      var prev := set c: nat | c < k - 1 :: ClusterOf(cid, c);
      var last := ClusterOf(cid, k - 1);
      assert seeds[k - 1] in last;
      assert last !in prev by {
        forall c: nat | c < k - 1
          ensures ClusterOf(cid, c) != last
        {
          assert seeds[k - 1] !in ClusterOf(cid, c);
        }
      }
      assert (set c: nat | c < k :: ClusterOf(cid, c)) == prev + {last};
    }
  }

  /** The number of clusters equals the number of connected components of the star. */
  lemma ClusterCountIsComponentCount(tris: seq<Triangle>, cid: seq<nat>, seeds: seq<nat>)
    requires IsClustering(tris, cid, seeds)
    ensures |Components(tris)| == |seeds|
  {
    var img := set c: nat | c < |seeds| :: ClusterOf(cid, c);
    forall s | s in Components(tris)
      ensures s in img
    {
      var x: nat :| x < |tris| && s == ReachClass(tris, x);
      ReachClassIsCluster(tris, cid, seeds, x);
    }
    forall s | s in img
      ensures s in Components(tris)
    {
      var c: nat :| c < |seeds| && s == ClusterOf(cid, c);
      ReachClassIsCluster(tris, cid, seeds, seeds[c]);
    }
    assert Components(tris) == img;
    ClusterImageSize(cid, seeds, |seeds|);
  }

  /** One cluster or none exactly when the star is a single fan; none exactly when the star is empty. */
  lemma SingleClusterIffConnected(tris: seq<Triangle>, cid: seq<nat>, seeds: seq<nat>)
    requires IsClustering(tris, cid, seeds)
    ensures |seeds| <= 1 <==> Connected(tris)
    ensures |seeds| == 0 <==> |tris| == 0
  {
    if |tris| > 0 {
      assert cid[0] < |seeds|;
    }
    if |seeds| > 0 {
      assert seeds[0] < |tris|;
    }
    if |seeds| == 1 {
      forall x: nat, y: nat | x < |tris| && y < |tris|
        ensures Reach(tris, x, y)
      {
        assert cid[x] == 0 && cid[y] == 0;
        ReachSymmetric(tris, seeds[0], x);
        ReachTransitive(tris, x, seeds[0], y);
      }
    }
    if Connected(tris) && |seeds| > 1 {
      ReachSameCluster(tris, cid, seeds, seeds[0], seeds[1]);
    }
  }

  /** Setting one more flag raises the count by one. */
  lemma {:induction false} CountTrueMark(s: seq<bool>, j: nat)
    requires j < |s| && !s[j]
    ensures CountTrue(s[j := true]) == CountTrue(s) + 1
    decreases |s|
  {
    var n := |s|;
    assert s[j := true][..n - 1] == if j < n - 1 then s[..n - 1][j := true] else s[..n - 1];
    if j < n - 1 {
      CountTrueMark(s[..n - 1], j);
    }
  }

  /**
   * The bookkeeping of the clustering loop, over the visited flags `s`:
   * every visited member has a cluster and is reachable from its seed, every
   * seed is visited and labelled with its own cluster, and `marks` counts
   * how often each member was marked.
   */
  ghost predicate Labelled(tris: seq<Triangle>, s: seq<bool>, cid: seq<nat>, seeds: seq<nat>, marks: seq<nat>)
  {
    && |s| == |tris| && |cid| == |tris| && |marks| == |tris|
    && (forall j | 0 <= j < |s| :: marks[j] == (if s[j] then 1 else 0))
    && (forall j | 0 <= j < |s| && s[j] :: cid[j] < |seeds| && Reach(tris, seeds[cid[j]], j))
    && (forall c | 0 <= c < |seeds| :: seeds[c] < |s| && s[seeds[c]] && cid[seeds[c]] == c)
  }

  /** Every visited member outside the queue has all its linked members visited, in its own cluster. */
  ghost predicate ClosedExcept(tris: seq<Triangle>, s: seq<bool>, cid: seq<nat>, queue: seq<nat>)
    requires |s| == |tris| && |cid| == |tris|
  {
    forall a, b | 0 <= a < |s| && 0 <= b < |s| && s[a] && a !in queue && ShareEdge(tris[a], tris[b]) ::
      s[b] && cid[b] == cid[a]
  }

  /** The queue holds distinct visited members of cluster `c`. */
  ghost predicate QueueOk(s: seq<bool>, cid: seq<nat>, queue: seq<nat>, c: nat)
    requires |cid| == |s|
  {
    && (forall m | 0 <= m < |queue| :: queue[m] < |s| && s[queue[m]] && cid[queue[m]] == c)
    && (forall m1, m2 | 0 <= m1 < m2 < |queue| :: queue[m1] != queue[m2])
  }

  /** Opening a new cluster at the unvisited member `i`. */
  lemma SeedCluster(tris: seq<Triangle>, s: seq<bool>, cid: seq<nat>, seeds: seq<nat>, marks: seq<nat>, i: nat)
    requires Labelled(tris, s, cid, seeds, marks) && ClosedExcept(tris, s, cid, [])
    requires i < |s| && !s[i] && VisitedBelow(s, i)
    ensures Labelled(tris, s[i := true], cid[i := |seeds|], seeds + [i], marks[i := marks[i] + 1])
    ensures VisitedBelow(s[i := true], i + 1)
    ensures ClosedExcept(tris, s[i := true], cid[i := |seeds|], [i])
    ensures QueueOk(s[i := true], cid[i := |seeds|], [i], |seeds|)
  {
    SeedLabelled(tris, s, cid, seeds, marks, i);
    MarkKeepsClosed(tris, s, cid, [], |seeds|, i);
    assert [] + [i] == [i];
  }

  lemma SeedLabelled(tris: seq<Triangle>, s: seq<bool>, cid: seq<nat>, seeds: seq<nat>, marks: seq<nat>, i: nat)
    requires Labelled(tris, s, cid, seeds, marks)
    requires i < |s| && !s[i]
    ensures Labelled(tris, s[i := true], cid[i := |seeds|], seeds + [i], marks[i := marks[i] + 1])
  {
    ReachSelf(tris, i);
    var s', cid', seeds' := s[i := true], cid[i := |seeds|], seeds + [i];
    forall j | 0 <= j < |s'| && s'[j]
      ensures cid'[j] < |seeds'| && Reach(tris, seeds'[cid'[j]], j)
    {
      if j != i {
        assert seeds'[cid'[j]] == seeds[cid[j]];
      }
    }
  }

  /** The members before `i` are visited. */
  ghost predicate VisitedBelow(s: seq<bool>, i: int)
  {
    forall j | 0 <= j < i && j < |s| :: s[j]
  }

  /** Every member before `j` linked to `t` is visited and in cluster `c`. */
  ghost predicate ScannedBelow(tris: seq<Triangle>, s: seq<bool>, cid: seq<nat>, t: Triangle, j: int, c: nat)
    requires |s| == |tris| && |cid| == |tris|
  {
    forall b | 0 <= b < j && b < |s| && ShareEdge(t, tris[b]) :: s[b] && cid[b] == c
  }

  /**
   * Marking the unvisited member `j`, linked to `t`, as part of cluster `c`
   * and queueing it.
   */
  lemma MarkMember(tris: seq<Triangle>, s: seq<bool>, cid: seq<nat>, seeds: seq<nat>, marks: seq<nat>,
                   queue: seq<nat>, c: nat, j: nat, t: Triangle, k: int)
    requires Labelled(tris, s, cid, seeds, marks) && ClosedExcept(tris, s, cid, queue) && QueueOk(s, cid, queue, c)
    requires c < |seeds| && j < |s| && !s[j] && Reach(tris, seeds[c], j)
    requires ScannedBelow(tris, s, cid, t, j, c) && ShareEdge(t, tris[j]) && VisitedBelow(s, k)
    ensures Labelled(tris, s[j := true], cid[j := c], seeds, marks[j := marks[j] + 1])
    ensures ClosedExcept(tris, s[j := true], cid[j := c], queue + [j])
    ensures QueueOk(s[j := true], cid[j := c], queue + [j], c)
    ensures ScannedBelow(tris, s[j := true], cid[j := c], t, j + 1, c) && VisitedBelow(s[j := true], k)
  {
    MarkKeepsLabelled(tris, s, cid, seeds, marks, c, j);
    MarkKeepsClosed(tris, s, cid, queue, c, j);
    MarkKeepsQueue(s, cid, queue, c, j);
    MarkKeepsScan(tris, s, cid, c, j, t, k);
  }

  lemma MarkKeepsLabelled(tris: seq<Triangle>, s: seq<bool>, cid: seq<nat>, seeds: seq<nat>, marks: seq<nat>, c: nat, j: nat)
    requires Labelled(tris, s, cid, seeds, marks)
    requires c < |seeds| && j < |s| && !s[j] && Reach(tris, seeds[c], j)
    ensures Labelled(tris, s[j := true], cid[j := c], seeds, marks[j := marks[j] + 1])
  {
  }

  lemma MarkKeepsClosed(tris: seq<Triangle>, s: seq<bool>, cid: seq<nat>, queue: seq<nat>, c: nat, j: nat)
    requires |s| == |tris| && |cid| == |tris|
    requires ClosedExcept(tris, s, cid, queue)
    requires j < |s| && !s[j]
    ensures ClosedExcept(tris, s[j := true], cid[j := c], queue + [j])
  {
  }

  lemma MarkKeepsQueue(s: seq<bool>, cid: seq<nat>, queue: seq<nat>, c: nat, j: nat)
    requires |cid| == |s| && QueueOk(s, cid, queue, c)
    requires j < |s| && !s[j]
    ensures QueueOk(s[j := true], cid[j := c], queue + [j], c)
  {
  }

  lemma MarkKeepsScan(tris: seq<Triangle>, s: seq<bool>, cid: seq<nat>, c: nat, j: nat, t: Triangle, k: int)
    requires |s| == |tris| && |cid| == |tris|
    requires j < |s| && ScannedBelow(tris, s, cid, t, j, c) && VisitedBelow(s, k)
    ensures ScannedBelow(tris, s[j := true], cid[j := c], t, j + 1, c) && VisitedBelow(s[j := true], k)
  {
  }

  /** A member that is the head, unlinked to it, or visited keeps the scan complete. */
  lemma SkipMember(tris: seq<Triangle>, s: seq<bool>, cid: seq<nat>, queue: seq<nat>, c: nat, j: nat)
    requires |s| == |tris| && |cid| == |tris|
    requires ClosedExcept(tris, s, cid, queue) && QueueOk(s, cid, queue, c) && queue != []
    requires ScannedBelow(tris, s, cid, tris[queue[0]], j, c) && j < |s|
    requires j == queue[0] || s[j] || !ShareEdge(tris[queue[0]], tris[j])
    ensures ScannedBelow(tris, s, cid, tris[queue[0]], j + 1, c)
  {
    if j != queue[0] && s[j] && ShareEdge(tris[queue[0]], tris[j]) {
      ShareEdgeSymmetric(tris[queue[0]], tris[j]);
      if j !in queue {
        assert cid[queue[0]] == cid[j];
      }
    }
  }

  /** Once every member linked to the head is visited in its cluster, the head can leave the queue. */
  lemma PopFront(tris: seq<Triangle>, s: seq<bool>, cid: seq<nat>, queue: seq<nat>, c: nat)
    requires |s| == |tris| && |cid| == |tris|
    requires ClosedExcept(tris, s, cid, queue) && QueueOk(s, cid, queue, c) && queue != []
    requires ScannedBelow(tris, s, cid, tris[queue[0]], |s|, c)
    ensures ClosedExcept(tris, s, cid, queue[1..]) && QueueOk(s, cid, queue[1..], c)
  {
    forall a | 0 <= a < |s| && a !in queue[1..] && a in queue
      ensures a == queue[0]
    {
    }
  }

  /** When every member is visited and nothing is queued, the labelling is a clustering. */
  lemma LabelledIsClustering(tris: seq<Triangle>, s: seq<bool>, cid: seq<nat>, seeds: seq<nat>, marks: seq<nat>)
    requires Labelled(tris, s, cid, seeds, marks) && ClosedExcept(tris, s, cid, [])
    requires VisitedBelow(s, |s|)
    ensures IsClustering(tris, cid, seeds)
    ensures forall j | 0 <= j < |marks| :: marks[j] == 1
  {
  }

  /**
   * One step of growing a cluster: every unvisited member linked to the
   * queue's head `cluster[0]` is visited, labelled `c` and queued.
   */
  method AbsorbLinked(faces: seq<Triangle>, neighbors: seq<nat>, sampled: array<bool>, c: nat, cluster: seq<nat>,
                      ghost tris: seq<Triangle>, ghost cid: seq<nat>, ghost seeds: seq<nat>, ghost marks: seq<nat>,
                      ghost i: nat)
    returns (cluster': seq<nat>, ghost cid': seq<nat>, ghost marks': seq<nat>)
    requires IndicesValid(faces, neighbors) && tris == StarTriangles(faces, neighbors)
    requires sampled.Length == |neighbors| && |seeds| == c + 1 && |cluster| > 0
    requires Labelled(tris, sampled[..], cid, seeds, marks)
    requires ClosedExcept(tris, sampled[..], cid, cluster) && QueueOk(sampled[..], cid, cluster, c)
    requires VisitedBelow(sampled[..], i + 1)
    modifies sampled
    ensures Labelled(tris, sampled[..], cid', seeds, marks')
    ensures ClosedExcept(tris, sampled[..], cid', cluster') && QueueOk(sampled[..], cid', cluster', c)
    ensures |cluster'| > 0 && cluster'[0] == cluster[0]
    ensures VisitedBelow(sampled[..], i + 1)
    ensures ScannedBelow(tris, sampled[..], cid', tris[cluster[0]], sampled.Length, c)
    ensures CountTrue(sampled[..]) >= CountTrue(old(sampled[..]))
    ensures CountTrue(sampled[..]) == CountTrue(old(sampled[..])) ==> cluster' == cluster
    ensures forall b | 0 <= b < sampled.Length :: sampled[b] == (old(sampled[b]) || ShareEdge(tris[cluster[0]], tris[b]))
    ensures cluster' == cluster + TrueIndices(NewlyVisited(old(sampled[..]), sampled[..]))
  {
    var front := cluster[0];
    ghost var s0 := sampled[..];
    var e0 := GetEdge(faces[neighbors[front]], 0);
    var e1 := GetEdge(faces[neighbors[front]], 1);
    var e2 := GetEdge(faces[neighbors[front]], 2);
    ScanStart(tris, sampled[..], cid, seeds, marks, cluster, c, i);
    cluster', cid', marks' := ScanLinked(faces, neighbors, sampled, c, cluster, e0, e1, e2, tris, cid, seeds, marks, i, s0);
    ScanComplete(tris, old(sampled[..]), sampled[..], cid', seeds, marks', cluster', cluster, c, i);
    forall b | 0 <= b < sampled.Length
      ensures sampled[b] == (old(sampled[b]) || ShareEdge(tris[cluster[0]], tris[b]))
    {
      assert sampled[b] == sampled[..][b] && old(sampled[b]) == old(sampled[..])[b];
    }
  }

  /**
   * The inner `for` loop of one growing step, run against the head's three
   * sides `e0`, `e1`, `e2` from the flags `s0` it starts with: it carries
   * the scan over the whole star.
   */
  method ScanLinked(faces: seq<Triangle>, neighbors: seq<nat>, sampled: array<bool>, c: nat, cluster: seq<nat>,
                    e0: Pair, e1: Pair, e2: Pair,
                    ghost tris: seq<Triangle>, ghost cid: seq<nat>, ghost seeds: seq<nat>, ghost marks: seq<nat>,
                    ghost i: nat, ghost s0: seq<bool>)
    returns (cluster': seq<nat>, ghost cid': seq<nat>, ghost marks': seq<nat>)
    requires IndicesValid(faces, neighbors) && tris == StarTriangles(faces, neighbors)
    requires sampled.Length == |neighbors| && |seeds| == c + 1 && |cluster| > 0
    requires ScanInv(tris, s0, sampled[..], cid, seeds, marks, cluster, cluster, c, i, 0)
    requires e0 == GetEdge(faces[neighbors[cluster[0]]], 0)
    requires e1 == GetEdge(faces[neighbors[cluster[0]]], 1)
    requires e2 == GetEdge(faces[neighbors[cluster[0]]], 2)
    modifies sampled
    ensures ScanInv(tris, s0, sampled[..], cid', seeds, marks', cluster', cluster, c, i, |neighbors|)
    ensures |cluster'| > 0 && cluster'[0] == cluster[0]
    ensures CountTrue(sampled[..]) >= CountTrue(old(sampled[..]))
    ensures CountTrue(sampled[..]) == CountTrue(old(sampled[..])) ==> cluster' == cluster
  {
    var front := cluster[0];
    ghost var count0 := CountTrue(sampled[..]);
    cluster', cid', marks' := cluster, cid, marks;
    for j := 0 to |neighbors|
      invariant ScanInv(tris, s0, sampled[..], cid', seeds, marks', cluster', cluster, c, i, j)
      invariant |cluster'| > 0 && cluster'[0] == front
      invariant CountTrue(sampled[..]) >= count0
      invariant CountTrue(sampled[..]) == count0 ==> cluster' == cluster
    {
      ghost var count1 := CountTrue(sampled[..]);
      ghost var cluster0 := cluster';
      cluster', cid', marks' := ScanMember(faces, neighbors, sampled, c, cluster', j, e0, e1, e2, tris, cid', seeds, marks', i, s0, cluster);
      assert CountTrue(sampled[..]) == count1 ==> cluster' == cluster0;
    }
  }

  /** Before the scan nothing has changed and the queue is as given. */
  lemma ScanStart(tris: seq<Triangle>, s: seq<bool>, cid: seq<nat>, seeds: seq<nat>, marks: seq<nat>,
                  queue: seq<nat>, c: nat, i: nat)
    requires Labelled(tris, s, cid, seeds, marks)
    requires ClosedExcept(tris, s, cid, queue) && QueueOk(s, cid, queue, c)
    requires VisitedBelow(s, i + 1) && |queue| > 0
    ensures ScanInv(tris, s, s, cid, seeds, marks, queue, queue, c, i, 0)
  {
    assert NewlyVisited(s, s)[..0] == [];
  }

  lemma AppendAssociative(a: seq<nat>, b: seq<nat>, c: seq<nat>)
    ensures (a + b) + c == a + (b + c)
  {
  }

  /**
   * The state of the scan of the head `queue[0]` before member `j`: the
   * labelling bookkeeping holds, every member below `j` linked to the head is
   * visited in cluster `c`, the flags moved on from `s0` as the scan
   * prescribes, and the queue is `queued` followed by the newly visited
   * members in increasing order.
   */
  ghost predicate ScanInv(tris: seq<Triangle>, s0: seq<bool>, s: seq<bool>, cid: seq<nat>, seeds: seq<nat>,
                          marks: seq<nat>, queue: seq<nat>, queued: seq<nat>, c: nat, i: nat, j: nat)
  {
    && |s| == |tris| && |cid| == |tris| && |s0| == |tris| && |queue| > 0 && j <= |s|
    && Labelled(tris, s, cid, seeds, marks)
    && ClosedExcept(tris, s, cid, queue) && QueueOk(s, cid, queue, c)
    && VisitedBelow(s, i + 1)
    && queue[0] < |tris| && s0[queue[0]]
    && ScannedBelow(tris, s, cid, tris[queue[0]], j, c)
    && ScanState(tris, s0, s, queue[0], j)
    && queue == queued + TrueIndices(NewlyVisited(s0, s)[..j])
  }

  /** Member `j` is taken by the scan of `head`: it is not the head, is unvisited and is linked to the head. */
  predicate Absorbs(tris: seq<Triangle>, s: seq<bool>, head: nat, j: nat)
    requires head < |tris| && j < |tris| && |s| == |tris|
  {
    j != head && !s[j] && ShareEdge(tris[head], tris[j])
  }

  /** The flags of the members that are visited in `s1` but were not in `s0`. */
  function NewlyVisited(s0: seq<bool>, s1: seq<bool>): (r: seq<bool>)
    requires |s0| == |s1|
    ensures |r| == |s0|
    ensures forall b | 0 <= b < |r| :: r[b] == (!s0[b] && s1[b])
  {
    seq(|s0|, b requires 0 <= b < |s0| => !s0[b] && s1[b])
  }

  /**
   * The scan of `head` has reached `j`: below `j` a member is visited iff it
   * was before the scan or is linked to the head; from `j` on nothing changed.
   */
  ghost predicate ScanState(tris: seq<Triangle>, s0: seq<bool>, s: seq<bool>, head: nat, j: nat)
    requires head < |tris| && |s0| == |tris| && |s| == |tris|
  {
    forall b | 0 <= b < |s| :: s[b] == if b < j then s0[b] || ShareEdge(tris[head], tris[b]) else s0[b]
  }

  /**
   * At the end of the scan the bookkeeping still holds, every member linked
   * to the head is visited, and the queue grew by exactly the newly visited
   * members.
   */
  lemma ScanComplete(tris: seq<Triangle>, s0: seq<bool>, s: seq<bool>, cid: seq<nat>, seeds: seq<nat>,
                     marks: seq<nat>, queue: seq<nat>, queued: seq<nat>, c: nat, i: nat)
    requires ScanInv(tris, s0, s, cid, seeds, marks, queue, queued, c, i, |s|)
    ensures Labelled(tris, s, cid, seeds, marks)
    ensures ClosedExcept(tris, s, cid, queue) && QueueOk(s, cid, queue, c)
    ensures VisitedBelow(s, i + 1)
    ensures ScannedBelow(tris, s, cid, tris[queue[0]], |s|, c)
    ensures forall b | 0 <= b < |s| :: s[b] == (s0[b] || ShareEdge(tris[queue[0]], tris[b]))
    ensures queue == queued + TrueIndices(NewlyVisited(s0, s))
  {
    assert NewlyVisited(s0, s)[..|s|] == NewlyVisited(s0, s);
  }

  /**
   * One member further: the flags move on as ScanMember leaves them, and the
   * newly visited members grow by `j` exactly when `j` is absorbed.
   */
  lemma ScanStep(tris: seq<Triangle>, s0: seq<bool>, s1: seq<bool>, s2: seq<bool>, head: nat, j: nat)
    requires head < |tris| && |s0| == |tris| && |s1| == |tris| && |s2| == |tris| && j < |tris|
    requires s0[head] && ScanState(tris, s0, s1, head, j)
    requires Absorbs(tris, s1, head, j) ==> s2 == s1[j := true]
    requires !Absorbs(tris, s1, head, j) ==> s2 == s1
    ensures ScanState(tris, s0, s2, head, j + 1)
    ensures TrueIndices(NewlyVisited(s0, s2)[..j + 1])
            == TrueIndices(NewlyVisited(s0, s1)[..j]) + (if Absorbs(tris, s1, head, j) then [j] else [])
  {
    var r := NewlyVisited(s0, s2);
    assert r[..j] == NewlyVisited(s0, s1)[..j];
    assert r[..j + 1][..j] == r[..j];
  }

  /**
   * One iteration of the inner scan: member `j`, if unvisited and linked to
   * the queue's head by one of the nine side comparisons, is visited,
   * labelled `c` and queued.
   */
  method ScanMember(faces: seq<Triangle>, neighbors: seq<nat>, sampled: array<bool>, c: nat, cluster: seq<nat>, j: nat,
                    e0: Pair, e1: Pair, e2: Pair,
                    ghost tris: seq<Triangle>, ghost cid: seq<nat>, ghost seeds: seq<nat>, ghost marks: seq<nat>,
                    ghost i: nat, ghost s0: seq<bool>, ghost queued: seq<nat>)
    returns (cluster': seq<nat>, ghost cid': seq<nat>, ghost marks': seq<nat>)
    requires IndicesValid(faces, neighbors) && tris == StarTriangles(faces, neighbors)
    requires sampled.Length == |neighbors| && |seeds| == c + 1 && |cluster| > 0 && j < |neighbors|
    requires cluster[0] < |neighbors|
    requires e0 == GetEdge(faces[neighbors[cluster[0]]], 0)
    requires e1 == GetEdge(faces[neighbors[cluster[0]]], 1)
    requires e2 == GetEdge(faces[neighbors[cluster[0]]], 2)
    requires ScanInv(tris, s0, sampled[..], cid, seeds, marks, cluster, queued, c, i, j)
    modifies sampled
    ensures ScanInv(tris, s0, sampled[..], cid', seeds, marks', cluster', queued, c, i, j + 1)
    ensures |cluster'| > 0 && cluster'[0] == cluster[0]
    ensures CountTrue(sampled[..]) >= CountTrue(old(sampled[..]))
    ensures CountTrue(sampled[..]) == CountTrue(old(sampled[..])) ==> cluster' == cluster
    ensures Absorbs(tris, old(sampled[..]), cluster[0], j) ==>
              && sampled[..] == old(sampled[..])[j := true] && cluster' == cluster + [j]
              && cid' == cid[j := c] && marks' == marks[j := marks[j] + 1]
    ensures !Absorbs(tris, old(sampled[..]), cluster[0], j) ==>
              sampled[..] == old(sampled[..]) && cluster' == cluster && cid' == cid && marks' == marks
  {
    var front := cluster[0];
    ghost var s1 := sampled[..];
    cluster', cid', marks' := cluster, cid, marks;
    if j != front && !sampled[j] {
      var e3 := GetEdge(faces[neighbors[j]], 0);
      var e4 := GetEdge(faces[neighbors[j]], 1);
      var e5 := GetEdge(faces[neighbors[j]], 2);
      if PairPredUnordered(e0, e3) || PairPredUnordered(e0, e4) || PairPredUnordered(e0, e5) ||
         PairPredUnordered(e1, e3) || PairPredUnordered(e1, e4) || PairPredUnordered(e1, e5) ||
         PairPredUnordered(e2, e3) || PairPredUnordered(e2, e4) || PairPredUnordered(e2, e5)
      {
        assert ShareEdge(tris[front], tris[j]);
        ReachStep(tris, seeds[c], front, j);
        MarkMember(tris, s1, cid, seeds, marks, cluster, c, j, tris[front], i + 1);
        CountTrueMark(s1, j);
        sampled[j] := true;
        assert sampled[..] == s1[j := true];
        cluster', cid', marks' := cluster + [j], cid[j := c], marks[j := marks[j] + 1];
      } else {
        assert !ShareEdge(tris[front], tris[j]);
        SkipMember(tris, s1, cid, cluster, c, j);
      }
    } else {
      SkipMember(tris, s1, cid, cluster, c, j);
    }
    ScanStep(tris, s0, s1, sampled[..], front, j);
    AppendAssociative(queued, TrueIndices(NewlyVisited(s0, s1)[..j]), if Absorbs(tris, s1, front, j) then [j] else []);
  }

  /**
   * The clustering loop for one vertex star `neighbors`: `sampled` marks
   * visited members, `cluster` is the work queue of the cluster being grown.
   * `cid`, `seeds` and `marks` are the proof's record of each member's
   * cluster, each cluster's first member and how often each member was marked.
   */
  method CountClusters(faces: seq<Triangle>, neighbors: seq<nat>)
    returns (nbCluster: nat, ghost cid: seq<nat>, ghost seeds: seq<nat>, ghost marks: seq<nat>)
    requires IndicesValid(faces, neighbors)
    ensures IsClustering(StarTriangles(faces, neighbors), cid, seeds) && nbCluster == |seeds|
    ensures nbCluster == |Components(StarTriangles(faces, neighbors))|
    ensures nbCluster > 1 <==> !Connected(StarTriangles(faces, neighbors))
    ensures |marks| == |neighbors| && forall j | 0 <= j < |neighbors| :: marks[j] == 1
  {
    ghost var tris := StarTriangles(faces, neighbors);
    var n := |neighbors|;
    var sampled := new bool[n](_ => false);
    nbCluster := 0;
    cid := seq(n, _ => 0);
    seeds := [];
    marks := seq(n, _ => 0);
    for i := 0 to n
      invariant nbCluster == |seeds|
      invariant Labelled(tris, sampled[..], cid, seeds, marks)
      invariant ClosedExcept(tris, sampled[..], cid, [])
      invariant VisitedBelow(sampled[..], i)
    {
      if sampled[i] {
        continue;
      }
      ghost var s0 := sampled[..];
      SeedCluster(tris, s0, cid, seeds, marks, i);
      sampled[i] := true;
      assert sampled[..] == s0[i := true];
      cid, seeds, marks := cid[i := nbCluster], seeds + [i], marks[i := marks[i] + 1];
      cid, marks := GrowCluster(faces, neighbors, sampled, nbCluster, i, tris, cid, seeds, marks);
      nbCluster := nbCluster + 1;
    }
    LabelledIsClustering(tris, sampled[..], cid, seeds, marks);
    SingleClusterIffConnected(tris, cid, seeds);
    ClusterCountIsComponentCount(tris, cid, seeds);
  }

  /**
   * The do/while of one cluster: starting from the queue `[i]`, the head's
   * linked members are absorbed and the head is popped until the queue is
   * empty, leaving cluster `c` closed under edge sharing.
   */
  method GrowCluster(faces: seq<Triangle>, neighbors: seq<nat>, sampled: array<bool>, c: nat, i: nat,
                     ghost tris: seq<Triangle>, ghost cid: seq<nat>, ghost seeds: seq<nat>, ghost marks: seq<nat>)
    returns (ghost cid': seq<nat>, ghost marks': seq<nat>)
    requires IndicesValid(faces, neighbors) && tris == StarTriangles(faces, neighbors)
    requires sampled.Length == |neighbors| && |seeds| == c + 1 && i < |neighbors|
    requires Labelled(tris, sampled[..], cid, seeds, marks)
    requires ClosedExcept(tris, sampled[..], cid, [i]) && QueueOk(sampled[..], cid, [i], c)
    requires VisitedBelow(sampled[..], i + 1)
    modifies sampled
    ensures Labelled(tris, sampled[..], cid', seeds, marks')
    ensures ClosedExcept(tris, sampled[..], cid', [])
    ensures VisitedBelow(sampled[..], i + 1)
  {
    var n := |neighbors|;
    cid', marks' := cid, marks;
    var cluster: seq<nat> := [i];
    while cluster != []
      invariant Labelled(tris, sampled[..], cid', seeds, marks')
      invariant ClosedExcept(tris, sampled[..], cid', cluster)
      invariant QueueOk(sampled[..], cid', cluster, c)
      invariant VisitedBelow(sampled[..], i + 1)
      decreases n - CountTrue(sampled[..]), |cluster|
    {
      cluster, cid', marks' := AbsorbLinked(faces, neighbors, sampled, c, cluster, tris, cid', seeds, marks', i);
      PopFront(tris, sampled[..], cid', cluster, c);
      cluster := cluster[1..];
    }
  }
}
