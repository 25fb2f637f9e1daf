/**
 * One pass of RemoveNonManifold.  Each face carries a flag, initially set.
 * The pass clears the flag of every face on an undirected edge shared by
 * more than two face sides.  It then builds the star of every vertex from
 * the faces still flagged, clears the star of every endpoint of such an
 * edge, and clears every star that splits into more than one edge-connected
 * cluster.  The faces whose flag survived are returned in order.
 */
module NonManifold {
  import opened MeshEdges
  import opened Selection
  import opened EdgeIndex
  import opened StarClustering

  /** Some side of `t` is an undirected edge that more than two face sides share. */
  predicate OnNonManifoldEdge(faces: seq<Triangle>, t: Triangle)
  {
    || UCount(faces, UKey(GetEdge(t, 0))) > 2
    || UCount(faces, UKey(GetEdge(t, 1))) > 2
    || UCount(faces, UKey(GetEdge(t, 2))) > 2
  }

  /** `v` is an endpoint of an undirected edge that more than two face sides share. */
  ghost predicate ProblematicVertex(faces: seq<Triangle>, v: nat)
  {
    exists e: Pair :: UCount(faces, e) > 2 && (e.0 == v || e.1 == v)
  }

  /** Face index `i`, once for each corner of `t` equal to `v`, in corner order. */
  function VertexHits(t: Triangle, i: nat, v: nat): seq<nat>
  {
    (if t.i0 == v then [i] else []) + (if t.i1 == v then [i] else []) + (if t.i2 == v then [i] else [])
  }

  /** The flags the edge step leaves: set exactly on the faces not on a non-manifold edge. */
  function EdgeFlags(faces: seq<Triangle>): (live: seq<bool>)
    ensures |live| == |faces|
  {
    seq(|faces|, i requires 0 <= i < |faces| => !OnNonManifoldEdge(faces, faces[i]))
  }

  /** The star of `v` as built from the first `k` faces: the live faces with corner `v`, in order, once per such corner. */
  function StarUpTo(faces: seq<Triangle>, live: seq<bool>, k: nat, v: nat): (star: seq<nat>)
    requires k <= |faces| && |live| == |faces|
    ensures forall m | 0 <= m < |star| :: star[m] < k
    decreases k
  {
    if k == 0 then []
    else StarUpTo(faces, live, k - 1, v) + (if live[k - 1] then VertexHits(faces[k - 1], k - 1, v) else [])
  }

  /** The star of `v`: the indices of the faces that survived the edge step and have `v` as a corner. */
  function Star(faces: seq<Triangle>, v: nat): (star: seq<nat>)
    ensures IndicesValid(faces, star)
  {
    StarUpTo(faces, EdgeFlags(faces), |faces|, v)
  }

  /** The faces of a star do not form one edge-connected fan. */
  ghost predicate SplitStar(faces: seq<Triangle>, star: seq<nat>)
  {
    IndicesValid(faces, star) && !Connected(StarTriangles(faces, star))
  }

  ghost predicate NonManifoldVertex(faces: seq<Triangle>, v: nat)
  {
    SplitStar(faces, Star(faces, v))
  }

  /** A face survives the pass when no step condemns it; this depends only on the triangle itself. */
  ghost predicate Survives(faces: seq<Triangle>, t: Triangle)
  {
    && !OnNonManifoldEdge(faces, t)
    && !ProblematicVertex(faces, t.i0) && !ProblematicVertex(faces, t.i1) && !ProblematicVertex(faces, t.i2)
    && !NonManifoldVertex(faces, t.i0) && !NonManifoldVertex(faces, t.i1) && !NonManifoldVertex(faces, t.i2)
  }

  ghost function SurvivalFlags(faces: seq<Triangle>): seq<bool>
  {
    seq(|faces|, i requires 0 <= i < |faces| => Survives(faces, faces[i]))
  }

  /** What one pass returns: the surviving faces in their original order. */
  ghost function PassResult(faces: seq<Triangle>): seq<Triangle>
  {
    Select(faces, SurvivalFlags(faces))
  }

  // ---------------------------------------------------------------------
  // Step 1: condemn the faces of non-manifold edges.

  /** Some key of `done` with more than two entries lists face `i`. */
  ghost predicate ListedOnBadKey(edges: map<Pair, seq<nat>>, done: set<Pair>, i: nat)
  {
    exists e :: e in done && e in edges && |edges[e]| > 2 && i in edges[e]
  }

  /** `v` is an endpoint of some key of `done` with more than two entries. */
  ghost predicate EndpointOfBadKey(edges: map<Pair, seq<nat>>, done: set<Pair>, v: nat)
  {
    exists e :: e in done && e in edges && |edges[e]| > 2 && (e.0 == v || e.1 == v)
  }

  lemma BadKeyStep(edges: map<Pair, seq<nat>>, done: set<Pair>, e: Pair)
    requires e in edges
    ensures forall i: nat :: ListedOnBadKey(edges, done + {e}, i) <==>
      ListedOnBadKey(edges, done, i) || (|edges[e]| > 2 && i in edges[e])
    ensures forall v: nat :: EndpointOfBadKey(edges, done + {e}, v) <==>
      EndpointOfBadKey(edges, done, v) || (|edges[e]| > 2 && (e.0 == v || e.1 == v))
  {
    forall i: nat | |edges[e]| > 2 && i in edges[e]
      ensures ListedOnBadKey(edges, done + {e}, i)
    {
      assert e in done + {e};
    }
    forall v: nat | |edges[e]| > 2 && (e.0 == v || e.1 == v)
      ensures EndpointOfBadKey(edges, done + {e}, v)
    {
      assert e in done + {e};
    }
  }

  /** A face with a side shared by more than two face sides is listed under that side's key. */
  lemma BadSideListed(faces: seq<Triangle>, edges: map<Pair, seq<nat>>, i: nat, e: Pair)
    requires forall e :: Lookup(edges, e) == UIncidence(faces, e)
    requires i < |faces| && HasSide(faces[i], e) && UCount(faces, e) > 2
    ensures e in edges && |edges[e]| > 2 && i in edges[e]
  {
    assert Lookup(edges, e) == UIncidence(faces, e);
    UIncidenceMembers(faces, e);
  }

  /** Once every key is done, the bad keys name exactly the faces on a non-manifold edge and the problematic vertices. */
  lemma BadKeysMeaning(faces: seq<Triangle>, edges: map<Pair, seq<nat>>)
    requires forall e :: Lookup(edges, e) == UIncidence(faces, e)
    ensures forall i | 0 <= i < |faces| :: ListedOnBadKey(edges, edges.Keys, i) <==> OnNonManifoldEdge(faces, faces[i])
    ensures forall v: nat :: EndpointOfBadKey(edges, edges.Keys, v) <==> ProblematicVertex(faces, v)
  {
    forall i | 0 <= i < |faces|
      ensures ListedOnBadKey(edges, edges.Keys, i) <==> OnNonManifoldEdge(faces, faces[i])
    {
      ListedIffOnBadEdge(faces, edges, i);
    }
    forall v: nat
      ensures EndpointOfBadKey(edges, edges.Keys, v) <==> ProblematicVertex(faces, v)
    {
      EndpointIffProblematic(faces, edges, v);
    }
  }

  /** Face `i` is listed on a bad key iff one of its sides is shared by more than two face sides. */
  lemma ListedIffOnBadEdge(faces: seq<Triangle>, edges: map<Pair, seq<nat>>, i: nat)
    requires forall e :: Lookup(edges, e) == UIncidence(faces, e)
    requires i < |faces|
    ensures ListedOnBadKey(edges, edges.Keys, i) <==> OnNonManifoldEdge(faces, faces[i])
  {
    var t := faces[i];
    if ListedOnBadKey(edges, edges.Keys, i) {
      var e :| e in edges.Keys && e in edges && |edges[e]| > 2 && i in edges[e];
      assert Lookup(edges, e) == UIncidence(faces, e);
      UIncidenceMembers(faces, e);
      assert HasSide(t, e);
    }
    if OnNonManifoldEdge(faces, t) {
      var e0, e1, e2 := UKey(GetEdge(t, 0)), UKey(GetEdge(t, 1)), UKey(GetEdge(t, 2));
      var e := if UCount(faces, e0) > 2 then e0 else if UCount(faces, e1) > 2 then e1 else e2;
      assert HasSide(t, e);
      BadSideListed(faces, edges, i, e);
    }
  }

  /** `v` is an endpoint of a bad key iff it is a problematic vertex. */
  lemma EndpointIffProblematic(faces: seq<Triangle>, edges: map<Pair, seq<nat>>, v: nat)
    requires forall e :: Lookup(edges, e) == UIncidence(faces, e)
    ensures EndpointOfBadKey(edges, edges.Keys, v) <==> ProblematicVertex(faces, v)
  {
    if EndpointOfBadKey(edges, edges.Keys, v) {
      var e :| e in edges.Keys && e in edges && |edges[e]| > 2 && (e.0 == v || e.1 == v);
      assert Lookup(edges, e) == UIncidence(faces, e);
    }
    if ProblematicVertex(faces, v) {
      var e: Pair :| UCount(faces, e) > 2 && (e.0 == v || e.1 == v);
      assert Lookup(edges, e) == UIncidence(faces, e);
      assert e in edges.Keys;
    }
  }

  /** `flags` with the flag of every index in `hfs` cleared. */
  function Cleared(flags: seq<bool>, hfs: seq<nat>): (r: seq<bool>)
    ensures |r| == |flags|
    ensures forall i | 0 <= i < |flags| :: r[i] == (flags[i] && i !in hfs)
  {
    seq(|flags|, i requires 0 <= i < |flags| => flags[i] && i !in hfs)
  }

  /** The loop shared by the three condemning steps: every face listed in `hfs` loses its flag. */
  method ClearFlags(flags: array<bool>, hfs: seq<nat>)
    requires forall m | 0 <= m < |hfs| :: hfs[m] < flags.Length
    modifies flags
    ensures flags[..] == Cleared(old(flags[..]), hfs)
  {
    for m := 0 to |hfs|
      invariant flags[..] == Cleared(old(flags[..]), hfs[..m])
    {
      flags[hfs[m]] := false;
      assert hfs[..m + 1] == hfs[..m] + [hfs[m]];
    }
    assert hfs[..|hfs|] == hfs;
  }

  /**
   * The second loop of RemoveNonManifold: for every key of the edge index
   * listing more than two face sides, both endpoints are recorded as
   * problematic and every listed face loses its flag.
   */
  method CondemnNonManifoldEdges(faces: seq<Triangle>, edges: map<Pair, seq<nat>>, flags: array<bool>)
    returns (problematic: seq<nat>)
    requires flags.Length == |faces|
    requires forall e :: Lookup(edges, e) == UIncidence(faces, e)
    requires forall i | 0 <= i < flags.Length :: flags[i]
    modifies flags
    ensures flags[..] == EdgeFlags(faces)
    ensures forall v: nat :: v in problematic <==> ProblematicVertex(faces, v)
  {
    problematic := [];
    var pending := edges.Keys;
    while pending != {}
      invariant pending <= edges.Keys
      invariant forall i | 0 <= i < flags.Length :: flags[i] == !ListedOnBadKey(edges, edges.Keys - pending, i)
      invariant forall v: nat :: v in problematic <==> EndpointOfBadKey(edges, edges.Keys - pending, v)
      decreases pending
    {
      var e :| e in pending;
      BadKeyStep(edges, edges.Keys - pending, e);
      if |edges[e]| > 2 {
        problematic := problematic + [e.0, e.1];
        var hfs := edges[e];
        assert Lookup(edges, e) == UIncidence(faces, e);
        UIncidenceMembers(faces, e);
        forall m | 0 <= m < |hfs|
          ensures hfs[m] < flags.Length
        {
          assert hfs[m] in UIncidence(faces, e);
        }
        ClearFlags(flags, hfs);
      }
      assert edges.Keys - (pending - {e}) == (edges.Keys - pending) + {e};
      pending := pending - {e};
    }
    BadKeysMeaning(faces, edges);
    forall i | 0 <= i < flags.Length
      ensures flags[i] == EdgeFlags(faces)[i]
    {
    }
  }

  // ---------------------------------------------------------------------
  // Step 2: vertex stars.

  /** A face index is in a star exactly when that face is live and has the vertex as a corner. */
  lemma StarUpToMembers(faces: seq<Triangle>, live: seq<bool>, k: nat, v: nat)
    requires k <= |faces| && |live| == |faces|
    ensures forall i :: i in StarUpTo(faces, live, k, v) <==> 0 <= i < k && live[i] && HasVertex(faces[i], v)
  {
    forall i
      ensures i in StarUpTo(faces, live, k, v) <==> 0 <= i < k && live[i] && HasVertex(faces[i], v)
    {
      StarUpToMember(faces, live, k, v, i);
    }
  }

  lemma {:induction false} StarUpToMember(faces: seq<Triangle>, live: seq<bool>, k: nat, v: nat, i: int)
    requires k <= |faces| && |live| == |faces|
    ensures i in StarUpTo(faces, live, k, v) <==> 0 <= i < k && live[i] && HasVertex(faces[i], v)
    decreases k
  {
    if k > 0 {
      var prefix := StarUpTo(faces, live, k - 1, v);
      var last := if live[k - 1] then VertexHits(faces[k - 1], k - 1, v) else [];
      StarUpToMember(faces, live, k - 1, v, i);
      VertexHitsMembers(faces[k - 1], k - 1, v);
      assert StarUpTo(faces, live, k, v) == prefix + last;
      assert i in prefix + last <==> i in prefix || i in last;
    }
  }

  /** The hits of one face name that face alone, and only when `v` is one of its corners. */
  lemma VertexHitsMembers(t: Triangle, j: nat, v: nat)
    ensures forall i :: i in VertexHits(t, j, v) <==> i == j && HasVertex(t, v)
  {
  }

  lemma StarMembers(faces: seq<Triangle>, v: nat, i: int)
    ensures i in Star(faces, v) <==> 0 <= i < |faces| && !OnNonManifoldEdge(faces, faces[i]) && HasVertex(faces[i], v)
  {
    StarUpToMembers(faces, EdgeFlags(faces), |faces|, v);
    if 0 <= i < |faces| {
      assert EdgeFlags(faces)[i] == !OnNonManifoldEdge(faces, faces[i]);
    }
  }

  /**
   * The third loop of RemoveNonManifold: every face whose flag is still set
   * is appended to the star of each of its three corners.
   */
  method BuildVertexStars(faces: seq<Triangle>, flags: array<bool>, nv: nat) returns (vneighbors: array<seq<nat>>)
    requires IndicesInRange(faces, nv) && flags.Length == |faces|
    ensures fresh(vneighbors) && vneighbors.Length == nv
    ensures forall v | 0 <= v < nv :: vneighbors[v] == StarUpTo(faces, flags[..], |faces|, v)
  {
    ghost var live := flags[..];
    vneighbors := new seq<nat>[nv](_ => []);
    for i := 0 to |faces|
      invariant forall v | 0 <= v < nv :: vneighbors[v] == StarUpTo(faces, live, i, v)
    {
      if flags[i] {
        assert live[i];
        AppendToStars(vneighbors, faces[i], i);
      }
    }
  }

  /** Appends face index `i` to the stars of the three corners of `f`, one corner after another. */
  method AppendToStars(vneighbors: array<seq<nat>>, f: Triangle, i: nat)
    requires f.i0 < vneighbors.Length && f.i1 < vneighbors.Length && f.i2 < vneighbors.Length
    modifies vneighbors
    ensures forall v | 0 <= v < vneighbors.Length :: vneighbors[v] == old(vneighbors[v]) + VertexHits(f, i, v)
  {
    ghost var a0 := vneighbors[..];
    vneighbors[f.i0] := vneighbors[f.i0] + [i];
    ghost var a1 := vneighbors[..];
    vneighbors[f.i1] := vneighbors[f.i1] + [i];
    ghost var a2 := vneighbors[..];
    vneighbors[f.i2] := vneighbors[f.i2] + [i];
    forall v | 0 <= v < vneighbors.Length
      ensures vneighbors[v] == a0[v] + VertexHits(f, i, v)
    {
      var h0 := if f.i0 == v then [i] else [];
      var h1 := if f.i1 == v then [i] else [];
      var h2 := if f.i2 == v then [i] else [];
      assert a1[v] == a0[v] + h0;
      assert a2[v] == a1[v] + h1;
      assert vneighbors[v] == a2[v] + h2;
      assert a0[v] + h0 + h1 + h2 == a0[v] + (h0 + h1 + h2);
    }
  }

  // ---------------------------------------------------------------------
  // Step 3: condemn the stars of problematic vertices.

  /** Every endpoint of a non-manifold edge is a corner of some face, hence a valid vertex index. */
  lemma ProblematicInRange(faces: seq<Triangle>, nv: nat, v: nat)
    requires IndicesInRange(faces, nv) && ProblematicVertex(faces, v)
    ensures v < nv
  {
    var e: Pair :| UCount(faces, e) > 2 && (e.0 == v || e.1 == v);
    var i := KeyOfSomeFace(faces, e);
  }

  /**
   * The fourth loop of RemoveNonManifold: every face in the star of a
   * problematic vertex loses its flag.
   */
  method CondemnProblematicStars(problematic: seq<nat>, vneighbors: array<seq<nat>>, flags: array<bool>)
    requires forall k | 0 <= k < |problematic| :: problematic[k] < vneighbors.Length
    requires forall v, m | 0 <= v < vneighbors.Length && 0 <= m < |vneighbors[v]| :: vneighbors[v][m] < flags.Length
    modifies flags
    ensures forall i | 0 <= i < flags.Length ::
      flags[i] == (old(flags[i]) && forall k | 0 <= k < |problematic| :: i !in vneighbors[problematic[k]])
  {
    for m := 0 to |problematic|
      invariant forall i | 0 <= i < flags.Length ::
        flags[i] == (old(flags[i]) && forall k | 0 <= k < m :: i !in vneighbors[problematic[k]])
    {
      ClearFlags(flags, vneighbors[problematic[m]]);
    }
  }

  // ---------------------------------------------------------------------
  // Step 4: condemn the stars that split into several clusters.

  /** The vertex indices 0, 1, ..., k - 1 in increasing order. */
  function Iota(k: nat): (r: seq<nat>)
    ensures |r| == k && forall j | 0 <= j < k :: r[j] == j
    ensures forall v: nat :: v in r <==> v < k
  {
    if k == 0 then [] else Iota(k - 1) + [k - 1]
  }

  /**
   * The flags after visiting the vertices of `order` in turn, each visit
   * clearing that vertex's star when the star is split.
   */
  ghost function CondemnInOrder(faces: seq<Triangle>, flags: seq<bool>, stars: seq<seq<nat>>, order: seq<nat>): seq<bool>
    decreases |order|
  {
    if order == [] then flags
    else
      var prev := CondemnInOrder(faces, flags, stars, order[..|order| - 1]);
      var v := order[|order| - 1];
      if v < |stars| && SplitStar(faces, stars[v]) then Cleared(prev, stars[v]) else prev
  }

  /** Some vertex of `order` has a split star containing face `i`. */
  ghost predicate CondemnedAt(faces: seq<Triangle>, stars: seq<seq<nat>>, order: seq<nat>, i: nat)
  {
    exists v | v in order :: v < |stars| && SplitStar(faces, stars[v]) && i in stars[v]
  }

  /** A face keeps its flag through the visits exactly when no visited split star contains it. */
  lemma {:induction false} CondemnInOrderPointwise(faces: seq<Triangle>, flags: seq<bool>, stars: seq<seq<nat>>, order: seq<nat>)
    ensures |CondemnInOrder(faces, flags, stars, order)| == |flags|
    ensures forall i | 0 <= i < |flags| ::
      CondemnInOrder(faces, flags, stars, order)[i] == (flags[i] && !CondemnedAt(faces, stars, order, i))
    decreases |order|
  {
    if order != [] {
      var n := |order|;
      var order' := order[..n - 1];
      var v := order[n - 1];
      CondemnInOrderPointwise(faces, flags, stars, order');
      forall i | 0 <= i < |flags|
        ensures CondemnedAt(faces, stars, order, i) <==>
          CondemnedAt(faces, stars, order', i) || (v < |stars| && SplitStar(faces, stars[v]) && i in stars[v])
      {
        assert order == order' + [v];
        if CondemnedAt(faces, stars, order, i) {
          var w :| w in order && w < |stars| && SplitStar(faces, stars[w]) && i in stars[w];
          if w != v {
            assert w in order';
          }
        }
        if CondemnedAt(faces, stars, order', i) {
          var w :| w in order' && w < |stars| && SplitStar(faces, stars[w]) && i in stars[w];
          assert w in order;
        }
      }
    }
  }

  /**
   * The parallel vertex loop does not depend on the order in which the
   * vertices are visited: flags only go from set to cleared, and each
   * decision reads the triangles of a star, never the flags.
   */
  lemma CondemnOrderIndependent(faces: seq<Triangle>, flags: seq<bool>, stars: seq<seq<nat>>, o1: seq<nat>, o2: seq<nat>)
    requires forall v :: v in o1 <==> v in o2
    ensures CondemnInOrder(faces, flags, stars, o1) == CondemnInOrder(faces, flags, stars, o2)
  {
    CondemnInOrderPointwise(faces, flags, stars, o1);
    CondemnInOrderPointwise(faces, flags, stars, o2);
    forall i | 0 <= i < |flags|
      ensures CondemnedAt(faces, stars, o1, i) == CondemnedAt(faces, stars, o2, i)
    {
      if CondemnedAt(faces, stars, o1, i) {
        var w :| w in o1 && w < |stars| && SplitStar(faces, stars[w]) && i in stars[w];
        assert w in o2;
      }
      if CondemnedAt(faces, stars, o2, i) {
        var w :| w in o2 && w < |stars| && SplitStar(faces, stars[w]) && i in stars[w];
        assert w in o1;
      }
    }
  }

  /**
   * The parallel loop of RemoveNonManifold, run sequentially: the star of
   * every vertex is clustered, and a star with more than one cluster loses
   * all its flags.
   */
  method CondemnNonManifoldVertices(faces: seq<Triangle>, vneighbors: array<seq<nat>>, flags: array<bool>)
    requires flags.Length == |faces|
    requires forall v | 0 <= v < vneighbors.Length :: IndicesValid(faces, vneighbors[v])
    modifies flags
    ensures flags[..] == CondemnInOrder(faces, old(flags[..]), vneighbors[..], Iota(vneighbors.Length))
  {
    for iv := 0 to vneighbors.Length
      invariant flags[..] == CondemnInOrder(faces, old(flags[..]), vneighbors[..], Iota(iv))
    {
      var neighbors := vneighbors[iv];
      var nbCluster;
      ghost var cid, seeds, marks;
      nbCluster, cid, seeds, marks := CountClusters(faces, neighbors);
      if nbCluster > 1 {
        ClearFlags(flags, neighbors);
      }
      assert Iota(iv + 1)[..iv] == Iota(iv);
    }
  }

  // ---------------------------------------------------------------------
  // The whole pass.

  /** A live face is in the star of a problematic vertex exactly when one of its corners is problematic. */
  lemma InProblematicStar(faces: seq<Triangle>, nv: nat, problematic: seq<nat>, stars: seq<seq<nat>>, i: nat)
    requires forall v: nat :: v in problematic <==> ProblematicVertex(faces, v)
    requires forall k | 0 <= k < |problematic| :: problematic[k] < nv
    requires |stars| == nv && forall v | 0 <= v < nv :: stars[v] == Star(faces, v)
    requires i < |faces| && !OnNonManifoldEdge(faces, faces[i])
    ensures (exists k | 0 <= k < |problematic| :: i in stars[problematic[k]]) <==>
      ProblematicVertex(faces, faces[i].i0) || ProblematicVertex(faces, faces[i].i1) || ProblematicVertex(faces, faces[i].i2)
  {
    var t := faces[i];
    StarMembers(faces, t.i0, i);
    StarMembers(faces, t.i1, i);
    StarMembers(faces, t.i2, i);
    if exists k | 0 <= k < |problematic| :: i in stars[problematic[k]] {
      var k :| 0 <= k < |problematic| && i in stars[problematic[k]];
      StarMembers(faces, problematic[k], i);
      assert problematic[k] in problematic;
    }
    forall v | v == t.i0 || v == t.i1 || v == t.i2
      ensures ProblematicVertex(faces, v) ==> exists k | 0 <= k < |problematic| :: i in stars[problematic[k]]
    {
      if ProblematicVertex(faces, v) {
        assert v in problematic;
        var k :| 0 <= k < |problematic| && problematic[k] == v;
        StarMembers(faces, v, i);
      }
    }
  }

  /** A live face is in a split star exactly when one of its corners is a non-manifold vertex. */
  lemma InSplitStar(faces: seq<Triangle>, nv: nat, stars: seq<seq<nat>>, i: nat)
    requires IndicesInRange(faces, nv)
    requires |stars| == nv && forall v | 0 <= v < nv :: stars[v] == Star(faces, v)
    requires i < |faces| && !OnNonManifoldEdge(faces, faces[i])
    ensures CondemnedAt(faces, stars, Iota(nv), i) <==>
      NonManifoldVertex(faces, faces[i].i0) || NonManifoldVertex(faces, faces[i].i1) || NonManifoldVertex(faces, faces[i].i2)
  {
    var t := faces[i];
    StarMembers(faces, t.i0, i);
    StarMembers(faces, t.i1, i);
    StarMembers(faces, t.i2, i);
    if CondemnedAt(faces, stars, Iota(nv), i) {
      var v :| v in Iota(nv) && v < |stars| && SplitStar(faces, stars[v]) && i in stars[v];
      StarMembers(faces, v, i);
    }
    if NonManifoldVertex(faces, t.i0) {
      assert t.i0 in Iota(nv);
    }
    if NonManifoldVertex(faces, t.i1) {
      assert t.i1 in Iota(nv);
    }
    if NonManifoldVertex(faces, t.i2) {
      assert t.i2 in Iota(nv);
    }
  }

  /** The flags left by the four steps are the survival flags. */
  lemma FlagsAreSurvival(faces: seq<Triangle>, nv: nat, problematic: seq<nat>, stars: seq<seq<nat>>,
                         f1: seq<bool>, f2: seq<bool>, f3: seq<bool>)
    requires IndicesInRange(faces, nv)
    requires forall v: nat :: v in problematic <==> ProblematicVertex(faces, v)
    requires forall k | 0 <= k < |problematic| :: problematic[k] < nv
    requires |stars| == nv && forall v | 0 <= v < nv :: stars[v] == Star(faces, v)
    requires |f1| == |faces| && |f2| == |faces|
    requires f1 == EdgeFlags(faces)
    requires forall i | 0 <= i < |faces| ::
      f2[i] == (f1[i] && forall k | 0 <= k < |problematic| :: i !in stars[problematic[k]])
    requires f3 == CondemnInOrder(faces, f2, stars, Iota(nv))
    ensures f3 == SurvivalFlags(faces)
  {
    CondemnInOrderPointwise(faces, f2, stars, Iota(nv));
    forall i | 0 <= i < |faces|
      ensures f3[i] == Survives(faces, faces[i])
    {
      assert f1[i] == EdgeFlags(faces)[i];
      FlagIsSurvival(faces, nv, problematic, stars, i, f1[i], f2[i], f3[i]);
    }
    SurvivalFlagsPointwise(faces, f3);
  }

  lemma SurvivalFlagsPointwise(faces: seq<Triangle>, f: seq<bool>)
    requires |f| == |faces|
    requires forall i | 0 <= i < |faces| :: f[i] == Survives(faces, faces[i])
    ensures f == SurvivalFlags(faces)
  {
  }

  /** One face's flag after the three condemning steps is its survival. */
  lemma FlagIsSurvival(faces: seq<Triangle>, nv: nat, problematic: seq<nat>, stars: seq<seq<nat>>, i: nat,
                       b1: bool, b2: bool, b3: bool)
    requires IndicesInRange(faces, nv)
    requires forall v: nat :: v in problematic <==> ProblematicVertex(faces, v)
    requires forall k | 0 <= k < |problematic| :: problematic[k] < nv
    requires |stars| == nv && forall v | 0 <= v < nv :: stars[v] == Star(faces, v)
    requires i < |faces|
    requires b1 == !OnNonManifoldEdge(faces, faces[i])
    requires b2 == (b1 && forall k | 0 <= k < |problematic| :: i !in stars[problematic[k]])
    requires b3 == (b2 && !CondemnedAt(faces, stars, Iota(nv), i))
    ensures b3 == Survives(faces, faces[i])
  {
    if b1 {
      InProblematicStar(faces, nv, problematic, stars, i);
      InSplitStar(faces, nv, stars, i);
    }
  }

  /**
   * RemoveNonManifold: one repair pass.  Returns the surviving faces in
   * their original order and how many faces were removed.
   */
  method RemoveNonManifold(faces: seq<Triangle>, nv: nat) returns (resultFaces: seq<Triangle>, nbRemoved: nat)
    requires IndicesInRange(faces, nv)
    ensures resultFaces == PassResult(faces)
    ensures nbRemoved == |faces| - |resultFaces|
  {
    var flags, problematic, vneighbors := CondemnEdgesAndBuildStars(faces, nv);
    ghost var f1 := flags[..];
    ghost var stars := vneighbors[..];
    CondemnProblematicStars(problematic, vneighbors, flags);
    ghost var f2 := flags[..];
    CondemnNonManifoldVertices(faces, vneighbors, flags);
    assert vneighbors[..] == stars;
    FlagsAreSurvival(faces, nv, problematic, stars, f1, f2, flags[..]);
    resultFaces := CollectSurvivors(faces, flags);
    nbRemoved := |faces| - |resultFaces|;
  }

  /** The first three loops of RemoveNonManifold: edge index, edge condemnation, vertex stars. */
  method CondemnEdgesAndBuildStars(faces: seq<Triangle>, nv: nat)
    returns (flags: array<bool>, problematic: seq<nat>, vneighbors: array<seq<nat>>)
    requires IndicesInRange(faces, nv)
    ensures fresh(flags) && fresh(vneighbors)
    ensures flags[..] == EdgeFlags(faces)
    ensures forall v: nat :: v in problematic <==> ProblematicVertex(faces, v)
    ensures forall k | 0 <= k < |problematic| :: problematic[k] < nv
    ensures vneighbors.Length == nv && forall v | 0 <= v < nv :: vneighbors[v] == Star(faces, v)
  {
    flags := new bool[|faces|](_ => true);
    var edges := BuildEdgeIndex(faces);
    problematic := CondemnNonManifoldEdges(faces, edges, flags);
    vneighbors := BuildVertexStars(faces, flags, nv);
    forall k | 0 <= k < |problematic|
      ensures problematic[k] < nv
    {
      assert problematic[k] in problematic;
      ProblematicInRange(faces, nv, problematic[k]);
    }
  }

  /** The last loop of RemoveNonManifold: the faces whose flag is set, in order. */
  method CollectSurvivors(faces: seq<Triangle>, flags: array<bool>) returns (resultFaces: seq<Triangle>)
    requires flags.Length == |faces|
    ensures resultFaces == Select(faces, flags[..])
  {
    resultFaces := [];
    for i := 0 to |faces|
      invariant resultFaces == Select(faces[..i], flags[..i])
    {
      SelectSnoc(faces, flags[..], i);
      if flags[i] {
        resultFaces := resultFaces + [faces[i]];
      }
    }
    assert faces[..|faces|] == faces && flags[..|faces|] == flags[..];
  }

  // ---------------------------------------------------------------------
  // What one pass guarantees.

  /** The pass returns a stable-order subsequence of its input, never longer. */
  lemma PassIsSubsequence(faces: seq<Triangle>)
    ensures IsSubsequence(PassResult(faces), faces)
    ensures |PassResult(faces)| <= |faces|
  {
    SelectIsStableSubsequence(faces, SurvivalFlags(faces));
  }

  /** The pass keeps exactly the surviving faces. */
  lemma PassKeepsExactly(faces: seq<Triangle>, t: Triangle)
    ensures t in PassResult(faces) <==> t in faces && Survives(faces, t)
  {
    SelectMembership(faces, SurvivalFlags(faces), t);
    if t in faces && Survives(faces, t) {
      var i :| 0 <= i < |faces| && faces[i] == t;
      assert SurvivalFlags(faces)[i];
    }
  }

  /** Every face with a side that more than two face sides share is absent from the result. */
  lemma NonManifoldEdgeFacesRemoved(faces: seq<Triangle>, e: Pair, t: Triangle)
    requires UCount(faces, e) > 2 && HasSide(t, e)
    ensures t !in PassResult(faces)
  {
    PassKeepsExactly(faces, t);
  }

  /** Every face put in the star of an endpoint of such an edge is absent from the result. */
  lemma ProblematicStarRemoved(faces: seq<Triangle>, e: Pair, i: nat)
    requires UCount(faces, e) > 2 && i < |faces| && (i in Star(faces, e.0) || i in Star(faces, e.1))
    ensures faces[i] !in PassResult(faces)
  {
    StarMembers(faces, e.0, i);
    StarMembers(faces, e.1, i);
    PassKeepsExactly(faces, faces[i]);
  }

  /** Every face in the star of a vertex whose star splits into several clusters is absent from the result. */
  lemma SplitStarRemoved(faces: seq<Triangle>, v: nat, i: nat)
    requires NonManifoldVertex(faces, v) && i < |faces| && i in Star(faces, v)
    ensures faces[i] !in PassResult(faces)
  {
    StarMembers(faces, v, i);
    PassKeepsExactly(faces, faces[i]);
  }

  /** No undirected edge has more than two face sides and every vertex star is a single edge-connected fan. */
  ghost predicate Manifold(faces: seq<Triangle>)
  {
    (forall e :: UCount(faces, e) <= 2) && (forall v: nat :: !NonManifoldVertex(faces, v))
  }

  /** A split star is never empty: the empty star is trivially one fan. */
  lemma SplitStarNonEmpty(faces: seq<Triangle>, star: seq<nat>)
    requires SplitStar(faces, star)
    ensures |star| > 0
  {
  }

  /** A face list that is not manifold has a face that does not survive. */
  lemma NotManifoldHasVictim(faces: seq<Triangle>) returns (i: nat)
    requires !Manifold(faces)
    ensures i < |faces| && !Survives(faces, faces[i])
  {
    if exists e :: UCount(faces, e) > 2 {
      var e :| UCount(faces, e) > 2;
      i := KeyOfSomeFace(faces, e);
    } else {
      var v: nat :| NonManifoldVertex(faces, v);
      var star := Star(faces, v);
      SplitStarNonEmpty(faces, star);
      i := star[0];
      StarMembers(faces, v, i);
    }
  }

  /** In a manifold face list every face survives. */
  lemma ManifoldAllSurvive(faces: seq<Triangle>, i: nat)
    requires Manifold(faces) && i < |faces|
    ensures Survives(faces, faces[i])
  {
    var t := faces[i];
    assert UCount(faces, UKey(GetEdge(t, 0))) <= 2;
    assert UCount(faces, UKey(GetEdge(t, 1))) <= 2;
    assert UCount(faces, UKey(GetEdge(t, 2))) <= 2;
  }

  /**
   * A pass removes nothing exactly when the face list is manifold, and then
   * it returns its input unchanged.
   */
  lemma PassFixedIffManifold(faces: seq<Triangle>)
    ensures |PassResult(faces)| == |faces| <==> PassResult(faces) == faces
    ensures PassResult(faces) == faces <==> Manifold(faces)
  {
    var flags := SurvivalFlags(faces);
    SelectAllKept(faces, flags);
    if !Manifold(faces) {
      var i := NotManifoldHasVictim(faces);
      assert !flags[i];
    }
    if Manifold(faces) {
      forall i | 0 <= i < |faces|
        ensures flags[i]
      {
        ManifoldAllSurvive(faces, i);
      }
    }
  }

  /** Faces that index vertices below `nv` still do so after a pass. */
  lemma PassPreservesRange(faces: seq<Triangle>, nv: nat)
    requires IndicesInRange(faces, nv)
    ensures IndicesInRange(PassResult(faces), nv)
  {
    var r := PassResult(faces);
    forall j | 0 <= j < |r|
      ensures r[j].i0 < nv && r[j].i1 < nv && r[j].i2 < nv
    {
      PassKeepsExactly(faces, r[j]);
      var i :| 0 <= i < |faces| && faces[i] == r[j];
    }
  }
}
