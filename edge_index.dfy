/**
 * The undirected edge index of RemoveNonManifold: for every unordered vertex
 * pair, the list of face indices that have it as a side, one entry per side.
 */
module EdgeIndex {
  import opened MeshEdges

  /** True when some side of `t` has the unordered key `e`. */
  predicate HasSide(t: Triangle, e: Pair)
  {
    UKey(GetEdge(t, 0)) == e || UKey(GetEdge(t, 1)) == e || UKey(GetEdge(t, 2)) == e
  }

  /** Face index `i`, once for each side of `t` whose unordered key is `e`, in side order. */
  function SideHits(t: Triangle, i: nat, e: Pair): seq<nat>
  {
    (if UKey(GetEdge(t, 0)) == e then [i] else [])
    + (if UKey(GetEdge(t, 1)) == e then [i] else [])
    + (if UKey(GetEdge(t, 2)) == e then [i] else [])
  }

  /** The face list the undirected map holds for key `e` after all faces are inserted in order. */
  function UIncidence(faces: seq<Triangle>, e: Pair): seq<nat>
    decreases |faces|
  {
    if |faces| == 0 then []
    else UIncidence(faces[..|faces| - 1], e) + SideHits(faces[|faces| - 1], |faces| - 1, e)
  }

  /** Number of face sides equal to `e` as an unordered pair. */
  function UCount(faces: seq<Triangle>, e: Pair): nat
  {
    |UIncidence(faces, e)|
  }

  /** The list for `e` names exactly the faces having `e` as a side. */
  lemma {:induction false} UIncidenceMembers(faces: seq<Triangle>, e: Pair)
    ensures forall i :: i in UIncidence(faces, e) <==> 0 <= i < |faces| && HasSide(faces[i], e)
    decreases |faces|
  {
    if |faces| > 0 {
      var n := |faces|;
      var prefix := faces[..n - 1];
      UIncidenceMembers(prefix, e);
      SideHitsMembers(faces[n - 1], n - 1, e);
      assert UIncidence(faces, e) == UIncidence(prefix, e) + SideHits(faces[n - 1], n - 1, e);
      forall i
        ensures i in UIncidence(faces, e) <==> 0 <= i < n && HasSide(faces[i], e)
      {
        if 0 <= i < n - 1 {
          assert prefix[i] == faces[i];
        }
      }
    }
  }

  /** The hits of one face name that face alone, and only when one of its sides has key `e`. */
  lemma SideHitsMembers(t: Triangle, j: nat, e: Pair)
    ensures forall i :: i in SideHits(t, j, e) <==> i == j && HasSide(t, e)
  {
  }

  /** Only a side of some face has a non-empty list, and both its endpoints are corners of that face. */
  lemma KeyOfSomeFace(faces: seq<Triangle>, e: Pair) returns (i: nat)
    requires UCount(faces, e) > 0
    ensures i < |faces| && HasSide(faces[i], e)
    ensures HasVertex(faces[i], e.0) && HasVertex(faces[i], e.1)
  {
    UIncidenceMembers(faces, e);
    var l := UIncidence(faces, e);
    assert l[0] in l;
    i := l[0];
  }

  /** The map after appending face index `i` to the list of key `k`. */
  function Push(m: map<Pair, seq<nat>>, k: Pair, i: nat): map<Pair, seq<nat>>
  {
    m[k := Lookup(m, k) + [i]]
  }

  /** Appending `i` under key `k` extends the list of `k` alone. */
  lemma PushLookup(m: map<Pair, seq<nat>>, k: Pair, i: nat, e: Pair)
    ensures Lookup(Push(m, k, i), e) == Lookup(m, e) + (if e == k then [i] else [])
  {
  }

  /** Appending `i` under three keys in turn extends the list of `e` once per key equal to `e`. */
  lemma PushThree(m: map<Pair, seq<nat>>, k0: Pair, k1: Pair, k2: Pair, i: nat, e: Pair)
    ensures Lookup(Push(Push(Push(m, k0, i), k1, i), k2, i), e)
         == Lookup(m, e) + ((if e == k0 then [i] else []) + (if e == k1 then [i] else []) + (if e == k2 then [i] else []))
  {
    var m1 := Push(m, k0, i);
    var m2 := Push(m1, k1, i);
    PushLookup(m, k0, i, e);
    PushLookup(m1, k1, i, e);
    PushLookup(m2, k2, i, e);
    var a := if e == k0 then [i] else [];
    var b := if e == k1 then [i] else [];
    var c := if e == k2 then [i] else [];
    var l0 := Lookup(m, e);
    assert l0 + a + b + c == l0 + (a + b + c);
  }

  /** Appending `i` under the keys of the three sides of `t` extends each list by that face's hits. */
  lemma PushSides(m: map<Pair, seq<nat>>, t: Triangle, i: nat, e: Pair)
    ensures Lookup(Push(Push(Push(m, UKey((t.i0, t.i1)), i), UKey((t.i1, t.i2)), i), UKey((t.i2, t.i0)), i), e)
         == Lookup(m, e) + SideHits(t, i, e)
  {
    PushThree(m, UKey((t.i0, t.i1)), UKey((t.i1, t.i2)), UKey((t.i2, t.i0)), i, e);
    assert GetEdge(t, 0) == (t.i0, t.i1) && GetEdge(t, 1) == (t.i1, t.i2) && GetEdge(t, 2) == (t.i2, t.i0);
  }

  /** One more face appends its hits to every list. */
  lemma UIncidenceSnoc(faces: seq<Triangle>, i: nat, e: Pair)
    requires i < |faces|
    ensures UIncidence(faces[..i + 1], e) == UIncidence(faces[..i], e) + SideHits(faces[i], i, e)
  {
    assert faces[..i + 1][..i] == faces[..i];
  }

  /**
   * The first loop of RemoveNonManifold: each side is looked up by its
   * unordered key and the face index is appended to the key's list, the
   * list being created on first sight.
   */
  method BuildEdgeIndex(faces: seq<Triangle>) returns (edges: map<Pair, seq<nat>>)
    ensures forall e :: Lookup(edges, e) == UIncidence(faces, e)
    ensures forall e | e in edges :: e == UKey(e)
  {
    edges := map[];
    for i := 0 to |faces|
      invariant forall e :: Lookup(edges, e) == UIncidence(faces[..i], e)
      invariant forall e | e in edges :: e == UKey(e)
    {
      ghost var m0 := edges;
      edges := InsertSides(edges, faces[i], i);
      forall e
        ensures Lookup(edges, e) == UIncidence(faces[..i + 1], e)
      {
        PushSides(m0, faces[i], i, e);
        UIncidenceSnoc(faces, i, e);
      }
    }
    assert faces[..|faces|] == faces;
  }

  /** One iteration of the first loop: face `i` is appended under the unordered key of each of its sides. */
  method InsertSides(edges: map<Pair, seq<nat>>, f: Triangle, i: nat) returns (edges': map<Pair, seq<nat>>)
    requires forall e | e in edges :: e == UKey(e)
    ensures edges' == Push(Push(Push(edges, UKey((f.i0, f.i1)), i), UKey((f.i1, f.i2)), i), UKey((f.i2, f.i0)), i)
    ensures forall e | e in edges' :: e == UKey(e)
  {
    edges' := edges;
    var k0 := UKey((f.i0, f.i1));
    ghost var before0 := edges';
    if k0 in edges' {
      edges' := edges'[k0 := edges'[k0] + [i]];
    } else {
      assert Lookup(edges', k0) + [i] == [i];
      edges' := edges'[k0 := [i]];
    }
    assert edges' == Push(before0, k0, i);
    var k1 := UKey((f.i1, f.i2));
    ghost var before1 := edges';
    if k1 in edges' {
      edges' := edges'[k1 := edges'[k1] + [i]];
    } else {
      assert Lookup(edges', k1) + [i] == [i];
      edges' := edges'[k1 := [i]];
    }
    assert edges' == Push(before1, k1, i);
    var k2 := UKey((f.i2, f.i0));
    ghost var before2 := edges';
    if k2 in edges' {
      edges' := edges'[k2 := edges'[k2] + [i]];
    } else {
      assert Lookup(edges', k2) + [i] == [i];
      edges' := edges'[k2 := [i]];
    }
    assert edges' == Push(before2, k2, i);
  }
}
