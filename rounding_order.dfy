/**
 * The rounding-order filter (FixRoundingOrder): every face one of whose
 * directed sides occurs more than once, over all sides of all faces, is
 * dropped; the rest are kept in order.
 */
module RoundingOrder {
  import opened MeshEdges
  import opened Selection

  /** How many of the three directed sides of `t` are the ordered pair `e`. */
  function DirectedHits(t: Triangle, e: Pair): nat
  {
    (if GetEdge(t, 0) == e then 1 else 0)
    + (if GetEdge(t, 1) == e then 1 else 0)
    + (if GetEdge(t, 2) == e then 1 else 0)
  }

  /** Occurrences of the directed edge `e` among all sides of all faces: the length edgemap[e] reaches. */
  function DirectedCount(faces: seq<Triangle>, e: Pair): nat
    decreases |faces|
  {
    if |faces| == 0 then 0
    else DirectedCount(faces[..|faces| - 1], e) + DirectedHits(faces[|faces| - 1], e)
  }

  /** A face is kept when none of its three directed sides occurs more than once. */
  predicate KeepsRounding(faces: seq<Triangle>, t: Triangle)
  {
    && DirectedCount(faces, GetEdge(t, 0)) <= 1
    && DirectedCount(faces, GetEdge(t, 1)) <= 1
    && DirectedCount(faces, GetEdge(t, 2)) <= 1
  }

  function RoundingFlags(faces: seq<Triangle>): seq<bool>
  {
    seq(|faces|, i requires 0 <= i < |faces| => KeepsRounding(faces, faces[i]))
  }

  /** What the filter returns: the kept faces in their original order. */
  function RoundingResult(faces: seq<Triangle>): seq<Triangle>
  {
    Select(faces, RoundingFlags(faces))
  }

  /**
   * FixRoundingOrder: build the ordered-edge map, collect the keys with more
   * than one entry, then copy out the faces that touch none of them.
   */
  method FixRoundingOrder(faces: seq<Triangle>) returns (newFaces: seq<Triangle>)
    ensures newFaces == RoundingResult(faces)
  {
    var edgemap := BuildDirectedEdgeMap(faces);
    var problematic := RepeatedKeys(edgemap);
    assert forall e :: e in problematic <==> DirectedCount(faces, e) > 1 by {
      forall e ensures e in problematic <==> DirectedCount(faces, e) > 1 {
        assert |Lookup(edgemap, e)| == DirectedCount(faces, e);
      }
    }
    newFaces := CopyKept(faces, problematic);
  }

  /** The first loop: each directed side's list receives the face index once per occurrence. */
  method BuildDirectedEdgeMap(faces: seq<Triangle>) returns (edgemap: map<Pair, seq<nat>>)
    ensures forall e :: |Lookup(edgemap, e)| == DirectedCount(faces, e)
  {
    edgemap := map[];
    for i := 0 to |faces|
      invariant forall e :: |Lookup(edgemap, e)| == DirectedCount(faces[..i], e)
    {
      var f := faces[i];
      ghost var m0 := edgemap;
      edgemap := edgemap[(f.i0, f.i1) := Lookup(edgemap, (f.i0, f.i1)) + [i]];
      ghost var m1 := edgemap;
      edgemap := edgemap[(f.i1, f.i2) := Lookup(edgemap, (f.i1, f.i2)) + [i]];
      ghost var m2 := edgemap;
      edgemap := edgemap[(f.i2, f.i0) := Lookup(edgemap, (f.i2, f.i0)) + [i]];
      forall e
        ensures |Lookup(edgemap, e)| == DirectedCount(faces[..i + 1], e)
      {
        PushOne(m0, (f.i0, f.i1), i, e);
        PushOne(m1, (f.i1, f.i2), i, e);
        PushOne(m2, (f.i2, f.i0), i, e);
        assert faces[..i + 1][..i] == faces[..i];
      }
    }
    assert faces[..|faces|] == faces;
  }

  /** The second loop: the keys whose list holds more than one face index. */
  method RepeatedKeys(edgemap: map<Pair, seq<nat>>) returns (problematic: set<Pair>)
    ensures forall e :: e in problematic <==> e in edgemap && |edgemap[e]| > 1
  {
    problematic := {};
    var pending := edgemap.Keys;
    while pending != {}
      invariant pending <= edgemap.Keys
      invariant forall e :: e in problematic <==> e in edgemap && e !in pending && |edgemap[e]| > 1
      decreases pending
    {
      var e :| e in pending;
      if |edgemap[e]| > 1 {
        problematic := problematic + {e};
      }
      pending := pending - {e};
    }
  }

  /** The third loop: the faces none of whose directed sides is a repeated key, in order. */
  method CopyKept(faces: seq<Triangle>, problematic: set<Pair>) returns (newFaces: seq<Triangle>)
    requires forall e :: e in problematic <==> DirectedCount(faces, e) > 1
    ensures newFaces == RoundingResult(faces)
  {
    ghost var flags := RoundingFlags(faces);
    newFaces := [];
    for i := 0 to |faces|
      invariant newFaces == Select(faces[..i], flags[..i])
    {
      var f := faces[i];
      SelectSnoc(faces, flags, i);
      assert flags[i] == KeepsRounding(faces, f);
      if !((f.i0, f.i1) in problematic || (f.i1, f.i2) in problematic || (f.i2, f.i0) in problematic) {
        newFaces := newFaces + [f];
      }
    }
    assert faces[..|faces|] == faces && flags[..|faces|] == flags;
  }

  /** Appending one face index to the list of key `k` lengthens that list alone. */
  lemma PushOne(m: map<Pair, seq<nat>>, k: Pair, i: nat, e: Pair)
    ensures |Lookup(m[k := Lookup(m, k) + [i]], e)| == |Lookup(m, e)| + (if e == k then 1 else 0)
  {
  }

  /** A face that is in the list counts toward each of its own directed sides. */
  lemma {:induction false} CountCoversFace(faces: seq<Triangle>, t: Triangle, e: Pair)
    requires t in faces
    ensures DirectedCount(faces, e) >= DirectedHits(t, e)
    decreases |faces|
  {
    var n := |faces|;
    if faces[n - 1] != t {
      assert t in faces[..n - 1] by {
        var i :| 0 <= i < n && faces[i] == t;
        assert faces[..n - 1][i] == t;
      }
      CountCoversFace(faces[..n - 1], t, e);
    }
  }

  /** Leaving faces out never raises the count of a directed edge. */
  lemma {:induction false} CountOfSelection(faces: seq<Triangle>, keep: seq<bool>, e: Pair)
    requires |keep| == |faces|
    ensures DirectedCount(Select(faces, keep), e) <= DirectedCount(faces, e)
    decreases |faces|
  {
    var n := |faces|;
    if n > 0 {
      CountOfSelection(faces[..n - 1], keep[..n - 1], e);
      var r' := Select(faces[..n - 1], keep[..n - 1]);
      assert DirectedCount(faces, e) == DirectedCount(faces[..n - 1], e) + DirectedHits(faces[n - 1], e);
      assert Select(faces, keep) == r' + (if keep[n - 1] then [faces[n - 1]] else []);
      if keep[n - 1] {
        var x := faces[n - 1];
        assert (r' + [x])[..|r'|] == r';
        assert DirectedCount(r' + [x], e) == DirectedCount(r', e) + DirectedHits(x, e);
      } else {
        assert r' + [] == r';
      }
    }
  }

  /** The filter keeps exactly the input faces none of whose directed sides is shared. */
  lemma RoundingKeepsExactly(faces: seq<Triangle>, t: Triangle)
    ensures t in RoundingResult(faces) <==> t in faces && KeepsRounding(faces, t)
  {
    SelectMembership(faces, RoundingFlags(faces), t);
  }

  /** The filter keeps a stable-order subsequence of its input, never longer, and empty stays empty. */
  lemma RoundingIsSubsequence(faces: seq<Triangle>)
    ensures IsSubsequence(RoundingResult(faces), faces)
    ensures |RoundingResult(faces)| <= |faces|
    ensures faces == [] ==> RoundingResult(faces) == []
  {
    SelectIsStableSubsequence(faces, RoundingFlags(faces));
  }

  /** A degenerate face (a, a, a) repeats its own directed side and so removes itself. */
  lemma DegenerateFaceRemovesItself(faces: seq<Triangle>, a: nat)
    requires Triangle(a, a, a) in faces
    ensures Triangle(a, a, a) !in RoundingResult(faces)
  {
    CountCoversFace(faces, Triangle(a, a, a), (a, a));
    RoundingKeepsExactly(faces, Triangle(a, a, a));
  }

  /** Filtering twice is filtering once: the survivors' directed sides are unique among the survivors. */
  lemma RoundingIdempotent(faces: seq<Triangle>)
    ensures forall t | t in RoundingResult(faces) :: KeepsRounding(RoundingResult(faces), t)
    ensures RoundingResult(RoundingResult(faces)) == RoundingResult(faces)
  {
    var r := RoundingResult(faces);
    forall t | t in r
      ensures KeepsRounding(r, t)
    {
      RoundingKeepsExactly(faces, t);
      CountOfSelection(faces, RoundingFlags(faces), GetEdge(t, 0));
      CountOfSelection(faces, RoundingFlags(faces), GetEdge(t, 1));
      CountOfSelection(faces, RoundingFlags(faces), GetEdge(t, 2));
    }
    SelectAllKept(r, RoundingFlags(r));
  }
}
