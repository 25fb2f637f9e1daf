/**
 * The repair driver shared by FixMesh, FixMeshWithLabel and
 * FixSelfIntersection: the non-manifold pass is repeated until a pass
 * removes nothing or the retry budget is spent.  FixMesh and
 * FixMeshWithLabel run the rounding-order filter once before the loop.
 */
module FixedPoint {
  import opened MeshEdges
  import opened Selection
  import opened RoundingOrder
  import opened NonManifold

  /** `faces` after `k` applications of `pass`. */
  ghost function Iterate(pass: seq<Triangle> -> seq<Triangle>, faces: seq<Triangle>, k: nat): seq<Triangle>
  {
    if k == 0 then faces else pass(Iterate(pass, faces, k - 1))
  }

  /** The face list after `k` consecutive non-manifold passes. */
  ghost function Passes(faces: seq<Triangle>, k: nat): seq<Triangle>
  {
    Iterate(PassResult, faces, k)
  }

  /**
   * The most passes the loop runs: the counter is tested after each pass
   * and the loop breaks once it exceeded `maxRetry` before the increment,
   * so at least one pass and otherwise `maxRetry + 2`.
   */
  function PassCap(maxRetry: int): (cap: nat)
    ensures cap >= 1 && cap >= maxRetry + 2
    ensures cap > 1 ==> cap == maxRetry + 2
  {
    if maxRetry + 2 < 1 then 1 else maxRetry + 2
  }

  /** Iterating a step that keeps a subsequence keeps a subsequence. */
  lemma {:induction false} IterateSubsequence(pass: seq<Triangle> -> seq<Triangle>, faces: seq<Triangle>, k: nat)
    requires forall x :: IsSubsequence(pass(x), x)
    ensures IsSubsequence(Iterate(pass, faces, k), faces)
  {
    if k == 0 {
      SubsequenceReflexive(faces);
    } else {
      IterateSubsequence(pass, faces, k - 1);
      var prev := Iterate(pass, faces, k - 1);
      SubsequenceTransitive(pass(prev), prev, faces);
    }
  }

  /** Iterating a step that keeps the vertex range keeps the vertex range. */
  lemma {:induction false} IterateInRange(pass: seq<Triangle> -> seq<Triangle>, faces: seq<Triangle>, nv: nat, k: nat)
    requires forall x | IndicesInRange(x, nv) :: IndicesInRange(pass(x), nv)
    requires IndicesInRange(faces, nv)
    ensures IndicesInRange(Iterate(pass, faces, k), nv)
  {
    if k > 0 {
      IterateInRange(pass, faces, nv, k - 1);
    }
  }

  /** Repeated passes keep a stable-order subsequence of the input. */
  lemma PassesSubsequence(faces: seq<Triangle>, k: nat)
    ensures IsSubsequence(Passes(faces, k), faces)
  {
    forall x: seq<Triangle>
      ensures IsSubsequence(PassResult(x), x)
    {
      PassIsSubsequence(x);
    }
    IterateSubsequence(PassResult, faces, k);
  }

  /** Repeated passes stay within the vertex range. */
  lemma PassesInRange(faces: seq<Triangle>, nv: nat, k: nat)
    requires IndicesInRange(faces, nv)
    ensures IndicesInRange(Passes(faces, k), nv)
  {
    forall x | IndicesInRange(x, nv)
      ensures IndicesInRange(PassResult(x), nv)
    {
      PassPreservesRange(x, nv);
    }
    IterateInRange(PassResult, faces, nv, k);
  }

  /**
   * The do/while retry loop: run a pass, stop once the counter (tested,
   * then incremented) exceeded `maxRetry`, otherwise repeat while the last
   * pass removed faces.
   */
  method RepairToFixedPoint(faces: seq<Triangle>, nv: nat, maxRetry: int)
    returns (result: seq<Triangle>, passes: nat, nbRemoved: nat)
    requires IndicesInRange(faces, nv)
    ensures 1 <= passes <= PassCap(maxRetry) && passes <= |faces| + 1
    ensures result == Passes(faces, passes)
    ensures nbRemoved == |Passes(faces, passes - 1)| - |result|
    ensures forall k | 1 <= k < passes :: |Passes(faces, k)| < |Passes(faces, k - 1)|
    ensures nbRemoved == 0 || passes == PassCap(maxRetry)
    ensures nbRemoved == 0 ==> PassResult(result) == result && Manifold(result)
    ensures IsSubsequence(result, faces) && IndicesInRange(result, nv)
  {
    result := faces;
    passes := 0;
    nbRemoved := 0;
    var cnt: int := 0;
    while true
      invariant cnt == passes < PassCap(maxRetry)
      invariant result == Passes(faces, passes) && IndicesInRange(result, nv)
      invariant forall k | 1 <= k <= passes :: |Passes(faces, k)| < |Passes(faces, k - 1)|
      invariant |result| + passes <= |faces|
      decreases PassCap(maxRetry) - passes
    {
      var previous := result;
      result, nbRemoved := RemoveNonManifold(result, nv);
      passes := passes + 1;
      PassesInRange(faces, nv, passes);
      var exhausted := cnt > maxRetry;
      cnt := cnt + 1;
      if exhausted {
        break;
      }
      if nbRemoved == 0 {
        break;
      }
    }
    PassesSubsequence(faces, passes);
    if nbRemoved == 0 {
      ghost var previous := Passes(faces, passes - 1);
      PassFixedIffManifold(previous);
      PassFixedIffManifold(result);
    }
  }

  /**
   * The topology repair of FixMesh and FixMeshWithLabel: the rounding-order
   * filter once, then the retry loop.
   */
  method RepairTopology(faces: seq<Triangle>, nv: nat, maxRetry: int)
    returns (result: seq<Triangle>, passes: nat, nbRemoved: nat)
    requires IndicesInRange(faces, nv)
    ensures 1 <= passes <= PassCap(maxRetry)
    ensures result == Passes(RoundingResult(faces), passes)
    ensures nbRemoved == 0 ==> Manifold(result)
    ensures IsSubsequence(result, faces) && IndicesInRange(result, nv)
  {
    var rounded := FixRoundingOrder(faces);
    RoundingPreservesRange(faces, nv);
    RoundingIsSubsequence(faces);
    result, passes, nbRemoved := RepairToFixedPoint(rounded, nv, maxRetry);
    SubsequenceTransitive(result, rounded, faces);
  }

  /** The rounding filter keeps faces within the vertex range. */
  lemma RoundingPreservesRange(faces: seq<Triangle>, nv: nat)
    requires IndicesInRange(faces, nv)
    ensures IndicesInRange(RoundingResult(faces), nv)
  {
    var r := RoundingResult(faces);
    forall j | 0 <= j < |r|
      ensures r[j].i0 < nv && r[j].i1 < nv && r[j].i2 < nv
    {
      RoundingKeepsExactly(faces, r[j]);
      var i :| 0 <= i < |faces| && faces[i] == r[j];
    }
  }
}
