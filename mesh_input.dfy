/**
 * The input side of the tool that the repair passes rely on: the face
 * loader's index check (which makes every per-vertex array access of the
 * passes in range) and the per-vertex label file, whose labels are
 * normalised and lifted to faces.
 */
module MeshInput {
  import opened MeshEdges
  import opened NonManifold

  datatype Option<T> = None | Some(value: T)

  /**
   * The face loop of LoadVFAssimp: faces are copied one by one and loading
   * stops with failure at the first face holding an index that is not below
   * the vertex count, leaving the faces copied so far in the output.
   */
  method LoadFaces(nv: nat, raw: seq<Triangle>) returns (ok: bool, faces: seq<Triangle>)
    ensures ok <==> IndicesInRange(raw, nv)
    ensures ok ==> faces == raw
    ensures !ok ==> |faces| < |raw| && faces == raw[..|faces|] && !FaceInRange(raw[|faces|], nv)
    ensures IndicesInRange(faces, nv)
  {
    faces := [];
    for i := 0 to |raw|
      invariant faces == raw[..i]
      invariant IndicesInRange(faces, nv)
    {
      var f := raw[i];
      if f.i0 >= nv || f.i1 >= nv || f.i2 >= nv {
        return false, faces;
      }
      faces := faces + [f];
    }
    assert raw[..|raw|] == raw;
    return true, faces;
  }

  /** A label that is 100 or below 10 is reset to the background label 0. */
  function NormalizeLabel(l: int): (r: int)
    ensures r == 0 || r == l
    ensures r == l <==> l == 0 || (10 <= l && l != 100)
    ensures r == 0 || (10 <= r && r != 100)
  {
    if l == 100 || l < 10 then 0 else l
  }

  /** Normalising twice is normalising once. */
  lemma NormalizeLabelIdempotent(l: int)
    ensures NormalizeLabel(NormalizeLabel(l)) == NormalizeLabel(l)
  {
  }

  /** The label of a face: the largest label among its three corners. */
  function FaceLabel(vertexLabels: seq<int>, t: Triangle): (r: int)
    requires FaceInRange(t, |vertexLabels|)
    ensures r >= vertexLabels[t.i0] && r >= vertexLabels[t.i1] && r >= vertexLabels[t.i2]
    ensures r == vertexLabels[t.i0] || r == vertexLabels[t.i1] || r == vertexLabels[t.i2]
  {
    var l0, l1, l2 := vertexLabels[t.i0], vertexLabels[t.i1], vertexLabels[t.i2];
    var m := if l1 > l2 then l1 else l2;
    if l0 > m then l0 else m
  }

  /** The face label does not depend on which corner the face's halfedge starts from. */
  lemma FaceLabelRotation(vertexLabels: seq<int>, t: Triangle)
    requires FaceInRange(t, |vertexLabels|)
    ensures FaceLabel(vertexLabels, Triangle(t.i1, t.i2, t.i0)) == FaceLabel(vertexLabels, t)
    ensures FaceLabel(vertexLabels, Triangle(t.i2, t.i0, t.i1)) == FaceLabel(vertexLabels, t)
  {
  }

  /** The vertex labels after normalisation of the loaded list. */
  function NormalizedLabels(labels: seq<int>): (r: seq<int>)
    ensures |r| == |labels|
    ensures forall v | 0 <= v < |r| :: r[v] == NormalizeLabel(labels[v])
  {
    seq(|labels|, v requires 0 <= v < |labels| => NormalizeLabel(labels[v]))
  }

  /** The face labels lifted from `vertexLabels`. */
  function FaceLabels(faces: seq<Triangle>, vertexLabels: seq<int>): (r: seq<int>)
    requires IndicesInRange(faces, |vertexLabels|)
    ensures |r| == |faces|
    ensures forall f | 0 <= f < |r| :: r[f] == FaceLabel(vertexLabels, faces[f])
  {
    seq(|faces|, f requires 0 <= f < |faces| => FaceLabel(vertexLabels, faces[f]))
  }

  /** A mesh whose vertices and faces carry an integer label each. */
  class LabeledMesh {
    const nv: nat
    const faces: seq<Triangle>
    var vertexLabels: seq<int>
    var faceLabels: seq<int>

    ghost predicate Valid()
      reads this
    {
      && IndicesInRange(faces, nv)
      && |vertexLabels| == nv
      && |faceLabels| == |faces|
    }

    /** A fresh mesh: every vertex and face label is 0. */
    constructor (nv: nat, faces: seq<Triangle>)
      requires IndicesInRange(faces, nv)
      ensures Valid()
      ensures this.nv == nv && this.faces == faces
      ensures vertexLabels == seq(nv, _ => 0) && faceLabels == seq(|faces|, _ => 0)
    {
      this.nv := nv;
      this.faces := faces;
      vertexLabels := seq(nv, _ => 0);
      faceLabels := seq(|faces|, _ => 0);
    }

    /**
     * LoadLabels once the label file is parsed: `data` is the "labels"
     * array, or None when the key is missing.  Fails, changing nothing,
     * when the key is missing or the array length differs from the vertex
     * count; otherwise stores the normalised vertex labels, then the face
     * labels lifted from them.
     */
    method LoadLabels(data: Option<seq<int>>) returns (ok: bool)
      requires Valid()
      modifies this
      ensures Valid()
      ensures ok <==> data.Some? && |data.value| == nv
      ensures ok ==> vertexLabels == NormalizedLabels(data.value)
      ensures ok ==> faceLabels == FaceLabels(faces, vertexLabels)
      ensures !ok ==> vertexLabels == old(vertexLabels) && faceLabels == old(faceLabels)
    {
      if data.None? {
        return false;
      }
      var labels := data.value;
      if |labels| != nv {
        return false;
      }
      for v := 0 to nv
        invariant |vertexLabels| == nv && |faceLabels| == |faces|
        invariant forall u | 0 <= u < v :: vertexLabels[u] == NormalizeLabel(labels[u])
      {
        var l := labels[v];
        if l == 100 || l < 10 {
          l := 0;
        }
        vertexLabels := vertexLabels[v := l];
      }
      for f := 0 to |faces|
        invariant vertexLabels == NormalizedLabels(labels)
        invariant |faceLabels| == |faces|
        invariant forall g | 0 <= g < f :: faceLabels[g] == FaceLabel(vertexLabels, faces[g])
      {
        var t := faces[f];
        var l0, l1, l2 := vertexLabels[t.i0], vertexLabels[t.i1], vertexLabels[t.i2];
        var m := if l1 > l2 then l1 else l2;
        faceLabels := faceLabels[f := if l0 > m then l0 else m];
      }
      return true;
    }
  }

  /** Every face label after a successful load is itself a normalised label. */
  lemma LoadedFaceLabelsNormalized(faces: seq<Triangle>, labels: seq<int>, f: nat)
    requires IndicesInRange(faces, |labels|) && f < |faces|
    ensures var r := FaceLabels(faces, NormalizedLabels(labels))[f]; r == 0 || (10 <= r && r != 100)
  {
    var vl := NormalizedLabels(labels);
    var t := faces[f];
    assert vl[t.i0] == NormalizeLabel(labels[t.i0]);
    assert vl[t.i1] == NormalizeLabel(labels[t.i1]);
    assert vl[t.i2] == NormalizeLabel(labels[t.i2]);
  }
}
