/**
 * Vertex-index triangles and the two notions of "same edge" that the repair
 * passes key their hash maps by: ordered pairs (TPairHash / TPairPred) and
 * unordered pairs (TPairHashUnordered / TPairPredUnordered).
 */
module MeshEdges {

  /** A pair of vertex indices; `GetEdge` yields the sides of a triangle in winding order. */
  type Pair = (nat, nat)

  /** A triangle: three vertex indices in winding order (TTriangle). */
  datatype Triangle = Triangle(i0: nat, i1: nat, i2: nat)

  /** Corner `k` of a triangle, the value `operator[]` returns for k in 0..2. */
  function Corner(t: Triangle, k: nat): (v: nat)
    requires k < 3
    ensures HasVertex(t, v)
  {
    if k == 0 then t.i0 else if k == 1 then t.i1 else t.i2
  }

  /** The corners are the triangle's index array read in order, and every vertex of the triangle is a corner. */
  lemma CornersAreIndices(t: Triangle, v: nat)
    ensures [Corner(t, 0), Corner(t, 1), Corner(t, 2)] == [t.i0, t.i1, t.i2]
    ensures HasVertex(t, v) <==> exists k | 0 <= k < 3 :: Corner(t, k) == v
  {
    if HasVertex(t, v) {
      var k := if t.i0 == v then 0 else if t.i1 == v then 1 else 2;
      assert Corner(t, k) == v;
    }
  }

  /** True when `v` is one of the three corners of `t`. */
  predicate HasVertex(t: Triangle, v: nat)
  {
    t.i0 == v || t.i1 == v || t.i2 == v
  }

  /** All three corners of `t` name one of the `nv` vertices. */
  predicate FaceInRange(t: Triangle, nv: nat)
  {
    t.i0 < nv && t.i1 < nv && t.i2 < nv
  }

  /** Every corner of every face is a vertex index below `nv`. */
  predicate IndicesInRange(faces: seq<Triangle>, nv: nat)
  {
    forall i | 0 <= i < |faces| :: FaceInRange(faces[i], nv)
  }

  /**
   * Side `i` of a triangle: from corner i to the next corner around the
   * triangle; any index past 2 yields the pair (0, 0).
   */
  function GetEdge(t: Triangle, i: nat): (e: Pair)
    ensures i < 3 ==> e.0 == Corner(t, i) && e.1 == Corner(t, (i + 1) % 3)
    ensures 3 <= i ==> e == (0, 0)
  {
    match i
    case 0 => (t.i0, t.i1)
    case 1 => (t.i1, t.i2)
    case 2 => (t.i2, t.i0)
    case _ => (0, 0)
  }

  /** The three sides chain head to tail and close: i0 -> i1 -> i2 -> i0. */
  lemma SidesFormCycle(t: Triangle)
    ensures forall i | 0 <= i < 3 :: GetEdge(t, i).1 == GetEdge(t, (i + 1) % 3).0
    ensures GetEdge(t, 0).0 == t.i0 && GetEdge(t, 1).0 == t.i1 && GetEdge(t, 2).0 == t.i2
  {
  }

  function Swap(p: Pair): Pair
  {
    (p.1, p.0)
  }

  /** Unordered pair equality: the pairs are equal or one is the other swapped. */
  predicate PairPredUnordered(e0: Pair, e1: Pair)
  {
    (e0.0 == e1.0 && e0.1 == e1.1) || (e0.0 == e1.1 && e0.1 == e1.0)
  }

  /** Ordered pair equality. */
  predicate PairPred(e0: Pair, e1: Pair): (same: bool)
    ensures same <==> e0 == e1
  {
    e0.0 == e1.0 && e0.1 == e1.1
  }

  /**
   * The pair that TPairHashUnordered hands to the underlying hash: the larger
   * index first.  A map keyed by `UKey` is the unordered edge map.
   */
  function UKey(p: Pair): (k: Pair)
    ensures k.0 >= k.1
    ensures PairPredUnordered(k, p)
  {
    if p.0 > p.1 then p else Swap(p)
  }

  /**
   * TPairHashUnordered over an arbitrary hash of ordered pairs (`hash`
   * stands for boost::hash, whose values are not part of this model).
   */
  function PairHashUnordered(hash: Pair -> nat, p: Pair): (h: nat)
    ensures h == hash(UKey(p)) && h == hash(UKey(Swap(p)))
  {
    if p.0 > p.1 then hash(p) else hash((p.1, p.0))
  }

  /** TPairHash: the underlying hash applied to the ordered pair; on a pair with the larger index first it agrees with TPairHashUnordered. */
  function PairHash(hash: Pair -> nat, p: Pair): (h: nat)
    ensures p.0 >= p.1 ==> h == PairHashUnordered(hash, p)
  {
    hash(p)
  }

  /** TPairPredUnordered holds exactly when the two pairs have the same endpoints, counted with multiplicity. */
  lemma UnorderedPredSameEndpoints(e0: Pair, e1: Pair)
    ensures PairPredUnordered(e0, e1) <==> multiset{e0.0, e0.1} == multiset{e1.0, e1.1}
  {
  }

  /** TPairPredUnordered is an equivalence relation. */
  lemma UnorderedPredIsEquivalence(a: Pair, b: Pair, c: Pair)
    ensures PairPredUnordered(a, a)
    ensures PairPredUnordered(a, b) <==> PairPredUnordered(b, a)
    ensures PairPredUnordered(a, b) && PairPredUnordered(b, c) ==> PairPredUnordered(a, c)
  {
  }

  /** Unordered equality is exactly "same canonical key": the map keyed by UKey behaves like the unordered_map. */
  lemma UnorderedPredIsSameKey(a: Pair, b: Pair)
    ensures PairPredUnordered(a, b) <==> UKey(a) == UKey(b)
    ensures UKey(a) == UKey(Swap(a))
  {
  }

  /** Whatever the underlying hash, pairs that TPairPredUnordered equates hash alike, so the map is consistent. */
  lemma UnorderedHashAgreesWithPred(hash: Pair -> nat, a: Pair, b: Pair)
    ensures PairHashUnordered(hash, a) == PairHashUnordered(hash, Swap(a))
    ensures PairPredUnordered(a, b) ==> PairHashUnordered(hash, a) == PairHashUnordered(hash, b)
    ensures PairHashUnordered(hash, a) == hash(UKey(a))
  {
  }

  /** TPairPred is ordered equality: a pair and its swap are different keys unless both indices agree. */
  lemma OrderedPredIsEquality(hash: Pair -> nat, a: Pair, b: Pair)
    ensures PairPred(a, b) <==> a == b
    ensures PairPred(a, Swap(a)) <==> a.0 == a.1
    ensures PairPred(a, b) ==> PairHash(hash, a) == PairHash(hash, b)
  {
  }

  /** The face list a map holds for an edge key; a key never inserted has none. */
  function Lookup(m: map<Pair, seq<nat>>, e: Pair): seq<nat>
  {
    if e in m then m[e] else []
  }
}
