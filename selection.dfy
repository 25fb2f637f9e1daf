/**
 * Stable filtering by a flag per element: the step that ends each repair
 * pass, where the faces whose flag survived are copied out in order.
 */
module Selection {

  /** Number of set flags. */
  function CountTrue(keep: seq<bool>): (c: nat)
    ensures c <= |keep|
    ensures c == |keep| <==> forall i | 0 <= i < |keep| :: keep[i]
    decreases |keep|
  {
    if |keep| == 0 then 0
    else CountTrue(keep[..|keep| - 1]) + (if keep[|keep| - 1] then 1 else 0)
  }

  /** The elements of `s` whose flag is set, in their original order. */
  function Select<T>(s: seq<T>, keep: seq<bool>): (r: seq<T>)
    requires |keep| == |s|
    ensures |r| == CountTrue(keep)
    decreases |s|
  {
    if |s| == 0 then []
    else Select(s[..|s| - 1], keep[..|s| - 1]) + (if keep[|s| - 1] then [s[|s| - 1]] else [])
  }

  /** Extending both prefixes by one position appends that element exactly when its flag is set. */
  lemma SelectSnoc<T>(s: seq<T>, keep: seq<bool>, i: nat)
    requires |keep| == |s| && i < |s|
    ensures Select(s[..i + 1], keep[..i + 1]) == Select(s[..i], keep[..i]) + (if keep[i] then [s[i]] else [])
  {
    assert s[..i + 1][..i] == s[..i];
    assert keep[..i + 1][..i] == keep[..i];
  }

  /** The positions whose flag is set, in increasing order. */
  function TrueIndices(keep: seq<bool>): seq<nat>
    decreases |keep|
  {
    if |keep| == 0 then []
    else TrueIndices(keep[..|keep| - 1]) + (if keep[|keep| - 1] then [|keep| - 1] else [])
  }

  /** `idx` picks `r` out of `s` at strictly increasing positions. */
  ghost predicate Embeds<T>(r: seq<T>, s: seq<T>, idx: seq<nat>)
  {
    && |idx| == |r|
    && (forall m | 0 <= m < |idx| :: idx[m] < |s| && r[m] == s[idx[m]])
    && (forall m1, m2 | 0 <= m1 < m2 < |idx| :: idx[m1] < idx[m2])
  }

  /** `r` is `s` with some elements left out and the rest kept in order. */
  ghost predicate IsSubsequence<T>(r: seq<T>, s: seq<T>)
  {
    exists idx: seq<nat> :: Embeds(r, s, idx)
  }

  /** Select keeps exactly the flagged positions, in increasing order. */
  lemma SelectIsStableSubsequence<T>(s: seq<T>, keep: seq<bool>)
    requires |keep| == |s|
    ensures Embeds(Select(s, keep), s, TrueIndices(keep))
    ensures forall i | 0 <= i < |s| :: i in TrueIndices(keep) <==> keep[i]
    ensures forall i | i in TrueIndices(keep) :: 0 <= i < |s|
    ensures IsSubsequence(Select(s, keep), s)
  {
    SelectEmbeds(s, keep);
    TrueIndicesMembers(keep);
  }

  /** The flagged positions are exactly the positions whose flag is set. */
  lemma {:induction false} TrueIndicesMembers(keep: seq<bool>)
    ensures forall i :: i in TrueIndices(keep) <==> 0 <= i < |keep| && keep[i]
    decreases |keep|
  {
    if |keep| > 0 {
      var n := |keep|;
      TrueIndicesMembers(keep[..n - 1]);
      assert forall i | 0 <= i < n - 1 :: keep[..n - 1][i] == keep[i];
    }
  }

  /** The positions of the flagged elements embed the selection in the input. */
  lemma {:induction false} SelectEmbeds<T>(s: seq<T>, keep: seq<bool>)
    requires |keep| == |s|
    ensures Embeds(Select(s, keep), s, TrueIndices(keep))
    decreases |s|
  {
    if |s| > 0 {
      var n := |s|;
      var s', k' := s[..n - 1], keep[..n - 1];
      SelectEmbeds(s', k');
      var r', idx' := Select(s', k'), TrueIndices(k');
      forall m | 0 <= m < |idx'|
        ensures idx'[m] < n - 1 && r'[m] == s[idx'[m]]
      {
        assert s'[idx'[m]] == s[idx'[m]];
      }
      if keep[n - 1] {
        assert Select(s, keep) == r' + [s[n - 1]];
        assert TrueIndices(keep) == idx' + [n - 1];
      } else {
        assert Select(s, keep) == r' + [];
        assert TrueIndices(keep) == idx' + [];
      }
    }
  }

  /** A value is in the selection iff some flagged position holds it. */
  lemma SelectMembership<T>(s: seq<T>, keep: seq<bool>, x: T)
    requires |keep| == |s|
    ensures x in Select(s, keep) <==> exists i | 0 <= i < |s| :: keep[i] && s[i] == x
  {
    SelectIsStableSubsequence(s, keep);
    var r, idx := Select(s, keep), TrueIndices(keep);
    if x in r {
      var m :| 0 <= m < |r| && r[m] == x;
      assert idx[m] in idx;
      assert keep[idx[m]] && s[idx[m]] == x;
    }
    if exists i | 0 <= i < |s| :: keep[i] && s[i] == x {
      var i :| 0 <= i < |s| && keep[i] && s[i] == x;
      assert i in idx;
      var m :| 0 <= m < |idx| && idx[m] == i;
      assert r[m] == x;
    }
  }

  /** Nothing is removed iff every flag is set, and then the selection is the input itself. */
  lemma {:induction false} SelectAllKept<T>(s: seq<T>, keep: seq<bool>)
    requires |keep| == |s|
    ensures |Select(s, keep)| == |s| <==> forall i | 0 <= i < |s| :: keep[i]
    ensures (forall i | 0 <= i < |s| :: keep[i]) <==> Select(s, keep) == s
    decreases |s|
  {
    if |s| > 0 {
      var n := |s|;
      SelectAllKept(s[..n - 1], keep[..n - 1]);
      if forall i | 0 <= i < n :: keep[i] {
        assert forall i | 0 <= i < n - 1 :: keep[..n - 1][i] == keep[i];
        assert s[..n - 1] + [s[n - 1]] == s;
      }
    }
  }

  lemma SubsequenceReflexive<T>(s: seq<T>)
    ensures IsSubsequence(s, s)
  {
    var idx: seq<nat> := seq(|s|, i requires 0 <= i < |s| => i);
    assert Embeds(s, s, idx);
  }

  /** Leaving elements out twice is leaving elements out once. */
  lemma SubsequenceTransitive<T>(a: seq<T>, b: seq<T>, c: seq<T>)
    requires IsSubsequence(a, b) && IsSubsequence(b, c)
    ensures IsSubsequence(a, c)
  {
    var i1: seq<nat> :| Embeds(a, b, i1);
    var i2: seq<nat> :| Embeds(b, c, i2);
    var idx: seq<nat> := seq(|a|, m requires 0 <= m < |a| => i2[i1[m]]);
    assert Embeds(a, c, idx);
  }

  /** A subsequence is never longer. */
  lemma SubsequenceNotLonger<T>(r: seq<T>, s: seq<T>)
    requires IsSubsequence(r, s)
    ensures |r| <= |s|
  {
    var idx: seq<nat> :| Embeds(r, s, idx);
    if |r| > |s| {
      IncreasingBound(idx, |s|);
    }
  }

  lemma {:induction false} IncreasingBound(idx: seq<nat>, bound: nat)
    requires forall m | 0 <= m < |idx| :: idx[m] < bound
    requires forall m1, m2 | 0 <= m1 < m2 < |idx| :: idx[m1] < idx[m2]
    ensures |idx| <= bound
    decreases |idx|
  {
    if |idx| > 0 {
      var last := idx[|idx| - 1];
      IncreasingBound(idx[..|idx| - 1], last);
    }
  }
}
