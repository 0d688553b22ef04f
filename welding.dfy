/**
 * The point reducer of Buoyancy.cs: the exhaustive closest-pair search and the
 * weld that merges the closest pair into its midpoint until the target count is
 * reached. Everything here is the specification the component's
 * FindClosestPoints and WeldPoints methods are proved against.
 */
module Welding {
  import opened Vectors

  /** float.MaxValue, the initial minimum distance of the closest-pair search. */
  const MaxDistance: real := 340282346638528859811704183484516925440.0

  /** The same bound on the squared scale that the search compares on. */
  const MaxSqDistance: real := MaxDistance * MaxDistance

  /** List<T>.RemoveAt: the element at k leaves, the ones after it move down one place. */
  function RemoveAt<T>(s: seq<T>, k: int): (r: seq<T>)
    requires 0 <= k < |s|
    ensures |r| == |s| - 1
  {
    s[..k] + s[k + 1..]
  }

  /** After RemoveAt(s, k) the elements before k keep their places, the later ones move down one, and only s[k] is lost. */
  lemma RemoveAtElements<T>(s: seq<T>, k: int)
    requires 0 <= k < |s|
    ensures forall n :: 0 <= n < k ==> RemoveAt(s, k)[n] == s[n]
    ensures forall n :: k <= n < |s| - 1 ==> RemoveAt(s, k)[n] == s[n + 1]
    ensures multiset(RemoveAt(s, k)) + multiset{s[k]} == multiset(s)
  {
    assert s == s[..k] + [s[k]] + s[k + 1..];
  }

  /** Pair (p, q) is visited before pair (i, j) by the nested i/j loops. */
  predicate Before(p: int, q: int, i: int, j: int)
  {
    p < i || (p == i && q < j)
  }

  /** Some pair is closer than float.MaxValue, so the search updates its minimum at least once. */
  ghost predicate HasComparablePair(s: seq<Vec3>)
  {
    exists p, q {:trigger SqDist(s[p], s[q])} :: 0 <= p < q < |s| && SqDist(s[p], s[q]) < MaxSqDistance
  }

  /**
   * (i, j) is a closest pair of s, and among the closest pairs the first one the
   * nested loops visit (the search only replaces its candidate on a strict <).
   */
  ghost predicate IsFirstClosest(s: seq<Vec3>, i: int, j: int)
  {
    && 0 <= i < j < |s|
    && SqDist(s[i], s[j]) < MaxSqDistance
    && (forall p, q {:trigger SqDist(s[p], s[q])} :: 0 <= p < q < |s| ==> SqDist(s[i], s[j]) <= SqDist(s[p], s[q]))
    && (forall p, q {:trigger SqDist(s[p], s[q])} :: 0 <= p < q < |s| && Before(p, q, i, j) ==> SqDist(s[i], s[j]) < SqDist(s[p], s[q]))
  }

  /**
   * The search from pair (i, j) on, with candidate (bi, bj) at squared distance m.
   * Row i ends when j reaches |s|; the search ends when i reaches |s| - 1.
   */
  function Scan(s: seq<Vec3>, i: int, j: int, bi: int, bj: int, m: real): (r: (int, int))
    requires 0 <= i < j && 0 <= bi < bj
    requires |s| >= 2 ==> bj < |s|
    ensures 0 <= r.0 < r.1
    ensures |s| >= 2 ==> r.1 < |s|
    decreases |s| - i, |s| - j
  {
    if i >= |s| - 1 then (bi, bj)
    else if j >= |s| then Scan(s, i + 1, i + 2, bi, bj, m)
    else if SqDist(s[i], s[j]) < m then Scan(s, i, j + 1, i, j, SqDist(s[i], s[j]))
    else Scan(s, i, j + 1, bi, bj, m)
  }

  /** The pair FindClosestPoints returns: the search from (0, 1) with minimum float.MaxValue. */
  function ClosestPair(s: seq<Vec3>): (r: (int, int))
    ensures |s| >= 2 ==> 0 <= r.0 < r.1 < |s|
  {
    Scan(s, 0, 1, 0, 1, MaxSqDistance)
  }

  /** What the search knows at pair (i, j) with candidate (bi, bj) and minimum m. */
  ghost predicate ScanInv(s: seq<Vec3>, i: int, j: int, bi: int, bj: int, m: real)
  {
    && 0 <= i < j && 0 <= bi < bj
    && (i < |s| - 1 ==> j <= |s|)
    && m <= MaxSqDistance
    && (m == MaxSqDistance ==> bi == 0 && bj == 1)
    && (m < MaxSqDistance ==>
          && bj < |s| && Before(bi, bj, i, j) && m == SqDist(s[bi], s[bj])
          && forall p, q {:trigger SqDist(s[p], s[q])} :: 0 <= p < q < |s| && Before(p, q, bi, bj) ==> m < SqDist(s[p], s[q]))
    && (forall p, q {:trigger SqDist(s[p], s[q])} :: 0 <= p < q < |s| && Before(p, q, i, j) ==> m <= SqDist(s[p], s[q]))
  }

  /** At the end of the search the candidate is the answer. */
  lemma ScanInvDone(s: seq<Vec3>, i: int, j: int, bi: int, bj: int, m: real)
    requires ScanInv(s, i, j, bi, bj, m) && i >= |s| - 1
    ensures ClosestPairOutcome(s, (bi, bj))
  {
    assert forall p, q :: 0 <= p < q < |s| ==> Before(p, q, i, j);
    if m < MaxSqDistance {
      assert IsFirstClosest(s, bi, bj);
    } else if HasComparablePair(s) {
      var p, q :| 0 <= p < q < |s| && SqDist(s[p], s[q]) < MaxSqDistance;
      assert Before(p, q, i, j);
    }
  }

  /** Moving from the end of row i to the start of row i + 1 keeps the invariant. */
  lemma ScanInvNextRow(s: seq<Vec3>, i: int, j: int, bi: int, bj: int, m: real)
    requires ScanInv(s, i, j, bi, bj, m) && i < |s| - 1 && j >= |s|
    ensures ScanInv(s, i + 1, i + 2, bi, bj, m)
  {
    assert forall p, q :: 0 <= p < q < |s| && Before(p, q, i + 1, i + 2) ==> Before(p, q, i, j);
  }

  /** Visiting pair (i, j) keeps the invariant, whether or not it becomes the candidate. */
  lemma ScanInvVisit(s: seq<Vec3>, i: int, j: int, bi: int, bj: int, m: real)
    requires ScanInv(s, i, j, bi, bj, m) && i < |s| - 1 && j < |s|
    ensures SqDist(s[i], s[j]) < m ==> ScanInv(s, i, j + 1, i, j, SqDist(s[i], s[j]))
    ensures !(SqDist(s[i], s[j]) < m) ==> ScanInv(s, i, j + 1, bi, bj, m)
  {
    assert forall p, q :: Before(p, q, i, j + 1) ==> Before(p, q, i, j) || (p == i && q == j);
  }

  /** The result FindClosestPoints promises for s. */
  ghost predicate ClosestPairOutcome(s: seq<Vec3>, r: (int, int))
  {
    && (HasComparablePair(s) ==> IsFirstClosest(s, r.0, r.1))
    && (!HasComparablePair(s) ==> r == (0, 1))
  }

  lemma {:induction false} ScanFindsFirstClosest(s: seq<Vec3>, i: int, j: int, bi: int, bj: int, m: real)
    requires ScanInv(s, i, j, bi, bj, m)
    ensures ClosestPairOutcome(s, Scan(s, i, j, bi, bj, m))
    decreases |s| - i, |s| - j
  {
    if i >= |s| - 1 {
      ScanInvDone(s, i, j, bi, bj, m);
    } else if j >= |s| {
      assert ScanInv(s, i + 1, i + 2, bi, bj, m) by {
        ScanInvNextRow(s, i, j, bi, bj, m);
      }
      ScanFindsFirstClosest(s, i + 1, i + 2, bi, bj, m);
    } else {
      var d := SqDist(s[i], s[j]);
      if d < m {
        assert ScanInv(s, i, j + 1, i, j, d) by {
          ScanInvVisit(s, i, j, bi, bj, m);
        }
        ScanFindsFirstClosest(s, i, j + 1, i, j, d);
      } else {
        assert ScanInv(s, i, j + 1, bi, bj, m) by {
          ScanInvVisit(s, i, j, bi, bj, m);
        }
        ScanFindsFirstClosest(s, i, j + 1, bi, bj, m);
      }
    }
  }

  /**
   * The closest-pair result: with some pair nearer than float.MaxValue it is the
   * first closest pair in loop order, otherwise it is the initial (0, 1).
   */
  lemma ClosestPairCorrect(s: seq<Vec3>)
    ensures HasComparablePair(s) ==> IsFirstClosest(s, ClosestPair(s).0, ClosestPair(s).1)
    ensures !HasComparablePair(s) ==> ClosestPair(s) == (0, 1)
  {
    ScanFindsFirstClosest(s, 0, 1, 0, 1, MaxSqDistance);
  }

  /** The tie-break makes the closest pair unique. */
  lemma FirstClosestUnique(s: seq<Vec3>, i: int, j: int, i': int, j': int)
    requires IsFirstClosest(s, i, j) && IsFirstClosest(s, i', j')
    ensures i == i' && j == j'
  {
  }

  /**
   * Two coincident points are welded before any other pair: the chosen pair is at
   * distance zero and no coincident pair comes before it in loop order.
   */
  lemma CoincidentPairFirst(s: seq<Vec3>, p: int, q: int)
    requires 0 <= p < q < |s| && s[p] == s[q]
    ensures SqDist(s[ClosestPair(s).0], s[ClosestPair(s).1]) == 0.0
    ensures !Before(p, q, ClosestPair(s).0, ClosestPair(s).1)
  {
    assert SqDist(s[p], s[q]) == 0.0;
    ClosestPairCorrect(s);
  }

  /**
   * One pass of the weld loop: remove the second index, then the first, append
   * their midpoint and record it as below water.
   */
  function WeldStep(s: seq<Vec3>, d: map<Vec3, bool>): (r: (seq<Vec3>, map<Vec3, bool>))
    requires |s| >= 2
    ensures |r.0| == |s| - 1
  {
    var pair := ClosestPair(s);
    var mixed := Midpoint(s[pair.0], s[pair.1]);
    (RemoveAt(RemoveAt(s, pair.1), pair.0) + [mixed], d[mixed := false])
  }

  /** The while loop of WeldPoints, for a target of at least 2. */
  function WeldLoop(s: seq<Vec3>, d: map<Vec3, bool>, target: int): (seq<Vec3>, map<Vec3, bool>)
    requires target >= 2
    decreases |s|
  {
    if |s| <= target then (s, d)
    else
      var next := WeldStep(s, d);
      WeldLoop(next.0, next.1, target)
  }

  /** WeldPoints: the early return for short lists or small targets, then the loop. */
  function Weld(s: seq<Vec3>, d: map<Vec3, bool>, target: int): (seq<Vec3>, map<Vec3, bool>)
  {
    if |s| <= 2 || target < 2 then (s, d) else WeldLoop(s, d, target)
  }

  /** A short list, a target below 2 or a list already within the target is left alone. */
  lemma WeldNoOp(s: seq<Vec3>, d: map<Vec3, bool>, target: int)
    requires |s| <= 2 || target < 2 || |s| <= target
    ensures Weld(s, d, target) == (s, d)
  {
  }

  lemma {:induction false} WeldLoopCount(s: seq<Vec3>, d: map<Vec3, bool>, target: int)
    requires target >= 2
    ensures |WeldLoop(s, d, target).0| == if |s| <= target then |s| else target
    decreases |s|
  {
    if |s| > target {
      var next := WeldStep(s, d);
      WeldLoopCount(next.0, next.1, target);
    }
  }

  /** The weld never adds points and, when it runs, ends with exactly the target count. */
  lemma WeldCount(s: seq<Vec3>, d: map<Vec3, bool>, target: int)
    ensures |Weld(s, d, target).0| <= |s|
    ensures |s| > 2 && target >= 2 && |s| > target ==> |Weld(s, d, target).0| == target
    ensures |s| <= 2 || target < 2 || |s| <= target ==> |Weld(s, d, target).0| == |s|
  {
    if |s| > 2 && target >= 2 {
      WeldLoopCount(s, d, target);
    }
  }

  /**
   * The shape of one pass: the points other than the welded pair keep their
   * relative order and the midpoint is appended last.
   */
  lemma WeldStepShape(s: seq<Vec3>, d: map<Vec3, bool>)
    requires |s| >= 2
    ensures var i, j := ClosestPair(s).0, ClosestPair(s).1;
      WeldStep(s, d).0 == s[..i] + s[i + 1..j] + s[j + 1..] + [Midpoint(s[i], s[j])]
  {
    var i, j := ClosestPair(s).0, ClosestPair(s).1;
    var once := RemoveAt(s, j);
    assert once == s[..j] + s[j + 1..];
    assert once[..i] == s[..i];
    assert once[i + 1..] == s[i + 1..j] + s[j + 1..];
    assert RemoveAt(once, i) == s[..i] + (s[i + 1..j] + s[j + 1..]);
  }

  /**
   * The flags after one pass: no key is lost, every remaining voxel keeps a flag,
   * the midpoint is flagged below water, and every other entry is unchanged.
   */
  lemma WeldStepCoverage(s: seq<Vec3>, d: map<Vec3, bool>)
    requires |s| >= 2
    ensures d.Keys <= WeldStep(s, d).1.Keys
    ensures var pair := ClosestPair(s);
      var mixed := Midpoint(s[pair.0], s[pair.1]);
      mixed in WeldStep(s, d).1 && WeldStep(s, d).1[mixed] == false
    ensures (forall p :: p in s ==> p in d) ==> forall p :: p in WeldStep(s, d).0 ==> p in WeldStep(s, d).1
    ensures forall k :: k in WeldStep(s, d).1 ==> WeldStep(s, d).1[k] == false || (k in d && WeldStep(s, d).1[k] == d[k])
  {
    var i, j := ClosestPair(s).0, ClosestPair(s).1;
    var kept := RemoveAt(RemoveAt(s, j), i);
    RemoveAtElements(s, j);
    RemoveAtElements(RemoveAt(s, j), i);
    forall p | p in kept
      ensures p in s
    {
      assert p in multiset(kept);
    }
  }

  lemma {:induction false} WeldLoopCoverage(s: seq<Vec3>, d: map<Vec3, bool>, target: int)
    requires target >= 2
    ensures d.Keys <= WeldLoop(s, d, target).1.Keys
    ensures (forall p :: p in s ==> p in d) ==> forall p :: p in WeldLoop(s, d, target).0 ==> p in WeldLoop(s, d, target).1
    ensures forall k :: k in WeldLoop(s, d, target).1 ==>
              WeldLoop(s, d, target).1[k] == false || (k in d && WeldLoop(s, d, target).1[k] == d[k])
    decreases |s|
  {
    if |s| > target {
      var next := WeldStep(s, d);
      WeldStepCoverage(s, d);
      WeldLoopCoverage(next.0, next.1, target);
    }
  }

  /**
   * Map coverage through the weld: no key is ever removed (stale keys of merged
   * points stay), every surviving point has an entry when every input point had
   * one, and every entry either keeps its old value or is a fresh false.
   */
  lemma WeldCoverage(s: seq<Vec3>, d: map<Vec3, bool>, target: int)
    ensures d.Keys <= Weld(s, d, target).1.Keys
    ensures (forall p :: p in s ==> p in d) ==> forall p :: p in Weld(s, d, target).0 ==> p in Weld(s, d, target).1
    ensures forall k :: k in Weld(s, d, target).1 ==>
              Weld(s, d, target).1[k] == false || (k in d && Weld(s, d, target).1[k] == d[k])
  {
    if |s| > 2 && target >= 2 {
      WeldLoopCoverage(s, d, target);
    }
  }
}
