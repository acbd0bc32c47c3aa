/** The block exchange getopt uses to move skipped non-options behind the
    options that followed them (`gcd` and `permute_args` in getopt.h).

    permute_args exchanges the block [nonoptStart, nonoptEnd) with the block
    [nonoptEnd, optEnd) in place by following the cycles of the rotation: with
    a = nonoptEnd - nonoptStart, b = optEnd - nonoptEnd and L = a + b there are
    gcd(a, b) cycles of L / gcd(a, b) positions each.  Positions below are
    relative to nonoptStart. */
module Permute {
  import opened Arith

  /** The arrangement permute_args produces: the two blocks exchanged, each
      keeping its internal order, everything outside them untouched. */
  function Exchanged<T>(s: seq<T>, start: nat, mid: nat, end: nat): (r: seq<T>)
    requires start <= mid <= end <= |s|
    ensures |r| == |s|
  {
    s[..start] + s[mid..end] + s[start..mid] + s[end..]
  }

  /** Position by position: outside [start, end) nothing moves; the first
      end - mid positions of the range hold the block [mid, end), the rest
      hold [start, mid). */
  lemma ExchangedAt<T>(s: seq<T>, start: nat, mid: nat, end: nat, k: nat)
    requires start <= mid <= end <= |s| && k < |s|
    ensures Exchanged(s, start, mid, end)[k] ==
              if k < start || end <= k then s[k]
              else if k < start + (end - mid) then s[mid + (k - start)]
              else s[start + (k - start - (end - mid))]
  {
  }

  /** The exchange only rearranges: it is a permutation of s. */
  lemma ExchangedPermutes<T>(s: seq<T>, start: nat, mid: nat, end: nat)
    requires start <= mid <= end <= |s|
    ensures multiset(Exchanged(s, start, mid, end)) == multiset(s)
  {
    assert s == s[..start] + s[start..mid] + s[mid..end] + s[end..];
  }

  /** `gcd` (the loop in getopt.h) computes Euclid's gcd, which is the
      greatest common divisor. */
  method ComputeGcd(a: nat, b: nat) returns (r: nat)
    requires b > 0
    ensures r == Gcd(a, b) && r > 0
  {
    var x, y := a, b;
    var c := x % y;
    while c != 0
      invariant y > 0 && c == x % y
      invariant Gcd(x, y) == Gcd(a, b)
      decreases c
    {
      x := y;
      y := c;
      c := x % y;
    }
    r := y;
  }

  /** One move of the cycle walk in permute_args (relative position). */
  function Step(x: int, a: nat, b: nat): int
  {
    if x >= a then x - a else x + b
  }

  /** The relative position reached after k moves from c. */
  function CyclePos(c: int, k: nat, a: nat, b: nat): int
  {
    if k == 0 then c else Step(CyclePos(c, k - 1, a, b), a, b)
  }

  /** Where the value that ends at relative position x comes from. */
  function Rot(x: int, a: nat, b: nat): int
  {
    if x < b then x + a else x - b
  }

  /** The quantities permute_args derives from the block lengths a and b:
      g = gcd(a, b) cycles (ncycle) of K = (a + b) / g positions (cyclelen). */
  ghost predicate CycleShape(a: nat, b: nat, g: int, K: int)
  {
    b > 0 && g == Gcd(a, b) && K == (a + b) / g
  }

  lemma CycleCounts(a: nat, b: nat, g: int, K: int)
    requires CycleShape(a, b, g, K)
    ensures g > 0 && Divides(g, a) && Divides(g, b) && Divides(g, a + b)
    ensures K * g == a + b && K >= 1 && g <= b
  {
    GcdDivides(a, b);
    DividesSum(g, a, b);
    assert a + b == K * g + 0;
    if g > b {
      DivModUnique(b, g, 0, b);
    }
    if K <= 0 {
      ProductAtMostZero(K, g);
    }
  }

  lemma StepInRange(x: int, a: nat, b: nat)
    requires b > 0 && 0 <= x < a + b
    ensures 0 <= Step(x, a, b) < a + b
    ensures Step(x, a, b) == (x - a) % (a + b)
    ensures Rot(Step(x, a, b), a, b) == x
  {
    var L := a + b;
    if x >= a {
      DivModUnique(x - a, L, 0, x - a);
      DivModUnique(x, L, 0, x);
    } else {
      DivModUnique(x - a, L, -1, x + b);
      DivModUnique(x + L, L, 1, x);
    }
  }

  lemma {:induction false} CyclePosInRange(c: int, k: nat, a: nat, b: nat)
    requires b > 0 && 0 <= c < a + b
    ensures 0 <= CyclePos(c, k, a, b) < a + b
  {
    if k > 0 {
      CyclePosInRange(c, k - 1, a, b);
      StepInRange(CyclePos(c, k - 1, a, b), a, b);
    }
  }

  /** Closed form of the walk: k moves subtract k * a modulo L. */
  lemma {:induction false} CyclePosClosed(c: int, k: nat, a: nat, b: nat)
    requires b > 0 && 0 <= c < a + b
    ensures CyclePos(c, k, a, b) == (c - k * a) % (a + b)
  {
    var L := a + b;
    if k == 0 {
      DivModUnique(c, L, 0, c);
    } else {
      var p := CyclePos(c, k - 1, a, b);
      var y := c - (k - 1) * a;
      CyclePosClosed(c, k - 1, a, b);
      CyclePosInRange(c, k - 1, a, b);
      StepInRange(p, a, b);
      ProductStep(k, a);
      assert c - k * a == y - a;
      SubMod(y, a, L);
      assert (y - a) % L == (p - a) % L;
    }
  }

  /** Every position on the cycle from c is congruent to c modulo g. */
  lemma {:induction false} CyclePosClass(c: int, k: nat, a: nat, b: nat, g: int, K: int)
    requires CycleShape(a, b, g, K)
    ensures CycleShape(a, b, g, K) && CyclePos(c, k, a, b) % g == c % g
  {
    CycleCounts(a, b, g, K);
    if k > 0 {
      CyclePosClass(c, k - 1, a, b, g, K);
      var p := CyclePos(c, k - 1, a, b);
      if p >= a {
        DividesSum(g, 0, a);
        SameModIffDivides(p - a, p, g);
      } else {
        SameModIffDivides(p + b, p, g);
      }
    }
  }

  /** Rotating by a stays in range and keeps the class modulo g. */
  lemma RotClass(x: int, a: nat, b: nat, g: int, K: int)
    requires CycleShape(a, b, g, K) && 0 <= x < a + b
    ensures CycleShape(a, b, g, K)
    ensures 0 <= Rot(x, a, b) < a + b && Rot(x, a, b) % g == x % g
  {
    CycleCounts(a, b, g, K);
    if x < b {
      SameModIffDivides(x + a, x, g);
    } else {
      SameModIffDivides(x - b, x, g);
      DividesSum(g, 0, b);
    }
  }

  /** Subtracting a fewer than K times, modulo L, never gives back the start. */
  lemma MinimalPeriod(a: nat, b: nat, g: int, K: int, m: int)
    requires CycleShape(a, b, g, K) && 0 < m < K
    ensures (m * a) % (a + b) != 0
  {
    CycleCounts(a, b, g, K);
    var L := a + b;
    var x, y := BezoutSum(a, b);
    if (m * a) % L == 0 {
      var q := (m * a) / L;
      assert m * a == q * L;
      var z := x * q + m * y;
      ScaleBezout(m, a, L, g, x, y, q);
      assert z * L == (z * K) * g by {
        assert z * L == z * (K * g);
      }
      CancelFactor(m, z * K, g);
      if z >= 1 {
        ProductAtLeast(z, K);
      } else {
        ProductAtMostZero(z, K);
      }
    }
  }

  /** The K positions of the cycle from c are pairwise distinct. */
  lemma CycleDistinct(c: int, k1: nat, k2: nat, a: nat, b: nat, g: int, K: int)
    requires CycleShape(a, b, g, K) && 0 <= c < a + b && k1 < k2 < K
    ensures CyclePos(c, k1, a, b) != CyclePos(c, k2, a, b)
  {
    var L := a + b;
    CyclePosClosed(c, k1, a, b);
    CyclePosClosed(c, k2, a, b);
    if CyclePos(c, k1, a, b) == CyclePos(c, k2, a, b) {
      SameModIffDivides(c - k1 * a, c - k2 * a, L);
      assert (c - k1 * a) - (c - k2 * a) == (k2 - k1) * a;
      MinimalPeriod(a, b, g, K, k2 - k1);
    }
  }

  /** After K moves the walk is back where it started. */
  lemma CycleCloses(c: int, a: nat, b: nat, g: int, K: int)
    requires CycleShape(a, b, g, K) && 0 <= c < a + b
    ensures CyclePos(c, K, a, b) == c
  {
    CycleCounts(a, b, g, K);
    var L := a + b;
    var A := a / g;
    assert a == A * g;
    CrossMultiple(a, A, g, K, L);
    CyclePosClosed(c, K, a, b);
    assert c - K * a == c + (-A) * L;
    ModAddMultiple(c, -A, L);
    DivModUnique(c, L, 0, c);
  }

  /** Every position congruent to c modulo g lies on the cycle from c. */
  lemma CycleCovers(c: int, t: int, a: nat, b: nat, g: int, K: int) returns (k: nat)
    requires CycleShape(a, b, g, K) && 0 <= c < a + b && 0 <= t < a + b
    requires t % g == c % g
    ensures k < K && CyclePos(c, k, a, b) == t
  {
    CycleCounts(a, b, g, K);
    var L := a + b;
    var z;
    k, z := CoverMultiplier(c, t, a, b, g, K);
    CyclePosClosed(c, k, a, b);
    ModAddMultiple(t, z, L);
    DivModUnique(t, L, 0, t);
  }

  /** The number of moves that carries c to t, found from Bezout's identity. */
  lemma CoverMultiplier(c: int, t: int, a: nat, b: nat, g: int, K: int) returns (k: nat, z: int)
    requires CycleShape(a, b, g, K) && t % g == c % g
    ensures k < K && c - k * a == t + z * (a + b)
  {
    CycleCounts(a, b, g, K);
    var L := a + b;
    var x, y := BezoutSum(a, b);
    SameModIffDivides(c, t, g);
    var D := (c - t) / g;
    assert c - t == D * g;
    ScaleIdentity(x, a, y, L, g, D, c - t);
    var k0 := x * D;
    k := k0 % K;
    var w := k0 / K;
    assert k0 == w * K + k;
    var A := a / g;
    assert a == A * g;
    CrossMultiple(a, A, g, K, L);
    ReduceMultiplier(k0, k, w, K, a, A, L);
    z := D * y + w * A;
    SumTimes(D * y, w * A, L);
    var P0, P1, P2, P3 := k0 * a, k * a, (D * y) * L, (w * A) * L;
    assert P0 == (c - t) - P2;
    assert P1 == P0 - P3;
    assert c - P1 == t + (P2 + P3);
  }

  /** Position k of the walk P is one Step after position k - 1.  Links are
      named so that a fact about one link does not produce the next. */
  ghost predicate Linked(P: seq<int>, k: int, a: nat, b: nat)
  {
    1 <= k < |P| && P[k] == Step(P[k - 1], a, b)
  }

  /** The rotation sends position k of the walk P back to position k - 1. */
  ghost predicate RotLinked(P: seq<int>, k: int, a: nat, b: nat)
  {
    1 <= k < |P| && Rot(P[k], a, b) == P[k - 1]
  }

  /** P lists the walk of permute_args from c: K distinct positions in [0, L),
      each one Step after the previous, with one more Step closing back at c. */
  ghost predicate IsWalk(P: seq<int>, c: int, a: nat, b: nat, K: int)
  {
    K >= 1 && |P| == K && P[0] == c &&
    (forall k :: 0 <= k < K ==> 0 <= P[k] < a + b) &&
    (forall k :: 1 <= k < K ==> Linked(P, k, a, b)) &&
    Step(P[K - 1], a, b) == c &&
    (forall k1, k2 :: 0 <= k1 < k2 < K ==> P[k1] != P[k2])
  }

  /** The walk from c is the orbit of class i: every position on it lies in
      class i, every position of class i lies on it, and the rotation sends
      each position back to the one before it. */
  ghost predicate IsOrbit(P: seq<int>, c: int, a: nat, b: nat, g: int, K: int, i: int)
  {
    g > 0 && IsWalk(P, c, a, b, K) &&
    (forall k :: 0 <= k < K ==> Residue(P[k], g) == i) &&
    (forall k :: 1 <= k < K ==> RotLinked(P, k, a, b)) &&
    Rot(c, a, b) == P[K - 1] &&
    (forall t: nat :: t < a + b && Residue(t, g) == i ==> t in P)
  }

  /** The start of cycle i, nonoptEnd + i, lies in class i. */
  lemma CycleStartClass(a: nat, b: nat, g: int, K: int, i: int)
    requires CycleShape(a, b, g, K) && 0 <= i < g
    ensures 0 <= a + i < a + b && (a + i) % g == i
  {
    CycleCounts(a, b, g, K);
    var A := a / g;
    assert a == A * g;
    ModAddMultiple(i, A, g);
    DivModUnique(i, g, 0, i);
  }

  /** P lists the positions the inner loop of permute_args visits from c, in order. */
  ghost predicate Visits(P: seq<int>, c: int, a: nat, b: nat, K: int)
  {
    |P| == K && forall k :: 0 <= k < K ==> P[k] == CyclePos(c, k, a, b)
  }

  lemma VisitsExist(c: int, a: nat, b: nat, K: nat) returns (P: seq<int>)
    ensures Visits(P, c, a, b, K)
  {
    P := seq(K, k requires 0 <= k => CyclePos(c, k, a, b));
  }

  lemma WalkInClass(P: seq<int>, a: nat, b: nat, g: int, K: int, i: int)
    requires CycleShape(a, b, g, K) && 0 <= i < g && Visits(P, a + i, a, b, K)
    ensures g > 0 && K >= 1
    ensures forall k :: 0 <= k < K ==> 0 <= P[k] < a + b && Residue(P[k], g) == i
  {
    CycleCounts(a, b, g, K);
    CycleStartClass(a, b, g, K, i);
    forall k | 0 <= k < K
      ensures 0 <= P[k] < a + b && Residue(P[k], g) == i
    {
      CyclePosInRange(a + i, k, a, b);
      CyclePosClass(a + i, k, a, b, g, K);
      ResidueIsMod(P[k], g);
    }
  }

  lemma WalkLinks(P: seq<int>, a: nat, b: nat, g: int, K: int, i: int)
    requires CycleShape(a, b, g, K) && 0 <= i < g && Visits(P, a + i, a, b, K)
    ensures K >= 1
    ensures forall k :: 1 <= k < K ==> Linked(P, k, a, b) && RotLinked(P, k, a, b)
    ensures Step(P[K - 1], a, b) == a + i && Rot(a + i, a, b) == P[K - 1]
  {
    CycleCounts(a, b, g, K);
    CycleStartClass(a, b, g, K, i);
    var c := a + i;
    forall k | 1 <= k < K
      ensures Linked(P, k, a, b) && RotLinked(P, k, a, b)
    {
      CyclePosInRange(c, k - 1, a, b);
      StepInRange(P[k - 1], a, b);
    }
    CycleCloses(c, a, b, g, K);
    CyclePosInRange(c, K - 1, a, b);
    StepInRange(P[K - 1], a, b);
  }

  lemma WalkDistinct(P: seq<int>, a: nat, b: nat, g: int, K: int, i: int)
    requires CycleShape(a, b, g, K) && 0 <= i < g && Visits(P, a + i, a, b, K)
    ensures forall k1, k2 :: 0 <= k1 < k2 < K ==> P[k1] != P[k2]
  {
    CycleStartClass(a, b, g, K, i);
    forall k1, k2 | 0 <= k1 < k2 < K
      ensures P[k1] != P[k2]
    {
      CycleDistinct(a + i, k1, k2, a, b, g, K);
    }
  }

  lemma WalkCovers(P: seq<int>, a: nat, b: nat, g: int, K: int, i: int)
    requires CycleShape(a, b, g, K) && 0 <= i < g && Visits(P, a + i, a, b, K)
    ensures forall t: nat :: t < a + b && Residue(t, g) == i ==> t in P
  {
    CycleStartClass(a, b, g, K, i);
    forall t: nat | t < a + b && Residue(t, g) == i
      ensures t in P
    {
      ResidueIsMod(t, g);
      var k := CycleCovers(a + i, t, a, b, g, K);
      assert P[k] == t;
    }
  }

  /** Collects the separately proved facts about a walk into IsOrbit. */
  lemma OrbitFromFacts(P: seq<int>, c: int, a: nat, b: nat, g: int, K: int, i: int)
    requires g > 0 && K >= 1 && |P| == K && P[0] == c
    requires forall k :: 0 <= k < K ==> 0 <= P[k] < a + b && Residue(P[k], g) == i
    requires forall k :: 1 <= k < K ==> Linked(P, k, a, b) && RotLinked(P, k, a, b)
    requires Step(P[K - 1], a, b) == c && Rot(c, a, b) == P[K - 1]
    requires forall k1, k2 :: 0 <= k1 < k2 < K ==> P[k1] != P[k2]
    requires forall t: nat :: t < a + b && Residue(t, g) == i ==> t in P
    ensures IsOrbit(P, c, a, b, g, K, i)
  {
  }

  /** The walk of permute_args from nonoptEnd + i is the orbit of class i. */
  lemma CycleOrbit(a: nat, b: nat, g: int, K: int, i: int) returns (P: seq<int>)
    requires CycleShape(a, b, g, K) && 0 <= i < g
    ensures IsOrbit(P, a + i, a, b, g, K, i)
  {
    CycleCounts(a, b, g, K);
    P := VisitsExist(a + i, a, b, K);
    WalkInClass(P, a, b, g, K, i);
    WalkLinks(P, a, b, g, K, i);
    WalkDistinct(P, a, b, g, K, i);
    WalkCovers(P, a, b, g, K, i);
    OrbitFromFacts(P, a + i, a, b, g, K, i);
  }

  /** Every position of the walk P, offset by start, is an index below n, and
      no position is visited twice. */
  ghost predicate Fits(P: seq<int>, start: int, n: int)
  {
    |P| >= 1 && 0 <= start &&
    (forall k :: 0 <= k < |P| ==> 0 <= P[k] && start + P[k] < n) &&
    (forall k1, k2 :: 0 <= k1 < k2 < |P| ==> P[k1] != P[k2])
  }

  lemma WalkFits(P: seq<int>, c: int, a: nat, b: nat, K: int, start: int, n: int)
    requires IsWalk(P, c, a, b, K) && 0 <= start && start + a + b <= n
    ensures Fits(P, start, n)
  {
  }

  /** Position k of the walk P (offset by start) holds in after the value
      position k - 1 held in before. */
  ghost predicate Moved<T>(after: seq<T>, before: seq<T>, P: seq<int>, start: int, k: int)
  {
    1 <= k < |P| && 0 <= start + P[k] < |after| && 0 <= start + P[k - 1] < |before| &&
    after[start + P[k]] == before[start + P[k - 1]]
  }

  /** after is before with each position of the walk P (offset by start)
      holding the value of the one before it, the first holding the last's. */
  ghost predicate ShiftedAlong<T>(before: seq<T>, after: seq<T>, P: seq<int>, start: int)
  {
    |after| == |before| && Fits(P, start, |before|) &&
    (forall t :: 0 <= t < |after| && (t < start || t - start !in P) ==> after[t] == before[t]) &&
    (forall k :: 1 <= k < |P| ==> Moved(after, before, P, start, k)) &&
    after[start + P[0]] == before[start + P[|P| - 1]]
  }

  /** The state of argv after j swaps of the inner loop along the walk P:
      positions 1..j of the walk hold their predecessors' values, the start
      holds the value of position j, and everything else is as it was. */
  ghost predicate WalkedTo<T>(s: seq<T>, orig: seq<T>, P: seq<int>, start: int, j: int)
  {
    |s| == |orig| && 0 <= j <= |P| && Fits(P, start, |s|) &&
    (forall t :: 0 <= t < |s| && (t < start || t - start !in P) ==> s[t] == orig[t]) &&
    (forall k :: 1 <= k <= j && k < |P| ==> Moved(s, orig, P, start, k)) &&
    (forall k :: j < k < |P| ==> s[start + P[k]] == orig[start + P[k]]) &&
    s[start + P[0]] == orig[start + P[if j < |P| then j else |P| - 1]]
  }

  /** One swap of the inner loop, between the next position of the walk and
      the start, advances WalkedTo by one. */
  lemma WalkStep<T>(s: seq<T>, orig: seq<T>, P: seq<int>, start: int, j: int, x: int, y: int)
    requires WalkedTo(s, orig, P, start, j) && j < |P|
    requires x == start + P[if j + 1 < |P| then j + 1 else 0] && y == start + P[0]
    ensures WalkedTo(s[x := s[y]][y := s[x]], orig, P, start, j + 1)
  {
    var n := |P|;
    if j + 1 < n {
      var r := s[x := s[y]][y := s[x]];
      assert P[0] != P[j + 1];
      forall t | 0 <= t < |r| && (t < start || t - start !in P)
        ensures r[t] == orig[t]
      {
        assert P[j + 1] in P && P[0] in P;
      }
      forall k | 1 <= k <= j
        ensures Moved(r, orig, P, start, k)
      {
        assert Moved(s, orig, P, start, k);
        assert P[k] != P[j + 1] && P[k] != P[0];
      }
      assert Moved(r, orig, P, start, j + 1);
      forall k | j + 1 < k < n
        ensures r[start + P[k]] == orig[start + P[k]]
      {
        assert P[k] != P[j + 1] && P[k] != P[0];
      }
      assert r[start + P[0]] == orig[start + P[j + 1]];
      assert WalkedTo(r, orig, P, start, j + 1);
    } else {
      assert s[x := s[y]][y := s[x]] == s;
    }
  }

  /** After all swaps of the inner loop, the values moved one step along the walk. */
  lemma WalkDone<T>(s: seq<T>, orig: seq<T>, P: seq<int>, start: int)
    requires WalkedTo(s, orig, P, start, |P|)
    ensures ShiftedAlong(orig, s, P, start)
  {
  }

  /** From argv index pos = start + P[j], the inner loop's update of pos
      reaches the next position of the walk, wrapping round to P[0]. */
  lemma WalkNext(P: seq<int>, start: int, mid: int, end: int, i: int, K: int, j: int, pos: int)
    requires start <= mid < end && IsWalk(P, mid - start + i, mid - start, end - mid, K)
    requires 0 <= j < K && pos == start + P[j]
    ensures pos >= mid ==> pos - (mid - start) == start + P[if j + 1 < K then j + 1 else 0]
    ensures pos < mid ==> pos + (end - mid) == start + P[if j + 1 < K then j + 1 else 0]
  {
    if j + 1 < K {
      assert Linked(P, j + 1, mid - start, end - mid);
    }
  }

  /** One iteration of the inner loop of permute_args: advance pos along the
      walk and swap it with the cycle start. */
  method FollowStep<T>(argv: array<T>, start: int, mid: int, end: int, i: int, pos: int, ghost j: int,
                       ghost P: seq<int>, ghost orig: seq<T>) returns (next: int)
    requires start <= mid < end && IsWalk(P, mid - start + i, mid - start, end - mid, |P|)
    requires WalkedTo(argv[..], orig, P, start, j) && j < |P| && pos == start + P[j]
    modifies argv
    ensures WalkedTo(argv[..], orig, P, start, j + 1)
    ensures j + 1 < |P| ==> next == start + P[j + 1]
  {
    WalkNext(P, start, mid, end, i, |P|, j, pos);
    next := pos;
    if next >= mid {
      next := next - (mid - start);
    } else {
      next := next + (end - mid);
    }
    var cstart := mid + i;
    ghost var before := argv[..];
    argv[next], argv[cstart] := argv[cstart], argv[next];
    assert argv[..] == before[next := before[cstart]][cstart := before[next]];
    WalkStep(before, orig, P, start, j, next, cstart);
  }

  /** One pass of the inner loop of permute_args: the walk P from position
      nonoptEnd + i.  Each position of the walk receives the value of the one
      before it (the start receives the last one's); nothing else changes. */
  method FollowCycle<T>(argv: array<T>, start: int, mid: int, end: int, cyclelen: int, i: int, ghost P: seq<int>)
    requires 0 <= start <= mid < end <= argv.Length && 0 <= i
    requires IsWalk(P, mid - start + i, mid - start, end - mid, cyclelen)
    modifies argv
    ensures ShiftedAlong(old(argv[..]), argv[..], P, start)
  {
    WalkFits(P, mid - start + i, mid - start, end - mid, cyclelen, start, argv.Length);
    ghost var K := cyclelen;
    ghost var orig := argv[..];
    var pos := mid + i;
    var j := 0;
    while j < cyclelen
      invariant 0 <= j <= K
      invariant j < K ==> pos == start + P[j]
      invariant WalkedTo(argv[..], orig, P, start, j)
    {
      pos := FollowStep(argv, start, mid, end, i, pos, j, P, orig);
      j := j + 1;
    }
    WalkDone(argv[..], orig, P, start);
  }

  /** The state of argv after the first i cycles of permute_args: classes
      below i are rotated, the rest of argv is as it was. */
  ghost predicate RotatedBelow<T>(s: seq<T>, orig: seq<T>, start: int, a: nat, b: nat, g: int, i: int)
    requires 0 <= start && start + a + b <= |s| == |orig| && g > 0 && b > 0
  {
    (forall t :: 0 <= t < |s| && !(start <= t < start + a + b) ==> s[t] == orig[t]) &&
    (forall t :: start <= t < start + a + b && Residue(t - start, g) < i ==>
       s[t] == orig[start + Rot(t - start, a, b)]) &&
    (forall t :: start <= t < start + a + b && Residue(t - start, g) >= i ==> s[t] == orig[t])
  }

  /** Once each position of the orbit of class i holds its predecessor's value,
      class i is rotated and nothing else moved. */
  lemma CycleResult<T>(before: seq<T>, after: seq<T>, P: seq<int>, start: int, a: nat, b: nat, g: int, K: int, i: int)
    requires 0 <= start && start + a + b <= |after| == |before|
    requires IsOrbit(P, a + i, a, b, g, K, i)
    requires ShiftedAlong(before, after, P, start)
    ensures forall t :: 0 <= t < |after| && !(start <= t < start + a + b && Residue(t - start, g) == i) ==>
              after[t] == before[t]
    ensures forall t :: start <= t < start + a + b && Residue(t - start, g) == i ==>
              after[t] == before[start + Rot(t - start, a, b)]
  {
    forall t | 0 <= t < |after| && !(start <= t < start + a + b && Residue(t - start, g) == i)
      ensures after[t] == before[t]
    {
      if t >= start && t - start in P {
        assert false;
      }
    }
    forall t | start <= t < start + a + b && Residue(t - start, g) == i
      ensures after[t] == before[start + Rot(t - start, a, b)]
    {
      assert t - start in P;
      var k :| 0 <= k < K && P[k] == t - start;
      if k >= 1 {
        assert Moved(after, before, P, start, k) && RotLinked(P, k, a, b);
      }
    }
  }

  /** Following cycle i on a state rotated below i gives one rotated below i + 1. */
  lemma ClassStep<T>(before: seq<T>, after: seq<T>, orig: seq<T>, P: seq<int>, start: int, a: nat, b: nat, g: int, K: int, i: int)
    requires 0 <= start && start + a + b <= |orig| == |before| == |after| && 0 <= i && b > 0
    requires IsOrbit(P, a + i, a, b, g, K, i)
    requires RotatedBelow(before, orig, start, a, b, g, i)
    requires ShiftedAlong(before, after, P, start)
    ensures RotatedBelow(after, orig, start, a, b, g, i + 1)
  {
    CycleResult(before, after, P, start, a, b, g, K, i);
    forall t | start <= t < start + a + b && Residue(t - start, g) == i
      ensures after[t] == orig[start + Rot(t - start, a, b)]
    {
      assert t - start in P;
      var k :| 0 <= k < K && P[k] == t - start;
      var src := if k >= 1 then P[k - 1] else P[K - 1];
      if k >= 1 {
        assert RotLinked(P, k, a, b);
      }
      assert Rot(t - start, a, b) == src;
      assert Residue(src, g) == i;
    }
  }

  /** A sequence that agrees with s outside [start, end) and takes each position
      of [start, end) from its rotation source is the block exchange. */
  lemma RotationIsExchange<T>(s: seq<T>, r: seq<T>, start: nat, mid: nat, end: nat)
    requires start <= mid < end <= |s| == |r|
    requires forall t :: 0 <= t < |s| && !(start <= t < end) ==> r[t] == s[t]
    requires forall t :: start <= t < end ==> r[t] == s[start + Rot(t - start, mid - start, end - mid)]
    ensures r == Exchanged(s, start, mid, end)
  {
    var e := Exchanged(s, start, mid, end);
    forall t | 0 <= t < |s| ensures r[t] == e[t] {
      ExchangedAt(s, start, mid, end, t);
      if start <= t < end {
        assert r[t] == s[start + Rot(t - start, mid - start, end - mid)];
      }
    }
  }

  /** After all g classes are rotated, argv holds the block exchange. */
  lemma AllRotated<T>(s: seq<T>, orig: seq<T>, start: nat, mid: nat, end: nat, a: nat, b: nat, g: int)
    requires start <= mid < end <= |s| == |orig| && a == mid - start && b == end - mid && g > 0
    requires RotatedBelow(s, orig, start, a, b, g, g)
    ensures s == Exchanged(orig, start, mid, end)
  {
    RotationIsExchange(orig, s, start, mid, end);
  }

  /** `permute_args`: exchange the block [nonoptStart, nonoptEnd) with the
      block [nonoptEnd, optEnd), each keeping its order, by following the
      gcd(a, b) cycles of the rotation. */
  method PermuteArgs<T>(nonoptStart: int, nonoptEnd: int, optEnd: int, argv: array<T>)
    requires 0 <= nonoptStart <= nonoptEnd < optEnd <= argv.Length
    modifies argv
    ensures argv[..] == Exchanged(old(argv[..]), nonoptStart, nonoptEnd, optEnd)
  {
    var nnonopts := nonoptEnd - nonoptStart;
    var nopts := optEnd - nonoptEnd;
    var ncycle := ComputeGcd(nnonopts, nopts);
    var cyclelen := (optEnd - nonoptStart) / ncycle;
    ghost var orig := argv[..];

    var i := 0;
    while i < ncycle
      invariant 0 <= i <= ncycle
      invariant RotatedBelow(argv[..], orig, nonoptStart, nnonopts, nopts, ncycle, i)
    {
      ghost var before := argv[..];
      ghost var P := CycleOrbit(nnonopts, nopts, ncycle, cyclelen, i);
      FollowCycle(argv, nonoptStart, nonoptEnd, optEnd, cyclelen, i, P);
      ClassStep(before, argv[..], orig, P, nonoptStart, nnonopts, nopts, ncycle, cyclelen, i);
      i := i + 1;
    }
    AllRotated(argv[..], orig, nonoptStart, nonoptEnd, optEnd, nnonopts, nopts, ncycle);
  }
}
