/** The last stage of n_way_compare (DupeHunter.cpp 162-179): the matrix is
    turned into duplicate sets by a greedy pass. Each file not yet used heads
    a set holding it and every later file still paired with it; those files
    are marked used, and a set is kept only when it holds two files or more. */
module Grouping {
  import opened Compare

  /** The files after i and before hi still paired with i, in increasing
      order. */
  function Linked(cmp: Matrix, i: nat, hi: nat): (js: seq<nat>)
    requires Triangular(cmp) && i < |cmp| && hi <= |cmp|
    ensures forall t :: 0 <= t < |js| ==> i < js[t] < hi
    decreases hi
  {
    if hi <= i + 1 then []
    else Linked(cmp, i, hi - 1) + (if Cell(cmp, i, hi - 1) then [hi - 1] else [])
  }

  /** Linked lists exactly the paired files, each once, in increasing order. */
  lemma {:induction false} LinkedIff(cmp: Matrix, i: nat, hi: nat)
    requires Triangular(cmp) && i < |cmp| && hi <= |cmp|
    ensures forall j :: j in Linked(cmp, i, hi) <==> i < j < hi && Cell(cmp, i, j)
    ensures forall s, t :: 0 <= s < t < |Linked(cmp, i, hi)| ==> Linked(cmp, i, hi)[s] < Linked(cmp, i, hi)[t]
    decreases hi
  {
    if hi > i + 1 {
      LinkedIff(cmp, i, hi - 1);
    }
  }

  /** already_used after the files in js are marked. */
  function Mark(used: seq<bool>, js: seq<nat>): (r: seq<bool>)
    ensures |r| == |used|
  {
    seq(|used|, k requires 0 <= k < |used| => used[k] || k in js)
  }

  /** Every index in every group is below n. */
  predicate InRange(gs: seq<seq<nat>>, n: nat)
  {
    forall k, t :: 0 <= k < |gs| && 0 <= t < |gs[k]| ==> gs[k][t] < n
  }

  /** The duplicate sets, as index lists, that the pass from file i on
      emits, given already_used. */
  function Groups(cmp: Matrix, used: seq<bool>, i: nat): (gs: seq<seq<nat>>)
    requires Triangular(cmp) && |used| == |cmp|
    ensures InRange(gs, |cmp|)
    decreases |cmp| - i
  {
    if i + 1 >= |cmp| then []
    else if used[i] then Groups(cmp, used, i + 1)
    else
      var js := Linked(cmp, i, |cmp|);
      (if |js| > 0 then [[i] + js] else []) + Groups(cmp, Mark(used, js), i + 1)
  }

  /** The names of the files a group lists. */
  function Pick(names: seq<string>, g: seq<nat>): (r: seq<string>)
    requires forall t :: 0 <= t < |g| ==> g[t] < |names|
    ensures |r| == |g|
  {
    seq(|g|, t requires 0 <= t < |g| => names[g[t]])
  }

  function NamesOf(names: seq<string>, gs: seq<seq<nat>>): (r: seq<seq<string>>)
    requires InRange(gs, |names|)
    ensures |r| == |gs|
  {
    seq(|gs|, k requires 0 <= k < |gs| => Pick(names, gs[k]))
  }

  /** The inner loop of DupeHunter.cpp 166-171 for head i: the set starts
      with names[i] and takes every later file still paired with i, marking
      each one used. */
  method CollectLinked(names: seq<string>, cmp: Matrix, i: nat, used: seq<bool>)
    returns (duplicates: seq<string>, marked: seq<bool>)
    requires Triangular(cmp) && |cmp| == |names| == |used| && i < |cmp|
    ensures duplicates == Pick(names, [i] + Linked(cmp, i, |cmp|))
    ensures marked == Mark(used, Linked(cmp, i, |cmp|))
  {
    var n := |cmp|;
    duplicates, marked := [names[i]], used;
    for j := i + 1 to n
      invariant duplicates == Pick(names, [i] + Linked(cmp, i, j))
      invariant marked == Mark(used, Linked(cmp, i, j))
    {
      if Cell(cmp, i, j) {
        marked := marked[j := true];
        duplicates := duplicates + [names[j]];
      }
    }
  }

  /** The grouping pass of n_way_compare: the sets it builds are the names
      of Groups from file 0 with nothing used. */
  method GroupDuplicates(names: seq<string>, cmp: Matrix) returns (sets: seq<seq<string>>)
    requires Triangular(cmp) && |cmp| == |names|
    ensures sets == NamesOf(names, Groups(cmp, seq(|names|, _ => false), 0))
  {
    var n := |names|;
    var used := seq(n, _ => false);
    sets := [];
    ghost var gs: seq<seq<nat>> := [];
    var i := 0;
    while i + 1 < n
      invariant |used| == n && InRange(gs, n)
      invariant sets == NamesOf(names, gs)
      invariant gs + Groups(cmp, used, i) == Groups(cmp, seq(n, _ => false), 0)
      decreases n - i
    {
      GroupsAdvance(cmp, used, i, gs);
      if !used[i] {
        ghost var js := Linked(cmp, i, n);
        var duplicates;
        duplicates, used := CollectLinked(names, cmp, i, used);
        if |duplicates| > 1 {
          NamesOfSnoc(names, gs, [i] + js);
          gs, sets := gs + [[i] + js], sets + [duplicates];
        }
      }
      i := i + 1;
    }
  }

  /** One step of the pass: file i either is skipped or emits its set. */
  lemma GroupsAdvance(cmp: Matrix, used: seq<bool>, i: nat, gs: seq<seq<nat>>)
    requires Triangular(cmp) && |used| == |cmp| && i + 1 < |cmp|
    ensures used[i] ==> gs + Groups(cmp, used, i) == gs + Groups(cmp, used, i + 1)
    ensures !used[i] && |Linked(cmp, i, |cmp|)| == 0 ==>
              gs + Groups(cmp, used, i) == gs + Groups(cmp, Mark(used, Linked(cmp, i, |cmp|)), i + 1)
    ensures !used[i] && |Linked(cmp, i, |cmp|)| > 0 ==>
              gs + Groups(cmp, used, i) ==
              (gs + [[i] + Linked(cmp, i, |cmp|)]) + Groups(cmp, Mark(used, Linked(cmp, i, |cmp|)), i + 1)
  {
    if !used[i] {
      var js := Linked(cmp, i, |cmp|);
      var rest := Groups(cmp, Mark(used, js), i + 1);
      if |js| > 0 {
        assert Groups(cmp, used, i) == [[i] + js] + rest;
        assert gs + ([[i] + js] + rest) == (gs + [[i] + js]) + rest;
      } else {
        assert Groups(cmp, used, i) == [] + rest;
      }
    }
  }

  /** Naming one more group appends its names. */
  lemma NamesOfSnoc(names: seq<string>, gs: seq<seq<nat>>, g: seq<nat>)
    requires InRange(gs, |names|) && forall t :: 0 <= t < |g| ==> g[t] < |names|
    ensures InRange(gs + [g], |names|)
    ensures NamesOf(names, gs + [g]) == NamesOf(names, gs) + [Pick(names, g)]
  {
    assert InRange(gs + [g], |names|) by {
      forall k, t | 0 <= k < |gs + [g]| && 0 <= t < |(gs + [g])[k]|
        ensures (gs + [g])[k][t] < |names|
      {
        if k < |gs| {
          assert (gs + [g])[k] == gs[k];
        }
      }
    }
  }

  /** Each set has two files or more; its head h comes from i on and is
      not used, and the rest are exactly the later files paired with h, in
      increasing order. Heads increase from set to set. */
  ghost predicate Shaped(cmp: Matrix, used: seq<bool>, i: nat, gs: seq<seq<nat>>)
    requires Triangular(cmp) && |used| == |cmp|
  {
    (forall k :: 0 <= k < |gs| ==>
       |gs[k]| >= 2 && i <= gs[k][0] < |cmp| && !used[gs[k][0]] &&
       gs[k] == [gs[k][0]] + Linked(cmp, gs[k][0], |cmp|)) &&
    (forall k, l :: 0 <= k < l < |gs| && |gs[k]| > 0 && |gs[l]| > 0 ==> gs[k][0] < gs[l][0])
  }

  /** Every set the pass emits is Shaped. */
  lemma {:induction false} GroupsShape(cmp: Matrix, used: seq<bool>, i: nat)
    requires Triangular(cmp) && |used| == |cmp|
    ensures Shaped(cmp, used, i, Groups(cmp, used, i))
    decreases |cmp| - i
  {
    if i + 1 < |cmp| {
      if used[i] {
        GroupsShape(cmp, used, i + 1);
        ShapedSkip(cmp, used, i);
      } else {
        GroupsShape(cmp, Mark(used, Linked(cmp, i, |cmp|)), i + 1);
        ShapedHead(cmp, used, i);
      }
    }
  }

  /** The step of GroupsShape past a used file. */
  lemma ShapedSkip(cmp: Matrix, used: seq<bool>, i: nat)
    requires Triangular(cmp) && |used| == |cmp| && i + 1 < |cmp| && used[i]
    requires Shaped(cmp, used, i + 1, Groups(cmp, used, i + 1))
    ensures Shaped(cmp, used, i, Groups(cmp, used, i))
  {
    var rest := Groups(cmp, used, i + 1);
    assert Groups(cmp, used, i) == rest;
    ShapedWeaken(cmp, used, used, i, rest);
  }

  /** The step of GroupsShape at a file that heads a set when it has
      partners. */
  lemma ShapedHead(cmp: Matrix, used: seq<bool>, i: nat)
    requires Triangular(cmp) && |used| == |cmp| && i + 1 < |cmp| && !used[i]
    requires Shaped(cmp, Mark(used, Linked(cmp, i, |cmp|)), i + 1, Groups(cmp, Mark(used, Linked(cmp, i, |cmp|)), i + 1))
    ensures Shaped(cmp, used, i, Groups(cmp, used, i))
  {
    var js := Linked(cmp, i, |cmp|);
    var marked := Mark(used, js);
    var rest := Groups(cmp, marked, i + 1);
    MarkGrows(used, js);
    ShapedWeaken(cmp, used, marked, i, rest);
    if |js| > 0 {
      assert Groups(cmp, used, i) == [[i] + js] + rest;
      ShapedCons(cmp, used, i, [i] + js, rest);
    } else {
      assert Groups(cmp, used, i) == [] + rest;
    }
  }

  /** Marking only adds used files. */
  lemma MarkGrows(used: seq<bool>, js: seq<nat>)
    ensures forall k :: 0 <= k < |used| && used[k] ==> Mark(used, js)[k]
  {
  }

  /** Shaped survives fewer used files and an earlier start. */
  lemma ShapedWeaken(cmp: Matrix, used: seq<bool>, later: seq<bool>, i: nat, gs: seq<seq<nat>>)
    requires Triangular(cmp) && |used| == |cmp| && |later| == |cmp|
    requires forall k :: 0 <= k < |used| && used[k] ==> later[k]
    requires Shaped(cmp, later, i + 1, gs)
    ensures Shaped(cmp, used, i, gs)
  {
  }

  /** A set headed by i in front of sets headed after i. */
  lemma ShapedCons(cmp: Matrix, used: seq<bool>, i: nat, g: seq<nat>, rest: seq<seq<nat>>)
    requires Triangular(cmp) && |used| == |cmp| && i < |cmp| && !used[i]
    requires g == [i] + Linked(cmp, i, |cmp|) && |g| >= 2
    requires Shaped(cmp, used, i, rest)
    requires forall k :: 0 <= k < |rest| ==> i < rest[k][0]
    ensures Shaped(cmp, used, i, [g] + rest)
  {
    var gs := [g] + rest;
    forall k | 0 < k < |gs|
      ensures gs[k] == rest[k - 1]
    {
    }
  }

  /** A used file is never paired with a later file that is unused: the
      invariant the pass keeps when the matrix is transitive. */
  ghost predicate Closed(cmp: Matrix, used: seq<bool>, i: nat)
    requires Triangular(cmp) && |used| == |cmp|
  {
    forall h, x :: i <= h < x < |cmp| && !used[h] && Cell(cmp, h, x) ==> !used[x]
  }

  /** Every index in every group is from i on and was not used on entry. */
  ghost predicate Fresh(gs: seq<seq<nat>>, used: seq<bool>, i: nat)
  {
    forall k, t :: 0 <= k < |gs| && 0 <= t < |gs[k]| ==> i <= gs[k][t] < |used| && !used[gs[k][t]]
  }

  /** No index is in two groups. */
  ghost predicate Disjoint(gs: seq<seq<nat>>)
  {
    forall k, l, s, t :: 0 <= k < l < |gs| && 0 <= s < |gs[k]| && 0 <= t < |gs[l]| ==> gs[k][s] != gs[l][t]
  }

  /** With a transitive matrix, the sets the pass emits are pairwise
      disjoint. */
  lemma {:induction false} GroupsDisjoint(cmp: Matrix, used: seq<bool>, i: nat)
    requires Triangular(cmp) && |used| == |cmp| && Transitive(cmp) && Closed(cmp, used, i)
    ensures Fresh(Groups(cmp, used, i), used, i)
    ensures Disjoint(Groups(cmp, used, i))
    decreases |cmp| - i
  {
    if i + 1 < |cmp| {
      if used[i] {
        GroupsDisjoint(cmp, used, i + 1);
        FreshWeaken(Groups(cmp, used, i + 1), used, used, i);
      } else {
        var js := Linked(cmp, i, |cmp|);
        var marked := Mark(used, js);
        MarkKeepsClosed(cmp, used, i);
        GroupsDisjoint(cmp, marked, i + 1);
        FreshWeaken(Groups(cmp, marked, i + 1), used, marked, i);
        if |js| > 0 {
          DisjointCons(cmp, used, i, Groups(cmp, marked, i + 1));
        }
      }
    }
  }

  /** Fresh survives fewer used files and an earlier start. */
  lemma FreshWeaken(gs: seq<seq<nat>>, used: seq<bool>, later: seq<bool>, i: nat)
    requires |later| == |used| && forall k :: 0 <= k < |used| && used[k] ==> later[k]
    requires Fresh(gs, later, i + 1)
    ensures Fresh(gs, used, i)
  {
  }

  /** Head i's set shares nothing with the sets after it, whose files were
      not marked by it. */
  lemma DisjointCons(cmp: Matrix, used: seq<bool>, i: nat, rest: seq<seq<nat>>)
    requires Triangular(cmp) && |used| == |cmp| && i < |cmp| && !used[i] && Closed(cmp, used, i)
    requires Fresh(rest, Mark(used, Linked(cmp, i, |cmp|)), i + 1) && Disjoint(rest)
    ensures Fresh([[i] + Linked(cmp, i, |cmp|)] + rest, used, i)
    ensures Disjoint([[i] + Linked(cmp, i, |cmp|)] + rest)
  {
    var js := Linked(cmp, i, |cmp|);
    var marked := Mark(used, js);
    var g := [i] + js;
    LinkedIff(cmp, i, |cmp|);
    forall t | 0 <= t < |g|
      ensures i <= g[t] < |used| && !used[g[t]]
    {
      if t > 0 {
        assert g[t] == js[t - 1] && js[t - 1] in js;
      }
    }
    forall k, s | 0 <= k < |rest| && 0 <= s < |rest[k]|
      ensures rest[k][s] !in g
    {
      assert !marked[rest[k][s]];
    }
    GroupsDisjointStep(g, rest, used, i);
  }

  /** Marking head i's partners keeps the invariant, from i + 1 on. */
  lemma MarkKeepsClosed(cmp: Matrix, used: seq<bool>, i: nat)
    requires Triangular(cmp) && |used| == |cmp| && i + 1 < |cmp| && !used[i]
    requires Transitive(cmp) && Closed(cmp, used, i)
    ensures Closed(cmp, Mark(used, Linked(cmp, i, |cmp|)), i + 1)
  {
    var js := Linked(cmp, i, |cmp|);
    var marked := Mark(used, js);
    LinkedIff(cmp, i, |cmp|);
    forall h, x | i + 1 <= h < x < |cmp| && !marked[h] && Cell(cmp, h, x)
      ensures !marked[x]
    {
      assert !used[h] && h !in js;
      if x in js {
        assert Paired(cmp, i, x) && Paired(cmp, x, h);
      }
    }
  }

  /** Prepending a group that shares nothing with the rest keeps them all
      fresh and disjoint. */
  lemma GroupsDisjointStep(g: seq<nat>, rest: seq<seq<nat>>, used: seq<bool>, i: nat)
    requires forall t :: 0 <= t < |g| ==> i <= g[t] < |used| && !used[g[t]]
    requires Fresh(rest, used, i) && Disjoint(rest)
    requires forall k, s :: 0 <= k < |rest| && 0 <= s < |rest[k]| ==> rest[k][s] !in g
    ensures Fresh([g] + rest, used, i) && Disjoint([g] + rest)
  {
    var gs := [g] + rest;
    forall k, l, s, t | 0 <= k < l < |gs| && 0 <= s < |gs[k]| && 0 <= t < |gs[l]|
      ensures gs[k][s] != gs[l][t]
    {
      assert gs[l] == rest[l - 1];
      if k == 0 {
        assert gs[l][t] !in g;
      } else {
        assert gs[k] == rest[k - 1];
      }
    }
  }

  /** Nothing is used before the pass starts, so the invariant holds. */
  lemma StartClosed(cmp: Matrix)
    requires Triangular(cmp)
    ensures Closed(cmp, seq(|cmp|, _ => false), 0)
  {
  }

  /** The least x from k on, below a, paired with a; a itself when there is
      none. */
  ghost function FirstPartner(cmp: Matrix, a: nat, k: nat): (h: nat)
    requires Triangular(cmp) && a < |cmp|
    ensures k <= h || h == a
    ensures h <= a && (h < a ==> Cell(cmp, h, a))
    ensures forall x :: k <= x < h ==> !Cell(cmp, x, a)
    decreases a - k
  {
    if k >= a then a
    else if Cell(cmp, k, a) then k
    else FirstPartner(cmp, a, k + 1)
  }

  /** A file h that no earlier unused file is paired with heads its own set,
      provided something is paired with it. */
  lemma {:induction false} HeadsOwnGroup(cmp: Matrix, used: seq<bool>, i: nat, h: nat)
    requires Triangular(cmp) && |used| == |cmp| && i <= h && h + 1 < |cmp| && !used[h]
    requires forall x :: i <= x < h && !used[x] ==> !Cell(cmp, x, h)
    requires |Linked(cmp, h, |cmp|)| > 0
    ensures [h] + Linked(cmp, h, |cmp|) in Groups(cmp, used, i)
    decreases h - i
  {
    if i < h {
      if used[i] {
        HeadsOwnGroup(cmp, used, i + 1, h);
      } else {
        var js := Linked(cmp, i, |cmp|);
        var marked := Mark(used, js);
        LinkedIff(cmp, i, |cmp|);
        forall x | i + 1 <= x <= h && !marked[x]
          ensures !used[x]
        {
        }
        HeadsOwnGroup(cmp, marked, i + 1, h);
      }
    }
  }

  /** Transitivity at three given files. */
  lemma PairedThrough(cmp: Matrix, x: nat, y: nat, z: nat)
    requires Triangular(cmp) && Transitive(cmp) && x < |cmp| && y < |cmp| && z < |cmp|
    requires x != y && y != z && x != z
    ensures Paired(cmp, x, y) && Paired(cmp, y, z) ==> Paired(cmp, x, z)
  {
  }

  /** No file before the least partner h of a is paired with h. */
  lemma NoEarlierPartner(cmp: Matrix, a: nat, h: nat)
    requires Triangular(cmp) && Transitive(cmp) && a < |cmp| && h == FirstPartner(cmp, a, 0)
    ensures forall x :: 0 <= x < h ==> !Cell(cmp, x, h)
  {
    forall x | 0 <= x < h
      ensures !Cell(cmp, x, h)
    {
      if h < a {
        PairedThrough(cmp, x, h, a);
      }
    }
  }

  /** The least partner h of a is paired with a and with b. */
  lemma HeadLinksBoth(cmp: Matrix, a: nat, b: nat, h: nat)
    requires Triangular(cmp) && Transitive(cmp) && a < b < |cmp| && Cell(cmp, a, b) && h == FirstPartner(cmp, a, 0)
    ensures a in [h] + Linked(cmp, h, |cmp|) && b in Linked(cmp, h, |cmp|)
  {
    LinkedIff(cmp, h, |cmp|);
    if h < a {
      PairedThrough(cmp, h, a, b);
      assert Paired(cmp, h, a);
      assert a in Linked(cmp, h, |cmp|);
    }
  }

  /** With a transitive matrix, two paired files end up in one set: the set
      headed by the least file paired with the first of them. */
  lemma GroupsComplete(cmp: Matrix, a: nat, b: nat)
    requires Triangular(cmp) && Transitive(cmp) && a < b < |cmp| && Cell(cmp, a, b)
    ensures exists g :: g in Groups(cmp, seq(|cmp|, _ => false), 0) && a in g && b in g
  {
    var h := FirstPartner(cmp, a, 0);
    NoEarlierPartner(cmp, a, h);
    HeadLinksBoth(cmp, a, b, h);
    HeadsOwnGroup(cmp, seq(|cmp|, _ => false), 0, h);
  }
}
