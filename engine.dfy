/** n_way_compare as a whole (DupeHunter.cpp 84-180): one size bucket's
    paths, a read buffer and its size in, the duplicate sets out. The size
    check comes first and throws; the per-file chunk is sized from the
    bucket's path count before any file is opened. */
module Engine {
  import opened Sizing
  import opened Opening
  import opened Compare
  import opened LoopFacts
  import opened Grouping

  /** What n_way_compare produces: the exception it throws when the buffer
      has fewer bytes than there are paths, or the duplicate sets. */
  datatype Outcome = BufferTooSmall | Duplicates(sets: seq<seq<string>>)

  /** A fresh handle on each survivor, as CreateFileW leaves it. */
  function Opened(names: seq<string>, fs: FileSystem): (hs: seq<Handle>)
    requires forall k :: 0 <= k < |names| ==> names[k] in fs
    ensures |hs| == |names|
  {
    seq(|names|, k requires 0 <= k < |names| => Handle(fs[names[k]], 0))
  }

  /** What n_way_compare returns for one bucket of candidates, with a buffer
      of budget bytes. */
  ghost function NWay(fileSize: nat, candidates: seq<string>, fs: FileSystem, budget: nat): (r: Outcome)
    ensures r.BufferTooSmall? <==> |candidates| > budget
    ensures |candidates| <= budget && |Survivors(candidates, fs, {})| <= 1 ==> r == Duplicates([])
  {
    if |candidates| > budget then BufferTooSmall
    else
      var names := Survivors(candidates, fs, {});
      if |names| <= 1 then Duplicates([])
      else
        var chunk := ChunkSize(|candidates|, fileSize, budget);
        var cmp := Rounds(Opened(names, fs), chunk, AllTrue(|names|));
        Duplicates(NamesOf(names, Groups(cmp, seq(|names|, _ => false), 0)))
  }

  /** `n_way_compare`. */
  method NWayCompare(fileSize: nat, candidates: seq<string>, fs: FileSystem, buffer: array<bv8>) returns (r: Outcome)
    modifies buffer
    ensures r == NWay(fileSize, candidates, fs, buffer.Length)
  {
    if |candidates| > buffer.Length {
      return BufferTooSmall;
    }
    var chunk := ChunkSize(|candidates|, fileSize, buffer.Length);
    var names, files := OpenCandidates(candidates, fs);
    if |names| <= 1 {
      return Duplicates([]);
    }
    SurvivorsFewer(candidates, fs, {});
    var offsets := CarveBuffer(|candidates|, |names|, fileSize, buffer.Length);
    var handles := seq(|files|, k requires 0 <= k < |files| => files[k].value);
    assert handles == Opened(names, fs);
    var cmp := InitMatrix(|names|);
    cmp := ReadCompareLoop(handles, buffer, offsets, chunk, cmp);
    var sets := GroupDuplicates(names, cmp);
    return Duplicates(sets);
  }

  /** `buffers[i] = buffer + i * buffer_size` for the m files left out of n:
      slices inside the buffer that do not overlap. */
  method CarveBuffer(n: nat, m: nat, fileSize: nat, budget: nat) returns (offsets: seq<nat>)
    requires m <= n
    ensures |offsets| == m
    ensures forall q :: 0 <= q < m ==> offsets[q] == q * ChunkSize(n, fileSize, budget)
    ensures Slots(offsets, ChunkSize(n, fileSize, budget), budget)
  {
    var chunk := ChunkSize(n, fileSize, budget);
    offsets := [];
    for i := 0 to m
      invariant |offsets| == i
      invariant forall q :: 0 <= q < i ==> offsets[q] == q * chunk
    {
      offsets := offsets + [i * chunk];
    }
    forall q | 0 <= q < m
      ensures offsets[q] + chunk <= budget
    {
      SlicesFit(n, fileSize, budget, q, q);
    }
    forall p, q | 0 <= p < q < m
      ensures offsets[p] + chunk <= offsets[q]
    {
      SlicesFit(n, fileSize, budget, p, q);
    }
  }

  /** The comparison matrix of DupeHunter.cpp 143-146: row i resized to
      n - i - 1 entries, all true. */
  method InitMatrix(n: nat) returns (cmp: Matrix)
    ensures cmp == AllTrue(n)
  {
    cmp := seq(n, _ => []);
    for i := 0 to n
      invariant |cmp| == n
      invariant forall p :: 0 <= p < i ==> cmp[p] == seq(n - p - 1, _ => true)
    {
      cmp := cmp[i := seq(n - i - 1, _ => true)];
    }
    assert cmp == AllTrue(n);
  }

  /** The open loop only ever drops paths. */
  lemma {:induction false} SurvivorsFewer(names: seq<string>, fs: FileSystem, seen: set<nat>)
    ensures |Survivors(names, fs, seen)| <= |names|
    decreases |names|
  {
    if |names| > 0 {
      var n := names[0];
      if n !in fs || fs[n].id in seen {
        SurvivorsFewer(names[1..], fs, seen);
      } else {
        SurvivorsFewer(names[1..], fs, seen + {fs[n].id});
      }
    }
  }

  /** Every survivor is one of the candidates. */
  lemma {:induction false} SurvivorsAreCandidates(names: seq<string>, fs: FileSystem, seen: set<nat>)
    ensures forall k :: 0 <= k < |Survivors(names, fs, seen)| ==> Survivors(names, fs, seen)[k] in names
    decreases |names|
  {
    if |names| > 0 {
      var n := names[0];
      var r := Survivors(names, fs, seen);
      if n !in fs || fs[n].id in seen {
        SurvivorsAreCandidates(names[1..], fs, seen);
        assert forall x :: x in names[1..] ==> x in names;
      } else {
        SurvivorsAreCandidates(names[1..], fs, seen + {fs[n].id});
        var rest := Survivors(names[1..], fs, seen + {fs[n].id});
        assert r == [n] + rest;
        forall k | 0 < k < |r|
          ensures r[k] in names
        {
          assert r[k] == rest[k - 1] && rest[k - 1] in names[1..];
        }
      }
    }
  }

  /** No path survives twice: survivors name distinct file objects. */
  lemma SurvivorNamesDistinct(candidates: seq<string>, fs: FileSystem)
    ensures forall p, q :: 0 <= p < q < |Survivors(candidates, fs, {})| ==>
              Survivors(candidates, fs, {})[p] != Survivors(candidates, fs, {})[q]
  {
    SurvivorsDistinct(candidates, fs, {});
  }

  /** No name is listed twice, within a set or across sets. */
  ghost predicate Once(sets: seq<seq<string>>)
  {
    forall k, l, s, t ::
      0 <= k < |sets| && 0 <= l < |sets| && 0 <= s < |sets[k]| && 0 <= t < |sets[l]| && (k != l || s != t)
      ==> sets[k][s] != sets[l][t]
  }

  /** The same, for index lists. */
  ghost predicate IndexedOnce(gs: seq<seq<nat>>)
  {
    forall k, l, s, t ::
      0 <= k < |gs| && 0 <= l < |gs| && 0 <= s < |gs[k]| && 0 <= t < |gs[l]| && (k != l || s != t)
      ==> gs[k][s] != gs[l][t]
  }

  /** The sets the pass emits from the all-true start list every index at
      most once, when the matrix is transitive. */
  lemma GroupsOnce(cmp: Matrix)
    requires Triangular(cmp) && Transitive(cmp)
    ensures IndexedOnce(Groups(cmp, seq(|cmp|, _ => false), 0))
  {
    var used := seq(|cmp|, _ => false);
    var gs := Groups(cmp, used, 0);
    GroupsShape(cmp, used, 0);
    StartClosed(cmp);
    GroupsDisjoint(cmp, used, 0);
    forall k, s, t | 0 <= k < |gs| && 0 <= s < t < |gs[k]|
      ensures gs[k][s] != gs[k][t]
    {
      HeadGroupDistinct(cmp, gs[k][0]);
    }
  }

  /** A head and its partners are distinct files. */
  lemma HeadGroupDistinct(cmp: Matrix, h: nat)
    requires Triangular(cmp) && h < |cmp|
    ensures forall s, t :: 0 <= s < t < 1 + |Linked(cmp, h, |cmp|)| ==>
              ([h] + Linked(cmp, h, |cmp|))[s] != ([h] + Linked(cmp, h, |cmp|))[t]
  {
    var js := Linked(cmp, h, |cmp|);
    LinkedIff(cmp, h, |cmp|);
    forall s, t | 0 <= s < t < 1 + |js|
      ensures ([h] + js)[s] != ([h] + js)[t]
    {
      assert ([h] + js)[t] == js[t - 1];
      if s > 0 {
        assert ([h] + js)[s] == js[s - 1];
      }
    }
  }

  /** Distinct indices into distinct names give distinct names. */
  lemma NamesOnce(names: seq<string>, gs: seq<seq<nat>>)
    requires InRange(gs, |names|) && IndexedOnce(gs)
    requires forall p, q :: 0 <= p < q < |names| ==> names[p] != names[q]
    ensures Once(NamesOf(names, gs))
  {
    var sets := NamesOf(names, gs);
    forall k, l, s, t | 0 <= k < |sets| && 0 <= l < |sets| && 0 <= s < |sets[k]| && 0 <= t < |sets[l]| && (k != l || s != t)
      ensures sets[k][s] != sets[l][t]
    {
      assert sets[k][s] == names[gs[k][s]] && sets[l][t] == names[gs[l][t]];
    }
  }

  /** Every reported set holds two files or more, every file in it is one of
      the candidates, and no file is reported twice. */
  lemma NWaySetsShape(fileSize: nat, candidates: seq<string>, fs: FileSystem, budget: nat)
    requires |candidates| <= budget
    ensures forall k :: 0 <= k < |NWay(fileSize, candidates, fs, budget).sets| ==>
              |NWay(fileSize, candidates, fs, budget).sets[k]| >= 2
    ensures forall k, s ::
              0 <= k < |NWay(fileSize, candidates, fs, budget).sets| &&
              0 <= s < |NWay(fileSize, candidates, fs, budget).sets[k]|
              ==> NWay(fileSize, candidates, fs, budget).sets[k][s] in candidates
    ensures Once(NWay(fileSize, candidates, fs, budget).sets)
  {
    var names := Survivors(candidates, fs, {});
    if |names| > 1 {
      var chunk := ChunkSize(|candidates|, fileSize, budget);
      var cmp := Rounds(Opened(names, fs), chunk, AllTrue(|names|));
      var used := seq(|names|, _ => false);
      var gs := Groups(cmp, used, 0);
      AllTrueTransitive(|names|);
      RoundsKeepTransitive(Opened(names, fs), chunk, AllTrue(|names|));
      GroupsShape(cmp, used, 0);
      GroupsOnce(cmp);
      SurvivorNamesDistinct(candidates, fs);
      NamesOnce(names, gs);
      SurvivorsAreCandidates(candidates, fs, {});
      var sets := NamesOf(names, gs);
      assert NWay(fileSize, candidates, fs, budget).sets == sets;
      forall k, s | 0 <= k < |sets| && 0 <= s < |sets[k]|
        ensures |sets[k]| >= 2 && sets[k][s] in candidates
      {
        assert sets[k][s] == names[gs[k][s]];
      }
    }
  }

  /** x and y are reported in one set. */
  ghost predicate SameSet(sets: seq<seq<string>>, x: string, y: string)
  {
    exists k :: 0 <= k < |sets| && x in sets[k] && y in sets[k]
  }

  /** With distinct names, a name is in a group's names exactly when its
      index is in the group. */
  lemma PickMember(names: seq<string>, g: seq<nat>, x: nat)
    requires x < |names| && forall t :: 0 <= t < |g| ==> g[t] < |names|
    requires forall p, q :: 0 <= p < q < |names| ==> names[p] != names[q]
    ensures names[x] in Pick(names, g) <==> x in g
  {
    if x in g {
      var t :| 0 <= t < |g| && g[t] == x;
      assert Pick(names, g)[t] == names[x];
    }
    if names[x] in Pick(names, g) {
      var t :| 0 <= t < |g| && Pick(names, g)[t] == names[x];
      assert names[g[t]] == names[x];
    }
  }

  /** Two members of one set are paired, when the matrix is transitive. */
  lemma MembersPaired(cmp: Matrix, h: nat, p: nat, q: nat)
    requires Triangular(cmp) && Transitive(cmp) && h < |cmp| && p < q < |cmp|
    requires p in [h] + Linked(cmp, h, |cmp|) && q in [h] + Linked(cmp, h, |cmp|)
    ensures Cell(cmp, p, q)
  {
    LinkedIff(cmp, h, |cmp|);
    if p != h {
      assert p in Linked(cmp, h, |cmp|) && q in Linked(cmp, h, |cmp|);
      PairedThrough(cmp, p, h, q);
    }
  }

  /** With a transitive matrix and distinct names, two files are reported
      in one set exactly when their entry is true. */
  lemma SameSetIffCell(cmp: Matrix, names: seq<string>, p: nat, q: nat)
    requires Triangular(cmp) && Transitive(cmp) && |names| == |cmp| && p < q < |cmp|
    requires forall a, b :: 0 <= a < b < |names| ==> names[a] != names[b]
    ensures SameSet(NamesOf(names, Groups(cmp, seq(|cmp|, _ => false), 0)), names[p], names[q]) <==> Cell(cmp, p, q)
  {
    var used := seq(|cmp|, _ => false);
    var gs := Groups(cmp, used, 0);
    var sets := NamesOf(names, gs);
    if Cell(cmp, p, q) {
      GroupsComplete(cmp, p, q);
      var g :| g in gs && p in g && q in g;
      var k :| 0 <= k < |gs| && gs[k] == g;
      PickMember(names, g, p);
      PickMember(names, g, q);
      assert names[p] in sets[k] && names[q] in sets[k];
    }
    if SameSet(sets, names[p], names[q]) {
      var k :| 0 <= k < |sets| && names[p] in sets[k] && names[q] in sets[k];
      PickMember(names, gs[k], p);
      PickMember(names, gs[k], q);
      GroupsShape(cmp, used, 0);
      MembersPaired(cmp, gs[k][0], p, q);
    }
  }

  /** The compare loop and the grouping pass over level, readable files
      with a chunk of at least one byte put two files in one set exactly
      when they hold the same bytes. */
  lemma ExactOnLevelFiles(names: seq<string>, fs: FileSystem, chunk: nat, fileSize: nat)
    requires |names| > 1 && chunk > 0
    requires forall p, q :: 0 <= p < q < |names| ==> names[p] != names[q]
    requires forall k :: 0 <= k < |names| ==>
               names[k] in fs && |fs[names[k]].data| == fileSize && fs[names[k]].failsAt == {}
    ensures forall p, q :: 0 <= p < q < |names| ==>
              (SameSet(NamesOf(names, Groups(Rounds(Opened(names, fs), chunk, AllTrue(|names|)), seq(|names|, _ => false), 0)),
                       names[p], names[q]) <==>
               fs[names[p]].data == fs[names[q]].data)
  {
    var hs := Opened(names, fs);
    var cmp := Rounds(hs, chunk, AllTrue(|names|));
    assert Level(hs, 0, fileSize);
    RoundsFindIdentical(hs, chunk, fileSize);
    AllTrueTransitive(|names|);
    RoundsKeepTransitive(hs, chunk, AllTrue(|names|));
    var sets := NamesOf(names, Groups(cmp, seq(|names|, _ => false), 0));
    forall p, q | 0 <= p < q < |names|
      ensures SameSet(sets, names[p], names[q]) <==> fs[names[p]].data == fs[names[q]].data
    {
      SameSetIffCell(cmp, names, p, q);
      assert Cell(cmp, p, q) <==> hs[p].file.data == hs[q].file.data;
      assert hs[p].file == fs[names[p]] && hs[q].file == fs[names[q]];
    }
  }

  /** When no read fails, every candidate file has the bucket's size and the
      chunk is at least one byte, n_way_compare is exact: two surviving
      paths are reported in one set exactly when their files hold the same
      bytes. */
  lemma NWayExact(fileSize: nat, candidates: seq<string>, fs: FileSystem, budget: nat)
    requires |candidates| <= budget && ChunkSize(|candidates|, fileSize, budget) > 0
    requires forall c :: c in candidates && c in fs ==> |fs[c].data| == fileSize && fs[c].failsAt == {}
    ensures forall p, q :: 0 <= p < q < |Survivors(candidates, fs, {})| ==>
              (SameSet(NWay(fileSize, candidates, fs, budget).sets,
                       Survivors(candidates, fs, {})[p], Survivors(candidates, fs, {})[q]) <==>
               fs[Survivors(candidates, fs, {})[p]].data == fs[Survivors(candidates, fs, {})[q]].data)
  {
    var names := Survivors(candidates, fs, {});
    if |names| > 1 {
      SurvivorsAreCandidates(candidates, fs, {});
      SurvivorNamesDistinct(candidates, fs);
      ExactOnLevelFiles(names, fs, ChunkSize(|candidates|, fileSize, budget), fileSize);
    }
  }

  /** 0, 1, ..., n - 1. */
  function Indices(n: nat): (r: seq<nat>)
    ensures |r| == n && forall k :: 0 <= k < n ==> r[k] == k
  {
    seq(n, k requires 0 <= k < n => k)
  }

  /** In the all-true matrix, file 0 is paired with every later file. */
  lemma {:induction false} LinkedAllTrue(n: nat, hi: nat)
    requires 1 <= hi <= n
    ensures Linked(AllTrue(n), 0, hi) == Indices(hi)[1..]
    decreases hi
  {
    if hi > 1 {
      LinkedAllTrue(n, hi - 1);
      assert Indices(hi)[1..] == Indices(hi - 1)[1..] + [hi - 1];
    }
  }

  /** Once every file from i on is used, the pass emits nothing more. */
  lemma {:induction false} GroupsAllUsed(cmp: Matrix, used: seq<bool>, i: nat)
    requires Triangular(cmp) && |used| == |cmp|
    requires forall k :: i <= k < |used| ==> used[k]
    ensures Groups(cmp, used, i) == []
    decreases |cmp| - i
  {
    if i + 1 < |cmp| {
      GroupsAllUsed(cmp, used, i + 1);
    }
  }

  /** From the all-true matrix the pass emits one set holding every file. */
  lemma GroupsAllTrue(n: nat)
    requires n >= 2
    ensures Groups(AllTrue(n), seq(n, _ => false), 0) == [Indices(n)]
  {
    var cmp := AllTrue(n);
    var used := seq(n, _ => false);
    LinkedAllTrue(n, n);
    var js := Linked(cmp, 0, n);
    assert [0] + js == Indices(n);
    var marked := Mark(used, js);
    forall k | 1 <= k < n
      ensures marked[k]
    {
      assert js[k - 1] == k;
    }
    GroupsAllUsed(cmp, marked, 1);
  }

  /** With a chunk of 0 bytes and two survivors or more, n_way_compare
      reports every survivor as one duplicate set, whatever the files hold. */
  lemma ZeroChunkReportsAll(fileSize: nat, candidates: seq<string>, fs: FileSystem, budget: nat)
    requires |candidates| <= budget && ChunkSize(|candidates|, fileSize, budget) == 0
    requires |Survivors(candidates, fs, {})| >= 2
    ensures NWay(fileSize, candidates, fs, budget) == Duplicates([Survivors(candidates, fs, {})])
  {
    var names := Survivors(candidates, fs, {});
    var n := |names|;
    ZeroChunkComparesNothing(Opened(names, fs), AllTrue(n));
    GroupsAllTrue(n);
    assert Pick(names, Indices(n)) == names;
    assert NamesOf(names, [Indices(n)]) == [names];
  }

  /** Two files of a million bytes that differ in every byte. */
  function TwoDifferentFiles(): (fs: FileSystem)
    ensures "a" in fs && "b" in fs && fs["a"].data != fs["b"].data
  {
    var fs := map["a" := FileObject(1, seq(1000000, _ => 0), {}), "b" := FileObject(2, seq(1000000, _ => 1), {})];
    assert fs["a"].data[0] != fs["b"].data[0];
    fs
  }

  /** With a 16 KiB buffer, the two different files above are reported as
      duplicates: the chunk is 0, so nothing is ever compared. */
  lemma DifferentFilesReportedAsDuplicates()
    ensures NWay(1000000, ["a", "b"], TwoDifferentFiles(), 16384) == Duplicates([["a", "b"]])
  {
    var fs := TwoDifferentFiles();
    ZeroChunkExample();
    assert ["a", "b"][1..] == ["b"];
    assert Survivors(["b"], fs, {1}) == ["b"];
    assert Survivors(["a", "b"], fs, {}) == ["a", "b"];
    ZeroChunkReportsAll(1000000, ["a", "b"], fs, 16384);
  }
}
