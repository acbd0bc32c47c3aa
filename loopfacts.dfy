/** What the read/compare loop of n_way_compare guarantees about the matrix
    it leaves (DupeHunter.cpp 143-160). */
module LoopFacts {
  import opened Opening
  import opened Compare

  /** Entries only ever go from true to false. */
  lemma {:induction false} RoundsOnlyClear(handles: seq<Handle>, chunk: nat, cmp: Matrix)
    requires Triangular(cmp) && |cmp| == |handles| > 0
    ensures forall i, j :: 0 <= i < j < |cmp| && Cell(Rounds(handles, chunk, cmp), i, j) ==> Cell(cmp, i, j)
    decreases Remaining(handles)
  {
    if RoundOk(handles, chunk) {
      var next := Compared(cmp, Contents(handles, chunk));
      if AnyTrue(next) {
        RoundConsumes(handles, chunk);
        RoundsOnlyClear(Advanced(handles, chunk), chunk, next);
      }
    }
  }

  /** Two handles on the same bytes at the same offset always read the same
      chunk, so the loop never clears their entry: an entry is cleared only
      on a difference. */
  lemma {:induction false} IdenticalStayPaired(handles: seq<Handle>, chunk: nat, cmp: Matrix, i: nat, j: nat)
    requires Triangular(cmp) && |cmp| == |handles| > 0 && i < j < |cmp|
    requires handles[i].file.data == handles[j].file.data && handles[i].pos == handles[j].pos
    ensures Cell(Rounds(handles, chunk, cmp), i, j) == Cell(cmp, i, j)
    decreases Remaining(handles)
  {
    if RoundOk(handles, chunk) {
      var contents := Contents(handles, chunk);
      assert Good(ReadAt(handles[i], chunk)) && Good(ReadAt(handles[j], chunk));
      assert contents[i] == contents[j];
      var next := Compared(cmp, contents);
      if AnyTrue(next) {
        RoundConsumes(handles, chunk);
        IdenticalStayPaired(Advanced(handles, chunk), chunk, next, i, j);
      }
    }
  }

  /** One round of comparisons keeps the relation transitive: byte equality
      is. */
  lemma ComparedKeepsTransitive(cmp: Matrix, contents: seq<seq<bv8>>)
    requires Triangular(cmp) && |contents| == |cmp| && Transitive(cmp)
    ensures Transitive(Compared(cmp, contents))
  {
    var r := Compared(cmp, contents);
    forall a, b, c | 0 <= a < |cmp| && 0 <= b < |cmp| && 0 <= c < |cmp| && a != b && b != c && a != c &&
      Paired(r, a, b) && Paired(r, b, c)
      ensures Paired(r, a, c)
    {
      assert Paired(cmp, a, b) && contents[a] == contents[b];
      assert Paired(cmp, b, c) && contents[b] == contents[c];
    }
  }

  /** The loop keeps the relation transitive, so from the all-true matrix it
      leaves a transitive one. */
  lemma {:induction false} RoundsKeepTransitive(handles: seq<Handle>, chunk: nat, cmp: Matrix)
    requires Triangular(cmp) && |cmp| == |handles| > 0 && Transitive(cmp)
    ensures Transitive(Rounds(handles, chunk, cmp))
    decreases Remaining(handles)
  {
    if RoundOk(handles, chunk) {
      var next := Compared(cmp, Contents(handles, chunk));
      ComparedKeepsTransitive(cmp, Contents(handles, chunk));
      if AnyTrue(next) {
        RoundConsumes(handles, chunk);
        RoundsKeepTransitive(Advanced(handles, chunk), chunk, next);
      }
    }
  }

  /** The all-true matrix is transitive. */
  lemma AllTrueTransitive(n: nat)
    ensures Transitive(AllTrue(n))
  {
  }

  /** With a chunk of 0 bytes the first read yields nothing, so the loop
      ends before comparing anything and every entry keeps its value. */
  lemma ZeroChunkComparesNothing(handles: seq<Handle>, cmp: Matrix)
    requires Triangular(cmp) && |cmp| == |handles| > 0
    ensures Rounds(handles, 0, cmp) == cmp
  {
    assert !Good(ReadAt(handles[0], 0));
  }

  /** Every handle is at offset p of a file of size bytes that never fails a
      read. */
  ghost predicate Level(handles: seq<Handle>, p: nat, size: nat)
  {
    forall q :: 0 <= q < |handles| ==>
      handles[q].pos == p && |handles[q].file.data| == size && handles[q].file.failsAt == {}
  }

  /** A round over level handles: at the end of the files it fails for want
      of bytes; before it, every read yields the next min(chunk, size - p)
      bytes and leaves the handles level again. */
  lemma LevelRound(handles: seq<Handle>, chunk: nat, p: nat, size: nat)
    requires |handles| > 0 && chunk > 0 && p <= size && Level(handles, p, size)
    ensures p == size ==> !RoundOk(handles, chunk)
    ensures p < size ==> RoundOk(handles, chunk)
    ensures p < size ==> forall q :: 0 <= q < |handles| ==>
              Contents(handles, chunk)[q] == handles[q].file.data[p..Min(p + chunk, size)]
    ensures p < size ==> Level(Advanced(handles, chunk), Min(p + chunk, size), size)
  {
    if p == size {
      assert !Good(ReadAt(handles[0], chunk));
    }
  }

  /** Two sequences agree from p on exactly when they agree on p..m and from
      m on. */
  lemma SplitAgree(a: seq<bv8>, b: seq<bv8>, p: nat, m: nat)
    requires |a| == |b| && p <= m <= |a|
    ensures a[p..] == b[p..] <==> a[p..m] == b[p..m] && a[m..] == b[m..]
  {
    assert a[p..] == a[p..m] + a[m..];
    assert b[p..] == b[p..m] + b[m..];
    if a[p..] == b[p..] {
      assert a[p..m] == a[p..][..m - p] && b[p..m] == b[p..][..m - p];
      assert a[m..] == a[p..][m - p..] && b[m..] == b[p..][m - p..];
    }
  }

  /** When no read fails and every file has the same size, a chunk of at
      least one byte makes the loop exact: an entry ends true exactly when it
      started true and the two files agree on every byte from the common
      offset on. */
  lemma {:induction false} RoundsDecide(handles: seq<Handle>, chunk: nat, cmp: Matrix, p: nat, size: nat)
    requires Triangular(cmp) && |cmp| == |handles| > 0
    requires chunk > 0 && p <= size && Level(handles, p, size)
    ensures forall i, j :: 0 <= i < j < |cmp| ==>
              (Cell(Rounds(handles, chunk, cmp), i, j) <==>
               Cell(cmp, i, j) && handles[i].file.data[p..] == handles[j].file.data[p..])
    decreases Remaining(handles)
  {
    LevelRound(handles, chunk, p, size);
    if p < size {
      var m := Min(p + chunk, size);
      var contents := Contents(handles, chunk);
      var next := Compared(cmp, contents);
      forall i, j | 0 <= i < j < |cmp|
        ensures Cell(next, i, j) <==> Cell(cmp, i, j) && handles[i].file.data[p..m] == handles[j].file.data[p..m]
      {
        assert contents[i] == handles[i].file.data[p..m] && contents[j] == handles[j].file.data[p..m];
      }
      if AnyTrue(next) {
        RoundConsumes(handles, chunk);
        var later := Advanced(handles, chunk);
        RoundsDecide(later, chunk, next, m, size);
        forall i, j | 0 <= i < j < |cmp|
          ensures Cell(Rounds(handles, chunk, cmp), i, j) <==>
                  Cell(cmp, i, j) && handles[i].file.data[p..] == handles[j].file.data[p..]
        {
          assert later[i].file == handles[i].file && later[j].file == handles[j].file;
          SplitAgree(handles[i].file.data, handles[j].file.data, p, m);
        }
      } else {
        AnyTrueCell(next);
        forall i, j | 0 <= i < j < |cmp|
          ensures !(Cell(cmp, i, j) && handles[i].file.data[p..] == handles[j].file.data[p..])
        {
          SplitAgree(handles[i].file.data, handles[j].file.data, p, m);
        }
      }
    } else {
      forall i, j | 0 <= i < j < |cmp|
        ensures handles[i].file.data[p..] == handles[j].file.data[p..]
      {
      }
    }
  }

  /** From the all-true matrix and offset 0, under the same conditions, the
      loop pairs exactly the files with identical contents. */
  lemma RoundsFindIdentical(handles: seq<Handle>, chunk: nat, size: nat)
    requires |handles| > 0 && chunk > 0 && Level(handles, 0, size)
    ensures forall i, j :: 0 <= i < j < |handles| ==>
              (Cell(Rounds(handles, chunk, AllTrue(|handles|)), i, j) <==> handles[i].file.data == handles[j].file.data)
  {
    RoundsDecide(handles, chunk, AllTrue(|handles|), 0, size);
    forall i, j | 0 <= i < j < |handles|
      ensures handles[i].file.data[0..] == handles[i].file.data && handles[j].file.data[0..] == handles[j].file.data
    {
    }
  }
}
