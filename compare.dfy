/** The lock-step read/compare loop of n_way_compare (DupeHunter.cpp 66-72,
    131-160): every round reads the next chunk of every open file into its
    slice of one shared buffer, and, when every read produced bytes, clears
    the matrix entry of every pair whose chunks differ. The matrix is
    triangular: row i holds the pairs (i, j) for j > i, entry j - i - 1. */
module Compare {
  import opened Opening

  /** What one ReadFile call yields: failure, or the bytes it read. */
  datatype Read = Failed | Got(bytes: seq<bv8>)

  function Min(a: nat, b: nat): nat
  {
    if a <= b then a else b
  }

  /** ReadFile of chunk bytes at the handle's offset: it fails when the file
      object fails reads at that offset; otherwise it yields the next
      min(chunk, bytes left) bytes, none at all at the end of the file. */
  function ReadAt(h: Handle, chunk: nat): (r: Read)
    ensures r.Got? <==> h.pos !in h.file.failsAt
    ensures r.Got? ==> |r.bytes| <= chunk
    ensures r.Got? ==> (|r.bytes| == 0 <==> chunk == 0 || |h.file.data| <= h.pos)
    ensures r.Got? && h.pos <= |h.file.data| ==> r.bytes == h.file.data[h.pos..Min(h.pos + chunk, |h.file.data|)]
  {
    if h.pos in h.file.failsAt then Failed
    else Got(h.file.data[Min(h.pos, |h.file.data|)..Min(h.pos + chunk, |h.file.data|)])
  }

  /** The bytes a read left in the buffer, as bytes_read counts them: none
      when the call failed. */
  function Bytes(r: Read): seq<bv8>
  {
    if r.Got? then r.bytes else []
  }

  /** A read that lets the round's comparisons run: it succeeded with at
      least one byte. */
  predicate Good(r: Read)
  {
    r.Got? && |r.bytes| > 0
  }

  /** The handle after the read: its offset moved past the bytes read. */
  function Advance(h: Handle, r: Read): Handle
  {
    Handle(h.file, h.pos + |Bytes(r)|)
  }

  /** The bytes each handle yields this round. */
  function Contents(handles: seq<Handle>, chunk: nat): (c: seq<seq<bv8>>)
    ensures |c| == |handles|
  {
    seq(|handles|, q requires 0 <= q < |handles| => Bytes(ReadAt(handles[q], chunk)))
  }

  /** Every handle after this round's read. */
  function Advanced(handles: seq<Handle>, chunk: nat): (a: seq<Handle>)
    ensures |a| == |handles|
  {
    seq(|handles|, q requires 0 <= q < |handles| => Advance(handles[q], ReadAt(handles[q], chunk)))
  }

  /** read_multi_file's result: every read succeeded with at least one byte. */
  predicate RoundOk(handles: seq<Handle>, chunk: nat)
  {
    forall q :: 0 <= q < |handles| ==> Good(ReadAt(handles[q], chunk))
  }

  /** The bytes a handle has still to read. */
  function Left(h: Handle): nat
  {
    if h.pos <= |h.file.data| then |h.file.data| - h.pos else 0
  }

  /** The bytes all handles have still to read. */
  function Remaining(handles: seq<Handle>): nat
  {
    if |handles| == 0 then 0 else Remaining(handles[..|handles| - 1]) + Left(handles[|handles| - 1])
  }

  /** When every handle has strictly fewer bytes left in b than in a, the
      total left drops. */
  lemma {:induction false} RemainingDrops(a: seq<Handle>, b: seq<Handle>)
    requires |a| == |b| > 0
    requires forall q :: 0 <= q < |a| ==> Left(b[q]) < Left(a[q])
    ensures Remaining(b) < Remaining(a)
    decreases |a|
  {
    var n := |a| - 1;
    if n > 0 {
      RemainingDrops(a[..n], b[..n]);
    } else {
      assert a[..n] == [] && b[..n] == [];
    }
  }

  /** A round in which every read produced bytes consumes some of every file,
      so the loop cannot go on for ever. */
  lemma RoundConsumes(handles: seq<Handle>, chunk: nat)
    requires |handles| > 0 && RoundOk(handles, chunk)
    ensures Remaining(Advanced(handles, chunk)) < Remaining(handles)
  {
    var next := Advanced(handles, chunk);
    forall q | 0 <= q < |handles|
      ensures Left(next[q]) < Left(handles[q])
    {
      assert Good(ReadAt(handles[q], chunk));
    }
    RemainingDrops(handles, next);
  }

  /** The slice of buf at off holds exactly b. */
  ghost predicate Holds(buf: seq<bv8>, off: nat, b: seq<bv8>)
  {
    off + |b| <= |buf| && buf[off..off + |b|] == b
  }

  /** The slices buffer + offsets[q], chunk bytes each, lie inside the
      buffer and do not overlap. */
  predicate Slots(offsets: seq<nat>, chunk: nat, size: nat)
  {
    (forall q :: 0 <= q < |offsets| ==> offsets[q] + chunk <= size) &&
    (forall p, q :: 0 <= p < q < |offsets| ==> offsets[p] + chunk <= offsets[q])
  }

  /** A slice is kept by a write that misses it. */
  lemma HoldsKept(before: seq<bv8>, after: seq<bv8>, off: nat, b: seq<bv8>, lo: nat, hi: nat)
    requires Holds(before, off, b) && |after| == |before|
    requires off + |b| <= lo || hi <= off
    requires forall k :: 0 <= k < |before| && !(lo <= k < hi) ==> after[k] == before[k]
    ensures Holds(after, off, b)
  {
    assert after[off..off + |b|] == before[off..off + |b|];
  }

  /** The copy ReadFile makes into the buffer: b lands at off and nothing
      else changes. */
  method WriteSlot(buffer: array<bv8>, off: nat, b: seq<bv8>)
    requires off + |b| <= buffer.Length
    modifies buffer
    ensures Holds(buffer[..], off, b)
    ensures forall k :: 0 <= k < buffer.Length && !(off <= k < off + |b|) ==> buffer[k] == old(buffer[k])
  {
    forall t | 0 <= t < |b| {
      buffer[off + t] := b[t];
    }
    assert buffer[..][off..off + |b|] == b;
  }

  /** The slices of the first i files hold what this round reads from them. */
  ghost predicate SlotsHold(buf: seq<bv8>, offsets: seq<nat>, handles: seq<Handle>, chunk: nat, i: nat)
    requires i <= |offsets| == |handles|
  {
    forall q :: 0 <= q < i ==> Holds(buf, offsets[q], Contents(handles, chunk)[q])
  }

  /** read_multi_file's result over one more file. */
  lemma RoundOkSnoc(handles: seq<Handle>, chunk: nat, i: nat)
    requires i < |handles|
    ensures RoundOk(handles[..i + 1], chunk) == (RoundOk(handles[..i], chunk) && Good(ReadAt(handles[i], chunk)))
  {
    assert forall q :: 0 <= q < i ==> handles[..i + 1][q] == handles[..i][q];
  }

  /** `read_multi_file`: reads the next chunk of every file into its slice,
      every file whether or not an earlier read failed (`&=` does not
      short-circuit), and reports whether every read produced bytes. */
  method ReadMultiFile(handles: seq<Handle>, buffer: array<bv8>, offsets: seq<nat>, chunk: nat)
    returns (next: seq<Handle>, bytesRead: seq<nat>, ok: bool)
    requires |offsets| == |handles| && Slots(offsets, chunk, buffer.Length)
    modifies buffer
    ensures next == Advanced(handles, chunk)
    ensures |bytesRead| == |handles|
    ensures forall q :: 0 <= q < |handles| ==> bytesRead[q] == |Contents(handles, chunk)[q]|
    ensures forall q :: 0 <= q < |handles| ==> Holds(buffer[..], offsets[q], Contents(handles, chunk)[q])
    ensures ok == RoundOk(handles, chunk)
  {
    next, bytesRead, ok := [], [], true;
    var i := 0;
    while i < |handles|
      invariant 0 <= i <= |handles| && |bytesRead| == i
      invariant next == Advanced(handles, chunk)[..i]
      invariant forall q :: 0 <= q < i ==> bytesRead[q] == |Contents(handles, chunk)[q]|
      invariant SlotsHold(buffer[..], offsets, handles, chunk, i)
      invariant ok == RoundOk(handles[..i], chunk)
    {
      var r := ReadFile(handles, buffer, offsets, chunk, i);
      RoundOkSnoc(handles, chunk, i);
      ok := ok && Good(r);
      bytesRead := bytesRead + [|Bytes(r)|];
      assert Advanced(handles, chunk)[..i + 1] == Advanced(handles, chunk)[..i] + [Advance(handles[i], r)];
      next := next + [Advance(handles[i], r)];
      i := i + 1;
    }
    assert handles[..i] == handles;
  }

  /** One ReadFile call of read_multi_file: file i's next chunk lands in its
      slice and the slices of the files before it keep what they hold. */
  method ReadFile(handles: seq<Handle>, buffer: array<bv8>, offsets: seq<nat>, chunk: nat, i: nat)
    returns (r: Read)
    requires i < |handles| == |offsets| && Slots(offsets, chunk, buffer.Length)
    requires SlotsHold(buffer[..], offsets, handles, chunk, i)
    modifies buffer
    ensures r == ReadAt(handles[i], chunk)
    ensures SlotsHold(buffer[..], offsets, handles, chunk, i + 1)
  {
    r := ReadAt(handles[i], chunk);
    ghost var before := buffer[..];
    WriteSlot(buffer, offsets[i], Bytes(r));
    forall q | 0 <= q <= i
      ensures Holds(buffer[..], offsets[q], Contents(handles, chunk)[q])
    {
      if q < i {
        HoldsKept(before, buffer[..], offsets[q], Contents(handles, chunk)[q], offsets[i], offsets[i] + |Bytes(r)|);
      }
    }
  }

  /** The comparison matrix: cmp[i][j - i - 1] is the pair (i, j). */
  type Matrix = seq<seq<bool>>

  /** Row i has one entry for every j with i < j < |cmp|. */
  predicate Triangular(cmp: Matrix)
  {
    forall i :: 0 <= i < |cmp| ==> |cmp[i]| == |cmp| - i - 1
  }

  /** Whether files i and j are still possible duplicates. */
  function Cell(cmp: Matrix, i: nat, j: nat): bool
    requires Triangular(cmp) && i < j < |cmp|
  {
    cmp[i][j - i - 1]
  }

  /** The matrix as n_way_compare first sizes it: every pair true. */
  function AllTrue(n: nat): (cmp: Matrix)
    ensures |cmp| == n && Triangular(cmp)
    ensures forall i, j :: 0 <= i < j < n ==> Cell(cmp, i, j)
  {
    seq(n, i requires 0 <= i < n => seq(n - i - 1, _ => true))
  }

  /** Some pair is still true: work_to_do. */
  predicate AnyTrue(cmp: Matrix)
  {
    exists i :: 0 <= i < |cmp| && true in cmp[i]
  }

  /** Some pair is true exactly when some cell is. */
  lemma AnyTrueCell(cmp: Matrix)
    requires Triangular(cmp)
    ensures AnyTrue(cmp) <==> exists i, j :: 0 <= i < j < |cmp| && Cell(cmp, i, j)
  {
    if AnyTrue(cmp) {
      var i :| 0 <= i < |cmp| && true in cmp[i];
      var k :| 0 <= k < |cmp[i]| && cmp[i][k];
      assert Cell(cmp, i, i + k + 1);
    }
  }

  /** The pairs of the matrix as a symmetric relation on file indices. */
  predicate Paired(cmp: Matrix, a: nat, b: nat)
    requires Triangular(cmp) && a < |cmp| && b < |cmp| && a != b
  {
    if a < b then Cell(cmp, a, b) else Cell(cmp, b, a)
  }

  /** Files paired with a common third file are paired with each other. */
  ghost predicate Transitive(cmp: Matrix)
    requires Triangular(cmp)
  {
    forall a, b, c ::
      0 <= a < |cmp| && 0 <= b < |cmp| && 0 <= c < |cmp| && a != b && b != c && a != c &&
      Paired(cmp, a, b) && Paired(cmp, b, c)
      ==> Paired(cmp, a, c)
  }

  /** Row i after one round's comparisons. */
  function ComparedRow(row: seq<bool>, i: nat, contents: seq<seq<bv8>>): (r: seq<bool>)
    requires i + |row| < |contents|
    ensures |r| == |row|
  {
    seq(|row|, k requires 0 <= k < |row| => row[k] && contents[i] == contents[i + k + 1])
  }

  /** The matrix after one round's comparisons: a pair stays true exactly
      when it was true and the two files yielded the same bytes. */
  function Compared(cmp: Matrix, contents: seq<seq<bv8>>): (r: Matrix)
    requires Triangular(cmp) && |contents| == |cmp|
    ensures |r| == |cmp| && Triangular(r)
    ensures forall i, j :: 0 <= i < j < |cmp| ==> (Cell(r, i, j) <==> Cell(cmp, i, j) && contents[i] == contents[j])
  {
    seq(|cmp|, i requires 0 <= i < |cmp| => ComparedRow(cmp[i], i, contents))
  }

  /** The comparisons of row i (DupeHunter.cpp 151-157): an entry already
      false is left alone; a true one becomes whether both files read the
      same number of bytes and memcmp finds those bytes equal. */
  method CompareRow(row: seq<bool>, i: nat, buffer: array<bv8>, offsets: seq<nat>, bytesRead: seq<nat>,
                    ghost contents: seq<seq<bv8>>)
    returns (r: seq<bool>, any: bool)
    requires i + |row| < |contents| && |offsets| == |contents| && |bytesRead| == |contents|
    requires forall q :: 0 <= q < |contents| ==> bytesRead[q] == |contents[q]| && Holds(buffer[..], offsets[q], contents[q])
    ensures r == ComparedRow(row, i, contents)
    ensures any <==> true in r
  {
    r, any := row, false;
    // k is the entry of the pair (i, j) for j = i + k + 1.
    for k := 0 to |row|
      invariant |r| == |row|
      invariant forall t :: 0 <= t < k ==> r[t] == ComparedRow(row, i, contents)[t]
      invariant forall t :: k <= t < |row| ==> r[t] == row[t]
      invariant any <==> true in r[..k]
    {
      if r[k] {
        var same := SameBytes(buffer, offsets, bytesRead, i, i + k + 1, contents);
        r := r[k := same];
      }
      assert r[..k + 1] == r[..k] + [r[k]];
      any := any || r[k];
    }
    assert r[..|row|] == r;
  }

  /** `bytes_read[i] == bytes_read[j] ? 0 == memcmp(...) : false`: the two
      files read the same bytes this round. */
  method SameBytes(buffer: array<bv8>, offsets: seq<nat>, bytesRead: seq<nat>, i: nat, j: nat,
                   ghost contents: seq<seq<bv8>>)
    returns (same: bool)
    requires i < |contents| && j < |contents| && |offsets| == |contents| && |bytesRead| == |contents|
    requires bytesRead[i] == |contents[i]| && Holds(buffer[..], offsets[i], contents[i])
    requires bytesRead[j] == |contents[j]| && Holds(buffer[..], offsets[j], contents[j])
    ensures same <==> contents[i] == contents[j]
  {
    if bytesRead[i] != bytesRead[j] {
      return false;
    }
    assert buffer[offsets[i]..offsets[i] + bytesRead[i]] == buffer[..][offsets[i]..offsets[i] + |contents[i]|];
    assert buffer[offsets[j]..offsets[j] + bytesRead[i]] == buffer[..][offsets[j]..offsets[j] + |contents[j]|];
    same := buffer[offsets[i]..offsets[i] + bytesRead[i]] == buffer[offsets[j]..offsets[j] + bytesRead[i]];
  }

  /** One round of comparisons over the whole matrix (DupeHunter.cpp
      149-158), and work_to_do: whether any pair is still true. */
  method CompareRound(cmp: Matrix, buffer: array<bv8>, offsets: seq<nat>, bytesRead: seq<nat>,
                      ghost contents: seq<seq<bv8>>)
    returns (r: Matrix, work: bool)
    requires Triangular(cmp) && |cmp| > 0
    requires |contents| == |cmp| && |offsets| == |cmp| && |bytesRead| == |cmp|
    requires forall q :: 0 <= q < |contents| ==> bytesRead[q] == |contents[q]| && Holds(buffer[..], offsets[q], contents[q])
    ensures r == Compared(cmp, contents)
    ensures work == AnyTrue(r)
  {
    r, work := cmp, false;
    var n := |cmp|;
    for i := 0 to n - 1
      invariant |r| == n
      invariant forall p :: 0 <= p < i ==> r[p] == ComparedRow(cmp[p], p, contents)
      invariant forall p :: i <= p < n ==> r[p] == cmp[p]
      invariant work <==> exists p :: 0 <= p < i && true in r[p]
    {
      var row, any := CompareRow(r[i], i, buffer, offsets, bytesRead, contents);
      r := r[i := row];
      work := work || any;
    }
    assert r[n - 1] == [] == ComparedRow(cmp[n - 1], n - 1, contents);
    assert r == Compared(cmp, contents);
  }

  /** The matrix the loop of DupeHunter.cpp 148-160 leaves, from a round
      about to be read: when a read fails or yields no bytes the round's
      comparisons are skipped and the loop ends; otherwise the round is
      compared and the loop goes on while some pair is true. */
  ghost function Rounds(handles: seq<Handle>, chunk: nat, cmp: Matrix): (r: Matrix)
    requires Triangular(cmp) && |cmp| == |handles| > 0
    ensures |r| == |cmp| && Triangular(r)
    decreases Remaining(handles)
  {
    if !RoundOk(handles, chunk) then cmp
    else
      var next := Compared(cmp, Contents(handles, chunk));
      if !AnyTrue(next) then next
      else
        RoundConsumes(handles, chunk);
        Rounds(Advanced(handles, chunk), chunk, next)
  }

  /** The read/compare loop of n_way_compare: the matrix it leaves is the
      one Rounds describes. */
  method ReadCompareLoop(handles: seq<Handle>, buffer: array<bv8>, offsets: seq<nat>, chunk: nat, cmp: Matrix)
    returns (r: Matrix)
    requires Triangular(cmp) && |cmp| == |handles| > 0
    requires |offsets| == |handles| && Slots(offsets, chunk, buffer.Length)
    modifies buffer
    ensures r == Rounds(handles, chunk, cmp)
  {
    var files := handles;
    r := cmp;
    var work := true;
    while work
      invariant |files| == |handles| && Triangular(r) && |r| == |cmp|
      invariant work ==> Rounds(files, chunk, r) == Rounds(handles, chunk, cmp)
      invariant !work ==> r == Rounds(handles, chunk, cmp)
      decreases Remaining(files), work
    {
      var next, bytesRead, ok := ReadMultiFile(files, buffer, offsets, chunk);
      if !ok {
        work := false;
      } else {
        RoundConsumes(files, chunk);
        r, work := CompareRound(r, buffer, offsets, bytesRead, Contents(files, chunk));
        files := next;
      }
    }
  }
}
