/** The first stage of n_way_compare (DupeHunter.cpp 98-122): every path of
    a size bucket is opened, and a path is dropped when it cannot be opened
    or when it names a file object (nFileIndexHigh/Low) already kept, as a
    second hard link does. The file system is a map from paths to file
    objects; a path it does not hold cannot be opened. */
module Opening {
  import opened Wrappers

  /** A file object: its identity, its contents, and the offsets at which a
      ReadFile call fails. */
  datatype FileObject = FileObject(id: nat, data: seq<bv8>, failsAt: set<nat>)

  type FileSystem = map<string, FileObject>

  /** An open handle: the file and the offset of its next read. */
  datatype Handle = Handle(file: FileObject, pos: nat)

  /** `CreateFileW`: a fresh handle at offset 0, or None (INVALID_HANDLE_VALUE). */
  function Open(fs: FileSystem, name: string): (h: Option<Handle>)
    ensures h.Some? <==> name in fs
    ensures h.Some? ==> h.value == Handle(fs[name], 0)
  {
    if name in fs then Some(Handle(fs[name], 0)) else None
  }

  /** The paths the open loop keeps, given the identities seen so far: the
      openable ones whose identity has not been seen, in order. */
  ghost function Survivors(names: seq<string>, fs: FileSystem, seen: set<nat>): (r: seq<string>)
    ensures forall k :: 0 <= k < |r| ==> r[k] in fs
    decreases |names|
  {
    if |names| == 0 then []
    else
      var n := names[0];
      if n !in fs || fs[n].id in seen then Survivors(names[1..], fs, seen)
      else [n] + Survivors(names[1..], fs, seen + {fs[n].id})
  }

  /** a is b with some elements left out. */
  predicate IsSubsequence<T(==)>(a: seq<T>, b: seq<T>)
    decreases |b|
  {
    if |a| == 0 then true
    else if |b| == 0 then false
    else if a[0] == b[0] then IsSubsequence(a[1..], b[1..])
    else IsSubsequence(a, b[1..])
  }

  /** The survivors keep their original relative order. */
  lemma {:induction false} SurvivorsInOrder(names: seq<string>, fs: FileSystem, seen: set<nat>)
    ensures IsSubsequence(Survivors(names, fs, seen), names)
    decreases |names|
  {
    if |names| > 0 {
      var n := names[0];
      if n !in fs || fs[n].id in seen {
        SurvivorsInOrder(names[1..], fs, seen);
        SkipFront(Survivors(names[1..], fs, seen), names);
      } else {
        SurvivorsInOrder(names[1..], fs, seen + {fs[n].id});
      }
    }
  }

  /** An element in front of b can be skipped. */
  lemma {:induction false} SkipFront<T>(a: seq<T>, b: seq<T>)
    requires |b| > 0 && IsSubsequence(a, b[1..])
    ensures IsSubsequence(a, b)
    decreases |b|, 1
  {
    if |a| > 0 && a[0] == b[0] {
      DropHead(a, b[1..]);
    }
  }

  /** The first element of a can be left out too. */
  lemma {:induction false} DropHead<T>(a: seq<T>, c: seq<T>)
    requires |a| > 0 && IsSubsequence(a, c)
    ensures IsSubsequence(a[1..], c)
    decreases |c|, 2
  {
    if a[0] != c[0] {
      DropHead(a, c[1..]);
    }
    SkipFront(a[1..], c);
  }

  /** The survivors can all be opened, and no two of them, nor any survivor
      and an identity seen before, share an identity. */
  predicate Unseen(r: seq<string>, fs: FileSystem, seen: set<nat>)
  {
    forall k :: 0 <= k < |r| ==> r[k] in fs && fs[r[k]].id !in seen
  }

  predicate DistinctIds(r: seq<string>, fs: FileSystem)
  {
    forall p, q :: 0 <= p < q < |r| ==> r[p] in fs && r[q] in fs && fs[r[p]].id != fs[r[q]].id
  }

  predicate HasId(r: seq<string>, fs: FileSystem, id: nat)
  {
    exists q :: 0 <= q < |r| && r[q] in fs && fs[r[q]].id == id
  }

  lemma {:induction false} SurvivorsDistinct(names: seq<string>, fs: FileSystem, seen: set<nat>)
    ensures Unseen(Survivors(names, fs, seen), fs, seen)
    ensures DistinctIds(Survivors(names, fs, seen), fs)
    decreases |names|
  {
    if |names| > 0 {
      var n := names[0];
      var r := Survivors(names, fs, seen);
      if n !in fs || fs[n].id in seen {
        SurvivorsDistinct(names[1..], fs, seen);
        assert r == Survivors(names[1..], fs, seen);
      } else {
        SurvivorsDistinct(names[1..], fs, seen + {fs[n].id});
        var rest := Survivors(names[1..], fs, seen + {fs[n].id});
        assert r == [n] + rest;
        forall k | 0 <= k < |r|
          ensures fs[r[k]].id !in seen && (k > 0 ==> fs[r[k]].id != fs[n].id)
        {
          if k > 0 {
            assert r[k] == rest[k - 1];
            assert fs[rest[k - 1]].id !in seen + {fs[n].id};
          } else {
            assert r[k] == n;
          }
        }
        forall p, q | 0 <= p < q < |r|
          ensures fs[r[p]].id != fs[r[q]].id
        {
          if p > 0 {
            assert r[p] == rest[p - 1] && r[q] == rest[q - 1];
          }
        }
      }
    }
  }

  /** A path is dropped only when it cannot be opened or when a survivor, or
      an identity seen before, has its identity. */
  lemma {:induction false} DroppedAreDuplicates(names: seq<string>, fs: FileSystem, seen: set<nat>, k: nat)
    requires k < |names| && names[k] in fs
    ensures fs[names[k]].id in seen || HasId(Survivors(names, fs, seen), fs, fs[names[k]].id)
    decreases |names|
  {
    var n := names[0];
    var r := Survivors(names, fs, seen);
    if k == 0 {
      if fs[n].id !in seen {
        assert r == [n] + Survivors(names[1..], fs, seen + {fs[n].id});
        assert fs[r[0]].id == fs[names[k]].id;
      }
    } else {
      assert names[1..][k - 1] == names[k];
      if n !in fs || fs[n].id in seen {
        DroppedAreDuplicates(names[1..], fs, seen, k - 1);
      } else {
        DroppedAreDuplicates(names[1..], fs, seen + {fs[n].id}, k - 1);
        var rest := Survivors(names[1..], fs, seen + {fs[n].id});
        assert r == [n] + rest;
        if fs[names[k]].id == fs[n].id {
          assert r[0] == n;
        } else if fs[names[k]].id !in seen {
          var q :| 0 <= q < |rest| && rest[q] in fs && fs[rest[q]].id == fs[names[k]].id;
          assert r[q + 1] == rest[q];
        }
      }
    }
  }

  /** Candidate k can be opened and no earlier openable candidate has its
      identity: it is the first path to its file. */
  ghost predicate FirstOfItsFile(c: seq<string>, fs: FileSystem, k: nat)
    requires k < |c|
  {
    c[k] in fs && forall q :: 0 <= q < k && c[q] in fs ==> fs[c[q]].id != fs[c[k]].id
  }

  /** The first path to each file among c[..n], in order: an independent
      statement of what the open loop keeps. */
  ghost function FirstPaths(c: seq<string>, fs: FileSystem, n: nat): seq<string>
    requires n <= |c|
  {
    if n == 0 then []
    else FirstPaths(c, fs, n - 1) + (if FirstOfItsFile(c, fs, n - 1) then [c[n - 1]] else [])
  }

  /** The identities of the openable candidates among c[..n]. */
  ghost function IdsBefore(c: seq<string>, fs: FileSystem, n: nat): set<nat>
    requires n <= |c|
  {
    set q | 0 <= q < n && c[q] in fs :: fs[c[q]].id
  }

  /** The open loop keeps exactly the first openable path to each file, in
      candidate order; every later path to the same file is dropped. */
  lemma SurvivorsAreFirstPaths(c: seq<string>, fs: FileSystem)
    ensures Survivors(c, fs, {}) == FirstPaths(c, fs, |c|)
  {
    FirstPathsPrefix(c, fs, |c|);
    assert c[|c|..] == [];
  }

  lemma {:induction false} FirstPathsPrefix(c: seq<string>, fs: FileSystem, j: nat)
    requires j <= |c|
    ensures FirstPaths(c, fs, j) + Survivors(c[j..], fs, IdsBefore(c, fs, j)) == Survivors(c, fs, {})
    decreases j
  {
    if j == 0 {
      assert IdsBefore(c, fs, 0) == {};
      assert c[0..] == c;
    } else {
      var k := j - 1;
      FirstPathsPrefix(c, fs, k);
      var seen := IdsBefore(c, fs, k);
      var rest := c[k..];
      assert rest[0] == c[k] && rest[1..] == c[j..];
      IdsBeforeStep(c, fs, k);
      if c[k] in fs && fs[c[k]].id !in seen {
        assert FirstOfItsFile(c, fs, k);
        assert IdsBefore(c, fs, j) == seen + {fs[c[k]].id};
        assert FirstPaths(c, fs, j) == FirstPaths(c, fs, k) + [c[k]];
        assert Survivors(rest, fs, seen) == [c[k]] + Survivors(c[j..], fs, seen + {fs[c[k]].id});
        assert FirstPaths(c, fs, j) + Survivors(c[j..], fs, IdsBefore(c, fs, j))
            == FirstPaths(c, fs, k) + Survivors(rest, fs, seen);
      } else {
        assert !FirstOfItsFile(c, fs, k);
        assert IdsBefore(c, fs, j) == seen;
        assert FirstPaths(c, fs, j) == FirstPaths(c, fs, k) + [];
        assert Survivors(rest, fs, seen) == Survivors(c[j..], fs, seen);
      }
    }
  }

  lemma IdsBeforeStep(c: seq<string>, fs: FileSystem, k: nat)
    requires k < |c|
    ensures IdsBefore(c, fs, k + 1) == IdsBefore(c, fs, k) + (if c[k] in fs then {fs[c[k]].id} else {})
    ensures c[k] in fs ==> (fs[c[k]].id in IdsBefore(c, fs, k) <==> !FirstOfItsFile(c, fs, k))
  {
    if c[k] in fs && fs[c[k]].id in IdsBefore(c, fs, k) {
      var q :| 0 <= q < k && c[q] in fs && fs[c[q]].id == fs[c[k]].id;
    }
  }

  /** The loop's progress: names[..i] are the survivors so far, names[i..]
      is what is left of the candidates, and fileIds the identities kept. */
  ghost predicate Tracks(candidates: seq<string>, j: nat, names: seq<string>, i: nat, fs: FileSystem, fileIds: set<nat>)
  {
    i <= |names| && j <= |candidates| && names[i..] == candidates[j..]
    && names[..i] + Survivors(candidates[j..], fs, fileIds) == Survivors(candidates, fs, {})
  }

  /** Every kept path holds a fresh handle; the slots not reached yet are
      empty. */
  predicate Filled(names: seq<string>, files: seq<Option<Handle>>, i: nat, fs: FileSystem)
  {
    i <= |names| && |files| == |names|
    && (forall k :: 0 <= k < i ==> names[k] in fs && files[k] == Some(Handle(fs[names[k]], 0)))
    && forall k :: i <= k < |files| ==> files[k] == None
  }

  /** Erasing a path that cannot be opened, or whose identity was seen,
      keeps the loop on track. */
  lemma TracksSkip(candidates: seq<string>, j: nat, names: seq<string>, i: nat, fs: FileSystem, fileIds: set<nat>)
    requires Tracks(candidates, j, names, i, fs, fileIds) && i < |names|
    requires names[i] !in fs || fs[names[i]].id in fileIds
    ensures Tracks(candidates, j + 1, names[..i] + names[i + 1..], i, fs, fileIds)
  {
    var c := candidates[j..];
    assert c[0] == names[i] && c[1..] == candidates[j + 1..];
    assert Survivors(c, fs, fileIds) == Survivors(c[1..], fs, fileIds);
    var names' := names[..i] + names[i + 1..];
    assert names'[..i] == names[..i] && names'[i..] == names[i + 1..];
  }

  /** Keeping a fresh identity moves the loop on by one. */
  lemma TracksKeep(candidates: seq<string>, j: nat, names: seq<string>, i: nat, fs: FileSystem, fileIds: set<nat>)
    requires Tracks(candidates, j, names, i, fs, fileIds) && i < |names|
    requires names[i] in fs && fs[names[i]].id !in fileIds
    ensures Tracks(candidates, j + 1, names, i + 1, fs, fileIds + {fs[names[i]].id})
  {
    var c := candidates[j..];
    assert c[0] == names[i] && c[1..] == candidates[j + 1..];
    assert Survivors(c, fs, fileIds) == [c[0]] + Survivors(c[1..], fs, fileIds + {fs[names[i]].id});
    assert names[..i + 1] == names[..i] + [names[i]];
  }

  lemma FilledErase(names: seq<string>, files: seq<Option<Handle>>, i: nat, fs: FileSystem, handle: Option<Handle>)
    requires Filled(names, files, i, fs) && i < |names|
    ensures Filled(names[..i] + names[i + 1..], files[i := handle][..i] + files[i := handle][i + 1..], i, fs)
  {
    var files' := files[i := handle][..i] + files[i := handle][i + 1..];
    assert forall k :: i <= k < |files'| ==> files'[k] == files[k + 1];
  }

  /** `names.erase(names.begin() + i)` and the same on files: the entry at i
      goes and the later ones move down by one. */
  method EraseAt<T, U>(names: seq<T>, files: seq<U>, i: nat) returns (names': seq<T>, files': seq<U>)
    requires i < |names| && |files| == |names|
    ensures names' == names[..i] + names[i + 1..] && files' == files[..i] + files[i + 1..]
  {
    names' := names[..i] + names[i + 1..];
    files' := files[..i] + files[i + 1..];
  }

  /** The open loop of n_way_compare (DupeHunter.cpp 98-122): names and
      files are erased together, so they stay index-aligned, and what is
      left is the survivors with a fresh handle each. */
  method OpenCandidates(candidates: seq<string>, fs: FileSystem) returns (names: seq<string>, files: seq<Option<Handle>>)
    ensures names == Survivors(candidates, fs, {})
    ensures |files| == |names|
    ensures forall k :: 0 <= k < |files| ==> names[k] in fs && files[k] == Some(Handle(fs[names[k]], 0))
  {
    names := candidates;
    files := seq(|candidates|, _ => None);
    var fileIds: set<nat> := {};
    var i := 0;
    ghost var j := 0;
    while i < |names|
      invariant Tracks(candidates, j, names, i, fs, fileIds)
      invariant Filled(names, files, i, fs)
      decreases |names| - i
    {
      ghost var before := files;
      var handle := Open(fs, names[i]);
      files := files[i := handle];
      if handle.None? {
        TracksSkip(candidates, j, names, i, fs, fileIds);
        FilledErase(names, before, i, fs, handle);
        names, files := EraseAt(names, files, i);
        j := j + 1;
        continue;
      }
      var fileId := handle.value.file.id;
      if fileId in fileIds {
        TracksSkip(candidates, j, names, i, fs, fileIds);
        FilledErase(names, before, i, fs, handle);
        names, files := EraseAt(names, files, i);
        j := j + 1;
        continue;
      }
      TracksKeep(candidates, j, names, i, fs, fileIds);
      fileIds := fileIds + {fileId};
      i := i + 1;
      j := j + 1;
    }
    assert names[..i] == names;
  }
}
