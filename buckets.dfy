/** The bucket filter of wmain (DupeHunter.cpp 258-267): the size map is
    walked in ascending key order, as std::map iterates, and every bucket
    that cannot hold a duplicate (size 0, or a single path) is erased, its
    paths subtracted from the running count. */
module Buckets {
  import opened Catalog

  /** The least key of a non-empty key set. */
  ghost function MinKey(keys: set<nat>): (m: nat)
    requires keys != {}
    ensures m in keys && forall k :: k in keys ==> m <= k
    decreases |keys|
  {
    var x :| x in keys;
    if keys == {x} then x
    else
      var r := MinKey(keys - {x});
      assert forall k :: k in keys ==> k == x || k in keys - {x};
      if x < r then x else r
  }

  /** The keys in the order std::map visits them. */
  ghost function Ascending(keys: set<nat>): (ks: seq<nat>)
    decreases |keys|
  {
    if keys == {} then []
    else
      var m := MinKey(keys);
      [m] + Ascending(keys - {m})
  }

  /** Ascending lists every key once, in increasing order. */
  lemma AscendingSorted(keys: set<nat>)
    ensures |Ascending(keys)| == |keys|
    ensures forall k :: k in keys <==> k in Ascending(keys)
    ensures forall i, j :: 0 <= i < j < |Ascending(keys)| ==> Ascending(keys)[i] < Ascending(keys)[j]
  {
    AscendingMembers(keys);
    AscendingOrdered(keys);
  }

  lemma {:induction false} AscendingMembers(keys: set<nat>)
    ensures |Ascending(keys)| == |keys|
    ensures forall k :: k in keys <==> k in Ascending(keys)
    decreases |keys|
  {
    if keys != {} {
      var m := MinKey(keys);
      AscendingMembers(keys - {m});
      assert Ascending(keys) == [m] + Ascending(keys - {m});
    }
  }

  predicate Increasing(s: seq<nat>)
  {
    forall i, j :: 0 <= i < j < |s| ==> s[i] < s[j]
  }

  lemma {:induction false} AscendingOrdered(keys: set<nat>)
    ensures Increasing(Ascending(keys))
    decreases |keys|
  {
    if keys != {} {
      var m := MinKey(keys);
      var rest := Ascending(keys - {m});
      AscendingOrdered(keys - {m});
      AscendingMembers(keys - {m});
      assert forall t :: 0 <= t < |rest| ==> rest[t] in keys - {m};
      IncreasingCons(m, rest);
    }
  }

  lemma IncreasingCons(m: nat, rest: seq<nat>)
    requires Increasing(rest) && forall t :: 0 <= t < |rest| ==> m < rest[t]
    ensures Increasing([m] + rest)
  {
    var all := [m] + rest;
    forall i, j | 0 <= i < j < |all|
      ensures all[i] < all[j]
    {
      assert all[j] == rest[j - 1];
      if i > 0 {
        assert all[i] == rest[i - 1];
      }
    }
  }

  /** A bucket that cannot hold a duplicate pair: size 0, or a single path. */
  predicate Hopeless(files: SizeMap, k: nat)
    requires k in files
  {
    k == 0 || |files[k]| == 1
  }

  /** The buckets that survive the filter. */
  ghost function Kept(files: SizeMap): SizeMap
  {
    map k | k in files && !Hopeless(files, k) :: files[k]
  }

  /** How many paths sit in the buckets of files named by ks. */
  function CountIn(files: SizeMap, ks: seq<nat>): nat
  {
    if |ks| == 0 then 0 else CountIn(files, ks[..|ks| - 1]) + |Bucket(files, ks[|ks| - 1])|
  }

  /** How many paths sit in the hopeless buckets named by ks. */
  function Removed(files: SizeMap, ks: seq<nat>): nat
  {
    if |ks| == 0 then 0
    else
      var k := ks[|ks| - 1];
      Removed(files, ks[..|ks| - 1]) + (if k in files && Hopeless(files, k) then |files[k]| else 0)
  }

  /** Every path counted in files is either in a surviving bucket or
      removed. */
  lemma {:induction false} CountSplits(files: SizeMap, ks: seq<nat>)
    ensures CountIn(files, ks) == CountIn(Kept(files), ks) + Removed(files, ks)
    decreases |ks|
  {
    if |ks| > 0 {
      CountSplits(files, ks[..|ks| - 1]);
    }
  }

  /** The map after erasing the hopeless buckets among ks, in order. */
  function EraseHopeless(files: SizeMap, ks: seq<nat>): SizeMap
  {
    if |ks| == 0 then files
    else
      var k := ks[|ks| - 1];
      var m := EraseHopeless(files, ks[..|ks| - 1]);
      if k in files && Hopeless(files, k) then m - {k} else m
  }

  /** Erasing along ks removes exactly the hopeless buckets ks names and
      leaves every other bucket as it was. */
  lemma {:induction false} EraseHopelessKeeps(files: SizeMap, ks: seq<nat>)
    ensures forall k :: k in EraseHopeless(files, ks) <==> k in files && !(k in ks && Hopeless(files, k))
    ensures forall k :: k in EraseHopeless(files, ks) ==> EraseHopeless(files, ks)[k] == files[k]
    decreases |ks|
  {
    if |ks| > 0 {
      var last := ks[|ks| - 1];
      EraseHopelessKeeps(files, ks[..|ks| - 1]);
      forall k | true
        ensures k in ks <==> k in ks[..|ks| - 1] || k == last
      {
        if k in ks {
          var q :| 0 <= q < |ks| && ks[q] == k;
          if q < |ks| - 1 {
            assert ks[..|ks| - 1][q] == k;
          }
        }
      }
    }
  }

  /** The wmain loop of DupeHunter.cpp 259-267: kept is the map with the
      hopeless buckets erased, and filesRead is total less the paths they
      held. */
  method FilterBuckets(files: SizeMap, total: int) returns (kept: SizeMap, filesRead: int)
    ensures forall k :: k in kept <==> k in files && k != 0 && |files[k]| != 1
    ensures forall k :: k in kept ==> kept[k] == files[k]
    ensures filesRead == total - Removed(files, Ascending(files.Keys))
  {
    kept, filesRead := files, total;
    var remaining := files.Keys;
    ghost var done: seq<nat> := [];
    while remaining != {}
      invariant remaining <= files.Keys
      invariant Ascending(files.Keys) == done + Ascending(remaining)
      invariant kept == EraseHopeless(files, done)
      invariant filesRead == total - Removed(files, done)
      decreases |remaining|
    {
      var k;
      k, kept, filesRead := FilterNext(files, total, remaining, done, kept, filesRead);
      done := done + [k];
      remaining := remaining - {k};
    }
    assert done == Ascending(files.Keys);
    ErasedAll(files);
  }

  /** One pass of the filter loop: the least key left, and its bucket
      erased and its paths subtracted when it is hopeless. */
  method FilterNext(files: SizeMap, total: int, remaining: set<nat>, ghost done: seq<nat>, kept: SizeMap, filesRead: int)
    returns (k: nat, kept': SizeMap, filesRead': int)
    requires remaining != {} && remaining <= files.Keys
    requires kept == EraseHopeless(files, done) && filesRead == total - Removed(files, done)
    ensures k in remaining
    ensures done + Ascending(remaining) == (done + [k]) + Ascending(remaining - {k})
    ensures kept' == EraseHopeless(files, done + [k]) && filesRead' == total - Removed(files, done + [k])
  {
    k := LeastKey(remaining);
    Snoc(files, done, k);
    ghost var rest := Ascending(remaining - {k});
    assert done + ([k] + rest) == (done + [k]) + rest;
    kept', filesRead' := kept, filesRead;
    if k == 0 || |files[k]| == 1 {
      filesRead' := filesRead - |files[k]|;
      kept' := kept - {k};
    }
  }

  /** Erasing along all of the keys drops exactly the hopeless buckets. */
  lemma ErasedAll(files: SizeMap)
    ensures forall k :: k in EraseHopeless(files, Ascending(files.Keys)) <==>
              k in files && k != 0 && |files[k]| != 1
    ensures forall k :: k in EraseHopeless(files, Ascending(files.Keys)) ==>
              EraseHopeless(files, Ascending(files.Keys))[k] == files[k]
  {
    AscendingSorted(files.Keys);
    EraseHopelessKeeps(files, Ascending(files.Keys));
  }

  /** The next key std::map iteration visits: the least one left. */
  method LeastKey(keys: set<nat>) returns (k: nat)
    requires keys != {}
    ensures k in keys && Ascending(keys) == [k] + Ascending(keys - {k})
  {
    ghost var m := MinKey(keys);
    k :| k in keys && forall j :: j in keys ==> k <= j;
    LeastComesFirst(keys, k);
  }

  lemma LeastComesFirst(keys: set<nat>, k: nat)
    requires k in keys && forall j :: j in keys ==> k <= j
    ensures Ascending(keys) == [k] + Ascending(keys - {k})
  {
    var m := MinKey(keys);
    assert m <= k && k <= m;
  }

  lemma Snoc(files: SizeMap, done: seq<nat>, k: nat)
    requires k in files
    ensures Removed(files, done + [k]) == Removed(files, done) + (if Hopeless(files, k) then |files[k]| else 0)
    ensures EraseHopeless(files, done + [k]) ==
            if Hopeless(files, k) then EraseHopeless(files, done) - {k} else EraseHopeless(files, done)
  {
    assert (done + [k])[..|done|] == done;
  }

  /** The number of hits whose size is among ks. */
  function HitsIn(hits: seq<Hit>, ks: seq<nat>): nat
  {
    if |hits| == 0 then 0 else (if hits[0].size in ks then 1 else 0) + HitsIn(hits[1..], ks)
  }

  predicate Distinct(ks: seq<nat>)
  {
    forall i, j :: 0 <= i < j < |ks| ==> ks[i] != ks[j]
  }

  /** Filing one path adds one to the count over distinct keys exactly when
      its size is among them. */
  lemma {:induction false} CountHit(files: SizeMap, h: Hit, ks: seq<nat>)
    requires Distinct(ks)
    ensures CountIn(FileHit(files, h), ks) == CountIn(files, ks) + (if h.size in ks then 1 else 0)
    decreases |ks|
  {
    if |ks| > 0 {
      var init := ks[..|ks| - 1];
      var last := ks[|ks| - 1];
      CountHit(files, h, init);
      assert ks == init + [last];
      if h.size == last {
        assert h.size !in init;
      }
    }
  }

  lemma {:induction false} CountAll(files: SizeMap, hits: seq<Hit>, ks: seq<nat>)
    requires Distinct(ks)
    ensures CountIn(FileAll(files, hits), ks) == CountIn(files, ks) + HitsIn(hits, ks)
    decreases |hits|
  {
    if |hits| > 0 {
      CountHit(files, hits[0], ks);
      CountAll(FileHit(files, hits[0]), hits[1..], ks);
    }
  }

  lemma {:induction false} HitsInAll(hits: seq<Hit>, ks: seq<nat>)
    requires forall q :: 0 <= q < |hits| ==> hits[q].size in ks
    ensures HitsIn(hits, ks) == |hits|
    decreases |hits|
  {
    if |hits| > 0 {
      HitsInAll(hits[1..], ks);
    }
  }

  lemma {:induction false} CountInEmpty(ks: seq<nat>)
    ensures CountIn(map[], ks) == 0
    decreases |ks|
  {
    if |ks| > 0 {
      CountInEmpty(ks[..|ks| - 1]);
    }
  }

  /** The count wmain sums from populate_files (DupeHunter.cpp 250-255) is
      the number of paths the size map holds: filing hits into an empty map
      puts every one of them in some bucket, and no path anywhere else. */
  lemma WalkCountIsCatalogued(hits: seq<Hit>)
    ensures CountIn(FileAll(map[], hits), Ascending(FileAll(map[], hits).Keys)) == |hits|
  {
    var files := FileAll(map[], hits);
    var ks := Ascending(files.Keys);
    AscendingSorted(files.Keys);
    assert Distinct(ks);
    forall q | 0 <= q < |hits|
      ensures hits[q].size in ks
    {
      FileAllKeys(map[], hits, hits[q].size);
      assert HasSize(hits, hits[q].size);
    }
    CountAll(map[], hits, ks);
    HitsInAll(hits, ks);
    CountInEmpty(ks);
  }

  /** When total counts every catalogued path, the count left after the
      filter is the number of paths in the surviving buckets. */
  lemma FilesReadCountsSurvivors(files: SizeMap, total: int, filesRead: int)
    requires total == CountIn(files, Ascending(files.Keys))
    requires filesRead == total - Removed(files, Ascending(files.Keys))
    ensures filesRead == CountIn(Kept(files), Ascending(files.Keys))
  {
    CountSplits(files, Ascending(files.Keys));
  }

  /** From the walk to the printed count: after filing hits into an empty
      map and running the filter with total = |hits|, "Comparing N files"
      reports the number of paths in the buckets that were kept. */
  lemma FilteredCountIsKeptPaths(hits: seq<Hit>, filesRead: int)
    requires filesRead == |hits| - Removed(FileAll(map[], hits), Ascending(FileAll(map[], hits).Keys))
    ensures filesRead == CountIn(Kept(FileAll(map[], hits)), Ascending(FileAll(map[], hits).Keys))
  {
    WalkCountIsCatalogued(hits);
    FilesReadCountsSurvivors(FileAll(map[], hits), |hits|, filesRead);
  }
}
