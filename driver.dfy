/** The comparing loop of wmain (DupeHunter.cpp 268-281): the buckets left by
    the filter are visited in ascending size order and each is handed to
    n_way_compare, whose duplicate sets are printed. A bucket with more
    paths than the buffer has bytes throws, which ends wmain. */
module Driver {
  import Catalog
  import Buckets
  import opened Opening
  import opened Engine

  /** The duplicate sets reported for the buckets keys names, in order, and
      whether a bucket threw and cut the run short. */
  ghost function Reports(keys: seq<nat>, files: Catalog.SizeMap, fs: FileSystem, budget: nat): (r: (seq<seq<seq<string>>>, bool))
    ensures |r.0| <= |keys|
    decreases |keys|
  {
    if |keys| == 0 then ([], false)
    else
      var before := Reports(keys[..|keys| - 1], files, fs, budget);
      var size := keys[|keys| - 1];
      var o := NWay(size, Catalog.Bucket(files, size), fs, budget);
      if before.1 || o.BufferTooSmall? then (before.0, true)
      else (before.0 + [o.sets], false)
  }

  /** One more bucket: its sets are appended, or it throws. */
  lemma ReportsSnoc(keys: seq<nat>, size: nat, files: Catalog.SizeMap, fs: FileSystem, budget: nat)
    requires !Reports(keys, files, fs, budget).1
    ensures NWay(size, Catalog.Bucket(files, size), fs, budget).BufferTooSmall? ==>
              Reports(keys + [size], files, fs, budget) == (Reports(keys, files, fs, budget).0, true)
    ensures NWay(size, Catalog.Bucket(files, size), fs, budget).Duplicates? ==>
              Reports(keys + [size], files, fs, budget) ==
              (Reports(keys, files, fs, budget).0 + [NWay(size, Catalog.Bucket(files, size), fs, budget).sets], false)
  {
    assert (keys + [size])[..|keys|] == keys;
  }

  /** Once a bucket has thrown, later buckets report nothing. */
  lemma {:induction false} ReportsStayFailed(a: seq<nat>, b: seq<nat>, files: Catalog.SizeMap, fs: FileSystem, budget: nat)
    requires Reports(a, files, fs, budget).1
    ensures Reports(a + b, files, fs, budget) == Reports(a, files, fs, budget)
    decreases |b|
  {
    if |b| == 0 {
      assert a + b == a;
    } else {
      ReportsStayFailed(a, b[..|b| - 1], files, fs, budget);
      assert (a + b)[..|a + b| - 1] == a + b[..|b| - 1];
    }
  }

  /** When every bucket fits the buffer, nothing throws, and the k-th report
      is n_way_compare's answer for the k-th bucket. */
  lemma {:induction false} ReportsComplete(keys: seq<nat>, files: Catalog.SizeMap, fs: FileSystem, budget: nat)
    requires forall k :: 0 <= k < |keys| ==> |Catalog.Bucket(files, keys[k])| <= budget
    ensures !Reports(keys, files, fs, budget).1 && |Reports(keys, files, fs, budget).0| == |keys|
    ensures forall k :: 0 <= k < |keys| ==>
              NWay(keys[k], Catalog.Bucket(files, keys[k]), fs, budget) == Duplicates(Reports(keys, files, fs, budget).0[k])
    decreases |keys|
  {
    if |keys| > 0 {
      var init := keys[..|keys| - 1];
      var size := keys[|keys| - 1];
      assert keys == init + [size];
      assert forall k :: 0 <= k < |init| ==> init[k] == keys[k];
      ReportsComplete(init, files, fs, budget);
      ReportsSnoc(init, size, files, fs, budget);
      var outcome := NWay(size, Catalog.Bucket(files, size), fs, budget);
      AppendedIndex(Reports(init, files, fs, budget).0, outcome.sets, init, size, files, fs, budget);
    }
  }

  /** The reports after one more bucket, entry by entry. */
  lemma AppendedIndex(before: seq<seq<seq<string>>>, sets: seq<seq<string>>, init: seq<nat>, size: nat,
                      files: Catalog.SizeMap, fs: FileSystem, budget: nat)
    requires |before| == |init| && NWay(size, Catalog.Bucket(files, size), fs, budget) == Duplicates(sets)
    requires forall k :: 0 <= k < |init| ==> NWay(init[k], Catalog.Bucket(files, init[k]), fs, budget) == Duplicates(before[k])
    ensures forall k :: 0 <= k < |init| + 1 ==>
              NWay((init + [size])[k], Catalog.Bucket(files, (init + [size])[k]), fs, budget) == Duplicates((before + [sets])[k])
  {
    forall k | 0 <= k < |init| + 1
      ensures NWay((init + [size])[k], Catalog.Bucket(files, (init + [size])[k]), fs, budget) == Duplicates((before + [sets])[k])
    {
      if k < |init| {
        assert (init + [size])[k] == init[k] && (before + [sets])[k] == before[k];
      } else {
        assert (init + [size])[k] == size && (before + [sets])[k] == sets;
      }
    }
  }

  /** The loop of DupeHunter.cpp 268-281 over the filtered map: reports
      holds the duplicate sets of each bucket in ascending size order, and
      failed is set when a bucket threw. */
  method CompareBuckets(files: Catalog.SizeMap, fs: FileSystem, buffer: array<bv8>) returns (reports: seq<seq<seq<string>>>, failed: bool)
    modifies buffer
    ensures (reports, failed) == Reports(Buckets.Ascending(files.Keys), files, fs, buffer.Length)
  {
    reports, failed := [], false;
    var remaining := files.Keys;
    ghost var done: seq<nat> := [];
    while remaining != {}
      invariant remaining <= files.Keys
      invariant Buckets.Ascending(files.Keys) == done + Buckets.Ascending(remaining)
      invariant Reports(done, files, fs, buffer.Length) == (reports, false)
      decreases |remaining|
    {
      var size, outcome := CompareNext(files, fs, buffer, remaining, done);
      if outcome.BufferTooSmall? {
        ReportsStayFailed(done + [size], Buckets.Ascending(remaining - {size}), files, fs, buffer.Length);
        return reports, true;
      }
      reports := reports + [outcome.sets];
      done := done + [size];
      remaining := remaining - {size};
    }
    assert done == Buckets.Ascending(files.Keys);
  }

  /** One pass of the loop: the least size left, and n_way_compare's
      outcome for its bucket. */
  method CompareNext(files: Catalog.SizeMap, fs: FileSystem, buffer: array<bv8>, remaining: set<nat>, ghost done: seq<nat>)
    returns (size: nat, outcome: Outcome)
    requires remaining != {} && remaining <= files.Keys && !Reports(done, files, fs, buffer.Length).1
    modifies buffer
    ensures size in remaining
    ensures done + Buckets.Ascending(remaining) == (done + [size]) + Buckets.Ascending(remaining - {size})
    ensures outcome.BufferTooSmall? ==> Reports(done + [size], files, fs, buffer.Length) == (Reports(done, files, fs, buffer.Length).0, true)
    ensures outcome.Duplicates? ==>
              Reports(done + [size], files, fs, buffer.Length) == (Reports(done, files, fs, buffer.Length).0 + [outcome.sets], false)
  {
    size := Buckets.LeastKey(remaining);
    ghost var rest := Buckets.Ascending(remaining - {size});
    assert done + ([size] + rest) == (done + [size]) + rest;
    outcome := NWayCompare(size, files[size], fs, buffer);
    ReportsSnoc(done, size, files, fs, buffer.Length);
  }
}
