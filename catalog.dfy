/** The file catalog of DupeHunter.cpp: which names are permitted
    (permitted_name, 8-20) and the recursive walk that files every permitted
    path under its byte size (populate_files, 22-64). The file system is a
    tree of Node values; include and exclude patterns are uninterpreted
    predicates on file names. */
module Catalog {
  import Arith

  /** A compiled name pattern: whether it matches a whole file name. */
  type Pattern = string -> bool

  type u32 = x: nat | x < 0x1_0000_0000

  /** A directory entry as FindFirstFileW/FindNextFileW report it. */
  datatype Node =
    | File(name: string, sizeHigh: u32, sizeLow: u32)
    | Directory(name: string, reparsePoint: bool, entries: seq<Node>)

  /** The 64-bit size (high << 32) + low (DupeHunter.cpp 32, 57). */
  function FileSize(high: u32, low: u32): (size: nat)
    ensures size < 0x1_0000_0000_0000_0000
    ensures size / 0x1_0000_0000 == high && size % 0x1_0000_0000 == low
  {
    var size := high * 0x1_0000_0000 + low;
    assert size < 0x1_0000_0000_0000_0000 by {
      assert high * 0x1_0000_0000 <= 0xFFFF_FFFF * 0x1_0000_0000;
    }
    Arith.DivModUnique(size, 0x1_0000_0000, high, low);
    size
  }

  /** Two files have the same size exactly when both halves agree. */
  lemma SameSizeIff(h1: u32, l1: u32, h2: u32, l2: u32)
    ensures FileSize(h1, l1) == FileSize(h2, l2) <==> h1 == h2 && l1 == l2
  {
  }

  /** The permission rule: some include pattern matches the name and no
      exclude pattern does. */
  ghost predicate Permitted(name: string, includes: seq<Pattern>, excludes: seq<Pattern>)
  {
    (exists i :: 0 <= i < |includes| && includes[i](name)) &&
    (forall e :: 0 <= e < |excludes| ==> !excludes[e](name))
  }

  /** `permitted_name`: the first matching include pattern decides, by
      whether any exclude pattern matches too. */
  method PermittedName(name: string, includes: seq<Pattern>, excludes: seq<Pattern>) returns (ok: bool)
    ensures ok <==> Permitted(name, includes, excludes)
    ensures |includes| == 0 ==> !ok
  {
    var i := 0;
    while i < |includes|
      invariant 0 <= i <= |includes|
      invariant forall q :: 0 <= q < i ==> !includes[q](name)
    {
      if includes[i](name) {
        var e := 0;
        while e < |excludes|
          invariant 0 <= e <= |excludes|
          invariant forall q :: 0 <= q < e ==> !excludes[q](name)
        {
          if excludes[e](name) {
            return false;
          }
          e := e + 1;
        }
        return true;
      }
      i := i + 1;
    }
    return false;
  }

  /** A catalogued file: its size, the path it is filed under, and the name
      the permission rule was applied to. */
  datatype Hit = Hit(size: nat, path: string, name: string)

  /** `file_path`: the entry name appended to its directory, with a
      backslash between them unless the directory already ends in one. */
  function Join(dir: string, name: string): (path: string)
    requires |dir| > 0
    ensures |dir| + |name| <= |path| && path[..|dir|] == dir && path[|path| - |name|..] == name
  {
    dir + (if dir[|dir| - 1] == '\\' then "" else "\\") + name
  }

  function EntryCount(node: Node): nat
  {
    if node.Directory? then |node.entries| else 0
  }

  /** What populate_files finds at a path naming node, in the order it finds
      it: a plain file is tested by its own name; a directory's entries are
      walked whether or not it is itself a reparse point. */
  ghost function FoundAt(node: Node, path: string, includes: seq<Pattern>, excludes: seq<Pattern>): seq<Hit>
    requires |path| > 0
    decreases node, EntryCount(node) + 1
  {
    match node
    case File(name, high, low) =>
      if Permitted(name, includes, excludes) then [Hit(FileSize(high, low), path, name)] else []
    case Directory(_, _, _) => FoundIn(node, 0, path, includes, excludes)
  }

  /** What the walk finds in the entries of directory node from the k-th on:
      "." and ".." are skipped, and so are subdirectories that are reparse
      points. */
  ghost function FoundIn(node: Node, k: nat, dir: string, includes: seq<Pattern>, excludes: seq<Pattern>): seq<Hit>
    requires node.Directory? && |dir| > 0
    decreases node, |node.entries| - k
  {
    if k >= |node.entries| then []
    else
      var e := node.entries[k];
      FoundEntry(e, dir, includes, excludes) + FoundIn(node, k + 1, dir, includes, excludes)
  }

  ghost function FoundEntry(e: Node, dir: string, includes: seq<Pattern>, excludes: seq<Pattern>): seq<Hit>
    requires |dir| > 0
    decreases e, EntryCount(e) + 2
  {
    if e.name == "." || e.name == ".." then []
    else if e.Directory? && e.reparsePoint then []
    else FoundAt(e, Join(dir, e.name), includes, excludes)
  }

  /** Every catalogued file passed the permission rule. */
  lemma {:induction false} FoundPermitted(node: Node, path: string, includes: seq<Pattern>, excludes: seq<Pattern>)
    requires |path| > 0
    ensures forall h :: h in FoundAt(node, path, includes, excludes) ==> Permitted(h.name, includes, excludes)
    decreases node, EntryCount(node) + 1
  {
    if node.Directory? {
      FoundInPermitted(node, 0, path, includes, excludes);
    }
  }

  lemma {:induction false} FoundInPermitted(node: Node, k: nat, dir: string, includes: seq<Pattern>, excludes: seq<Pattern>)
    requires node.Directory? && |dir| > 0
    ensures forall h :: h in FoundIn(node, k, dir, includes, excludes) ==> Permitted(h.name, includes, excludes)
    decreases node, |node.entries| - k
  {
    if k < |node.entries| {
      var e := node.entries[k];
      if !(e.name == "." || e.name == "..") && !(e.Directory? && e.reparsePoint) {
        FoundPermitted(e, Join(dir, e.name), includes, excludes);
      }
      FoundInPermitted(node, k + 1, dir, includes, excludes);
    }
  }

  /** The size map: file size to the paths of that size, in the order they
      were filed (`size_map_type`). */
  type SizeMap = map<nat, seq<string>>

  function Bucket(files: SizeMap, size: nat): seq<string>
  {
    if size in files then files[size] else []
  }

  /** `files[size].push_back(path)`. */
  function FileHit(files: SizeMap, h: Hit): (r: SizeMap)
    ensures r.Keys == files.Keys + {h.size}
  {
    files[h.size := Bucket(files, h.size) + [h.path]]
  }

  /** The size map after filing hits in order. */
  function FileAll(files: SizeMap, hits: seq<Hit>): SizeMap
    decreases |hits|
  {
    if |hits| == 0 then files else FileAll(FileHit(files, hits[0]), hits[1..])
  }

  /** The paths among hits that have the given size, in order. */
  function PathsOfSize(hits: seq<Hit>, size: nat): seq<string>
  {
    if |hits| == 0 then []
    else (if hits[0].size == size then [hits[0].path] else []) + PathsOfSize(hits[1..], size)
  }

  /** Some hit has the given size. */
  predicate HasSize(hits: seq<Hit>, size: nat)
  {
    exists q :: 0 <= q < |hits| && hits[q].size == size
  }

  /** Filing hits appends to each bucket exactly the hits of that size, in
      the order found, and creates a bucket only for a size some hit has. */
  lemma FileAllBuckets(files: SizeMap, hits: seq<Hit>, size: nat)
    ensures Bucket(FileAll(files, hits), size) == Bucket(files, size) + PathsOfSize(hits, size)
    ensures size in FileAll(files, hits) <==> size in files || HasSize(hits, size)
  {
    FileAllAppends(files, hits, size);
    FileAllKeys(files, hits, size);
  }

  lemma {:induction false} FileAllAppends(files: SizeMap, hits: seq<Hit>, size: nat)
    ensures Bucket(FileAll(files, hits), size) == Bucket(files, size) + PathsOfSize(hits, size)
    decreases |hits|
  {
    if |hits| > 0 {
      FileAllAppends(FileHit(files, hits[0]), hits[1..], size);
      assert Bucket(FileHit(files, hits[0]), size) ==
             Bucket(files, size) + (if hits[0].size == size then [hits[0].path] else []);
    }
  }

  lemma {:induction false} FileAllKeys(files: SizeMap, hits: seq<Hit>, size: nat)
    ensures size in FileAll(files, hits) <==> size in files || HasSize(hits, size)
    decreases |hits|
  {
    if |hits| > 0 {
      FileAllKeys(FileHit(files, hits[0]), hits[1..], size);
      HasSizeTail(hits, size);
    }
  }

  lemma HasSizeTail(hits: seq<Hit>, size: nat)
    requires |hits| > 0
    ensures HasSize(hits, size) <==> hits[0].size == size || HasSize(hits[1..], size)
  {
    if HasSize(hits, size) && hits[0].size != size {
      var q :| 0 <= q < |hits| && hits[q].size == size;
      assert hits[1..][q - 1].size == size;
    }
    if HasSize(hits[1..], size) {
      var q :| 0 <= q < |hits[1..]| && hits[1..][q].size == size;
      assert hits[q + 1].size == size;
    }
  }

  /** Filing two runs of hits one after the other is filing their
      concatenation. */
  lemma {:induction false} FileAllAppend(files: SizeMap, a: seq<Hit>, b: seq<Hit>)
    ensures FileAll(files, a + b) == FileAll(FileAll(files, a), b)
    decreases |a|
  {
    if |a| > 0 {
      assert (a + b)[0] == a[0] && (a + b)[1..] == a[1..] + b;
      FileAllAppend(FileHit(files, a[0]), a[1..], b);
    } else {
      assert a + b == b;
    }
  }

  /** `populate_files`: walks the tree at basePath, files every permitted
      file under its size and returns how many it filed. */
  method PopulateFiles(files: SizeMap, includes: seq<Pattern>, excludes: seq<Pattern>, node: Node, basePath: string)
    returns (filed: SizeMap, count: nat)
    requires |basePath| > 0
    ensures filed == FileAll(files, FoundAt(node, basePath, includes, excludes))
    ensures count == |FoundAt(node, basePath, includes, excludes)|
    decreases node, EntryCount(node) + 1
  {
    if !node.Directory? {
      var ok := PermittedName(node.name, includes, excludes);
      if ok {
        filed := FileHit(files, Hit(FileSize(node.sizeHigh, node.sizeLow), basePath, node.name));
        return filed, 1;
      }
      return files, 0;
    }
    filed, count := files, 0;
    var k := 0;
    while k < |node.entries|
      invariant 0 <= k <= |node.entries|
      invariant FileAll(filed, FoundIn(node, k, basePath, includes, excludes)) ==
                FileAll(files, FoundAt(node, basePath, includes, excludes))
      invariant count + |FoundIn(node, k, basePath, includes, excludes)| == |FoundAt(node, basePath, includes, excludes)|
    {
      var found := node.entries[k];
      ghost var here := FoundEntry(found, basePath, includes, excludes);
      ghost var rest := FoundIn(node, k + 1, basePath, includes, excludes);
      assert FoundIn(node, k, basePath, includes, excludes) == here + rest;
      FileAllAppend(filed, here, rest);
      var more;
      filed, more := PopulateEntry(filed, includes, excludes, found, basePath);
      count := count + more;
      k := k + 1;
    }
  }

  /** The body of populate_files' loop for one entry of a directory
      (DupeHunter.cpp 44-60). */
  method PopulateEntry(files: SizeMap, includes: seq<Pattern>, excludes: seq<Pattern>, found: Node, basePath: string)
    returns (filed: SizeMap, count: nat)
    requires |basePath| > 0
    ensures filed == FileAll(files, FoundEntry(found, basePath, includes, excludes))
    ensures count == |FoundEntry(found, basePath, includes, excludes)|
    decreases found, EntryCount(found) + 2
  {
    if found.name == "." || found.name == ".." {
      return files, 0;
    }
    var filePath := Join(basePath, found.name);
    if found.Directory? {
      if !found.reparsePoint {
        filed, count := PopulateFiles(files, includes, excludes, found, filePath);
      } else {
        filed, count := files, 0;
      }
    } else {
      var ok := PermittedName(found.name, includes, excludes);
      if ok {
        var hit := Hit(FileSize(found.sizeHigh, found.sizeLow), filePath, found.name);
        assert FileAll(files, [hit]) == FileAll(FileHit(files, hit), []);
        return FileHit(files, hit), 1;
      }
      return files, 0;
    }
  }

  /** A directory named on the command line, with the tree found there. */
  datatype Root = Root(tree: Node, path: string)

  predicate Named(roots: seq<Root>)
  {
    forall r :: 0 <= r < |roots| ==> |roots[r].path| > 0
  }

  /** The paths filed by walking roots one after the other. */
  ghost function FoundAll(roots: seq<Root>, includes: seq<Pattern>, excludes: seq<Pattern>): seq<Hit>
    requires Named(roots)
  {
    if |roots| == 0 then []
    else
      var last := roots[|roots| - 1];
      FoundAll(roots[..|roots| - 1], includes, excludes) + FoundAt(last.tree, last.path, includes, excludes)
  }

  /** The search loop of wmain (DupeHunter.cpp 249-255): every directory is
      walked into one size map, starting empty, and the counts are summed;
      the total is the number of paths filed. */
  method SearchDirectories(roots: seq<Root>, includes: seq<Pattern>, excludes: seq<Pattern>)
    returns (files: SizeMap, total: nat)
    requires Named(roots)
    ensures files == FileAll(map[], FoundAll(roots, includes, excludes))
    ensures total == |FoundAll(roots, includes, excludes)|
  {
    files, total := map[], 0;
    for i := 0 to |roots|
      invariant files == FileAll(map[], FoundAll(roots[..i], includes, excludes))
      invariant total == |FoundAll(roots[..i], includes, excludes)|
    {
      assert roots[..i + 1][..i] == roots[..i];
      FileAllAppend(map[], FoundAll(roots[..i], includes, excludes), FoundAt(roots[i].tree, roots[i].path, includes, excludes));
      var count;
      files, count := PopulateFiles(files, includes, excludes, roots[i].tree, roots[i].path);
      total := total + count;
    }
    assert roots[..|roots|] == roots;
  }
}
