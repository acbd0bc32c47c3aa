# DupeHunter, modelled in Dafny

DupeHunter finds duplicate files under a set of directories on Windows. It has
two parts, and this project models both.

**The duplicate finder (`DupeHunter/src/DupeHunter.cpp`).**
- `populate_files` walks each directory tree. It files every regular file whose
  name passes the include/exclude patterns under its 64-bit size, in a
  `std::map` from size to paths.
- `wmain` erases every bucket that cannot hold a duplicate: size 0, or a single
  path. It then hands every other bucket, in ascending size order, to
  `n_way_compare`.
- `n_way_compare` works in stages:
  - it opens every path and drops the ones that cannot be opened or that are a
    second hard link to a file already open;
  - it carves one shared buffer into equal, sector-aligned slices;
  - it reads all files chunk by chunk in lock step, clearing a pair in a
    triangular matrix as soon as their chunks differ;
  - it stops when no pair is left, or when a read fails or returns nothing;
  - finally it groups each remaining file with the later files still paired
    to it.

**The option parser (`DupeHunter/getopt.h`).** A templated, BSD-style
`getopt_long`:
- an option table of long names, short names and argument kinds;
- flags for no-permute, all-args, long-only, `-W` and ignore-missing-args;
- `permute_args`, which rotates a block of skipped non-options past the
  options that follow them with gcd-many cycles;
- `parse_long_options`, which matches a long name exactly or by an
  unambiguous prefix;
- `getopt_internal`, which scans argv one call at a time. It returns an option
  character, 1 (an in-order argument) or -1, or throws one of four exceptions.

**How the model is built.**
- The parser's object state, `getopt<T>` with `nonopt_start`/`nonopt_end`, is
  a class, `GetOpt.Parser`. The caller's `result` is another class,
  `GetOpt.Result`. `argv` is an `array<Option<CStr>>` that carries the C null
  terminator at index argc.
- Every method of these classes is proved to do what a value-level function
  says. Examples: `LongStep` for `parse_long_options`, `CallStep` for one
  `getopt_internal` call, `Exchanged` for `permute_args`. The lemmas then
  state what those functions promise.
- `permute_args` keeps its in-place cycle-following loop over the array. It is
  proved to equal the block exchange `Exchanged`.
- On the duplicate finder's side, the loops of `n_way_compare`, the bucket
  filter, the compare loop of `wmain` and `populate_files` are methods proved
  against ghost functions. Examples: `Survivors` for the open loop, `Rounds`
  for the read/compare loop, `Groups` for the grouping loop, `NWay` for the
  whole comparison, `Reports` for the loop over buckets.
- The file system is a map from paths to file objects (identity, bytes,
  offsets where a read fails). A directory tree is a `Node` value.
- The main theorem, `Engine.NWayExact`, says that when every file of a bucket
  has the bucket's size, reads never fail, and the chunk is positive, two
  surviving paths land in the same reported set exactly when their contents
  are equal.

**Where the code departs from its own comments, the code is followed.**
- **The chunk size can be 0.** When aligned reads fit but whole files do
  not, `buffer_size` at DupeHunter.cpp:94-96 is
  `round_to_previous_multiple(total / (n * 4096), 4096)`. That divides by the
  sector size twice. It is 0 whenever the buffer is smaller than n * 4096 *
  4096 bytes. The comment at lines 85-86 promises that, when whole files do
  not fit, the buffer space is carved up evenly among the files. An even
  carving would be `round_to_previous_multiple(total / n, 4096)`.
  Take 2 files of 1,000,000 bytes and a 16,384-byte buffer: the chunk is 0,
  where 8192 was meant. Every read then returns 0 bytes, the loop never runs,
  and every pair stays "duplicate". The model computes the same 0.
  - `Sizing.ZeroChunkExample` and `Engine.ZeroChunkReportsAll` state this.
  - `Engine.DifferentFilesReportedAsDuplicates` exhibits two files with
    different contents reported as one duplicate set. Its file system,
    `Engine.TwoDifferentFiles`, holds two 1,000,000-byte files "a" and "b"
    that differ in every byte.
- **One bad read ends the whole loop.** A read that fails, or returns 0 bytes,
  makes `read_multi_file` return false for every file (lines 66-72). Every
  pair still marked is then reported as a duplicate. No single file is
  eliminated.
- **Clustered short options repeat the first letter.** In this port, `place`
  is a local of `getopt_internal` (line 373), not state kept across calls.
  So "-ab" returns 'a' and leaves optind unchanged, and the next call sees
  "-ab" again (`GetOpt.ClusterStays`).
- **optind can pass argc.** Under ignore-missing-args, a required long
  argument missing at the end reads `nargv[argc]`, the null terminator, and
  leaves optind at argc + 1. The model keeps that terminator slot, so this
  behaviour is exact. The next call finds optind past argc and moves the
  skipped non-options to the end: it exchanges them with the entries from
  the option up to optind, the null terminator included. With argv
  "prog", "x", "--foo" (argc 3), the first call returns 'f' with optind 4;
  the second returns -1 with optind 3 and argv "prog", "--foo", NULL, "x".
  The operand "x" now sits past argc, and the null terminator at index 2
  (`GetOpt.MissingValueAtEnd`).

## Model

| member | source | states |
|---|---|---|
| Catalog.PermittedName | DupeHunter/src/DupeHunter.cpp:8-20 | true exactly when some include pattern matches and no exclude pattern does (the first matching include decides); never true with no include patterns |
| Catalog.FileSize | DupeHunter/src/DupeHunter.cpp:32 | (high << 32) + low is below 2^64 and splits back into high and low |
| Catalog.SameSizeIff | DupeHunter/src/DupeHunter.cpp:57 | two files share a bucket exactly when their high and low size words are equal |
| Catalog.PopulateFiles | DupeHunter/src/DupeHunter.cpp:22-64 | the map after the walk is the old map with every permitted file of the tree appended to its size bucket, in walk order; the count returned is the number of files filed |
| Catalog.PopulateEntry | DupeHunter/src/DupeHunter.cpp:43-60 | one directory entry: a permitted file is filed under its size, a directory that is not a reparse point is walked recursively, anything else adds nothing |
| Catalog.FoundPermitted | DupeHunter/src/DupeHunter.cpp:31-34 | every path the walk files has a permitted name |
| Catalog.FoundInPermitted | DupeHunter/src/DupeHunter.cpp:43-62 | every path filed from the entries of a directory has a permitted name |
| Catalog.FileAllBuckets | DupeHunter/src/DupeHunter.cpp:57 | filing appends the paths of each size, in order, to that size's bucket; a size is a key afterwards exactly when it was one before or some filed path has it |
| Catalog.SearchDirectories | DupeHunter/src/DupeHunter.cpp:249-255 | the map after walking every root is every permitted file of all the roots filed under its size, in root and walk order, and the total is the number of those files |
| Catalog.FileAllAppend | DupeHunter/src/DupeHunter.cpp:252-255 | filing two runs of paths one after the other is filing their concatenation, so successive walks of wmain accumulate into one map |
| Buckets.AscendingSorted | DupeHunter/src/DupeHunter.cpp:259 | the std::map visiting order lists every key exactly once, strictly increasing |
| Buckets.FilterBuckets | DupeHunter/src/DupeHunter.cpp:259-267 | afterwards a key is kept exactly when it is nonzero and its bucket does not hold exactly one path; kept buckets are unchanged; the count is the total less the paths of the erased buckets |
| Buckets.EraseHopelessKeeps | DupeHunter/src/DupeHunter.cpp:260-262 | erasing along a key sequence removes exactly the hopeless buckets it names and leaves every other bucket as it was |
| Buckets.CountSplits | DupeHunter/src/DupeHunter.cpp:258-263 | every counted path is either in a surviving bucket or removed with a hopeless one |
| Buckets.FilesReadCountsSurvivors | DupeHunter/src/DupeHunter.cpp:258-268 | when the total counts every filed path, the count printed as "Comparing N files" is the number of paths in the surviving buckets |
| Buckets.CountAll | DupeHunter/src/DupeHunter.cpp:57 | filing a run of paths adds, to the paths counted over distinct keys, exactly the filed paths whose size is among those keys |
| Buckets.WalkCountIsCatalogued | DupeHunter/src/DupeHunter.cpp:250-255 | the total the walks return counts every path in the size map, so the precondition of FilesReadCountsSurvivors holds |
| Buckets.FilteredCountIsKeptPaths | DupeHunter/src/DupeHunter.cpp:250-268 | starting from the walks' total, the count left after the erasing loop is the number of paths in the kept buckets |
| Buckets.ErasedAll | DupeHunter/src/DupeHunter.cpp:259-267 | erasing along all keys drops exactly the size-0 and single-path buckets |
| Sizing.RoundUp | DupeHunter/src/DupeHunter.cpp:74-77 | the result is a multiple of factor, at least num and less than num + factor |
| Sizing.RoundDown | DupeHunter/src/DupeHunter.cpp:79-82 | the result is a multiple of factor, at most num and greater than num - factor |
| Sizing.RoundingIsNearest | DupeHunter/src/DupeHunter.cpp:74-82 | no multiple of factor lies between num and its round-up, or between its round-down and num |
| Sizing.ChunkSize | DupeHunter/src/DupeHunter.cpp:90-96 | n slices of the chunk fit in the buffer; the chunk is sector-aligned when n sectors fit; it holds a whole file when n rounded files fit |
| Sizing.ShareFits | DupeHunter/src/DupeHunter.cpp:95 | an aligned share of total / n, rounded down, still fits n times |
| Sizing.SlicesFit | DupeHunter/src/DupeHunter.cpp:131-134 | each slice i * chunk .. i * chunk + chunk lies inside the buffer, and earlier slices end before later ones begin |
| Sizing.MiddleChunkIsSmall | DupeHunter/src/DupeHunter.cpp:94-95 | when sectors fit but whole files do not, the chunk is at most total / (n * 4096), a 4096th of each file's even share |
| Sizing.ZeroChunkExample | DupeHunter/src/DupeHunter.cpp:94-96 | two 1,000,000-byte files and a 16,384-byte buffer give a chunk of 0, where the even share rounded to a sector is 8192 |
| Opening.Open | DupeHunter/src/DupeHunter.cpp:101-102 | a handle at offset 0 exactly when the path exists |
| Opening.OpenCandidates | DupeHunter/src/DupeHunter.cpp:98-122 | the names left are the survivors, the handles stay index-aligned with them, and each is a fresh handle on its file |
| Opening.SurvivorsInOrder | DupeHunter/src/DupeHunter.cpp:100-122 | the survivors are a subsequence of the candidates, in their original order |
| Opening.SurvivorsDistinct | DupeHunter/src/DupeHunter.cpp:112-120 | survivors can all be opened and no two share a file identity |
| Opening.SurvivorsAreFirstPaths | DupeHunter/src/DupeHunter.cpp:98-121 | the survivors are exactly the candidates that can be opened and whose file identity no earlier openable candidate has, in order: the first path of each file is kept |
| Opening.DroppedAreDuplicates | DupeHunter/src/DupeHunter.cpp:113-118 | an openable path is dropped only when a survivor has its identity |
| Compare.ReadAt | DupeHunter/src/DupeHunter.cpp:69 | a read fails exactly at a failing offset; otherwise it returns the next at most chunk bytes of the file, and none exactly at end of file or with a zero chunk |
| Compare.ReadMultiFile | DupeHunter/src/DupeHunter.cpp:66-72 | each file's slice now holds its next chunk and bytes_read its length, every handle has moved on, and the result is true exactly when every read succeeded with at least one byte |
| Compare.ReadFile | DupeHunter/src/DupeHunter.cpp:69 | one read writes its chunk into its own slice and leaves the slices filled before it intact |
| Compare.RoundConsumes | DupeHunter/src/DupeHunter.cpp:149 | a round in which every read returned bytes consumes part of the files, so the loop terminates |
| Compare.AllTrue | DupeHunter/src/DupeHunter.cpp:143-146 | the triangular matrix of n rows with every pair marked |
| Engine.InitMatrix | DupeHunter/src/DupeHunter.cpp:143-146 | builds the all-true triangular matrix |
| Compare.SameBytes | DupeHunter/src/DupeHunter.cpp:154-155 | true exactly when the two chunks read are equal (same length and same bytes) |
| Compare.CompareRow | DupeHunter/src/DupeHunter.cpp:152-158 | row i after one round: a pair stays marked exactly when it was marked and the chunks agree; the flag is set exactly when some pair in the row is still marked |
| Compare.CompareRound | DupeHunter/src/DupeHunter.cpp:150-159 | the matrix after one round is Compared, and work_to_do is true exactly when some pair is still marked |
| Compare.Compared | DupeHunter/src/DupeHunter.cpp:153-155 | a pair is marked after a round exactly when it was marked before and the two chunks are equal |
| Compare.AnyTrueCell | DupeHunter/src/DupeHunter.cpp:157 | the work flag is true exactly when some pair is still marked |
| Compare.ReadCompareLoop | DupeHunter/src/DupeHunter.cpp:148-160 | the matrix after the loop is Rounds of the opened handles |
| LoopFacts.RoundsOnlyClear | DupeHunter/src/DupeHunter.cpp:153 | the loop never marks a pair that was not marked at the start |
| LoopFacts.IdenticalStayPaired | DupeHunter/src/DupeHunter.cpp:148-160 | two files with equal contents at the same offset keep their mark |
| LoopFacts.RoundsKeepTransitive | DupeHunter/src/DupeHunter.cpp:148-160 | when the marks start transitive, they stay transitive |
| LoopFacts.AllTrueTransitive | DupeHunter/src/DupeHunter.cpp:143-146 | the initial matrix is transitive |
| LoopFacts.ZeroChunkComparesNothing | DupeHunter/src/DupeHunter.cpp:149 | with a zero chunk the first read returns 0 bytes and the matrix is left untouched |
| LoopFacts.LevelRound | DupeHunter/src/DupeHunter.cpp:66-72 | equal-length files read in lock step all get the same slice range, and the round fails exactly at end of file |
| LoopFacts.RoundsDecide | DupeHunter/src/DupeHunter.cpp:148-160 | for files of the same length read from the same offset with no failing reads, a pair stays marked exactly when it was marked and the remaining contents are equal |
| LoopFacts.RoundsFindIdentical | DupeHunter/src/DupeHunter.cpp:143-160 | starting from all true, a pair is marked at the end exactly when the two files have equal contents |
| Grouping.Linked | DupeHunter/src/DupeHunter.cpp:168-173 | the later files still paired with file i, all in range |
| Grouping.LinkedIff | DupeHunter/src/DupeHunter.cpp:168-173 | j is collected for i exactly when i < j and their pair is marked, and the collected indices increase |
| Grouping.CollectLinked | DupeHunter/src/DupeHunter.cpp:166-173 | the names collected for i are names[i] followed by its linked names, and every linked index is marked used |
| Grouping.GroupDuplicates | DupeHunter/src/DupeHunter.cpp:162-179 | the sets returned are the names of Groups, computed from no index used |
| Grouping.GroupsAdvance | DupeHunter/src/DupeHunter.cpp:164-178 | one step of the grouping loop: a used index is skipped, an unused one with no partner adds nothing, an unused one with partners adds its group |
| Grouping.NamesOfSnoc | DupeHunter/src/DupeHunter.cpp:175 | pushing a group of indices pushes the names of that group |
| Grouping.GroupsShape | DupeHunter/src/DupeHunter.cpp:164-178 | each group reported is an unused head followed by all its later partners, heads increase, and every group has at least two members |
| Grouping.GroupsDisjoint | DupeHunter/src/DupeHunter.cpp:163-178 | with transitive marks, the groups are pairwise disjoint and avoid the indices already used |
| Grouping.HeadsOwnGroup | DupeHunter/src/DupeHunter.cpp:164-176 | an index with partners and no earlier unused partner heads a group of its own |
| Grouping.GroupsComplete | DupeHunter/src/DupeHunter.cpp:162-179 | with transitive marks, both files of every marked pair land in one group |
| Engine.NWay | DupeHunter/src/DupeHunter.cpp:84-180 | the outcome is BufferTooSmall exactly when there are more paths than buffer bytes; fewer than two survivors give no sets |
| Engine.NWayCompare | DupeHunter/src/DupeHunter.cpp:84-180 | the method returns NWay of its inputs |
| Engine.CarveBuffer | DupeHunter/src/DupeHunter.cpp:131-134 | slice q starts at q * chunk, and the slices are disjoint and inside the buffer |
| Engine.SurvivorNamesDistinct | DupeHunter/src/DupeHunter.cpp:112-120 | no path survives twice |
| Engine.GroupsOnce | DupeHunter/src/DupeHunter.cpp:162-179 | with transitive marks no index appears twice across the groups |
| Engine.NWaySetsShape | DupeHunter/src/DupeHunter.cpp:162-179 | every reported set has at least two paths, all among the candidates, and no path is reported twice |
| Engine.SameSetIffCell | DupeHunter/src/DupeHunter.cpp:162-179 | with transitive marks, two paths share a reported set exactly when their pair is marked |
| Engine.ExactOnLevelFiles | DupeHunter/src/DupeHunter.cpp:127-179 | for distinct equal-length files with no failing reads and a positive chunk, two paths share a set exactly when their contents are equal |
| Engine.NWayExact | DupeHunter/src/DupeHunter.cpp:84-180 | the whole comparison: when the bucket's files have the bucket's size, never fail and the chunk is positive, two survivors share a reported set exactly when their contents are equal |
| Engine.LinkedAllTrue | DupeHunter/src/DupeHunter.cpp:168-173 | with every pair marked, file 0 collects all later files |
| Engine.GroupsAllTrue | DupeHunter/src/DupeHunter.cpp:162-179 | with every pair marked, the grouping reports a single set of all files |
| Engine.ZeroChunkReportsAll | DupeHunter/src/DupeHunter.cpp:94-96 | with a zero chunk and at least two survivors, all survivors are reported as one duplicate set whatever their contents |
| Engine.DifferentFilesReportedAsDuplicates | DupeHunter/src/DupeHunter.cpp:94-96 | two different 1,000,000-byte files with a 16,384-byte buffer are reported as duplicates |
| Driver.Reports | DupeHunter/src/DupeHunter.cpp:268-281 | at most one list of sets per bucket visited |
| Driver.ReportsSnoc | DupeHunter/src/DupeHunter.cpp:269-279 | one more bucket either stops everything (too small a buffer) or appends its sets |
| Driver.ReportsStayFailed | DupeHunter/src/DupeHunter.cpp:283-287 | once a comparison has thrown, no later bucket changes the outcome |
| Driver.ReportsComplete | DupeHunter/src/DupeHunter.cpp:268-281 | when every bucket fits in the buffer, nothing fails and the k-th report is exactly NWay of the k-th bucket |
| Driver.CompareBuckets | DupeHunter/src/DupeHunter.cpp:268-287 | the compare loop visits the buckets in ascending size order and returns Reports of that order |
| Arith.Gcd | DupeHunter/getopt.h:238-249 | positive when either argument is |
| Arith.GcdDivides | DupeHunter/getopt.h:238-249 | the gcd divides both arguments |
| Arith.GcdGreatest | DupeHunter/getopt.h:238-249 | every common divisor divides the gcd |
| Arith.Bezout | DupeHunter/getopt.h:238-249 | the gcd is an integer combination of the arguments |
| Permute.ComputeGcd | DupeHunter/getopt.h:238-249 | the loop returns Gcd(a, b), which is positive |
| Permute.Exchanged | DupeHunter/getopt.h:251-254 | the block exchange keeps the length |
| Permute.ExchangedAt | DupeHunter/getopt.h:251-254 | outside [start, end) nothing moves; inside, the block [mid, end) comes first, then [start, mid), each in its own order |
| Permute.ExchangedPermutes | DupeHunter/getopt.h:251-254 | the exchange is a permutation |
| Permute.CycleCounts | DupeHunter/getopt.h:257-260 | ncycle divides both block lengths and ncycle * cyclelen is the span |
| Permute.MinimalPeriod | DupeHunter/getopt.h:260-266 | no shorter walk than cyclelen returns to its start |
| Permute.CycleDistinct | DupeHunter/getopt.h:264-277 | a cycle visits cyclelen distinct positions |
| Permute.CycleCloses | DupeHunter/getopt.h:264-277 | after cyclelen steps the cycle is back at its start |
| Permute.CycleCovers | DupeHunter/getopt.h:262-278 | every position of the start's residue class mod ncycle is on its cycle |
| Permute.CycleOrbit | DupeHunter/getopt.h:262-278 | cycle i walks exactly the positions of residue class i, each once, each step moving one element by the other block's length |
| Permute.FollowCycle | DupeHunter/getopt.h:264-277 | the inner loop of swaps moves every element of one cycle one step along it |
| Permute.ClassStep | DupeHunter/getopt.h:262-278 | after cycle i, the residue classes below i + 1 are rotated and the rest are untouched |
| Permute.RotationIsExchange | DupeHunter/getopt.h:251-254 | rotating every position of [start, end) by the non-option count is the block exchange |
| Permute.AllRotated | DupeHunter/getopt.h:262-278 | once all ncycle classes are rotated, argv is the block exchange of what it was |
| Permute.PermuteArgs | DupeHunter/getopt.h:254-279 | argv becomes the exchange of the blocks [nonopt_start, nonopt_end) and [nonopt_end, opt_end) |
| Options.FirstShort | DupeHunter/getopt.h:225-235 | the first entry with the short name, or the end of the table |
| Options.FirstShortIsEnd | DupeHunter/getopt.h:225-235 | the end is returned exactly when no entry has the short name |
| Options.EqualsIndex | DupeHunter/getopt.h:289-298 | the position of the first '=' in the argument, or its length |
| Options.SplitAtFirstEquals | DupeHunter/getopt.h:289-298 | the name holds no '=', and name "=" value (or the name alone) rebuilds the argument |
| Options.PartialsBelow | DupeHunter/getopt.h:301-330 | at most n partial matches below n |
| Options.PartialsExactly | DupeHunter/getopt.h:315-326 | the partial matches below n are exactly the entries below n that are prefix matches (and not one-character ones when short options are tried too), in increasing order |
| Options.FirstExact | DupeHunter/getopt.h:309-313 | the first entry whose long name equals the name, or the end |
| Options.MatchIsCandidate | DupeHunter/getopt.h:300-332 | a match is an entry whose name starts with the argument; it is exact, or there is no exact entry and it is the only partial one |
| Options.SingleCharIsExact | DupeHunter/getopt.h:315-320 | a one-character name that may be a short option only matches exactly |
| Options.AmbiguousHasTwoCandidates | DupeHunter/getopt.h:321-329 | "ambiguous" is reported only when two partial matches come before any exact one |
| Options.NoMatchIff | DupeHunter/getopt.h:355-364 | there is no match exactly when no entry is exact or partial |
| Options.ExactEndsSearch | DupeHunter/getopt.h:309-313 | the search stops at the first exact match: later entries do not matter |
| Options.FirstExactIs | DupeHunter/getopt.h:309-313 | FirstExact is the first exact entry |
| Options.PartialsAgree | DupeHunter/getopt.h:301-330 | the partial matches below n depend only on the first n entries |
| GetOpt.LongStepFacts | DupeHunter/getopt.h:283-368 | parse_long_options returns -1 exactly when short options are tried too and nothing matches, restoring optind; otherwise optind moves by one or two, and a returned code is the chosen entry's short name |
| GetOpt.RequiredGetsValue | DupeHunter/getopt.h:338-353 | a required argument comes from "=value" or else the next argv entry; a missing one throws unless missing arguments are ignored |
| GetOpt.ExcessIsRejected | DupeHunter/getopt.h:334-337 | "=value" on an option without argument throws excess_argument |
| GetOpt.ShortStepFacts | DupeHunter/getopt.h:489-544 | a short option character: -1 only for a lone "-" not in the table, otherwise the character of a table entry, with optind moved by zero, one or two |
| GetOpt.ClusterStays | DupeHunter/getopt.h:507-513 | inside a cluster "-ab" the first letter is returned and optind stays |
| GetOpt.ShortRequiredValue | DupeHunter/getopt.h:514-531 | a required short argument is the rest of the entry, else the next entry, else missing_argument |
| GetOpt.TerminatorIff | DupeHunter/getopt.h:431 | the tests single out exactly the entry "--" |
| GetOpt.ExchangePresent | DupeHunter/getopt.h:379-385 | after the exchange, the entries from the new optind up to argc are still present |
| GetOpt.ExchangeSkipped | DupeHunter/getopt.h:379-385 | after the exchange, the skipped non-options sit at the top of the range |
| GetOpt.Apply | DupeHunter/getopt.h:429-544 | parsing one option changes only optind, optarg and the chosen option |
| GetOpt.ScanFrom | DupeHunter/getopt.h:376-422 | the scan either returns or stops on a present option argument at optind, with optarg unchanged |
| GetOpt.CloseStep | DupeHunter/getopt.h:424-427 | closing the block of skipped non-options keeps the state valid and argv and optind unchanged |
| GetOpt.SkipKeepsScanning | DupeHunter/getopt.h:411-422 | skipping a non-option opens or extends the skipped block and moves optind by one |
| GetOpt.SkippedExtend | DupeHunter/getopt.h:411-421 | a skipped block grows by the non-option just skipped |
| GetOpt.EndKeepsValid | DupeHunter/getopt.h:377-392 | at the end of argv the state is valid, the block is closed, and the entries from optind on are the skipped non-options |
| GetOpt.DashKeepsValid | DupeHunter/getopt.h:431-443 | after "--" the state is valid and "--" itself sits just below optind |
| GetOpt.AdvanceKeepsValid | DupeHunter/getopt.h:503-541 | moving optind forward to at most argc + 1 keeps the state valid |
| GetOpt.WStepAdvances | DupeHunter/getopt.h:471-487 | "-W name" leaves argv alone, moves optind forward, never returns -1 and returns only short names from the table |
| GetOpt.NamedAdvances | DupeHunter/getopt.h:445-544 | an option other than "--" leaves argv alone, moves optind forward, and returns only short names from the table |
| GetOpt.ScanFromFacts | DupeHunter/getopt.h:376-422 | a scan that returns gives 1 or -1 in a valid state; -1 means no-permute or all entries from optind are skipped non-options |
| GetOpt.StepsPermute | DupeHunter/getopt.h:379-421 | moving the skipped block and skipping a non-option only permute argv |
| GetOpt.ScanPermutes | DupeHunter/getopt.h:376-422 | the scan only permutes argv |
| GetOpt.OptionFacts | DupeHunter/getopt.h:429-544 | an option argument keeps the state valid and only permutes argv; -1 means "--" was just consumed |
| GetOpt.DashFacts | DupeHunter/getopt.h:431-443 | after "--" the state is valid and "--" sits just below optind |
| GetOpt.DashPermutes | DupeHunter/getopt.h:436-441 | "--" only permutes argv |
| GetOpt.NamedFacts | DupeHunter/getopt.h:445-544 | an option other than "--" keeps argv as it was, never returns -1, and returns only short names |
| GetOpt.CallKeepsValid | DupeHunter/getopt.h:371-545 | every call keeps the state valid and only permutes argv; -1 means no-permute, or only skipped non-options are left, or "--" was consumed; any other code but 1 is a short name from the table |
| GetOpt.CallAtEnd | DupeHunter/getopt.h:374-393 | at the end of argv a call returns -1 as EndStep states |
| GetOpt.CallInOrder | DupeHunter/getopt.h:395-403 | under all-args a non-option is returned as optarg of code 1 and optind moves past it |
| GetOpt.CallStopsAtOperand | DupeHunter/getopt.h:404-409 | under no-permute a non-option ends the parse with -1, optind on it |
| GetOpt.CallAtTerminator | DupeHunter/getopt.h:431-443 | "--" ends the parse with -1 after exchanging the skipped block |
| GetOpt.CallShort | DupeHunter/getopt.h:468-544 | "-c..." is parsed as the short option character c |
| GetOpt.CallLong | DupeHunter/getopt.h:449-466 | "--name[=value]" is parsed as a long option |
| GetOpt.SearchExact | DupeHunter/getopt.h:309-313 | an exact entry with at most one partial match before it is the match |
| GetOpt.SearchAmbiguous | DupeHunter/getopt.h:326-329 | two partial matches before any exact one are ambiguous |
| GetOpt.SearchExhausted | DupeHunter/getopt.h:331-364 | with no exact entry, no partial match is "no match" and one is the match |
| GetOpt.PartialsGrow | DupeHunter/getopt.h:301-330 | the partial matches below n are a prefix of those below m |
| GetOpt.Result.constructor | DupeHunter/getopt.h:202-204 | optind starts at 1, with no optarg and no chosen option |
| GetOpt.Parser.constructor | DupeHunter/getopt.h:207-209 | the table is stored, flags are 0, and no non-options are pending |
| GetOpt.FreshIsValid | DupeHunter/getopt.h:202-212 | the state the constructors build (optind 1, no pending non-options) is valid for every argv whose argc entries after the program name are present |
| GetOpt.MissingValueAtEnd | DupeHunter/getopt.h:377-385 | a required long argument missing at the end of argv under ignore-missing-args: the first call returns the option with optind at argc + 1, and the next call moves the skipped operand past argc and the null terminator to index 2 |
| GetOpt.Parser.WithFlags | DupeHunter/getopt.h:210-212 | the table and flags are stored, and no non-options are pending |
| GetOpt.Parser.FindOption | DupeHunter/getopt.h:225-235 | returns FirstShort: the first entry with that short name, or the end |
| GetOpt.Parser.FindLongMatch | DupeHunter/getopt.h:300-330 | the search loop returns LongMatch, throwing for ambiguity |
| GetOpt.Parser.ParseLongOptions | DupeHunter/getopt.h:283-368 | the result and the new optind, optarg and chosen option are LongStep of the old ones |
| GetOpt.Parser.EndOfArgs | DupeHunter/getopt.h:377-393 | returns -1, and the state becomes EndStep of the old one |
| GetOpt.Parser.MoveSkipped | DupeHunter/getopt.h:379-385 | the state becomes MoveStep: the block is exchanged and optind moves down by its length |
| GetOpt.Parser.SkipNonOption | DupeHunter/getopt.h:411-422 | the state becomes SkipStep of the old one |
| GetOpt.Parser.DoubleDash | DupeHunter/getopt.h:431-443 | returns -1, and the state becomes DashStep of the old one |
| GetOpt.Parser.WOption | DupeHunter/getopt.h:471-487 | the result and state are WStep of the old state |
| GetOpt.Parser.ShortChar | DupeHunter/getopt.h:489-544 | the result and state are ShortStep of the old state |
| GetOpt.Parser.NamedOption | DupeHunter/getopt.h:445-544 | the result and state are NamedStep of the old state |
| GetOpt.Parser.OptionArgument | DupeHunter/getopt.h:429-544 | the result and state are OptionStep of the old state |
| GetOpt.Parser.ScanToOption | DupeHunter/getopt.h:376-422 | the scan loop ends as ScanFrom states |
| GetOpt.Parser.CloseSkipped | DupeHunter/getopt.h:424-427 | the state becomes CloseStep of the old one |
| GetOpt.Parser.GetOptInternal | DupeHunter/getopt.h:371-545 | one call returns and leaves what CallStep states, and the state stays valid |
| GetOpt.Parser.GetOpt | DupeHunter/getopt.h:214-217 | as GetOptInternal, and argv stays a permutation of what it was |

## Left out

- Win32 I/O is not modelled. This covers `GetFileAttributesExW`, `GetFullPathNameW`, `FindFirstFileW`/`FindNextFileW`, `CreateFileW`, `ReadFile` and `GetFileInformationByHandle`. A directory tree is a `Node` value, and the file system is a map from paths to file objects holding their bytes, their identity and the offsets where a read fails.
- `FindFirstFileW` failing is not modelled: the walk always lists the directory's entries.
- Regular expressions are not modelled. Boost's `regex_match` is a predicate on names (`Pattern`).
- The command-line handling of `wmain` (DupeHunter.cpp:182-247) is not part of this model. This covers the boost program_options declarations, the wildcard-to-regex translation and the default "*" pattern.
- Everything written to the console is left out: the progress messages, "could not open", "skipping", and the printing of duplicate sets (lines 270-278). The driver returns the sets instead of printing them.
- `VirtualAlloc` is not modelled. The shared buffer is a `bv8` array of the buffer size.
- Closing handles and releasing memory are left out: `CloseHandle`, `FindClose`, `VirtualFree`, `ON_BLOCK_EXIT`.
- The file identity is not modelled as two DWORD words. `nFileIndexHigh`/`nFileIndexLow` are one natural number, `id`.
- `FILE_FLAG_NO_BUFFERING` alignment and sector size are not modelled. The sector is the constant 4096, as written.
- Sizes are exact natural numbers. Two 32-bit words always fit in the source's 64 bits, so nothing is lost.
- Sizing.RoundUp: does not model the 64-bit wrap-around of `num + factor - 1`, or of `n * rounded_file_size` in Sizing.ChunkSize; both only overflow for sizes near 2^64.
- Engine.NWayCompare: `n_way_compare` also narrows the caller's `names` vector to the survivors. The model returns the sets and does not write the pruning back into the size map, which `wmain` never reads again.
- Driver.CompareBuckets: an exception is a `failed` flag that stops the loop. Its message text and the `-2` return code of the `catch` block (lines 283-287) are left out.
- Permute.PermuteArgs: requires a non-empty block of options (nonopt_end < opt_end). With an empty one, `gcd(nnonopts, 0)` divides by zero in the source. No call in getopt_internal passes one, because an option has just been seen, or optind is past the block.
- The option descriptions are not modelled: they only serve help output. Neither are the `option` struct's copy constructor and assignment.
- Character types are `char`. The template parameter T (char or wchar_t) makes no difference to the logic.
- The disabled test code under `#if 0` in getopt.h (lines 548-637) is not part of this model.
