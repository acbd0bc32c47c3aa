/** How n_way_compare sizes each file's slice of the shared read buffer
    (DupeHunter.cpp 74-96). All quantities are unbounded naturals; the
    64-bit wrap-around of the C++ arithmetic is not modelled. */
module Sizing {
  import opened Arith

  /** The alignment unit the reads use (`sector_size`). */
  const SECTOR: nat := 4096

  /** `round_to_next_multiple`: the smallest multiple of factor that is at
      least num. */
  function RoundUp(num: nat, factor: nat): (r: nat)
    requires factor > 0
    ensures r % factor == 0
    ensures num <= r < num + factor
  {
    var q := (num + factor - 1) / factor;
    MultipleOf(q, factor);
    assert q * factor + (num + factor - 1) % factor == num + factor - 1;
    q * factor
  }

  /** `round_to_previous_multiple`: the largest multiple of factor that is at
      most num. */
  function RoundDown(num: nat, factor: nat): (r: nat)
    requires factor > 0
    ensures r % factor == 0
    ensures r <= num < r + factor
  {
    var q := num / factor;
    MultipleOf(q, factor);
    assert q * factor + num % factor == num;
    q * factor
  }

  lemma MultipleOf(q: nat, factor: nat)
    requires factor > 0
    ensures (q * factor) % factor == 0
  {
    MultipleMod(q, factor);
  }

  /** Multiplying by a natural number keeps order. */
  lemma MulMono(a: nat, b: nat, c: nat)
    requires a <= b
    ensures a * c <= b * c
  {
    assert b * c - a * c == (b - a) * c;
    assert (b - a) * c >= 0;
  }

  /** Two distinct multiples of factor are at least factor apart. */
  lemma MultiplesApart(a: nat, b: nat, factor: nat)
    requires factor > 0 && a * factor < b * factor
    ensures a * factor + factor <= b * factor
  {
    if b <= a {
      MulMono(b, a, factor);
    }
    MulMono(a + 1, b, factor);
    assert (a + 1) * factor == a * factor + factor;
  }

  /** A multiple of factor below num is at most RoundDown(num), and a multiple
      at least num is at least RoundUp(num): the two roundings are the
      nearest multiples on either side. */
  lemma RoundingIsNearest(num: nat, factor: nat, k: nat)
    requires factor > 0
    ensures k * factor <= num ==> k * factor <= RoundDown(num, factor)
    ensures num <= k * factor ==> RoundUp(num, factor) <= k * factor
  {
    var down := num / factor;
    var up := (num + factor - 1) / factor;
    assert RoundDown(num, factor) == down * factor;
    assert RoundUp(num, factor) == up * factor;
    if k * factor <= num && down * factor < k * factor {
      MultiplesApart(down, k, factor);
    }
    if num <= k * factor && k * factor < up * factor {
      MultiplesApart(k, up, factor);
    }
  }

  /** The per-file chunk n_way_compare reads into each slice, for n files of
      fileSize bytes sharing budget bytes (DupeHunter.cpp 90-96), exactly as
      written: whole aligned files when they all fit, else
      round_to_previous_multiple(budget / (n * SECTOR), SECTOR) when aligned
      reads fit, else an unaligned even share. */
  function ChunkSize(n: nat, fileSize: nat, budget: nat): (chunk: nat)
    ensures n * chunk <= budget
    ensures n * SECTOR <= budget ==> chunk % SECTOR == 0
    ensures n * RoundUp(fileSize, SECTOR) <= budget ==> fileSize <= chunk
  {
    var rounded := RoundUp(fileSize, SECTOR);
    var alignedReads := n * SECTOR <= budget;
    var readWholeFiles := n * rounded <= budget;
    if alignedReads then
      if readWholeFiles then rounded
      else
        var share := budget / (n * SECTOR);
        var chunk := RoundDown(share, SECTOR);
        ShareFits(n, budget, chunk);
        chunk
    else
      var chunk := budget / n;
      assert n * chunk <= budget;
      chunk
  }

  lemma ShareFits(n: nat, budget: nat, chunk: nat)
    requires 0 < n && chunk <= budget / (n * SECTOR)
    ensures n * chunk <= budget
  {
    var share := budget / (n * SECTOR);
    assert (n * SECTOR) * share + budget % (n * SECTOR) == budget;
    MulMono(chunk, share, n);
    MulMono(n, n * SECTOR, share);
    assert n * chunk <= n * share <= n * SECTOR * share;
  }

  /** The slices buffer + i * chunk, one per file, lie inside the buffer and
      do not overlap (DupeHunter.cpp 131-134). */
  lemma SlicesFit(n: nat, fileSize: nat, budget: nat, i: nat, j: nat)
    requires i < n && j < n
    ensures i * ChunkSize(n, fileSize, budget) + ChunkSize(n, fileSize, budget) <= budget
    ensures i < j ==> i * ChunkSize(n, fileSize, budget) + ChunkSize(n, fileSize, budget) <= j * ChunkSize(n, fileSize, budget)
  {
    var c := ChunkSize(n, fileSize, budget);
    MulMono(i + 1, n, c);
    assert (i + 1) * c == i * c + c;
    if i < j {
      MulMono(i + 1, j, c);
    }
  }

  /** When aligned reads fit but whole files do not, the chunk is at most
      budget / (n * SECTOR): a SECTOR-th of each file's even share, not the
      share rounded down to a sector. */
  lemma {:induction false} MiddleChunkIsSmall(n: nat, fileSize: nat, budget: nat)
    requires n * SECTOR <= budget < n * RoundUp(fileSize, SECTOR)
    ensures ChunkSize(n, fileSize, budget) <= budget / (n * SECTOR)
  {
  }

  /** Two files of a million bytes and a 16 KiB budget get a chunk of 0
      bytes, although each could have had 8192. */
  lemma ZeroChunkExample()
    ensures ChunkSize(2, 1000000, 16384) == 0
    ensures RoundDown(16384 / 2, SECTOR) == 8192
  {
    assert RoundUp(1000000, SECTOR) == 1003520 by {
      assert (1000000 + 4095) / 4096 == 245;
    }
    assert 16384 / (2 * SECTOR) == 2;
    assert RoundDown(2, SECTOR) == 0;
    assert RoundDown(8192, SECTOR) == 8192 by {
      assert 8192 / 4096 == 2;
    }
  }
}
