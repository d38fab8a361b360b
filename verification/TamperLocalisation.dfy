/** What the integrity report proves about an image, and what it does not. */
module TamperLocalisation {
  import opened Bytes
  import opened Arithmetic
  import opened Source
  import opened Chunking
  import opened Acquisition
  import opened Verification
  import Hex

  // ----- The discrepancy list -----

  ghost predicate Mismatch(actual: seq<string>, expected: seq<string>, i: nat) {
    i < |actual| && i < |expected| && actual[i] != expected[i]
  }

  ghost predicate Lists(ds: seq<BlockDiscrepancy>, i: nat) {
    exists k :: 0 <= k < |ds| && ds[k].blockIndex == i
  }

  ghost predicate InOrder(ds: seq<BlockDiscrepancy>, blockSize: nat) {
    && (forall j, k :: 0 <= j < k < |ds| ==> ds[j].blockIndex < ds[k].blockIndex)
    && (forall k :: 0 <= k < |ds| ==> ds[k].byteOffset == ds[k].blockIndex * blockSize)
  }

  ghost predicate ListsMismatches(
    ds: seq<BlockDiscrepancy>, actual: seq<string>, expected: seq<string>, blockSize: nat, n: nat)
  {
    && InOrder(ds, blockSize)
    && |ds| <= n
    && (forall k :: 0 <= k < |ds| ==> ds[k].blockIndex < n && Mismatch(actual, expected, ds[k].blockIndex))
    && (forall i: nat :: i < n && Mismatch(actual, expected, i) ==> Lists(ds, i))
  }

  /** The list holds exactly the indices whose digests differ, in increasing order. */
  lemma {:induction false} DiscrepanciesExact(actual: seq<string>, expected: seq<string>, blockSize: nat, n: nat)
    requires n <= |actual|
    ensures ListsMismatches(DiscrepanciesBelow(actual, expected, blockSize, n), actual, expected, blockSize, n)
  {
    if n > 0 {
      hide ListsMismatches;
      DiscrepanciesExact(actual, expected, blockSize, n - 1);
      var ds := DiscrepanciesBelow(actual, expected, blockSize, n - 1);
      if Mismatch(actual, expected, n - 1) {
        var d := BlockDiscrepancy(n - 1, (n - 1) * blockSize, expected[n - 1], actual[n - 1]);
        assert DiscrepanciesBelow(actual, expected, blockSize, n) == ds + [d];
        AddMismatch(ds, d, actual, expected, blockSize, n - 1);
      } else {
        assert DiscrepanciesBelow(actual, expected, blockSize, n) == ds;
        KeepMismatches(ds, actual, expected, blockSize, n - 1);
      }
    } else {
      NoMismatches(actual, expected, blockSize);
    }
  }

  lemma NoMismatches(actual: seq<string>, expected: seq<string>, blockSize: nat)
    ensures ListsMismatches([], actual, expected, blockSize, 0)
  {
  }

  lemma KeepMismatches(
    ds: seq<BlockDiscrepancy>, actual: seq<string>, expected: seq<string>, blockSize: nat, n: nat)
    requires ListsMismatches(ds, actual, expected, blockSize, n) && !Mismatch(actual, expected, n)
    ensures ListsMismatches(ds, actual, expected, blockSize, n + 1)
  {
    forall i: nat | i < n + 1 && Mismatch(actual, expected, i)
      ensures Lists(ds, i)
    {
      assert i != n;
    }
  }

  lemma AddMismatch(
    ds: seq<BlockDiscrepancy>, d: BlockDiscrepancy, actual: seq<string>, expected: seq<string>, blockSize: nat, n: nat)
    requires ListsMismatches(ds, actual, expected, blockSize, n)
    requires Mismatch(actual, expected, n) && d.blockIndex == n && d.byteOffset == n * blockSize
    ensures ListsMismatches(ds + [d], actual, expected, blockSize, n + 1)
  {
    forall i: nat | i < n + 1 && Mismatch(actual, expected, i)
      ensures Lists(ds + [d], i)
    {
      if i < n {
        var k :| 0 <= k < |ds| && ds[k].blockIndex == i;
        assert (ds + [d])[k].blockIndex == i;
      } else {
        assert (ds + [d])[|ds|].blockIndex == i;
      }
    }
  }

  // ----- Which bytes were read back -----

  lemma BlocksReadCover(image: seq<byte>, size: nat, count: nat)
    requires size > 0
    ensures Flatten(BlocksRead(image, size, count)) == image[..Min(|image|, count * size)]
  {
    hide Chunks;
    ChunkCount(image, size);
    if |image| <= count * size {
      ChunksCover(image, size);
      CountBound(|image|, size, count);
      assert BlocksRead(image, size, count) == Chunks(image, size);
      assert image[..|image|] == image;
    } else {
      WholeBlocksRead(image[..count * size], image[count * size..], size, count);
      assert image[..count * size] + image[count * size..] == image;
    }
  }

  lemma WholeBlocksRead(read: seq<byte>, rest: seq<byte>, size: nat, count: nat)
    requires size > 0 && |read| == count * size
    ensures Flatten(BlocksRead(read + rest, size, count)) == read
  {
    hide Chunks;
    ChunksAppend(read, rest, size, count);
    ChunksCover(read, size);
    ChunkCount(read, size);
    DivisionLaw(|read|, size);
    MultiplyMonotone(|read| / size, count, size);
    MultiplyMonotone(count, |read| / size, size);
    assert Chunks(read + rest, size)[..count] == Chunks(read, size);
  }

  lemma CountBound(length: nat, size: nat, count: nat)
    requires size > 0 && length <= count * size
    ensures BlockCount(length, size) <= count
  {
    DivisionLaw(length, size);
    MultiplyMonotone(count + 1, length / size, size);
    MultiplyMonotone(count, length / size, size);
    assert (count + 1) * size == count * size + size;
    if length / size == count {
      assert length % size == 0;
    }
  }

  lemma CountCovers(length: nat, size: nat)
    requires size > 0
    ensures length <= BlockCount(length, size) * size
    ensures length == BlockCount(length, size) * size <==> length % size == 0
  {
    DivisionLaw(length, size);
    assert (length / size + 1) * size == length / size * size + size;
  }

  // ----- Tamper localisation -----

  ghost predicate DiffersIn(a: seq<byte>, b: seq<byte>, lo: nat, hi: nat)
    requires hi <= |a| == |b|
  {
    exists p :: lo <= p < hi && a[p] != b[p]
  }

  /** Some byte of block `i` differs. */
  ghost predicate Altered(original: seq<byte>, now: seq<byte>, size: nat, i: nat)
    requires |now| == |original|
  {
    DiffersIn(original, now, BlockStart(i, size), Min(BlockStart(i, size) + size, |original|))
  }

  /** No two different blocks at the same place have the same digest. */
  ghost predicate NoBlockCollision(original: seq<byte>, now: seq<byte>, size: nat, blake3: Digest)
    requires size > 0
  {
    forall i :: 0 <= i < |Chunks(original, size)| && i < |Chunks(now, size)|
                && blake3(Chunks(original, size)[i]) == blake3(Chunks(now, size)[i])
                ==> Chunks(original, size)[i] == Chunks(now, size)[i]
  }

  lemma AlteredBlock(original: seq<byte>, now: seq<byte>, size: nat, i: nat)
    requires size > 0 && |now| == |original| && i < |Chunks(original, size)|
    ensures i < |Chunks(now, size)|
    ensures Altered(original, now, size, i) <==> Chunks(original, size)[i] != Chunks(now, size)[i]
  {
    hide BlockStart, DiffersIn;
    ChunkCount(original, size);
    ChunkCount(now, size);
    ChunkBounds(original, size, i);
    ChunkBounds(now, size, i);
    SlicesDiffer(original, now, BlockStart(i, size), Min(BlockStart(i, size) + size, |original|));
  }

  lemma SlicesDiffer(a: seq<byte>, b: seq<byte>, lo: nat, hi: nat)
    requires |a| == |b| && lo <= hi <= |a|
    ensures a[lo..hi] != b[lo..hi] <==> DiffersIn(a, b, lo, hi)
  {
    if !DiffersIn(a, b, lo, hi) {
      assert a[lo..hi] == b[lo..hi];
    } else {
      var p :| lo <= p < hi && a[p] != b[p];
      assert a[lo..hi][p - lo] != b[lo..hi][p - lo];
    }
  }

  lemma SameLengthMismatch(original: seq<byte>, now: seq<byte>, size: nat, algorithms: Algorithms, i: nat)
    requires size > 0 && |now| == |original| && i < |Chunks(original, size)|
    requires NoBlockCollision(original, now, size, algorithms.blake3)
    ensures i < |Chunks(now, size)|
    ensures Mismatch(HashAll(algorithms.blake3, Chunks(now, size)), HashAll(algorithms.blake3, Chunks(original, size)), i)
            <==> Altered(original, now, size, i)
  {
    AlteredBlock(original, now, size, i);
    var a, b := Chunks(original, size)[i], Chunks(now, size)[i];
    Hex.DigestsCompare(algorithms.blake3(a), algorithms.blake3(b));
  }

  /**
   * Localisation: for an image of the acquired length the report lists exactly the altered blocks,
   * in increasing order, each at its own offset; the other blocks are counted as matched.
   */
  lemma TamperingLocalised(original: seq<byte>, now: seq<byte>, size: nat, db: Database, algorithms: Algorithms)
    requires size > 0 && |now| == |original|
    requires NoBlockCollision(original, now, size, algorithms.blake3)
    ensures var report := Verify(now, Acquire(original, size, algorithms), db, algorithms);
            && InOrder(report.blockDiscrepancies, size)
            && (forall i: nat :: Lists(report.blockDiscrepancies, i) <==>
                                 i < report.totalBlocks && Altered(original, now, size, i))
            && report.matchedBlocks + |report.blockDiscrepancies| == report.totalBlocks
  {
    var chunks, chunksNow := Chunks(original, size), Chunks(now, size);
    ChunkCount(original, size);
    ChunkCount(now, size);
    assert BlocksRead(now, size, |chunks|) == chunksNow;
    var actual, expected := HashAll(algorithms.blake3, chunksNow), HashAll(algorithms.blake3, chunks);
    DiscrepanciesExact(actual, expected, size, |actual|);
    var ds := DiscrepanciesBelow(actual, expected, size, |actual|);
    forall i: nat
      ensures Lists(ds, i) <==> i < |chunks| && Altered(original, now, size, i)
    {
      if i < |chunks| {
        SameLengthMismatch(original, now, size, algorithms, i);
      }
    }
  }

  // ----- Images of any length -----

  /** Block `i` of the acquired image is there and unchanged. */
  predicate Intact(original: seq<seq<byte>>, now: seq<seq<byte>>, i: nat) {
    i < |original| && i < |now| && original[i] == now[i]
  }

  /** How many of the first `n` blocks are intact. */
  function CountIntact(original: seq<seq<byte>>, now: seq<seq<byte>>, n: nat): nat {
    if n == 0 then 0 else CountIntact(original, now, n - 1) + if Intact(original, now, n - 1) then 1 else 0
  }

  lemma {:induction false} IntactOrListed(
    original: seq<seq<byte>>, now: seq<seq<byte>>, blake3: Digest, size: nat, n: nat)
    requires n <= |original| && n <= |now|
    requires forall i :: 0 <= i < n && blake3(original[i]) == blake3(now[i]) ==> original[i] == now[i]
    ensures CountIntact(original, now, n)
            + |DiscrepanciesBelow(HashAll(blake3, now), HashAll(blake3, original), size, n)| == n
  {
    if n > 0 {
      IntactOrListed(original, now, blake3, size, n - 1);
      Hex.DigestsCompare(blake3(original[n - 1]), blake3(now[n - 1]));
    }
  }

  lemma {:induction false} NoneBeyond(original: seq<seq<byte>>, now: seq<seq<byte>>, m: nat, n: nat)
    requires m <= n && (m >= |original| || m >= |now|)
    ensures CountIntact(original, now, n) == CountIntact(original, now, m)
    decreases n
  {
    if m < n {
      NoneBeyond(original, now, m, n - 1);
    }
  }

  /** The digests that are compared are those of the acquired and of the present blocks. */
  lemma ReportOnBlocks(original: seq<byte>, now: seq<byte>, size: nat, db: Database, algorithms: Algorithms)
    requires size > 0
    ensures var report := Verify(now, Acquire(original, size, algorithms), db, algorithms);
            var before, after := Chunks(original, size), Chunks(now, size);
            var n := Min(|after|, |before|);
            && report.totalBlocks == |before|
            && report.matchedBlocks == SaturatingSub(|before|, |report.blockDiscrepancies|)
            && report.blockDiscrepancies ==
               DiscrepanciesBelow(HashAll(algorithms.blake3, after[..n]), HashAll(algorithms.blake3, before), size, n)
  {
    hide Chunks;
  }

  lemma {:induction false} DiscrepanciesOfPrefix(
    blake3: Digest, before: seq<seq<byte>>, after: seq<seq<byte>>, size: nat, m: nat, n: nat)
    requires n <= m <= |after|
    ensures DiscrepanciesBelow(HashAll(blake3, after[..m]), HashAll(blake3, before), size, n) ==
            DiscrepanciesBelow(HashAll(blake3, after), HashAll(blake3, before), size, n)
  {
    if n > 0 {
      DiscrepanciesOfPrefix(blake3, before, after, size, m, n - 1);
    }
  }

  /**
   * The block list for an image of any length: it holds, in increasing order, exactly the blocks
   * that are present and changed. A missing block is not among them; it is counted as matched.
   */
  lemma BlockReportExactly(original: seq<byte>, now: seq<byte>, size: nat, db: Database, algorithms: Algorithms)
    requires size > 0 && NoBlockCollision(original, now, size, algorithms.blake3)
    ensures var report := Verify(now, Acquire(original, size, algorithms), db, algorithms);
            var before, after := Chunks(original, size), Chunks(now, size);
            && InOrder(report.blockDiscrepancies, size)
            && (forall i: nat :: Lists(report.blockDiscrepancies, i) <==>
                                 i < |before| && i < |after| && !Intact(before, after, i))
            && report.matchedBlocks == CountIntact(before, after, |before|) + SaturatingSub(|before|, |after|)
  {
    hide Chunks, Verify;
    var before, after := Chunks(original, size), Chunks(now, size);
    var n := Min(|after|, |before|);
    var actual, expected := HashAll(algorithms.blake3, after), HashAll(algorithms.blake3, before);
    ReportOnBlocks(original, now, size, db, algorithms);
    DiscrepanciesOfPrefix(algorithms.blake3, before, after, size, n, n);
    DiscrepanciesExact(actual, expected, size, n);
    IntactOrListed(before, after, algorithms.blake3, size, n);
    NoneBeyond(before, after, n, |before|);
    forall i: nat | i < n
      ensures Mismatch(actual, expected, i) <==> !Intact(before, after, i)
    {
      Hex.DigestsCompare(algorithms.blake3(before[i]), algorithms.blake3(after[i]));
    }
  }

  /** Every acquired block that is no longer there as it was is listed, and nothing else is. */
  ghost predicate ListsEveryLoss(original: seq<byte>, now: seq<byte>, size: nat, ds: seq<BlockDiscrepancy>)
    requires size > 0
  {
    var before, after := Chunks(original, size), Chunks(now, size);
    forall i: nat :: Lists(ds, i) <==> i < |before| && !Intact(before, after, i)
  }

  /**
   * The block list shows every loss, and the matched count is the number of intact blocks, if and
   * only if the image has no fewer blocks than were acquired.
   */
  lemma LossesListedExactly(original: seq<byte>, now: seq<byte>, size: nat, db: Database, algorithms: Algorithms)
    requires size > 0 && NoBlockCollision(original, now, size, algorithms.blake3)
    ensures var report := Verify(now, Acquire(original, size, algorithms), db, algorithms);
            var enough := BlockCount(|now|, size) >= BlockCount(|original|, size);
            && (ListsEveryLoss(original, now, size, report.blockDiscrepancies) <==> enough)
            && (report.matchedBlocks == CountIntact(Chunks(original, size), Chunks(now, size), report.totalBlocks)
                <==> enough)
  {
    hide Chunks, Verify, CountIntact;
    var before, after := Chunks(original, size), Chunks(now, size);
    var report := Verify(now, Acquire(original, size, algorithms), db, algorithms);
    ChunkCount(original, size);
    ChunkCount(now, size);
    ReportOnBlocks(original, now, size, db, algorithms);
    BlockReportExactly(original, now, size, db, algorithms);
    if |after| < |before| {
      assert !Intact(before, after, |after|) && !Lists(report.blockDiscrepancies, |after|);
    }
  }

  // ----- The pristine verdict -----

  lemma IdenticalPrefix(original: seq<byte>, now: seq<byte>, size: nat)
    requires size > 0
    ensures now[..Min(|now|, BlockCount(|original|, size) * size)] == original
            <==> now == original || (|original| % size == 0 && original <= now)
  {
    CountCovers(|original|, size);
    var read := now[..Min(|now|, BlockCount(|original|, size) * size)];
    if read == original && |original| % size != 0 {
      assert |read| == |now|;
      assert read == now;
    }
    if now == original {
      assert read == now;
    }
  }

  lemma ReadsBackOriginal(original: seq<byte>, now: seq<byte>, size: nat)
    requires size > 0
    requires now == original || (|original| % size == 0 && original <= now)
    ensures BlocksRead(now, size, BlockCount(|original|, size)) == Chunks(original, size)
  {
    ChunkCount(original, size);
    if now != original {
      CountCovers(|original|, size);
      assert original + now[|original|..] == now;
      ChunksAppend(original, now[|original|..], size, BlockCount(|original|, size));
    }
  }

  lemma {:induction false} NoDiscrepancies(actual: seq<string>, expected: seq<string>, size: nat, n: nat)
    requires n <= |actual| && actual <= expected
    ensures DiscrepanciesBelow(actual, expected, size, n) == []
  {
    if n > 0 {
      NoDiscrepancies(actual, expected, size, n - 1);
    }
  }

  /** Reading back the acquired blocks leaves only the database to find fault with. */
  lemma FaithfulReadBack(original: seq<byte>, now: seq<byte>, size: nat, db: Database, algorithms: Algorithms)
    requires size > 0
    requires now == original || (|original| % size == 0 && original <= now)
    ensures var report := Verify(now, Acquire(original, size, algorithms), db, algorithms);
            && report.sha256Match && report.md5Match && report.blockDiscrepancies == []
            && report.dbDiscrepancies == DbDiscrepancies(db, Acquire(original, size, algorithms).blockHashes)
            && (report.isPristine <==> report.dbDiscrepancies == [])
  {
    ChunkCount(original, size);
    ReadsBackOriginal(original, now, size);
    ChunksCover(original, size);
    var hashes := HashAll(algorithms.blake3, Chunks(original, size));
    NoDiscrepancies(hashes, hashes, size, |hashes|);
  }

  lemma ReportedMatch(original: seq<byte>, now: seq<byte>, size: nat, db: Database, algorithms: Algorithms)
    requires size > 0
    requires Verify(now, Acquire(original, size, algorithms), db, algorithms).sha256Match
    ensures algorithms.sha256(now[..Min(|now|, BlockCount(|original|, size) * size)]) == algorithms.sha256(original)
  {
    ChunkCount(original, size);
    var count := BlockCount(|original|, size);
    BlocksReadCover(now, size, count);
    Hex.DigestsCompare(algorithms.sha256(Flatten(BlocksRead(now, size, count))), algorithms.sha256(original));
  }

  /**
   * The verdict, without a database: pristine if and only if the image is the acquired one, or the
   * acquired one, a whole number of blocks long, with anything appended to it. The image may have
   * any length; the digest of the image must not collide on these two inputs.
   */
  lemma PristineExactly(original: seq<byte>, now: seq<byte>, size: nat, algorithms: Algorithms)
    requires size > 0
    requires var read := now[..Min(|now|, BlockCount(|original|, size) * size)];
             algorithms.sha256(read) == algorithms.sha256(original) ==> read == original
    ensures Verify(now, Acquire(original, size, algorithms), NoDatabase, algorithms).isPristine
            <==> now == original || (|original| % size == 0 && original <= now)
  {
    IdenticalPrefix(original, now, size);
    if now == original || (|original| % size == 0 && original <= now) {
      FaithfulReadBack(original, now, size, NoDatabase, algorithms);
    } else if Verify(now, Acquire(original, size, algorithms), NoDatabase, algorithms).isPristine {
      ReportedMatch(original, now, size, NoDatabase, algorithms);
      assert false;
    }
  }

  /** For images of the acquired length that is: pristine exactly when no byte differs. */
  lemma PristineIffUnchanged(original: seq<byte>, now: seq<byte>, size: nat, algorithms: Algorithms)
    requires size > 0 && |now| == |original|
    requires algorithms.sha256(now) == algorithms.sha256(original) ==> now == original
    ensures Verify(now, Acquire(original, size, algorithms), NoDatabase, algorithms).isPristine <==> now == original
  {
    CountCovers(|original|, size);
    assert now[..|now|] == now;
    PristineExactly(original, now, size, algorithms);
  }

  /**
   * An image cut at any byte: the blocks that are gone are not listed but counted as matched; only a
   * block that the cut leaves shorter is listed.
   */
  lemma TruncationCountsAsMatched(original: seq<byte>, length: nat, size: nat, db: Database, algorithms: Algorithms)
    requires size > 0 && length <= |original|
    requires NoBlockCollision(original, original[..length], size, algorithms.blake3)
    ensures var report := Verify(original[..length], Acquire(original, size, algorithms), db, algorithms);
            var partial := length % size != 0 && length < |original|;
            && (forall i: nat :: Lists(report.blockDiscrepancies, i) <==> partial && i == length / size)
            && report.matchedBlocks == report.totalBlocks - if partial then 1 else 0
  {
    hide Chunks, Verify;
    var now := original[..length];
    var before, after := Chunks(original, size), Chunks(now, size);
    var partial := length % size != 0 && length < |original|;
    var report := Verify(now, Acquire(original, size, algorithms), db, algorithms);
    ReportOnBlocks(original, now, size, db, algorithms);
    BlockReportExactly(original, now, size, db, algorithms);
    ChunkCount(original, size);
    ChunkCount(now, size);
    DivisionLaw(length, size);
    DivisionLaw(|original|, size);
    forall i: nat | i < |before| && i < |after|
      ensures !Intact(before, after, i) <==> partial && i == length / size
    {
      CutBlock(original, length, size, i);
    }
    CutCount(length, |original|, size);
    SingleDiscrepancy(report.blockDiscrepancies, size, partial, length / size);
  }

  lemma SingleDiscrepancy(ds: seq<BlockDiscrepancy>, size: nat, listed: bool, index: nat)
    requires InOrder(ds, size) && forall i: nat :: Lists(ds, i) <==> listed && i == index
    ensures |ds| == if listed then 1 else 0
  {
    assert Lists(ds, index) <==> listed;
    if |ds| > 0 {
      assert Lists(ds, ds[0].blockIndex);
      if |ds| > 1 {
        assert ds[0].blockIndex < ds[1].blockIndex;
        assert Lists(ds, ds[1].blockIndex);
      }
    }
  }

  lemma CutCount(length: nat, total: nat, size: nat)
    requires size > 0 && length <= total
    ensures length % size != 0 ==> length / size < BlockCount(length, size)
    ensures length % size != 0 ==> length / size < BlockCount(total, size)
    ensures BlockCount(length, size) <= BlockCount(total, size)
  {
    DivisionLaw(length, size);
    DivisionLaw(total, size);
    MultiplyMonotone(total / size + 1, length / size, size);
    assert (total / size + 1) * size == total / size * size + size;
    assert length / size <= total / size;
    if length / size == total / size {
      assert length % size <= total % size;
    }
  }

  /** Block `i` of the cut image is that of the whole one unless the cut goes through it. */
  lemma CutBlock(original: seq<byte>, length: nat, size: nat, i: nat)
    requires size > 0 && length <= |original|
    requires i < |Chunks(original, size)| && i < |Chunks(original[..length], size)|
    ensures Chunks(original, size)[i] == Chunks(original[..length], size)[i]
            <==> !(length % size != 0 && length < |original| && i == length / size)
  {
    hide Chunks;
    var now := original[..length];
    ChunkBounds(original, size, i);
    ChunkBounds(now, size, i);
    var start := BlockStart(i, size);
    CutPlace(length, size, i);
    if start + size <= length || length == |original| {
      var end := Min(start + size, |original|);
      assert end == Min(start + size, length) && original[start..end] == now[start..end];
    } else {
      assert |Chunks(now, size)[i]| == length - start < |Chunks(original, size)[i]|;
    }
  }

  lemma CutPlace(length: nat, size: nat, i: nat)
    requires size > 0 && BlockStart(i, size) < length
    ensures BlockStart(i, size) + size > length <==> length % size != 0 && i == length / size
  {
    DivisionLaw(length, size);
    MultiplyMonotone(i + 1, length / size, size);
    MultiplyMonotone(length / size + 1, i, size);
    MultiplyMonotone(i, length / size, size);
    MultiplyMonotone(length / size, i, size);
    assert (i + 1) * size == i * size + size;
    assert (length / size + 1) * size == length / size * size + size;
  }

  /** A cut between two blocks is not seen in the block list at all. */
  lemma CutBetweenBlocksUnseen(original: seq<byte>, k: nat, size: nat, db: Database, algorithms: Algorithms)
    requires size > 0 && k * size <= |original|
    ensures var report := Verify(original[..k * size], Acquire(original, size, algorithms), db, algorithms);
            report.blockDiscrepancies == [] && report.matchedBlocks == report.totalBlocks
  {
    var kept, lost := original[..k * size], original[k * size..];
    assert kept + lost == original;
    ChunksAppend(kept, lost, size, k);
    assert BlocksRead(kept, size, |Chunks(original, size)|) == Chunks(kept, size);
    var actual := HashAll(algorithms.blake3, Chunks(kept, size));
    HashAllAppend(algorithms.blake3, Chunks(kept, size), Chunks(lost, size));
    NoDiscrepancies(actual, HashAll(algorithms.blake3, Chunks(original, size)), size, |actual|);
  }
}
