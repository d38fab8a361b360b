/** The plain cut of an image into fixed-size blocks, the last one possibly shorter. */
module Chunking {
  import opened Bytes
  import opened Arithmetic
  import opened Source

  function Chunks(data: seq<byte>, size: nat): (chunks: seq<seq<byte>>)
    requires size > 0
    ensures forall i :: 0 <= i < |chunks| ==> 0 < |chunks[i]| <= size
  {
    if data == [] then []
    else if |data| <= size then [data]
    else [data[..size]] + Chunks(data[size..], size)
  }

  function Flatten(chunks: seq<seq<byte>>): seq<byte> {
    if chunks == [] then [] else Flatten(chunks[..|chunks| - 1]) + chunks[|chunks| - 1]
  }

  lemma {:induction false} FlattenHead(head: seq<byte>, tail: seq<seq<byte>>)
    ensures Flatten([head] + tail) == head + Flatten(tail)
  {
    var all := [head] + tail;
    if tail == [] {
      assert all[..0] == [];
      assert Flatten(all) == Flatten([]) + head;
    } else {
      var k := |tail| - 1;
      FlattenHead(head, tail[..k]);
      assert all[..|all| - 1] == [head] + tail[..k];
    }
  }

  lemma {:induction false} ChunksCover(data: seq<byte>, size: nat)
    requires size > 0
    ensures Flatten(Chunks(data, size)) == data
  {
    if |data| > size {
      ChunksCover(data[size..], size);
      FlattenHead(data[..size], Chunks(data[size..], size));
      assert data[..size] + data[size..] == data;
    } else if data != [] {
      assert [data][..0] == [];
      assert Flatten([data]) == Flatten([]) + data;
    }
  }

  /** Cutting at a multiple of the block size does not disturb the blocks. */
  lemma {:induction false} ChunksAppend(a: seq<byte>, b: seq<byte>, size: nat, k: nat)
    requires size > 0 && |a| == k * size
    ensures Chunks(a + b, size) == Chunks(a, size) + Chunks(b, size)
    ensures |Chunks(a, size)| == k
  {
    if k == 0 {
      assert a + b == b;
    } else {
      assert (k - 1) * size == k * size - size;
      MultiplyMonotone(0, k - 1, size);
      ChunksAppend(a[size..], b, size, k - 1);
      assert a[size..] + b == (a + b)[size..];
      assert (a + b)[..size] == a[..size];
      if k == 1 {
        assert a[size..] == [] && a[..size] == a;
        if b == [] {
          assert a + b == a;
        }
      }
    }
  }

  /** Number of blocks: the length divided by the block size, rounded up. */
  function BlockCount(length: nat, size: nat): nat
    requires size > 0
  {
    length / size + if length % size == 0 then 0 else 1
  }

  lemma {:induction false} CountSteps(length: nat, size: nat)
    requires size > 0 && length > size
    ensures BlockCount(length, size) == 1 + BlockCount(length - size, size)
  {
    DivisionLaw(length, size);
    assert (length / size - 1) * size == length / size * size - size;
    DivisionUnique(length - size, size, length / size - 1, length % size);
  }

  lemma {:induction false} ChunkCount(data: seq<byte>, size: nat)
    requires size > 0
    ensures |Chunks(data, size)| == BlockCount(|data|, size)
  {
    if |data| > size {
      ChunkCount(data[size..], size);
      CountSteps(|data|, size);
    } else if |data| == size {
      DivisionUnique(|data|, size, 1, 0);
    } else {
      DivisionUnique(|data|, size, 0, |data|);
    }
  }

  /** Block `i` is the bytes from `i * size` up to the next multiple or the end of the image. */
  lemma {:induction false} ChunkAt(data: seq<byte>, size: nat, i: nat)
    requires size > 0 && i < |Chunks(data, size)|
    ensures i * size < |data|
    ensures Chunks(data, size)[i] == data[i * size..Min(i * size + size, |data|)]
  {
    if i > 0 {
      var tail := data[size..];
      ChunkAt(tail, size, i - 1);
      assert (i - 1) * size == i * size - size;
      MultiplyMonotone(1, i, size);
      ShiftedSlice(data, size, (i - 1) * size, Min((i - 1) * size + size, |tail|));
    }
  }

  function BlockStart(i: nat, size: nat): nat {
    i * size
  }

  lemma ChunkBounds(data: seq<byte>, size: nat, i: nat)
    requires size > 0 && i < |Chunks(data, size)|
    ensures BlockStart(i, size) < |data|
    ensures Chunks(data, size)[i] == data[BlockStart(i, size)..Min(BlockStart(i, size) + size, |data|)]
  {
    ChunkAt(data, size, i);
  }

  lemma ShiftedSlice(data: seq<byte>, shift: nat, lo: nat, hi: nat)
    requires shift <= |data| && lo <= hi <= |data| - shift
    ensures data[shift..][lo..hi] == data[lo + shift..hi + shift]
  {
  }

  /** Every block but the last is full. */
  lemma FullBlocks(data: seq<byte>, size: nat, i: nat)
    requires size > 0 && i + 1 < |Chunks(data, size)|
    ensures |Chunks(data, size)[i]| == size
  {
    ChunkAt(data, size, i);
    ChunkAt(data, size, i + 1);
    assert (i + 1) * size == i * size + size;
  }
}
