/** Model of the local-file partition store of an executor.

    The store maps a partition id to a partition, and a partition is the
    sequence of serialized blocks written for it, in write order. Each block
    records its bytes and the number of elements they encode. The element coder
    is a parameter (`enc`), and so are the elements; the file behind a
    partition is not modelled, only the blocks it would hold. */
module LocalFileStore {
  import opened Wrappers

  newtype byte = b: int | 0 <= b < 256

  /** Java's `int`. */
  newtype int32 = x: int | -0x8000_0000 <= x < 0x8000_0000

  type PartitionId = string

  /** One serialized block: the coder's output for its elements, and how many elements that is. */
  datatype Block = Block(bytes: seq<byte>, elementCount: nat)

  /** A partition as written to its file. `hashed` is the flag the partition is created with:
      false for `putDataAsPartition`, true for `putSortedDataAsPartition`, whose blocks are
      one per hash value. */
  datatype Partition = Partition(blocks: seq<Block>, hashed: bool)

  /** The store: the effective block threshold in bytes, and the partitions it holds. */
  datatype Store = Store(blockSize: int, partitions: map<PartitionId, Partition>)

  /** The runtime exception thrown on a second write to the same partition id. */
  datatype WriteError = OverwriteExisting(id: PartitionId)

  /** A successful put: the store afterwards and the value the put returns. */
  datatype Written<T> = Written(store: Store, value: T)

  /** A range read handed to the partition: the stored blocks and the hash bounds.
      Selecting the blocks inside the range is the partition's job and is not modelled. */
  datatype RangeRead = RangeRead(source: Partition, startInclusive: int32, endExclusive: int32)

  // ---------------------------------------------------------------------------
  // Block threshold

  /** Two's-complement truncation of an integer to 32 bits. */
  function WrapInt32(x: int): int32 {
    var m := x % 0x1_0000_0000;
    (if m < 0x8000_0000 then m else m - 0x1_0000_0000) as int32
  }

  /** The constructor's `blockSize * 1000` as Java evaluates it: in 32-bit arithmetic. */
  function ScaledBlockSizeAsWritten(configured: int32): (t: int32)
    ensures (t as int - configured as int * 1000) % 0x1_0000_0000 == 0
  {
    WrapInt32(configured as int * 1000)
  }

  /** A configured size of 2147484 (kilobytes) overflows: the threshold becomes negative,
      and then every element is flushed as a block of its own. */
  lemma BlockSizeOverflow<E>(enc: E -> seq<byte>, data: seq<E>)
    ensures ScaledBlockSizeAsWritten(2147484) == -2147483296
    ensures SplitBlocks(enc, ScaledBlockSizeAsWritten(2147484) as int, data)
            == seq(|data|, i requires 0 <= i < |data| => Block(enc(data[i]), 1))
  {
    NonPositiveThresholdIsolatesElements(enc, ScaledBlockSizeAsWritten(2147484) as int, data);
  }

  /** The threshold the configuration evidently means: the configured number of
      kilobytes times 1000, without overflow. */
  function ScaledBlockSize(configured: int32): (t: int)
    ensures t % 1000 == 0 && t / 1000 == configured as int
    ensures t > 0 <==> configured > 0
  {
    configured as int * 1000
  }

  /** Wherever the 32-bit product does not overflow, both readings agree. */
  lemma ScaledBlockSizeAgrees(configured: int32)
    requires -2147483 <= configured as int <= 2147483
    ensures ScaledBlockSizeAsWritten(configured) as int == ScaledBlockSize(configured)
  {
    var p := configured as int * 1000;
    assert -0x8000_0000 <= p < 0x8000_0000;
    if p < 0 {
      assert p % 0x1_0000_0000 == p + 0x1_0000_0000;
    } else {
      assert p % 0x1_0000_0000 == p;
    }
  }

  /** A freshly constructed store: no partitions, threshold scaled from the configuration. */
  function NewStore(configuredBlockSize: int32): (s: Store)
    ensures s.partitions == map[]
    ensures s.blockSize % 1000 == 0 && s.blockSize / 1000 == configuredBlockSize as int
  {
    Store(ScaledBlockSize(configuredBlockSize), map[])
  }

  // ---------------------------------------------------------------------------
  // Encodings and block sequences

  /** The coder's output for `data`, element after element. */
  function EncodeAll<E>(enc: E -> seq<byte>, data: seq<E>): seq<byte>
    decreases |data|
  {
    if data == [] then [] else EncodeAll(enc, data[..|data| - 1]) + enc(data[|data| - 1])
  }

  lemma {:induction false} EncodeAllAppend<E>(enc: E -> seq<byte>, a: seq<E>, b: seq<E>)
    ensures EncodeAll(enc, a + b) == EncodeAll(enc, a) + EncodeAll(enc, b)
    decreases |b|
  {
    if b == [] {
      assert a + b == a;
    } else {
      var b' := b[..|b| - 1];
      assert (a + b)[..|a + b| - 1] == a + b';
      assert (a + b)[|a + b| - 1] == b[|b| - 1];
      EncodeAllAppend(enc, a, b');
    }
  }

  /** Encoding a longer prefix never yields fewer bytes. */
  lemma EncodePrefixMonotone<E>(enc: E -> seq<byte>, data: seq<E>, i: nat, j: nat)
    requires i <= j <= |data|
    ensures |EncodeAll(enc, data[..i])| <= |EncodeAll(enc, data[..j])|
  {
    assert data[..j] == data[..i] + data[i..j];
    EncodeAllAppend(enc, data[..i], data[i..j]);
  }

  /** The file contents of a block sequence, block after block. */
  function ConcatBytes(blocks: seq<Block>): seq<byte> {
    if blocks == [] then [] else blocks[0].bytes + ConcatBytes(blocks[1..])
  }

  /** The sum of the block lengths. */
  function TotalSize(blocks: seq<Block>): nat {
    if blocks == [] then 0 else |blocks[0].bytes| + TotalSize(blocks[1..])
  }

  /** The sum of the block element counts. */
  function TotalCount(blocks: seq<Block>): nat {
    if blocks == [] then 0 else blocks[0].elementCount + TotalCount(blocks[1..])
  }

  lemma {:induction false} ConcatBytesLength(blocks: seq<Block>)
    ensures |ConcatBytes(blocks)| == TotalSize(blocks)
  {
    if blocks != [] {
      ConcatBytesLength(blocks[1..]);
    }
  }

  lemma {:induction false} TotalSizeAppend(a: seq<Block>, b: seq<Block>)
    ensures TotalSize(a + b) == TotalSize(a) + TotalSize(b)
  {
    if a == [] {
      assert a + b == b;
    } else {
      assert (a + b)[1..] == a[1..] + b;
      TotalSizeAppend(a[1..], b);
    }
  }

  lemma {:induction false} TotalCountAppend(a: seq<Block>, b: seq<Block>)
    ensures TotalCount(a + b) == TotalCount(a) + TotalCount(b)
  {
    if a == [] {
      assert a + b == b;
    } else {
      assert (a + b)[1..] == a[1..] + b;
      TotalCountAppend(a[1..], b);
    }
  }

  // ---------------------------------------------------------------------------
  // Splitting an element stream into blocks

  /** The loop of `putDataAsPartition` as a fold: append each element's encoding to the
      buffered block, flush it once it holds at least `threshold` bytes, and write a
      non-empty remainder as the last block. */
  function Chunk<E>(enc: E -> seq<byte>, threshold: int, buffer: Block, data: seq<E>): seq<Block>
    decreases |data|
  {
    if data == [] then
      (if |buffer.bytes| > 0 then [buffer] else [])
    else
      var filled := Block(buffer.bytes + enc(data[0]), buffer.elementCount + 1);
      if |filled.bytes| >= threshold then
        [filled] + Chunk(enc, threshold, Block([], 0), data[1..])
      else
        Chunk(enc, threshold, filled, data[1..])
  }

  /** The declarative description of a block split of `data`: each block encodes the
      next run of elements; the run before its last element stayed below the threshold
      (otherwise the block would have been flushed earlier); a block reached the
      threshold unless it is the non-empty remainder ending the stream; and elements left
      after the last block encode to nothing and were buffered without a flush. */
  ghost predicate Tiles<E>(enc: E -> seq<byte>, threshold: int, data: seq<E>, blocks: seq<Block>)
    decreases |blocks|
  {
    if blocks == [] then
      data == [] || (threshold > 0 && EncodeAll(enc, data) == [])
    else
      var c := blocks[0].elementCount;
      && 0 < c <= |data|
      && blocks[0].bytes == EncodeAll(enc, data[..c])
      && (c == 1 || |EncodeAll(enc, data[..c - 1])| < threshold)
      && (|blocks[0].bytes| >= threshold || (|blocks| == 1 && c == |data| && blocks[0].bytes != []))
      && Tiles(enc, threshold, data[c..], blocks[1..])
  }

  /** The fold produces a split of the pending elements followed by the rest of the stream. */
  lemma {:induction false} ChunkTiles<E>(enc: E -> seq<byte>, threshold: int, pending: seq<E>, data: seq<E>)
    requires pending == [] || |EncodeAll(enc, pending)| < threshold
    ensures Tiles(enc, threshold, pending + data,
                  Chunk(enc, threshold, Block(EncodeAll(enc, pending), |pending|), data))
    decreases |data|
  {
    var buffer := Block(EncodeAll(enc, pending), |pending|);
    if data == [] {
      assert pending + data == pending;
      if |buffer.bytes| > 0 {
        var c := |pending|;
        assert pending[..c] == pending;
        assert pending[c..] == [];
        if c > 1 {
          EncodePrefixMonotone(enc, pending, c - 1, c);
        }
      }
    } else {
      var pending' := pending + [data[0]];
      assert pending' + data[1..] == pending + data;
      assert pending'[..|pending'| - 1] == pending;
      var filled := Block(buffer.bytes + enc(data[0]), buffer.elementCount + 1);
      assert filled == Block(EncodeAll(enc, pending'), |pending'|);
      if |filled.bytes| >= threshold {
        var all := pending + data;
        var c := |pending'|;
        assert all[..c] == pending';
        assert all[c..] == data[1..];
        assert all[..c - 1] == pending;
        ChunkTiles(enc, threshold, [], data[1..]);
        assert [] + data[1..] == data[1..];
      } else {
        ChunkTiles(enc, threshold, pending', data[1..]);
      }
    }
  }

  /** The blocks `putDataAsPartition` writes for `data`. */
  function SplitBlocks<E>(enc: E -> seq<byte>, threshold: int, data: seq<E>): (blocks: seq<Block>)
    ensures Tiles(enc, threshold, data, blocks)
  {
    ChunkTiles(enc, threshold, [], data);
    assert [] + data == data;
    Chunk(enc, threshold, Block([], 0), data)
  }

  /** At most one block sequence splits a stream: the description is a specification
      that pins the result of the fold down completely. */
  lemma {:induction false} TilesUnique<E>(enc: E -> seq<byte>, threshold: int, data: seq<E>,
                                          blocks1: seq<Block>, blocks2: seq<Block>)
    requires Tiles(enc, threshold, data, blocks1)
    requires Tiles(enc, threshold, data, blocks2)
    ensures blocks1 == blocks2
    decreases |blocks1|
  {
    if blocks1 == [] && blocks2 != [] {
      NoBlockAfterSilentTail(enc, threshold, data, blocks2);
    } else if blocks1 != [] && blocks2 == [] {
      NoBlockAfterSilentTail(enc, threshold, data, blocks1);
    } else if blocks1 != [] {
      FirstBlockDetermined(enc, threshold, data, blocks1, blocks2);
      var c := blocks1[0].elementCount;
      TilesUnique(enc, threshold, data[c..], blocks1[1..], blocks2[1..]);
      assert blocks1 == [blocks1[0]] + blocks1[1..];
      assert blocks2 == [blocks2[0]] + blocks2[1..];
    }
  }

  /** Two splits of one stream start with the same block: a shorter first block would
      have reached the threshold before the longer one's last element. */
  lemma FirstBlockDetermined<E>(enc: E -> seq<byte>, threshold: int, data: seq<E>,
                                blocks1: seq<Block>, blocks2: seq<Block>)
    requires blocks1 != [] && Tiles(enc, threshold, data, blocks1)
    requires blocks2 != [] && Tiles(enc, threshold, data, blocks2)
    ensures blocks1[0] == blocks2[0]
  {
    var c1 := blocks1[0].elementCount;
    var c2 := blocks2[0].elementCount;
    if c1 < c2 {
      EncodePrefixMonotone(enc, data, c1, c2 - 1);
    } else if c2 < c1 {
      EncodePrefixMonotone(enc, data, c2, c1 - 1);
    }
  }

  /** A stream that may end without any block cannot be split into blocks as well. */
  lemma NoBlockAfterSilentTail<E>(enc: E -> seq<byte>, threshold: int, data: seq<E>, blocks: seq<Block>)
    requires Tiles(enc, threshold, data, [])
    requires Tiles(enc, threshold, data, blocks)
    ensures blocks == []
  {
    if blocks != [] {
      var c := blocks[0].elementCount;
      assert data[..|data|] == data;
      EncodePrefixMonotone(enc, data, c, |data|);
    }
  }

  /** The blocks of a split, concatenated, are exactly the encoded stream. */
  lemma {:induction false} TilesConcat<E>(enc: E -> seq<byte>, threshold: int, data: seq<E>, blocks: seq<Block>)
    requires Tiles(enc, threshold, data, blocks)
    ensures ConcatBytes(blocks) == EncodeAll(enc, data)
    decreases |blocks|
  {
    if blocks != [] {
      var c := blocks[0].elementCount;
      TilesConcat(enc, threshold, data[c..], blocks[1..]);
      assert data == data[..c] + data[c..];
      EncodeAllAppend(enc, data[..c], data[c..]);
    }
  }

  /** Size accounting: the block lengths add up to the length of the encoded stream. */
  lemma TilesTotalSize<E>(enc: E -> seq<byte>, threshold: int, data: seq<E>, blocks: seq<Block>)
    requires Tiles(enc, threshold, data, blocks)
    ensures TotalSize(blocks) == |EncodeAll(enc, data)|
  {
    TilesConcat(enc, threshold, data, blocks);
    ConcatBytesLength(blocks);
  }

  /** When no element encodes to nothing, every element is counted in exactly one block. */
  lemma {:induction false} TilesTotalCount<E>(enc: E -> seq<byte>, threshold: int, data: seq<E>, blocks: seq<Block>)
    requires Tiles(enc, threshold, data, blocks)
    requires forall i :: 0 <= i < |data| ==> enc(data[i]) != []
    ensures TotalCount(blocks) == |data|
    decreases |blocks|
  {
    if blocks != [] {
      var c := blocks[0].elementCount;
      var rest := data[c..];
      assert forall i :: 0 <= i < |rest| ==> rest[i] == data[c + i];
      TilesTotalCount(enc, threshold, rest, blocks[1..]);
    }
  }

  /** What a split says about its block at position i, which starts at element `start`. */
  ghost predicate BlockRun<E>(enc: E -> seq<byte>, threshold: int, data: seq<E>, start: nat, b: Block, isLast: bool) {
    var c := b.elementCount;
    && 0 < c && start + c <= |data|
    && b.bytes == EncodeAll(enc, data[start..start + c])
    && (c == 1 || |EncodeAll(enc, data[start..start + c - 1])| < threshold)
    && (|b.bytes| >= threshold || (isLast && start + c == |data| && b.bytes != []))
  }

  /** Block by block: every block holds the encoding of the elements its count covers,
      counted from the sum of the earlier counts; every block but the last reaches the
      threshold; and without its last element each block is below the threshold. */
  lemma {:induction false} TilesEachBlock<E>(enc: E -> seq<byte>, threshold: int, data: seq<E>, blocks: seq<Block>)
    requires Tiles(enc, threshold, data, blocks)
    ensures forall i :: 0 <= i < |blocks| ==>
              BlockRun(enc, threshold, data, TotalCount(blocks[..i]), blocks[i], i == |blocks| - 1)
    decreases |blocks|
  {
    if blocks != [] {
      var c := blocks[0].elementCount;
      var rest := data[c..];
      var tail := blocks[1..];
      TilesEachBlock(enc, threshold, rest, tail);
      forall i | 0 <= i < |blocks|
        ensures BlockRun(enc, threshold, data, TotalCount(blocks[..i]), blocks[i], i == |blocks| - 1)
      {
        if i == 0 {
          assert blocks[..0] == [];
          assert data[0..c] == data[..c];
          assert data[0..c - 1] == data[..c - 1];
        } else {
          assert BlockRun(enc, threshold, rest, TotalCount(tail[..i - 1]), tail[i - 1], i - 1 == |tail| - 1);
          BlockRunShift(enc, threshold, data, blocks, i);
        }
      }
    }
  }

  /** A later block's run, seen in the stream after the first block, is the same run
      seen in the whole stream, shifted by the first block's count. */
  lemma BlockRunShift<E>(enc: E -> seq<byte>, threshold: int, data: seq<E>, blocks: seq<Block>, i: nat)
    requires 0 < i < |blocks|
    requires blocks[0].elementCount <= |data|
    requires BlockRun(enc, threshold, data[blocks[0].elementCount..], TotalCount(blocks[1..][..i - 1]),
                      blocks[i], i == |blocks| - 1)
    ensures BlockRun(enc, threshold, data, TotalCount(blocks[..i]), blocks[i], i == |blocks| - 1)
  {
    var c := blocks[0].elementCount;
    var rest := data[c..];
    var s := TotalCount(blocks[1..][..i - 1]);
    assert blocks[..i] == [blocks[0]] + blocks[1..][..i - 1];
    TotalCountAppend([blocks[0]], blocks[1..][..i - 1]);
    assert TotalCount([blocks[0]]) == c;
    assert TotalCount(blocks[..i]) == c + s;
    var k := blocks[i].elementCount;
    SliceOfSuffix(data, c, s, s + k);
    SliceOfSuffix(data, c, s, s + k - 1);
  }

  lemma SliceOfSuffix<T>(data: seq<T>, c: nat, a: nat, b: nat)
    requires c <= |data| && a <= b <= |data| - c
    ensures data[c..][a..b] == data[c + a..c + b]
  {
  }

  /** With a positive threshold no zero-length block is ever written. */
  lemma TilesNoEmptyBlock<E>(enc: E -> seq<byte>, threshold: int, data: seq<E>, blocks: seq<Block>)
    requires Tiles(enc, threshold, data, blocks)
    requires threshold > 0
    ensures forall i :: 0 <= i < |blocks| ==> |blocks[i].bytes| > 0
  {
    TilesEachBlock(enc, threshold, data, blocks);
    forall i | 0 <= i < |blocks|
      ensures |blocks[i].bytes| > 0
    {
      assert BlockRun(enc, threshold, data, TotalCount(blocks[..i]), blocks[i], i == |blocks| - 1);
    }
  }

  /** A threshold of zero or less flushes after every element: one block per element. */
  lemma {:induction false} NonPositiveThresholdIsolatesElements<E>(enc: E -> seq<byte>, threshold: int, data: seq<E>)
    requires threshold <= 0
    ensures SplitBlocks(enc, threshold, data)
            == seq(|data|, i requires 0 <= i < |data| => Block(enc(data[i]), 1))
    decreases |data|
  {
    if data != [] {
      NonPositiveThresholdIsolatesElements(enc, threshold, data[1..]);
      assert Block([], 0).bytes + enc(data[0]) == enc(data[0]);
    }
  }

  // ---------------------------------------------------------------------------
  // Store operations

  /** `ConcurrentHashMap.putIfAbsent` as one atomic step: the map afterwards and the
      previous entry, if there was one (in which case nothing changes). */
  function PutIfAbsent(m: map<PartitionId, Partition>, id: PartitionId, p: Partition)
    : (r: (map<PartitionId, Partition>, Option<Partition>))
    ensures r.1.Some? <==> id in m
    ensures r.1.Some? ==> r.1.value == m[id] && r.0 == m
    ensures r.1.None? ==> r.0 == m[id := p]
  {
    if id in m then (m, Some(m[id])) else (m[id := p], None)
  }

  /** Appends one block to a partition being written, returning its serialized length. */
  function WriteBlock(blocks: seq<Block>, elementsInBlock: nat, buffer: seq<byte>): (r: (seq<Block>, nat))
    ensures |r.0| == |blocks| + 1 && r.0[..|blocks|] == blocks
    ensures r.0[|blocks|] == Block(buffer, elementsInBlock) && r.1 == |buffer|
    ensures TotalSize(r.0) == TotalSize(blocks) + r.1
  {
    TotalSizeAppend(blocks, [Block(buffer, elementsInBlock)]);
    (blocks + [Block(buffer, elementsInBlock)], |buffer|)
  }

  /** `putDataAsPartition`: write-once insertion of the threshold-split encoding of `data`;
      the value is the partition size in bytes. */
  function PutData<E>(store: Store, id: PartitionId, data: seq<E>, enc: E -> seq<byte>)
    : (r: Result<Written<nat>, WriteError>)
    ensures r.Failure? <==> id in store.partitions
    ensures r.Failure? ==> r.error == OverwriteExisting(id)
    ensures r.Success? ==>
              var s := r.value.store;
              && s.blockSize == store.blockSize
              && s.partitions.Keys == store.partitions.Keys + {id}
              && (forall other :: other in store.partitions ==> s.partitions[other] == store.partitions[other])
              && !s.partitions[id].hashed
              && Tiles(enc, store.blockSize, data, s.partitions[id].blocks)
              && r.value.value == TotalSize(s.partitions[id].blocks) == |EncodeAll(enc, data)|
  {
    var blocks := SplitBlocks(enc, store.blockSize, data);
    var (partitions, previous) := PutIfAbsent(store.partitions, id, Partition(blocks, false));
    if previous.Some? then
      Failure(OverwriteExisting(id))
    else
      TilesTotalSize(enc, store.blockSize, data, blocks);
      Success(Written(store.(partitions := partitions), TotalSize(blocks)))
  }

  /** One iteration of the streaming loop, seen through the fold: element i joins the
      buffered block, which is either flushed after the blocks written so far or kept. */
  lemma ChunkStep<E>(enc: E -> seq<byte>, threshold: int, blocks: seq<Block>, buffer: Block, data: seq<E>, i: nat)
    requires i < |data|
    ensures var filled := Block(buffer.bytes + enc(data[i]), buffer.elementCount + 1);
            blocks + Chunk(enc, threshold, buffer, data[i..])
            == if |filled.bytes| >= threshold then (blocks + [filled]) + Chunk(enc, threshold, Block([], 0), data[i + 1..])
               else blocks + Chunk(enc, threshold, filled, data[i + 1..])
  {
    assert data[i..][0] == data[i] && data[i..][1..] == data[i + 1..];
  }

  /** The streaming implementation: one pass over the elements with a byte buffer. */
  method PutDataAsPartition<E>(store: Store, id: PartitionId, data: seq<E>, enc: E -> seq<byte>)
    returns (r: Result<Written<nat>, WriteError>)
    ensures r == PutData(store, id, data, enc)
  {
    if id in store.partitions {
      return Failure(OverwriteExisting(id));
    }
    var blocks, partitionSize := StreamBlocks(enc, store.blockSize, data);
    PutDataFresh(store, id, data, enc);
    r := Success(Written(store.(partitions := store.partitions[id := Partition(blocks, false)]), partitionSize));
  }

  /** The element loop of `putDataAsPartition`: encode into a buffer, flush it as a block
      whenever it reaches the threshold, then flush a non-empty remainder. */
  method StreamBlocks<E>(enc: E -> seq<byte>, threshold: int, data: seq<E>)
    returns (blocks: seq<Block>, partitionSize: nat)
    ensures blocks == SplitBlocks(enc, threshold, data)
    ensures partitionSize == TotalSize(blocks) == |EncodeAll(enc, data)|
  {
    blocks := [];
    partitionSize := 0;
    var buffer: seq<byte> := [];
    var elementsInBlock: nat := 0;
    for i := 0 to |data|
      invariant blocks + Chunk(enc, threshold, Block(buffer, elementsInBlock), data[i..])
                == Chunk(enc, threshold, Block([], 0), data)
      invariant partitionSize == TotalSize(blocks)
    {
      ChunkStep(enc, threshold, blocks, Block(buffer, elementsInBlock), data, i);
      buffer := buffer + enc(data[i]);
      elementsInBlock := elementsInBlock + 1;
      if |buffer| >= threshold {
        var (grown, written) := WriteBlock(blocks, elementsInBlock, buffer);
        blocks := grown;
        partitionSize := partitionSize + written;
        buffer := [];
        elementsInBlock := 0;
      }
    }
    assert data[|data|..] == [];
    if |buffer| > 0 {
      var (grown, written) := WriteBlock(blocks, elementsInBlock, buffer);
      blocks := grown;
      partitionSize := partitionSize + written;
    }
    assert blocks == SplitBlocks(enc, threshold, data);
    TilesTotalSize(enc, threshold, data, blocks);
  }

  /** A put to a fresh id stores the split and returns its size. */
  lemma PutDataFresh<E>(store: Store, id: PartitionId, data: seq<E>, enc: E -> seq<byte>)
    requires id !in store.partitions
    ensures var blocks := SplitBlocks(enc, store.blockSize, data);
            PutData(store, id, data, enc)
            == Success(Written(store.(partitions := store.partitions[id := Partition(blocks, false)]), TotalSize(blocks)))
  {
  }

  /** One block per sub-sequence: its encoding and its element count. */
  function SortedBlocks<E>(enc: E -> seq<byte>, sortedData: seq<seq<E>>): seq<Block> {
    seq(|sortedData|, i requires 0 <= i < |sortedData| => Block(EncodeAll(enc, sortedData[i]), |sortedData[i]|))
  }

  /** `putSortedDataAsPartition`: write-once insertion of one block per input sub-sequence,
      empty ones included; the value lists each block's serialized length. */
  function PutSortedData<E>(store: Store, id: PartitionId, sortedData: seq<seq<E>>, enc: E -> seq<byte>)
    : (r: Result<Written<seq<nat>>, WriteError>)
    ensures r.Failure? <==> id in store.partitions
    ensures r.Failure? ==> r.error == OverwriteExisting(id)
    ensures r.Success? ==>
              var s := r.value.store;
              && s.blockSize == store.blockSize
              && s.partitions.Keys == store.partitions.Keys + {id}
              && (forall other :: other in store.partitions ==> s.partitions[other] == store.partitions[other])
              && s.partitions[id].hashed
              && |s.partitions[id].blocks| == |sortedData| == |r.value.value|
              && (forall i :: 0 <= i < |sortedData| ==>
                    && s.partitions[id].blocks[i].bytes == EncodeAll(enc, sortedData[i])
                    && s.partitions[id].blocks[i].elementCount == |sortedData[i]|
                    && r.value.value[i] == |s.partitions[id].blocks[i].bytes|)
  {
    var blocks := SortedBlocks(enc, sortedData);
    var (partitions, previous) := PutIfAbsent(store.partitions, id, Partition(blocks, true));
    if previous.Some? then
      Failure(OverwriteExisting(id))
    else
      Success(Written(store.(partitions := partitions),
                      seq(|blocks|, i requires 0 <= i < |blocks| => |blocks[i].bytes|)))
  }

  /** The streaming implementation: encode each sub-sequence into the buffer, then write it. */
  method PutSortedDataAsPartition<E>(store: Store, id: PartitionId, sortedData: seq<seq<E>>, enc: E -> seq<byte>)
    returns (r: Result<Written<seq<nat>>, WriteError>)
    ensures r == PutSortedData(store, id, sortedData, enc)
  {
    if id in store.partitions {
      return Failure(OverwriteExisting(id));
    }
    var blocks: seq<Block> := [];
    var blockSizeList: seq<nat> := [];
    for k := 0 to |sortedData|
      invariant |blocks| == |blockSizeList| == k
      invariant forall i :: 0 <= i < k ==> blocks[i] == Block(EncodeAll(enc, sortedData[i]), |sortedData[i]|)
      invariant forall i :: 0 <= i < k ==> blockSizeList[i] == |blocks[i].bytes|
    {
      var block := sortedData[k];
      var buffer: seq<byte> := [];
      var elementsInBlock: nat := 0;
      for j := 0 to |block|
        invariant buffer == EncodeAll(enc, block[..j])
        invariant elementsInBlock == j
      {
        assert block[..j + 1][..j] == block[..j];
        buffer := buffer + enc(block[j]);
        elementsInBlock := elementsInBlock + 1;
      }
      assert block[..|block|] == block;
      var (grown, written) := WriteBlock(blocks, elementsInBlock, buffer);
      blocks := grown;
      blockSizeList := blockSizeList + [written];
    }
    assert blocks == SortedBlocks(enc, sortedData);
    assert blockSizeList == seq(|blocks|, i requires 0 <= i < |blocks| => |blocks[i].bytes|);
    r := Success(Written(store.(partitions := store.partitions[id := Partition(blocks, true)]), blockSizeList));
  }

  /** `getPartition`: the stored partition, or nothing when the id is absent. */
  function GetPartition(store: Store, id: PartitionId): (r: Option<Partition>)
    ensures r.None? <==> id !in store.partitions
    ensures r.Some? ==> r.value == store.partitions[id]
  {
    if id in store.partitions then Some(store.partitions[id]) else None
  }

  /** `retrieveDataFromPartition`: a range read of the stored partition, or nothing when
      the id is absent. */
  function RetrieveDataFromPartition(store: Store, id: PartitionId, startInclusive: int32, endExclusive: int32)
    : (r: Option<RangeRead>)
    ensures r.None? <==> id !in store.partitions
    ensures r.Some? ==> r.value == RangeRead(store.partitions[id], startInclusive, endExclusive)
  {
    if id in store.partitions then Some(RangeRead(store.partitions[id], startInclusive, endExclusive)) else None
  }

  /** `removePartition`: deletes the entry; reports whether there was one. */
  function RemovePartition(store: Store, id: PartitionId): (r: (Store, bool))
    ensures r.1 <==> id in store.partitions
    ensures r.0.blockSize == store.blockSize
    ensures r.0.partitions.Keys == store.partitions.Keys - {id}
    ensures forall other :: other in r.0.partitions ==> r.0.partitions[other] == store.partitions[other]
  {
    (store.(partitions := store.partitions - {id}), id in store.partitions)
  }

  // ---------------------------------------------------------------------------
  // Properties relating several operations

  /** Write-once: after a successful put, both kinds of put to the same id fail and the
      stored partition stays the one first written. */
  lemma SecondPutFails<E>(store: Store, id: PartitionId, data: seq<E>, again: seq<E>,
                          sortedAgain: seq<seq<E>>, enc: E -> seq<byte>)
    requires id !in store.partitions
    ensures PutData(store, id, data, enc).Success?
    ensures var s := PutData(store, id, data, enc).value.store;
            && PutData(s, id, again, enc) == Failure(OverwriteExisting(id))
            && PutSortedData(s, id, sortedAgain, enc) == Failure(OverwriteExisting(id))
            && GetPartition(s, id) == Some(Partition(SplitBlocks(enc, store.blockSize, data), false))
  {
    var s := PutData(store, id, data, enc).value.store;
    TilesUnique(enc, store.blockSize, data, s.partitions[id].blocks, SplitBlocks(enc, store.blockSize, data));
  }

  /** Round trip through the store: reading back a partition written by `putDataAsPartition`
      gives blocks whose bytes concatenate to the encoded elements and whose sizes add up
      to the returned size. */
  lemma GetAfterPutData<E>(store: Store, id: PartitionId, data: seq<E>, enc: E -> seq<byte>)
    requires id !in store.partitions
    ensures PutData(store, id, data, enc).Success?
    ensures var w := PutData(store, id, data, enc).value;
            var got := GetPartition(w.store, id);
            && got.Some?
            && ConcatBytes(got.value.blocks) == EncodeAll(enc, data)
            && TotalSize(got.value.blocks) == w.value
  {
    var w := PutData(store, id, data, enc).value;
    TilesConcat(enc, store.blockSize, data, w.store.partitions[id].blocks);
  }

  /** Round trip for sorted puts: the blocks, concatenated, are the encoding of all
      sub-sequences in order, their counts add up to the number of elements, and their
      sizes to the encoded length. */
  lemma GetAfterPutSortedData<E>(store: Store, id: PartitionId, sortedData: seq<seq<E>>, enc: E -> seq<byte>)
    requires id !in store.partitions
    ensures PutSortedData(store, id, sortedData, enc).Success?
    ensures var w := PutSortedData(store, id, sortedData, enc).value;
            var got := GetPartition(w.store, id);
            && got.Some?
            && ConcatBytes(got.value.blocks) == EncodeAll(enc, Flatten(sortedData))
            && TotalCount(got.value.blocks) == |Flatten(sortedData)|
            && TotalSize(got.value.blocks) == |EncodeAll(enc, Flatten(sortedData))|
  {
    var blocks := PutSortedData(store, id, sortedData, enc).value.store.partitions[id].blocks;
    assert blocks == SortedBlocks(enc, sortedData);
    SortedBlocksStream(enc, sortedData);
    ConcatBytesLength(blocks);
  }

  /** All sub-sequences, one after another. */
  function Flatten<E>(sortedData: seq<seq<E>>): seq<E> {
    if sortedData == [] then [] else sortedData[0] + Flatten(sortedData[1..])
  }

  lemma {:induction false} SortedBlocksStream<E>(enc: E -> seq<byte>, sortedData: seq<seq<E>>)
    ensures ConcatBytes(SortedBlocks(enc, sortedData)) == EncodeAll(enc, Flatten(sortedData))
    ensures TotalCount(SortedBlocks(enc, sortedData)) == |Flatten(sortedData)|
  {
    if sortedData != [] {
      SortedBlocksStream(enc, sortedData[1..]);
      assert SortedBlocks(enc, sortedData)[1..] == SortedBlocks(enc, sortedData[1..]);
      EncodeAllAppend(enc, sortedData[0], Flatten(sortedData[1..]));
    }
  }

  /** Removing a partition that was just written restores the store, and lookups then
      find nothing. */
  lemma RemoveAfterPut<E>(store: Store, id: PartitionId, data: seq<E>, enc: E -> seq<byte>)
    requires id !in store.partitions
    ensures PutData(store, id, data, enc).Success?
    ensures var removed := RemovePartition(PutData(store, id, data, enc).value.store, id);
            && removed.1
            && removed.0 == store
            && GetPartition(removed.0, id).None?
            && RetrieveDataFromPartition(removed.0, id, 0, 1).None?
  {
    var removed := RemovePartition(PutData(store, id, data, enc).value.store, id);
    assert removed.0.partitions == store.partitions;
  }

  /** A second removal of the same id reports false and changes nothing. */
  lemma RemoveTwice(store: Store, id: PartitionId)
    ensures var once := RemovePartition(store, id);
            var twice := RemovePartition(once.0, id);
            && !twice.1
            && twice.0 == once.0
  {
    var once := RemovePartition(store, id);
    assert once.0.partitions - {id} == once.0.partitions;
  }
}
