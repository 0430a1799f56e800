/** SST files (`src/sstable.rs`): the batch writer, the streaming writer and the reader.
    Compression is a pair of functions of which the second undoes the first. */
module SstFile {
  import opened Bytes
  import opened BigEndian
  import opened Record
  import opened SstCodec
  import opened BlockIndex
  import opened Bloom
  import Manifest

  type Block = seq<InternalRecord>
  type Compressor = bytes -> bytes
  type Decompressor = (bytes, nat) -> Option<bytes>

  ghost predicate Inverse(compress: Compressor, decompress: Decompressor) {
    forall raw: bytes :: decompress(compress(raw), |raw|) == Some(raw)
  }

  // ---------------------------------------------------------------- one block

  function MinTs(b: Block): (m: i64)
    ensures b != [] ==> exists i :: 0 <= i < |b| && b[i].ts == m
    ensures forall i :: 0 <= i < |b| ==> m <= b[i].ts
  {
    if b == [] then 0 else if |b| == 1 then b[0].ts else
    var m := MinTs(b[1..]);
    assert forall i :: 1 <= i < |b| ==> b[i] == b[1..][i - 1];
    if b[0].ts < m then b[0].ts else m
  }

  function MaxTs(b: Block): (m: i64)
    ensures b != [] ==> exists i :: 0 <= i < |b| && b[i].ts == m
    ensures forall i :: 0 <= i < |b| ==> b[i].ts <= m
  {
    if b == [] then 0 else if |b| == 1 then b[0].ts else
    var m := MaxTs(b[1..]);
    assert forall i :: 1 <= i < |b| ==> b[i] == b[1..][i - 1];
    if b[0].ts > m then b[0].ts else m
  }

  function MinExpire(b: Block): (m: i64)
    ensures b != [] ==> exists i :: 0 <= i < |b| && b[i].expireAt == m
    ensures forall i :: 0 <= i < |b| ==> m <= b[i].expireAt
  {
    if b == [] then 0 else if |b| == 1 then b[0].expireAt else
    var m := MinExpire(b[1..]);
    assert forall i :: 1 <= i < |b| ==> b[i] == b[1..][i - 1];
    if b[0].expireAt < m then b[0].expireAt else m
  }

  function MaxExpire(b: Block): (m: i64)
    ensures b != [] ==> exists i :: 0 <= i < |b| && b[i].expireAt == m
    ensures forall i :: 0 <= i < |b| ==> b[i].expireAt <= m
  {
    if b == [] then 0 else if |b| == 1 then b[0].expireAt else
    var m := MaxExpire(b[1..]);
    assert forall i :: 1 <= i < |b| ==> b[i] == b[1..][i - 1];
    if b[0].expireAt > m then b[0].expireAt else m
  }

  function AsU32(n: nat): u32 {
    n % 0x1_0000_0000
  }

  function HeaderOf(b: Block, compress: Compressor): BlockHeader {
    var raw := EncodeRecords(b);
    BlockHeader(AsU32(|b|), MinTs(b), MaxTs(b), MinExpire(b), MaxExpire(b), AsU32(|raw|), AsU32(|compress(raw)|))
  }

  function BlockBytes(b: Block, compress: Compressor): (s: bytes)
    ensures |s| == HEADER_SIZE + |compress(EncodeRecords(b))|
  {
    HeaderBytes(HeaderOf(b, compress)) + compress(EncodeRecords(b))
  }

  function InfoOf(b: Block, i: nat): BlockInfo {
    Manifest.BlockInfo(AsU32(i), if b == [] then [] else b[0].key, if b == [] then []
        else b[|b| - 1].key, MinTs(b), MaxTs(b), MinExpire(b), MaxExpire(b))
  }

  /** Index entry and header of a block give its first and last key and the least and greatest
      timestamp and expiry in it. */
  lemma BlockSummary(b: Block, i: nat, compress: Compressor)
    requires b != []
    ensures var info, h := InfoOf(b, i), HeaderOf(b, compress);
            && info.minKey == b[0].key && info.maxKey == b[|b| - 1].key
            && (h.minTs, h.maxTs, h.minExpire, h.maxExpire)
               == (info.minTs, info.maxTs, info.minExpire, info.maxExpire)
            && (forall r :: r in b ==> info.minTs <= r.ts <= info.maxTs)
            && (forall r :: r in b ==> info.minExpire <= r.expireAt <= info.maxExpire)
            && (exists r :: r in b && r.ts == info.minTs) && (exists r :: r in b && r.ts == info.maxTs)
            && (exists r :: r in b && r.expireAt == info.minExpire)
            && (exists r :: r in b && r.expireAt == info.maxExpire)
  {
    hide MinTs, MaxTs, MinExpire, MaxExpire;
    assert forall j :: 0 <= j < |b| ==> b[j] in b;
  }

  /** A block counts as expired exactly when each of its records is. */
  lemma ExpiredExactly(b: Block, i: nat, sstId: u32, now: i64)
    requires b != []
    ensures Expired(MetaOf(sstId, InfoOf(b, i)), now) <==> forall r :: r in b ==> r.expireAt < now
  {
    hide MinTs, MaxTs, MinExpire, MaxExpire;
    BlockSummary(b, i, raw => raw);
    assert InfoOf(b, i).maxExpire == MaxExpire(b);
  }

  /** The lengths fit the header's fields and the records theirs. */
  predicate InRange(b: Block, compress: Compressor) {
    && |b| < 0x1_0000_0000 && |EncodeRecords(b)| < 0x1_0000_0000 && |compress(EncodeRecords(b))| < 0x1_0000_0000
    && forall i :: 0 <= i < |b| ==> Storable(b[i])
  }

  // ---------------------------------------------------------------- a file

  function FileOf(blocks: seq<Block>, compress: Compressor): bytes {
    if blocks == [] then [] else FileOf(blocks[..|blocks| - 1], compress) + BlockBytes(blocks[|blocks| - 1], compress)
  }

  function InfosOf(blocks: seq<Block>): (infos: seq<BlockInfo>)
    ensures |infos| == |blocks| && forall i :: 0 <= i < |blocks| ==> infos[i] == InfoOf(blocks[i], i)
  {
    seq(|blocks|, i requires 0 <= i < |blocks| => InfoOf(blocks[i], i))
  }

  /** `chunks(n)`: runs of n, the last one possibly shorter. */
  function Chunks(records: seq<InternalRecord>, n: nat): seq<Block>
    requires n > 0
    decreases |records|
  {
    if records == [] then []
    else if |records| <= n then [records]
    else [records[..n]] + Chunks(records[n..], n)
  }

  function Joined(blocks: seq<Block>): seq<InternalRecord> {
    if blocks == [] then [] else blocks[0] + Joined(blocks[1..])
  }

  /** Cutting into blocks loses nothing and keeps the order. */
  lemma {:induction false} ChunksJoin(records: seq<InternalRecord>, n: nat)
    requires n > 0
    ensures Joined(Chunks(records, n)) == records
    decreases |records|
  {
    if |records| > n {
      ChunksJoin(records[n..], n);
      assert records == records[..n] + records[n..];
    } else if records != [] {
      assert Joined([records]) == records + Joined([records][1..]) == records;
    }
  }

  /** A block of full size in front. */
  lemma ChunksCons(first: Block, rest: seq<InternalRecord>, n: nat)
    requires n > 0 && |first| == n
    ensures Chunks(first + rest, n) == [first] + Chunks(rest, n)
  {
    if rest == [] {
      assert first + rest == first;
    } else {
      assert (first + rest)[..n] == first && (first + rest)[n..] == rest;
    }
  }

  /** Full blocks followed by a shorter rest are the chunks of the whole. */
  lemma {:induction false} ChunksOf(blocks: seq<Block>, rest: seq<InternalRecord>, n: nat)
    requires n > 0 && |rest| <= n && forall i :: 0 <= i < |blocks| ==> |blocks[i]| == n
    ensures Chunks(Joined(blocks) + rest, n) == if rest == [] then blocks else blocks + [rest]
  {
    if blocks == [] {
      assert Joined(blocks) + rest == rest;
    } else {
      assert Joined(blocks) + rest == blocks[0] + (Joined(blocks[1..]) + rest);
      ChunksCons(blocks[0], Joined(blocks[1..]) + rest, n);
      ChunksOf(blocks[1..], rest, n);
      assert blocks == [blocks[0]] + blocks[1..];
    }
  }

  lemma {:induction false} JoinedSnoc(blocks: seq<Block>, b: Block)
    ensures Joined(blocks + [b]) == Joined(blocks) + b
  {
    if blocks == [] {
      assert blocks + [b] == [b] && [b][1..] == [] && Joined([b]) == b + Joined([]);
    } else {
      assert (blocks + [b])[1..] == blocks[1..] + [b];
      JoinedSnoc(blocks[1..], b);
    }
  }

  lemma FileLast(blocks: seq<Block>, compress: Compressor)
    requires blocks != []
    ensures FileOf(blocks, compress) ==
            FileOf(blocks[..|blocks| - 1], compress) + BlockBytes(blocks[|blocks| - 1], compress)
  {}

  lemma FileSnoc(blocks: seq<Block>, b: Block, compress: Compressor)
    ensures FileOf(blocks + [b], compress) == FileOf(blocks, compress) + BlockBytes(b, compress)
  {
    hide FileOf, BlockBytes;
    var more := blocks + [b];
    FileLast(more, compress);
    assert more[..|more| - 1] == blocks && more[|more| - 1] == b;
  }

  lemma InfosSnoc(blocks: seq<Block>, b: Block)
    ensures InfosOf(blocks + [b]) == InfosOf(blocks) + [InfoOf(b, |blocks|)]
  {
    hide InfoOf;
  }

  // ---------------------------------------------------------------- writers

  /** Append one block and its description. */
  method EmitBlock(file: bytes, total: nat, infos: seq<BlockInfo>, b: Block, compress: Compressor,
                   ghost blocks: seq<Block>)
    returns (file': bytes, total': nat, infos': seq<BlockInfo>)
    requires file == FileOf(blocks, compress) && infos == InfosOf(blocks) && total == |file|
    ensures file' == FileOf(blocks + [b], compress) && infos' == InfosOf(blocks + [b]) && total' == |file'|
  {
    hide FileOf, InfosOf, InfoOf, HeaderOf, HeaderBytes, EncodeRecords;
    FileSnoc(blocks, b, compress);
    InfosSnoc(blocks, b);
    var raw := EncodeAll(b);
    file' := file + HeaderBytes(HeaderOf(b, compress)) + compress(raw);
    assert file' == file + BlockBytes(b, compress);
    total' := total + HEADER_SIZE + |compress(raw)|;
    infos' := infos + [InfoOf(b, |infos|)];
  }

  function BlockLen(blockSize: nat): (n: nat)
    ensures n > 0
  {
    if blockSize == 0 then 1 else blockSize
  }

  /** `SstWriter::write`: the file, its size and its block list. */
  method WriteSst(records: seq<InternalRecord>, blockSize: nat, compress: Compressor)
    returns (file: bytes, total: nat, infos: seq<BlockInfo>)
    ensures file == FileOf(Chunks(records, BlockLen(blockSize)), compress) && total == |file|
    ensures infos == InfosOf(Chunks(records, BlockLen(blockSize)))
  {
    hide FileOf, InfosOf, Chunks;
    var n := BlockLen(blockSize);
    file, total, infos := [], 0, [];
    var rest := records;
    ghost var done: seq<Block> := [];
    EmptyFile(compress);
    while rest != []
      invariant Chunks(records, n) == done + Chunks(rest, n)
      invariant file == FileOf(done, compress) && infos == InfosOf(done) && total == |file|
      decreases |rest|
    {
      var chunk := if |rest| <= n then rest else rest[..n];
      ChunkOff(rest, n);
      file, total, infos := EmitBlock(file, total, infos, chunk, compress, done);
      done := done + [chunk];
      rest := rest[|chunk|..];
    }
    assert Chunks(records, n) == done by { NoChunks(n); }
  }

  lemma NoChunks(n: nat)
    requires n > 0
    ensures Chunks([], n) == []
  {}

  lemma EmptyFile(compress: Compressor)
    ensures FileOf([], compress) == [] && InfosOf([]) == []
  {}

  lemma ChunkOff(rest: seq<InternalRecord>, n: nat)
    requires n > 0 && rest != []
    ensures var chunk := if |rest| <= n then rest else rest[..n];
            Chunks(rest, n) == [chunk] + Chunks(rest[|chunk|..], n)
  {}

  /** `unique_keys` and the filter over them: exactly the keys of the records. */
  method KeyFilterOf(records: seq<InternalRecord>, bitsPerKey: nat) returns (bloom: BloomFilter)
    ensures fresh(bloom) && fresh(bloom.bits) && bloom.Valid() && bloom.hashVersion == CURRENT_HASH_VERSION
    ensures Knows(bloom.inserted, records)
  {
    var unique: seq<bytes>, last: Option<bytes> := [], None;
    for i := 0 to |records|
      invariant forall k :: k in unique <==> exists j :: 0 <= j < i && records[j].key == k
      invariant last.Some? ==> last.value in unique
    {
      if last != Some(records[i].key) {
        unique := unique + [records[i].key];
        last := Some(records[i].key);
      }
    }
    bloom := FromKeys(unique, bitsPerKey);
  }

  class SstStreamWriter {
    var file: bytes
    const blockSize: nat
    const compress: Compressor
    const bloom: BloomFilter
    var currentBlock: seq<InternalRecord>
    var blockInfos: seq<BlockInfo>
    var totalBytes: nat

    ghost var blocks: seq<Block>
    ghost var written: seq<InternalRecord>

    ghost predicate Valid()
      reads this, bloom, bloom.bits
    {
      && file == FileOf(blocks, compress) && blockInfos == InfosOf(blocks) && totalBytes == |file|
      && (forall i :: 0 <= i < |blocks| ==> |blocks[i]| == BlockLen(blockSize))
      && |currentBlock| < BlockLen(blockSize) && written == Joined(blocks) + currentBlock
      && bloom.Valid() && Knows(bloom.inserted, written)
    }

    constructor (blockSize: nat, estimatedKeys: nat, bitsPerKey: nat, compress: Compressor)
      ensures Valid() && written == [] && this.blockSize == blockSize && this.compress == compress
      ensures fresh(bloom) && fresh(bloom.bits) && bloom.hashVersion == CURRENT_HASH_VERSION
    {
      this.blockSize, this.compress := blockSize, compress;
      bloom := new BloomFilter(if estimatedKeys == 0 then 1 else estimatedKeys, bitsPerKey);
      file, currentBlock, blockInfos, totalBytes := [], [], [], 0;
      blocks, written := [], [];
    }

    method WriteRecord(rec: InternalRecord)
      requires Valid()
      modifies this, bloom, bloom.bits
      ensures Valid() && written == old(written) + [rec]
    {
      hide FileOf, InfosOf, Joined, Represents, Knows;
      KnowsOneMore(bloom.inserted, written, rec);
      bloom.Insert(rec.key);
      assert Joined(blocks) + currentBlock + [rec] == Joined(blocks) + (currentBlock + [rec]);
      currentBlock := currentBlock + [rec];
      written := written + [rec];
      if |currentBlock| >= blockSize {
        ghost var full := currentBlock;
        JoinedSnoc(blocks, full);
        FlushBlock();
      }
    }

    method FlushBlock()
      modifies this`file, this`currentBlock, this`blockInfos, this`totalBytes, this`blocks
      requires file == FileOf(blocks, compress) && blockInfos == InfosOf(blocks) && totalBytes == |file|
      ensures file == FileOf(blocks, compress) && blockInfos == InfosOf(blocks) && totalBytes == |file|
      ensures currentBlock == []
      ensures blocks == if old(currentBlock) == [] then old(blocks) else old(blocks) + [old(currentBlock)]
    {
      hide FileOf, InfosOf;
      if currentBlock == [] {
        return;
      }
      var block := currentBlock;
      file, totalBytes, blockInfos := EmitBlock(file, totalBytes, blockInfos, block, compress, blocks);
      blocks := blocks + [block];
      currentBlock := [];
    }

    /** The same file and block list as the batch writer's, for any block size, and a filter
        over the same keys. */
    method Finish() returns (total: nat, infos: seq<BlockInfo>, filter: BloomFilter)
      requires Valid()
      modifies this
      ensures file == FileOf(Chunks(old(written), BlockLen(blockSize)), compress) && total == |file|
      ensures infos == InfosOf(Chunks(old(written), BlockLen(blockSize)))
      ensures filter == bloom && filter.Valid() && Knows(filter.inserted, old(written))
    {
      hide FileOf, InfosOf, Chunks, Joined, Represents, Knows;
      ChunksOf(blocks, currentBlock, BlockLen(blockSize));
      if currentBlock != [] {
        FlushBlock();
      }
      total, infos, filter := totalBytes, blockInfos, bloom;
    }
  }

  /** The filter's keys are the keys of the records. */
  ghost predicate Knows(inserted: set<bytes>, records: seq<InternalRecord>) {
    forall k :: k in inserted <==> exists i :: 0 <= i < |records| && records[i].key == k
  }

  lemma KnowsOneMore(inserted: set<bytes>, records: seq<InternalRecord>, rec: InternalRecord)
    requires Knows(inserted, records)
    ensures Knows(inserted + {rec.key}, records + [rec])
  {
    var more := records + [rec];
    forall k ensures k in inserted + {rec.key} <==> exists i :: 0 <= i < |more| && more[i].key == k {
      if k in inserted {
        var i :| 0 <= i < |records| && records[i].key == k;
        assert more[i].key == k;
      }
      if k == rec.key { assert more[|records|].key == k; }
    }
  }

  // ---------------------------------------------------------------- the reader

  /** Where each block starts. */
  function OffsetsOf(blocks: seq<Block>, compress: Compressor): (offsets: seq<nat>)
    ensures |offsets| == |blocks|
    ensures forall i :: 0 <= i < |blocks| ==> offsets[i] == |FileOf(blocks[..i], compress)|
  {
    seq(|blocks|, i requires 0 <= i < |blocks| => |FileOf(blocks[..i], compress)|)
  }

  /** Walking the headers from a position on. */
  function OpenFrom(file: bytes, pos: nat): Read<seq<nat>>
    decreases |file| - pos
  {
    if pos + HEADER_SIZE > |file| then Ok([])
    else match ReadHeader(file[pos..pos + HEADER_SIZE])
      case Failed(e) => Failed(e)
      case Ok(h) => match OpenFrom(file, pos + HEADER_SIZE + h.compressedLen)
        case Failed(e) => Failed(e)
        case Ok(offsets) => Ok([pos] + offsets)
  }

  /** `SstReader::open`. */
  method Open(file: bytes) returns (offsets: Read<seq<nat>>)
    ensures offsets == OpenFrom(file, 0)
  {
    hide ReadHeader;
    var found: seq<nat>, pos := [], 0;
    while pos + HEADER_SIZE <= |file|
      invariant OpenFrom(file, 0).Failed? ==> OpenFrom(file, pos) == OpenFrom(file, 0)
      invariant OpenFrom(file, 0).Ok? ==>
                  OpenFrom(file, pos).Ok? && OpenFrom(file, 0).value == found + OpenFrom(file, pos).value
      decreases |file| - pos
    {
      found := found + [pos];
      match ReadHeader(file[pos..pos + HEADER_SIZE]) {
        case Failed(e) => return Failed(e);
        case Ok(h) => pos := pos + HEADER_SIZE + h.compressedLen;
      }
    }
    assert found + [] == found;
    return Ok(found);
  }

  /** `read_block_inner`. */
  function ReadBlock(file: bytes, offsets: seq<nat>, i: nat, decompress: Decompressor): Read<seq<InternalRecord>> {
    if i >= |offsets| then Failed(BlockNotFound)
    else
      var pos := offsets[i];
      if pos + HEADER_SIZE > |file| then Failed(OutOfBounds)
      else match ReadHeader(file[pos..pos + HEADER_SIZE])
        case Failed(e) => Failed(e)
        case Ok(h) =>
          var start := pos + HEADER_SIZE;
          if start + h.compressedLen > |file| then Failed(Truncated)
          else match decompress(file[start..start + h.compressedLen], h.dataLen)
            case None => Failed(BadCompression)
            case Some(raw) => Ok(DecodeRecords(raw, h.numRecords))
  }

  lemma HeaderAt(before: bytes, b: Block, after: bytes, compress: Compressor)
    requires InRange(b, compress)
    ensures var file, pos := before + BlockBytes(b, compress) + after, |before|;
            && pos + |BlockBytes(b, compress)| <= |file|
            && ReadHeader(file[pos..pos + HEADER_SIZE]) == Ok(HeaderOf(b, compress))
            && file[pos + HEADER_SIZE..pos + |BlockBytes(b, compress)|] == compress(EncodeRecords(b))
            && HeaderOf(b, compress).compressedLen == |compress(EncodeRecords(b))|
            && HeaderOf(b, compress).dataLen == |EncodeRecords(b)| && HeaderOf(b, compress).numRecords == |b|
  {
    hide ReadHeader, HeaderBytes, EncodeRecords, MinTs, MaxTs, MinExpire, MaxExpire;
    var file, pos, head := before + BlockBytes(b, compress) + after, |before|, HeaderBytes(HeaderOf(b, compress));
    assert file[pos..pos + HEADER_SIZE] == head;
    assert file[pos + HEADER_SIZE..pos + |BlockBytes(b, compress)|] == compress(EncodeRecords(b));
    HeaderRoundTrip(HeaderOf(b, compress));
  }

  lemma FileUpTo(blocks: seq<Block>, i: nat, compress: Compressor)
    requires i < |blocks|
    ensures FileOf(blocks[..i + 1], compress) == FileOf(blocks[..i], compress) + BlockBytes(blocks[i], compress)
  {
    hide FileOf, BlockBytes;
    var upTo := blocks[..i + 1];
    FileLast(upTo, compress);
    assert upTo[..|upTo| - 1] == blocks[..i] && upTo[|upTo| - 1] == blocks[i];
  }

  lemma Regroup(a: bytes, b: bytes, c: bytes, d: bytes)
    ensures a + b + c + d == a + b + (c + d)
  {}

  /** The file around its i-th block. */
  lemma {:induction false} FileSplit(blocks: seq<Block>, i: nat, compress: Compressor) returns (after: bytes)
    requires i < |blocks|
    ensures FileOf(blocks, compress) == FileOf(blocks[..i], compress) + BlockBytes(blocks[i], compress) + after
    decreases |blocks|
  {
    hide FileOf, BlockBytes;
    var n := |blocks| - 1;
    FileLast(blocks, compress);
    if i == n {
      after := [];
    } else {
      var front := blocks[..n];
      var rest := FileSplit(front, i, compress);
      assert front[..i] == blocks[..i] && front[i] == blocks[i];
      after := rest + BlockBytes(blocks[n], compress);
      Regroup(FileOf(blocks[..i], compress), BlockBytes(blocks[i], compress), rest, BlockBytes(blocks[n], compress));
    }
  }

  /** Opening a written file recovers where every block starts. */
  lemma {:induction false} OpenRecovers(blocks: seq<Block>, i: nat, compress: Compressor)
    requires i <= |blocks| && forall j :: 0 <= j < |blocks| ==> InRange(blocks[j], compress)
    ensures OpenFrom(FileOf(blocks, compress), |FileOf(blocks[..i], compress)|) == Ok(OffsetsOf(blocks, compress)[i..])
    decreases |blocks| - i
  {
    hide ReadHeader, BlockBytes, HeaderOf, FileOf, InRange;
    var file, offsets := FileOf(blocks, compress), OffsetsOf(blocks, compress);
    if i == |blocks| {
      assert blocks[..i] == blocks;
    } else {
      var after := FileSplit(blocks, i, compress);
      HeaderAt(FileOf(blocks[..i], compress), blocks[i], after, compress);
      BlockLength(blocks[i], compress);
      FileUpTo(blocks, i, compress);
      OpenRecovers(blocks, i + 1, compress);
      assert offsets[i..] == [offsets[i]] + offsets[i + 1..];
    }
  }

  lemma BlockLength(b: Block, compress: Compressor)
    ensures |BlockBytes(b, compress)| == HEADER_SIZE + |compress(EncodeRecords(b))|
  {}

  /** Reading a block of a written file gives its records without sequence numbers. */
  lemma BlockReadsBack(blocks: seq<Block>, i: nat, compress: Compressor, decompress: Decompressor)
    requires i < |blocks| && Inverse(compress, decompress)
    requires forall j :: 0 <= j < |blocks| ==> InRange(blocks[j], compress)
    ensures ReadBlock(FileOf(blocks, compress), OffsetsOf(blocks, compress), i, decompress) == Ok(Unnumbered(blocks[i]))
  {
    hide ReadHeader, BlockBytes, HeaderOf, FileOf, EncodeRecords, DecodeRecords;
    var after := FileSplit(blocks, i, compress);
    HeaderAt(FileOf(blocks[..i], compress), blocks[i], after, compress);
    BlockLength(blocks[i], compress);
    RecordsRoundTrip(blocks[i]);
  }

  /** Every block in turn. */
  function ReadAll(file: bytes, offsets: seq<nat>, n: nat, decompress: Decompressor): Read<seq<InternalRecord>> {
    if n == 0 then Ok([])
    else match ReadAll(file, offsets, n - 1, decompress)
      case Failed(e) => Failed(e)
      case Ok(front) => match ReadBlock(file, offsets, n - 1, decompress)
        case Failed(e) => Failed(e)
        case Ok(recs) => Ok(front + recs)
  }

  lemma {:induction false} AllReadBack(blocks: seq<Block>, n: nat, compress: Compressor, decompress: Decompressor)
    requires n <= |blocks| && Inverse(compress, decompress)
    requires forall j :: 0 <= j < |blocks| ==> InRange(blocks[j], compress)
    ensures ReadAll(FileOf(blocks, compress), OffsetsOf(blocks, compress), n, decompress) ==
            Ok(Unnumbered(Joined(blocks[..n])))
  {
    hide ReadBlock, FileOf, InRange, Inverse;
    if n > 0 {
      AllReadBack(blocks, n - 1, compress, decompress);
      BlockReadsBack(blocks, n - 1, compress, decompress);
      JoinedSnoc(blocks[..n - 1], blocks[n - 1]);
      assert blocks[..n] == blocks[..n - 1] + [blocks[n - 1]];
      assert Unnumbered(Joined(blocks[..n - 1])) + Unnumbered(blocks[n - 1]) == Unnumbered(Joined(blocks[..n]));
    } else {
      assert blocks[..n] == [];
    }
  }

  /** What is written comes back: opening the file finds every block, and reading all blocks
      in order returns the records with their sequence numbers set to zero. */
  lemma FileRoundTrip(records: seq<InternalRecord>, blockSize: nat, compress: Compressor, decompress: Decompressor)
    requires Inverse(compress, decompress)
    requires forall b :: b in Chunks(records, BlockLen(blockSize)) ==> InRange(b, compress)
    ensures var blocks := Chunks(records, BlockLen(blockSize));
            var file, offsets := FileOf(blocks, compress), OffsetsOf(blocks, compress);
            && OpenFrom(file, 0) == Ok(offsets)
            && ReadAll(file, offsets, |offsets|, decompress) == Ok(Unnumbered(records))
  {
    hide Chunks, FileOf, InRange, Inverse, ReadAll, OpenFrom, Joined;
    var blocks := Chunks(records, BlockLen(blockSize));
    assert FileOf(blocks[..0], compress) == [] by { EmptyFile(compress); }
    OpenRecovers(blocks, 0, compress);
    AllReadBack(blocks, |blocks|, compress, decompress);
    assert blocks[..|blocks|] == blocks;
    ChunksJoin(records, BlockLen(blockSize));
  }
}
