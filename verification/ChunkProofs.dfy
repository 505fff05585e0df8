/** What splitting, receiving and assembling guarantee together. */
module ChunkProofs {
  import opened GoTypes
  import opened Keys
  import opened Merkle
  import opened Chunks

  // ---------------------------------------------------------------------------------------------
  // Geometry of a split
  // ---------------------------------------------------------------------------------------------

  /** All chunks but the last are full, the last is not empty, and chunk `i` starts where chunk `i - 1` ends. */
  lemma ChunkBounds(data: Bytes, i: nat)
    requires i < ChunksNeeded(|data|)
    ensures 0 < |ChunkAt(data, i)| <= CHUNK_SIZE && ChunkEnd(|data|, i) <= |data|
    ensures i + 1 < ChunksNeeded(|data|) ==>
      |ChunkAt(data, i)| == CHUNK_SIZE && ChunkEnd(|data|, i) == (i + 1) * CHUNK_SIZE
    ensures i + 1 == ChunksNeeded(|data|) ==> ChunkEnd(|data|, i) == |data|
  {
  }

  /** A chunk holds 256 KiB: so much fits one chunk, and one byte more needs a second. */
  lemma ChunkSizes()
    ensures ChunkCount(0) == 0 && ChunkCount(1) == 1 && ChunkCount(256 * 1024) == 1 && ChunkCount(256 * 1024 + 1) == 2
  {
  }

  /** The data up to the end of chunk `n - 1`. */
  function Prefix(data: Bytes, n: nat): Bytes
    requires n <= ChunksNeeded(|data|)
  {
    if n == 0 then [] else data[..ChunkEnd(|data|, n - 1)]
  }

  lemma PrefixGrows(data: Bytes, n: nat)
    requires 0 < n <= ChunksNeeded(|data|)
    ensures Prefix(data, n - 1) + ChunkAt(data, n - 1) == Prefix(data, n)
  {
    ChunkBounds(data, n - 1);
    if n > 1 {
      ChunkBounds(data, n - 2);
    }
  }

  function TotalSizes(chunks: seq<Chunk>): int {
    if chunks == [] then 0 else TotalSizes(chunks[..|chunks| - 1]) + chunks[|chunks| - 1].size
  }

  /** The recorded sizes of the chunks listed so far add up to where the last of them ends. */
  lemma {:induction false} SizesAddUp(h: HashFn, fileId: Bytes, data: Bytes, n: nat)
    requires n <= ChunksNeeded(|data|) && n <= MAX_INT32
    ensures TotalSizes(ChunkList(h, fileId, data, n)) == |Prefix(data, n)|
  {
    if n > 0 {
      var list, last := ChunkList(h, fileId, data, n - 1), ChunkAt(data, n - 1);
      SizesAddUp(h, fileId, data, n - 1);
      ListsGrow(h, fileId, data, n - 1);
      TotalSizesGrow(list, Chunk(fileId, n - 1, last, h(last), Wrap32(|last|)));
      PrefixGrows(data, n);
      ChunkBounds(data, n - 1);
    }
  }

  lemma TotalSizesGrow(list: seq<Chunk>, last: Chunk)
    ensures TotalSizes(list + [last]) == TotalSizes(list) + last.size
  {
    assert (list + [last])[..|list|] == list;
  }

  /** The whole of a file is covered exactly when its chunk count fits an int32. */
  lemma PrefixIsAll(data: Bytes)
    requires ChunkCount(|data|) >= 0
    ensures Prefix(data, ChunkCount(|data|)) == data <==> ChunksNeeded(|data|) <= MAX_INT32
  {
    var n := ChunkCount(|data|);
    if n < ChunksNeeded(|data|) {
      if n > 0 {
        ChunkBounds(data, n - 1);
      }
      assert |Prefix(data, n)| < |data|;
    } else if n > 0 {
      ChunkBounds(data, n - 1);
    }
  }

  /** The chunk belongs at position `i` of the file: its number, its own size, its digest as listed. */
  ghost predicate IsListed(h: HashFn, c: Chunk, meta: FileMetadata, data: Bytes, i: nat) {
    && c.fileId == meta.fileId && c.index == i && c.size == |c.data|
    && i < ChunksNeeded(|data|) && c.data == ChunkAt(data, i)
    && i < |meta.chunkHashes| && c.hash == meta.chunkHashes[i] == h(c.data)
  }

  lemma ChunkIsListed(h: HashFn, fileId: Bytes, fileName: Bytes, data: Bytes, i: nat)
    requires i < ChunkCount(|data|)
    ensures IsListed(h, ChunkList(h, fileId, data, ChunkCount(|data|))[i], Metadata(h, fileId, fileName, data), data, i)
  {
    ChunkBounds(data, i);
  }

  /**
   * What a successful split returns: as many chunks as the int32 count says, in order, with their sizes,
   * digests and root; the sizes add up to where the last one ends, which is the file's if the count fits.
   */
  lemma SplitReturns(h: HashFn, st: Store, fileId: Bytes, fileName: Bytes, data: Bytes, persist: Persist)
    requires AfterSplit(h, st, fileId, fileName, data, persist).1.SplitOk?
    ensures var r := AfterSplit(h, st, fileId, fileName, data, persist).1;
      && r.meta.totalSize == |data| && TotalSizes(r.chunks) == |Prefix(data, |r.chunks|)|
      && r.meta.totalChunks == |r.chunks| == |r.meta.chunkHashes| == ChunkCount(|data|)
      && r.meta.fileId == fileId && r.meta.fileName == fileName && r.meta.rootHash == Root(h, r.meta.chunkHashes)
      && (forall i :: 0 <= i < |r.chunks| ==> IsListed(h, r.chunks[i], r.meta, data, i))
      && (ChunksNeeded(|data|) <= MAX_INT32 ==>
            TotalSizes(r.chunks) == |data| && |r.chunks| == ChunksNeeded(|data|))
  {
    var n := ChunkCount(|data|);
    SizesAddUp(h, fileId, data, n);
    PrefixIsAll(data);
    forall i: nat | i < n
      ensures IsListed(h, ChunkList(h, fileId, data, n)[i], Metadata(h, fileId, fileName, data), data, i)
    {
      ChunkIsListed(h, fileId, fileName, data, i);
    }
  }

  // ---------------------------------------------------------------------------------------------
  // Round trip
  // ---------------------------------------------------------------------------------------------

  lemma {:induction false} ChunksStored(
    chunks: map<Bytes, Bytes>, fileId: Bytes, data: Bytes, n: nat, f: Bytes, i: Int32)
    requires n <= ChunksNeeded(|data|) && n <= MAX_INT32
    ensures var stored, key := WithChunks(chunks, fileId, data, n), ChunkStoreKey(f, i);
      if f == fileId && 0 <= i < n then key in stored && stored[key] == ChunkAt(data, i)
      else (key in stored <==> key in chunks) && (key in chunks ==> stored[key] == chunks[key])
  {
    if n > 0 {
      ChunksStored(chunks, fileId, data, n - 1, f, i);
      ChunkStoreKeyInjective(f, i, fileId, n - 1);
    }
  }

  /** Chunk `i` of the file is in memory as it was in `data`. */
  ghost predicate Intact(st: Store, fileId: Bytes, data: Bytes, i: nat)
    requires i < ChunksNeeded(|data|) && i <= MAX_INT32
  {
    var key := ChunkStoreKey(fileId, i);
    key in st.chunks && st.chunks[key] == ChunkAt(data, i)
  }

  /** Chunk `i` is found, in memory or on disk, as it is in `data`. */
  ghost predicate Found(st: Store, disk: Disk, fileId: Bytes, data: Bytes, i: nat)
    requires i < ChunksNeeded(|data|) && i <= MAX_INT32
  {
    Lookup(st, disk, fileId, i) == Some(ChunkAt(data, i))
  }

  lemma {:induction false} GatherFound(st: Store, disk: Disk, fileId: Bytes, data: Bytes, n: nat)
    requires n <= ChunksNeeded(|data|) && n <= MAX_INT32
    requires forall i: nat :: i < n ==> Found(st, disk, fileId, data, i)
    ensures Gather(st, disk, fileId, n) == Assembled(Prefix(data, n))
  {
    if n > 0 {
      GatherFound(st, disk, fileId, data, n - 1);
      assert Found(st, disk, fileId, data, n - 1);
      PrefixGrows(data, n);
    }
  }

  lemma GatherIntact(st: Store, disk: Disk, fileId: Bytes, data: Bytes, n: nat)
    requires n <= ChunksNeeded(|data|) && n <= MAX_INT32
    requires forall i: nat :: i < n ==> Intact(st, fileId, data, i)
    ensures Gather(st, disk, fileId, n) == Assembled(Prefix(data, n))
  {
    forall i: nat | i < n
      ensures Found(st, disk, fileId, data, i)
    {
      assert Intact(st, fileId, data, i);
    }
    GatherFound(st, disk, fileId, data, n);
  }

  /**
   * A file that was split is assembled as it was, whatever the store held before under the same ID
   * or any other, exactly when its chunk count fits an int32.
   */
  lemma SplitThenAssemble(
    h: HashFn, st: Store, fileId: Bytes, fileName: Bytes, data: Bytes, persist: Persist, disk: Disk)
    requires AfterSplit(h, st, fileId, fileName, data, persist).1.SplitOk?
    ensures Assemble(AfterSplit(h, st, fileId, fileName, data, persist).0, disk, fileId) == Assembled(data)
      <==> ChunksNeeded(|data|) <= MAX_INT32
  {
    var st' := AfterSplit(h, st, fileId, fileName, data, persist).0;
    var n := ChunkCount(|data|);
    forall i: nat | i < n
      ensures Intact(st', fileId, data, i)
    {
      ChunksStored(st.chunks, fileId, data, n, fileId, i);
    }
    GatherIntact(st', disk, fileId, data, n);
    PrefixIsAll(data);
  }

  // ---------------------------------------------------------------------------------------------
  // Which files are assembled
  // ---------------------------------------------------------------------------------------------

  /** Every one of the first `n` chunks is found. */
  ghost predicate AllFound(st: Store, disk: Disk, fileId: Bytes, n: nat) {
    forall i: Int32 :: 0 <= i < n ==> Lookup(st, disk, fileId, i).Some?
  }

  /** Chunk `i` is the first that is not found. */
  ghost predicate FirstLost(st: Store, disk: Disk, fileId: Bytes, n: nat, i: Int32) {
    0 <= i < n && Lookup(st, disk, fileId, i).None? && AllFound(st, disk, fileId, i)
  }

  lemma {:induction false} GatherEnds(st: Store, disk: Disk, fileId: Bytes, n: nat)
    requires n <= MAX_INT32
    ensures Gather(st, disk, fileId, n).Assembled? <==> AllFound(st, disk, fileId, n)
    ensures forall i :: Gather(st, disk, fileId, n) == MissingChunk(i) <==> FirstLost(st, disk, fileId, n, i)
    ensures !Gather(st, disk, fileId, n).UnknownFile?
  {
    if n > 0 {
      GatherEnds(st, disk, fileId, n - 1);
    }
  }

  /** How many chunks are read of a file that the store knows. */
  function ChunksRead(st: Store, fileId: Bytes): nat
    requires fileId in st.files
  {
    if st.files[fileId].totalChunks < 0 then 0 else st.files[fileId].totalChunks
  }

  /**
   * A file is unknown exactly if there is no metadata of it, whatever chunks there are; a known one is
   * assembled exactly if each of its chunks is found, and else the first that is not is reported.
   */
  lemma AssembleEnds(st: Store, disk: Disk, fileId: Bytes)
    ensures Assemble(st, disk, fileId).UnknownFile? <==> fileId !in st.files
    ensures Assemble(st, disk, fileId).Assembled? <==>
      fileId in st.files && AllFound(st, disk, fileId, ChunksRead(st, fileId))
    ensures forall i :: Assemble(st, disk, fileId) == MissingChunk(i) <==>
      fileId in st.files && FirstLost(st, disk, fileId, ChunksRead(st, fileId), i)
  {
    if fileId in st.files {
      GatherEnds(st, disk, fileId, ChunksRead(st, fileId));
    }
  }

  /** Every chunk of the file is on disk as it was written. */
  ghost predicate AllOnDisk(disk: Disk, fileId: Bytes, data: Bytes) {
    forall i: Int32 :: 0 <= i < ChunksNeeded(|data|) ==> disk(fileId, i) == Some(ChunkAt(data, i))
  }

  /**
   * Chunks on disk are found by a store that has lost its memory, all or part of it; but the file is
   * put together only while its metadata, which is nowhere else, is in memory.
   */
  lemma DiskIsEnough(st: Store, disk: Disk, fileId: Bytes, data: Bytes, i: nat)
    requires i < ChunksNeeded(|data|) <= MAX_INT32 && AllOnDisk(disk, fileId, data)
    requires forall i: nat :: i < ChunksNeeded(|data|) && Holds(st, fileId, i) ==> Intact(st, fileId, data, i)
    ensures Lookup(st, disk, fileId, i) == Lookup(Store(map[], map[]), disk, fileId, i) == Some(ChunkAt(data, i))
    ensures fileId !in st.files ==> Assemble(st, disk, fileId) == UnknownFile
    ensures fileId in st.files && st.files[fileId].totalChunks == ChunksNeeded(|data|) ==>
      Assemble(st, disk, fileId) == Assembled(data)
  {
    forall i: nat | i < ChunksNeeded(|data|)
      ensures Found(st, disk, fileId, data, i)
    {
      if Holds(st, fileId, i) {
        assert Intact(st, fileId, data, i);
      }
    }
    assert Found(st, disk, fileId, data, i);
    GatherFound(st, disk, fileId, data, ChunksNeeded(|data|));
    PrefixIsAll(data);
  }

  // ---------------------------------------------------------------------------------------------
  // Receiving one chunk
  // ---------------------------------------------------------------------------------------------

  /**
   * Data is refused exactly if its digest is not the expected one, and then nothing changes; else it
   * is in the store, even if writing it fails, which is the only other error.  No other chunk is touched.
   */
  lemma DownloadVerdict(
    h: HashFn, st: Store, disk: Disk, fileId: Bytes, index: Int32, data: Bytes, expected: Bytes, persists: bool,
    f: Bytes, i: Int32)
    ensures var (st', r) := AfterDownload(h, st, fileId, index, data, expected, persists);
      && (r.HashMismatch? <==> h(data) != expected) && (r.HashMismatch? ==> st' == st)
      && (r.PersistError? <==> h(data) == expected && !persists)
      && (r.Accepted? <==> h(data) == expected && persists)
      && (!r.HashMismatch? ==> Lookup(st', disk, fileId, index) == Some(data))
      && ((f, i) != (fileId, index) ==> Lookup(st', disk, f, i) == Lookup(st, disk, f, i))
      && st'.files == st.files
  {
    ChunkStoreKeyInjective(f, i, fileId, index);
  }

  // ---------------------------------------------------------------------------------------------
  // Integrity over whole runs
  // ---------------------------------------------------------------------------------------------

  datatype StoreOp =
    | DoSplit(fileId: Bytes, fileName: Bytes, data: Bytes, persist: Persist)
    | DoDownload(fileId: Bytes, index: Int32, data: Bytes, expectedHash: Bytes, persists: bool)

  function Apply(h: HashFn, st: Store, op: StoreOp): Store {
    match op
    case DoSplit(fileId, fileName, data, persist) => AfterSplit(h, st, fileId, fileName, data, persist).0
    case DoDownload(fileId, index, data, expected, persists) =>
        AfterDownload(h, st, fileId, index, data, expected, persists).0
  }

  function ApplyAll(h: HashFn, st: Store, ops: seq<StoreOp>): Store {
    if ops == [] then st else Apply(h, ApplyAll(h, st, ops[..|ops| - 1]), ops[|ops| - 1])
  }

  /** The operation does not split the file again, and checks its chunks against the file's own digests. */
  predicate Respects(op: StoreOp, meta: FileMetadata) {
    match op
    case DoSplit(fileId, _, _, _) => fileId != meta.fileId
    case DoDownload(fileId, index, _, expected, _) =>
      fileId == meta.fileId && 0 <= index < |meta.chunkHashes| ==> expected == meta.chunkHashes[index]
  }

  /** What is stored as chunk `i` has the digest of the original chunk. */
  ghost predicate Vouched(h: HashFn, st: Store, fileId: Bytes, data: Bytes, i: nat)
    requires i < ChunksNeeded(|data|) && i <= MAX_INT32
  {
    var key := ChunkStoreKey(fileId, i);
    key in st.chunks && h(st.chunks[key]) == h(ChunkAt(data, i))
  }

  ghost predicate FileVouched(h: HashFn, st: Store, meta: FileMetadata, data: Bytes) {
    && ChunksNeeded(|data|) <= MAX_INT32
    && meta.totalChunks == ChunksNeeded(|data|) && meta.chunkHashes == ChunkHashes(h, data, ChunksNeeded(|data|))
    && meta.fileId in st.files && st.files[meta.fileId] == meta
    && forall i: nat :: i < ChunksNeeded(|data|) ==> Vouched(h, st, meta.fileId, data, i)
  }

  lemma DownloadKeepsChunk(h: HashFn, st: Store, op: StoreOp, meta: FileMetadata, data: Bytes, i: nat)
    requires FileVouched(h, st, meta, data) && op.DoDownload? && Respects(op, meta) && i < ChunksNeeded(|data|)
    ensures Vouched(h, Apply(h, st, op), meta.fileId, data, i)
  {
    assert Vouched(h, st, meta.fileId, data, i);
    ChunkStoreKeyInjective(op.fileId, op.index, meta.fileId, i);
  }

  lemma SplitKeepsChunk(h: HashFn, st: Store, op: StoreOp, meta: FileMetadata, data: Bytes, i: nat)
    requires FileVouched(h, st, meta, data) && op.DoSplit? && Respects(op, meta) && i < ChunksNeeded(|data|)
    ensures Vouched(h, Apply(h, st, op), meta.fileId, data, i)
  {
    assert Vouched(h, st, meta.fileId, data, i);
    var n := ChunkCount(|op.data|);
    if n >= 0 {
      var k := Persisted(op.persist, n);
      ChunksStored(st.chunks, op.fileId, op.data, if k < n then k + 1 else n, meta.fileId, i);
    }
  }

  lemma StepVouched(h: HashFn, st: Store, op: StoreOp, meta: FileMetadata, data: Bytes)
    requires FileVouched(h, st, meta, data) && Respects(op, meta)
    ensures FileVouched(h, Apply(h, st, op), meta, data)
  {
    forall i: nat | i < ChunksNeeded(|data|)
      ensures Vouched(h, Apply(h, st, op), meta.fileId, data, i)
    {
      if op.DoSplit? {
        SplitKeepsChunk(h, st, op, meta, data, i);
      } else {
        DownloadKeepsChunk(h, st, op, meta, data, i);
      }
    }
  }

  lemma {:induction false} RunVouched(h: HashFn, st: Store, ops: seq<StoreOp>, meta: FileMetadata, data: Bytes)
    requires FileVouched(h, st, meta, data)
    requires forall op :: op in ops ==> Respects(op, meta)
    ensures FileVouched(h, ApplyAll(h, st, ops), meta, data)
  {
    if ops != [] {
      RunVouched(h, st, ops[..|ops| - 1], meta, data);
      StepVouched(h, ApplyAll(h, st, ops[..|ops| - 1]), ops[|ops| - 1], meta, data);
    }
  }

  lemma SplitVouches(h: HashFn, st: Store, fileId: Bytes, fileName: Bytes, data: Bytes, persist: Persist)
    requires AfterSplit(h, st, fileId, fileName, data, persist).1.SplitOk? && ChunksNeeded(|data|) <= MAX_INT32
    ensures var st' := AfterSplit(h, st, fileId, fileName, data, persist).0;
      FileVouched(h, st', Metadata(h, fileId, fileName, data), data)
  {
    var n := ChunkCount(|data|);
    forall i: nat | i < n
      ensures Vouched(h, AfterSplit(h, st, fileId, fileName, data, persist).0, fileId, data, i)
    {
      ChunksStored(st.chunks, fileId, data, n, fileId, i);
    }
  }

  /** Stored chunk `i` differs from the original and has its digest: a collision. */
  ghost predicate Forged(h: HashFn, st: Store, fileId: Bytes, data: Bytes, i: nat) {
    && i < ChunksNeeded(|data|) && i <= MAX_INT32
    && Vouched(h, st, fileId, data, i) && !Intact(st, fileId, data, i)
  }

  /** Chunks with the right digests are the right chunks, or one of them is forged. */
  lemma VouchedGathers(h: HashFn, st: Store, disk: Disk, fileId: Bytes, data: Bytes)
    requires ChunksNeeded(|data|) <= MAX_INT32
    requires forall i: nat :: i < ChunksNeeded(|data|) ==> Vouched(h, st, fileId, data, i)
    ensures
      || Gather(st, disk, fileId, ChunksNeeded(|data|)) == Assembled(data)
      || exists i :: Forged(h, st, fileId, data, i)
  {
    var n := ChunksNeeded(|data|);
    if forall i: nat :: i < n ==> Intact(st, fileId, data, i) {
      GatherIntact(st, disk, fileId, data, n);
      PrefixIsAll(data);
    } else {
      var i: nat :| i < n && !Intact(st, fileId, data, i);
      assert Forged(h, st, fileId, data, i);
    }
  }

  /**
   * After a split, however other files come and go and whoever sends chunks of this one, assembling
   * gives the original bytes, or some stored chunk is a second input with an original chunk's digest.
   */
  lemma StoreIntegrity(
    h: HashFn, st: Store, fileId: Bytes, fileName: Bytes, data: Bytes, persist: Persist, ops: seq<StoreOp>,
    disk: Disk)
    requires AfterSplit(h, st, fileId, fileName, data, persist).1.SplitOk? && ChunksNeeded(|data|) <= MAX_INT32
    requires forall op :: op in ops ==> Respects(op, Metadata(h, fileId, fileName, data))
    ensures var st' := ApplyAll(h, AfterSplit(h, st, fileId, fileName, data, persist).0, ops);
      Assemble(st', disk, fileId) == Assembled(data) || exists i :: Forged(h, st', fileId, data, i)
  {
    var st1, meta := AfterSplit(h, st, fileId, fileName, data, persist).0, Metadata(h, fileId, fileName, data);
    SplitVouches(h, st, fileId, fileName, data, persist);
    RunVouched(h, st1, ops, meta, data);
    VouchedGathers(h, ApplyAll(h, st1, ops), disk, fileId, data);
  }

  // ---------------------------------------------------------------------------------------------
  // Assembling while other operations go on
  // ---------------------------------------------------------------------------------------------

  /** The states in which the locked sections of one `AssembleFile` run: the metadata, then each chunk. */
  type Snapshots = nat -> Store

  /** Between two reads only operations that respect the file take place. */
  ghost predicate Respected(h: HashFn, views: Snapshots, meta: FileMetadata, i: nat) {
    exists ops :: (forall op :: op in ops ==> Respects(op, meta)) && views(i + 1) == ApplyAll(h, views(i), ops)
  }

  /** The first `n` chunks, chunk `i` as it was at read `i + 1`. */
  function GatherTorn(views: Snapshots, disk: Disk, fileId: Bytes, n: nat): AssembleResult
    requires n <= MAX_INT32
  {
    if n == 0 then Assembled([])
    else
      match GatherTorn(views, disk, fileId, n - 1)
      case Assembled(data) =>
        (match Lookup(views(n), disk, fileId, n - 1)
         case Some(chunk) => Assembled(data + chunk)
         case None => MissingChunk(n - 1))
      case failed => failed
  }

  function AssembleTorn(views: Snapshots, disk: Disk, fileId: Bytes): AssembleResult {
    if fileId !in views(0).files then UnknownFile
    else
      var n := views(0).files[fileId].totalChunks;
      GatherTorn(views, disk, fileId, if n < 0 then 0 else n)
  }

  lemma {:induction false} ReadsVouched(h: HashFn, views: Snapshots, meta: FileMetadata, data: Bytes, i: nat)
    requires FileVouched(h, views(0), meta, data) && forall j: nat :: Respected(h, views, meta, j)
    ensures FileVouched(h, views(i), meta, data)
  {
    if i > 0 {
      ReadsVouched(h, views, meta, data, i - 1);
      assert Respected(h, views, meta, i - 1);
      var ops :| (forall op :: op in ops ==> Respects(op, meta)) && views(i) == ApplyAll(h, views(i - 1), ops);
      RunVouched(h, views(i - 1), ops, meta, data);
    }
  }

  /** Chunk `i` was intact, or forged, when it was read. */
  ghost predicate ReadIntact(views: Snapshots, fileId: Bytes, data: Bytes, i: nat)
    requires i < ChunksNeeded(|data|) && i <= MAX_INT32
  {
    Intact(views(i + 1), fileId, data, i)
  }

  ghost predicate ReadForged(h: HashFn, views: Snapshots, fileId: Bytes, data: Bytes, i: nat) {
    Forged(h, views(i + 1), fileId, data, i)
  }

  lemma {:induction false} GatherTornIntact(views: Snapshots, disk: Disk, fileId: Bytes, data: Bytes, n: nat)
    requires n <= ChunksNeeded(|data|) && n <= MAX_INT32
    requires forall i: nat :: i < n ==> ReadIntact(views, fileId, data, i)
    ensures GatherTorn(views, disk, fileId, n) == Assembled(Prefix(data, n))
  {
    if n > 0 {
      GatherTornIntact(views, disk, fileId, data, n - 1);
      assert ReadIntact(views, fileId, data, n - 1);
      PrefixGrows(data, n);
    }
  }

  /**
   * Torn reads are harmless too: assembling a split file while respecting operations go on between
   * its reads gives the original bytes, or a chunk was forged when it was read.
   */
  lemma TornAssembly(h: HashFn, views: Snapshots, disk: Disk, meta: FileMetadata, data: Bytes)
    requires FileVouched(h, views(0), meta, data) && forall i: nat :: Respected(h, views, meta, i)
    ensures AssembleTorn(views, disk, meta.fileId) == Assembled(data)
      || exists i: nat :: ReadForged(h, views, meta.fileId, data, i)
  {
    var n := ChunksNeeded(|data|);
    if forall i: nat :: i < n ==> ReadIntact(views, meta.fileId, data, i) {
      GatherTornIntact(views, disk, meta.fileId, data, n);
      PrefixIsAll(data);
    } else {
      var i: nat :| i < n && !ReadIntact(views, meta.fileId, data, i);
      ReadsVouched(h, views, meta, data, i + 1);
      assert Vouched(h, views(i + 1), meta.fileId, data, i);
      assert ReadForged(h, views, meta.fileId, data, i);
    }
  }

  lemma ChunkHashesAreDigests(h: HashFn, data: Bytes, n: nat)
    requires HexDigests(h) && n <= ChunksNeeded(|data|)
    ensures AllDigests(ChunkHashes(h, data, n))
  {
    assert forall i :: 0 <= i < n ==> ChunkHashes(h, data, n)[i] == h(ChunkAt(data, i));
  }
}
