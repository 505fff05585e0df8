/** The chunk store: files are split into chunks, kept in memory and on disk, and put together again. */
module Chunks {
  import opened GoTypes
  import opened Keys
  import opened Merkle

  const CHUNK_SIZE: nat := 0x4_0000

  datatype Chunk = Chunk(fileId: Bytes, index: Int32, data: Bytes, hash: Bytes, size: Int32)

  datatype FileMetadata = FileMetadata(
    fileId: Bytes, fileName: Bytes, totalSize: nat, totalChunks: Int32, chunkHashes: seq<Bytes>, rootHash: Bytes)

  /** What the store holds in memory. */
  datatype Store = Store(files: map<Bytes, FileMetadata>, chunks: map<Bytes, Bytes>)

  /** Which writes to disk succeed, by chunk index. */
  type Persist = Int32 -> bool

  /** What reading a chunk's file gives, for chunks that are not in memory. */
  type Disk = (Bytes, Int32) -> Option<Bytes>

  datatype SplitResult = SplitOk(meta: FileMetadata, chunks: seq<Chunk>) | SplitPersistError | CapacityPanic

  datatype StoreResult = Accepted | HashMismatch | PersistError

  datatype AssembleResult = Assembled(data: Bytes) | UnknownFile | MissingChunk(index: Int32)

  // ---------------------------------------------------------------------------------------------
  // Splitting
  // ---------------------------------------------------------------------------------------------

  /** How many chunks it takes to hold `size` bytes. */
  function ChunksNeeded(size: nat): nat {
    (size + CHUNK_SIZE - 1) / CHUNK_SIZE
  }

  /** How many chunks the store counts, in an int32. */
  function ChunkCount(size: nat): (n: Int32)
    ensures n <= ChunksNeeded(size)
    ensures n == ChunksNeeded(size) <==> ChunksNeeded(size) <= MAX_INT32
  {
    Wrap32(ChunksNeeded(size))
  }

  function ChunkEnd(size: nat, i: nat): nat {
    if (i + 1) * CHUNK_SIZE > size then size else (i + 1) * CHUNK_SIZE
  }

  function ChunkAt(data: Bytes, i: nat): Bytes
    requires i < ChunksNeeded(|data|)
  {
    data[i * CHUNK_SIZE..ChunkEnd(|data|, i)]
  }

  /** `chunks` with the first `n` chunks of `data` stored. */
  function WithChunks(chunks: map<Bytes, Bytes>, fileId: Bytes, data: Bytes, n: nat): map<Bytes, Bytes>
    requires n <= ChunksNeeded(|data|) && n <= MAX_INT32
  {
    if n == 0 then chunks
    else WithChunks(chunks, fileId, data, n - 1)[ChunkStoreKey(fileId, n - 1) := ChunkAt(data, n - 1)]
  }

  function ChunkHashes(h: HashFn, data: Bytes, n: nat): (hashes: seq<Bytes>)
    requires n <= ChunksNeeded(|data|)
    ensures |hashes| == n
  {
    seq(n, i requires 0 <= i < n => h(ChunkAt(data, i)))
  }

  function ChunkList(h: HashFn, fileId: Bytes, data: Bytes, n: nat): (list: seq<Chunk>)
    requires n <= ChunksNeeded(|data|) && n <= MAX_INT32
    ensures |list| == n
  {
    seq(n, i requires 0 <= i < n =>
      Chunk(fileId, i, ChunkAt(data, i), h(ChunkAt(data, i)), Wrap32(|ChunkAt(data, i)|)))
  }

  lemma ListsGrow(h: HashFn, fileId: Bytes, data: Bytes, n: nat)
    requires n < ChunksNeeded(|data|) && n < MAX_INT32
    ensures ChunkHashes(h, data, n + 1) == ChunkHashes(h, data, n) + [h(ChunkAt(data, n))]
    ensures ChunkList(h, fileId, data, n + 1) == ChunkList(h, fileId, data, n)
      + [Chunk(fileId, n, ChunkAt(data, n), h(ChunkAt(data, n)), Wrap32(|ChunkAt(data, n)|))]
  {
  }

  function Metadata(h: HashFn, fileId: Bytes, fileName: Bytes, data: Bytes): FileMetadata
    requires ChunkCount(|data|) >= 0
  {
    var n := ChunkCount(|data|);
    FileMetadata(fileId, fileName, |data|, n, ChunkHashes(h, data, n), Root(h, ChunkHashes(h, data, n)))
  }

  /** How many of the first `n` writes succeed before one fails. */
  function Persisted(persist: Persist, n: nat): (k: nat)
    requires n <= MAX_INT32
    ensures k <= n && (forall i: nat :: i < k ==> persist(i)) && (k < n ==> !persist(k))
  {
    if n == 0 then 0
    else
      var k := Persisted(persist, n - 1);
      if k == n - 1 && persist(n - 1) then n else k
  }

  /** The store after a split, and what the split returned.  A failed write leaves the chunks up to its own. */
  function AfterSplit(
    h: HashFn, st: Store, fileId: Bytes, fileName: Bytes, data: Bytes, persist: Persist): (Store, SplitResult)
  {
    var n := ChunkCount(|data|);
    if n < 0 then (st, CapacityPanic)
    else if Persisted(persist, n) < n then
      (st.(chunks := WithChunks(st.chunks, fileId, data, Persisted(persist, n) + 1)), SplitPersistError)
    else
      var meta := Metadata(h, fileId, fileName, data);
      var st' := Store(st.files[fileId := meta], WithChunks(st.chunks, fileId, data, n));
      (st', SplitOk(meta, ChunkList(h, fileId, data, n)))
  }

  // ---------------------------------------------------------------------------------------------
  // Receiving, reading and assembling
  // ---------------------------------------------------------------------------------------------

  function AfterDownload(
    h: HashFn, st: Store, fileId: Bytes, index: Int32, data: Bytes, expected: Bytes,
    persists: bool): (Store, StoreResult)
  {
    if h(data) != expected then (st, HashMismatch)
    else
      (st.(chunks := st.chunks[ChunkStoreKey(fileId, index) := data]), if persists then Accepted else PersistError)
  }

  predicate Holds(st: Store, fileId: Bytes, index: Int32) {
    ChunkStoreKey(fileId, index) in st.chunks
  }

  function Lookup(st: Store, disk: Disk, fileId: Bytes, index: Int32): Option<Bytes> {
    if Holds(st, fileId, index) then Some(st.chunks[ChunkStoreKey(fileId, index)]) else disk(fileId, index)
  }

  /** The first `n` chunks of a file, one after the other. */
  function Gather(st: Store, disk: Disk, fileId: Bytes, n: nat): AssembleResult
    requires n <= MAX_INT32
  {
    if n == 0 then Assembled([])
    else
      match Gather(st, disk, fileId, n - 1)
      case Assembled(data) =>
        (match Lookup(st, disk, fileId, n - 1)
         case Some(chunk) => Assembled(data + chunk)
         case None => MissingChunk(n - 1))
      case failed => failed
  }

  function Assemble(st: Store, disk: Disk, fileId: Bytes): AssembleResult {
    if fileId !in st.files then UnknownFile
    else
      var n := st.files[fileId].totalChunks;
      Gather(st, disk, fileId, if n < 0 then 0 else n)
  }

  /** What the split loop has stored and listed after `i` chunks. */
  ghost predicate SplitSoFar(
    h: HashFn, before: map<Bytes, Bytes>, fileId: Bytes, data: Bytes, chunks: map<Bytes, Bytes>, list: seq<Chunk>,
    hashes: seq<Bytes>, i: nat)
  {
    && i <= ChunksNeeded(|data|) && i <= MAX_INT32
    && chunks == WithChunks(before, fileId, data, i)
    && list == ChunkList(h, fileId, data, i) && hashes == ChunkHashes(h, data, i)
  }

  lemma SplitOneMore(
    h: HashFn, before: map<Bytes, Bytes>, fileId: Bytes, data: Bytes, chunks: map<Bytes, Bytes>, list: seq<Chunk>,
    hashes: seq<Bytes>, i: nat)
    requires SplitSoFar(h, before, fileId, data, chunks, list, hashes, i)
    requires i < ChunksNeeded(|data|) && i < MAX_INT32
    ensures var c := ChunkAt(data, i);
      SplitSoFar(h, before, fileId, data, chunks[ChunkStoreKey(fileId, i) := c],
                 list + [Chunk(fileId, i, c, h(c), Wrap32(|c|))], hashes + [h(c)], i + 1)
  {
    ListsGrow(h, fileId, data, i);
  }

  /** A failed write leaves the store of a split as far as its own chunk. */
  lemma SplitStops(
    h: HashFn, st: Store, fileId: Bytes, fileName: Bytes, data: Bytes, persist: Persist, chunks: map<Bytes, Bytes>,
    list: seq<Chunk>, hashes: seq<Bytes>, i: nat)
    requires i < ChunkCount(|data|) && i <= Persisted(persist, ChunkCount(|data|)) && !persist(i)
    requires SplitSoFar(h, st.chunks, fileId, data, chunks, list, hashes, i + 1)
    ensures AfterSplit(h, st, fileId, fileName, data, persist) == (Store(st.files, chunks), SplitPersistError)
  {
  }

  /** After the last chunk the split has its result. */
  lemma SplitEnds(
    h: HashFn, st: Store, fileId: Bytes, fileName: Bytes, data: Bytes, persist: Persist, chunks: map<Bytes, Bytes>,
    list: seq<Chunk>, hashes: seq<Bytes>)
    requires var n := ChunkCount(|data|);
      0 <= n == Persisted(persist, n) && SplitSoFar(h, st.chunks, fileId, data, chunks, list, hashes, n)
    ensures var meta := FileMetadata(fileId, fileName, |data|, ChunkCount(|data|), hashes, Root(h, hashes));
      AfterSplit(h, st, fileId, fileName, data, persist) ==
      (Store(st.files[fileId := meta], chunks), SplitOk(meta, list))
  {
  }

  class ChunkStore {
    const h: HashFn
    var files: map<Bytes, FileMetadata>
    var chunks: map<Bytes, Bytes>

    function View(): Store
      reads this
    {
      Store(files, chunks)
    }

    constructor (h: HashFn)
      ensures View() == Store(map[], map[]) && this.h == h
    {
      this.h := h;
      files, chunks := map[], map[];
    }

    method SplitFile(fileId: Bytes, fileName: Bytes, data: Bytes, persist: Persist) returns (r: SplitResult)
      modifies this
      ensures (View(), r) == AfterSplit(h, old(View()), fileId, fileName, data, persist)
    {
      var totalSize := |data|;
      var numChunks := ChunkCount(totalSize);
      if numChunks < 0 {
        return CapacityPanic;
      }
      var list: seq<Chunk>, hashes: seq<Bytes> := [], [];
      ghost var before := chunks;
      var i: nat := 0;
      while i < numChunks
        invariant i <= Persisted(persist, numChunks) && files == old(files)
        invariant SplitSoFar(h, before, fileId, data, chunks, list, hashes, i)
      {
        var chunkData := data[i * CHUNK_SIZE..ChunkEnd(totalSize, i)];
        var hash := h(chunkData);
        SplitOneMore(h, before, fileId, data, chunks, list, hashes, i);
        list := list + [Chunk(fileId, i, chunkData, hash, Wrap32(|chunkData|))];
        hashes := hashes + [hash];
        chunks := chunks[ChunkStoreKey(fileId, i) := chunkData];
        if !persist(i) {
          SplitStops(h, old(View()), fileId, fileName, data, persist, chunks, list, hashes, i);
          return SplitPersistError;
        }
        i := i + 1;
      }
      SplitEnds(h, old(View()), fileId, fileName, data, persist, chunks, list, hashes);
      var rootHash := RootHash(h, hashes);
      var metadata := FileMetadata(fileId, fileName, totalSize, numChunks, hashes, rootHash);
      files := files[fileId := metadata];
      return SplitOk(metadata, list);
    }

    method HasChunk(fileId: Bytes, index: Int32) returns (has: bool)
      ensures has <==> Holds(View(), fileId, index)
    {
      has := ChunkStoreKey(fileId, index) in chunks;
    }

    method GetChunk(fileId: Bytes, index: Int32, disk: Disk) returns (data: Option<Bytes>)
      ensures data == Lookup(View(), disk, fileId, index)
    {
      var key := ChunkStoreKey(fileId, index);
      if key in chunks {
        return Some(chunks[key]);
      }
      data := disk(fileId, index);
    }

    method StoreDownloadedChunk(fileId: Bytes, index: Int32, data: Bytes, expectedHash: Bytes, persists: bool)
      returns (r: StoreResult)
      modifies this
      ensures (View(), r) == AfterDownload(h, old(View()), fileId, index, data, expectedHash, persists)
    {
      if h(data) != expectedHash {
        return HashMismatch;
      }
      chunks := chunks[ChunkStoreKey(fileId, index) := data];
      r := if persists then Accepted else PersistError;
    }

    method AssembleFile(fileId: Bytes, disk: Disk) returns (r: AssembleResult)
      ensures r == Assemble(View(), disk, fileId)
    {
      if fileId !in files {
        return UnknownFile;
      }
      var meta := files[fileId];
      var result: Bytes := [];
      var i: nat := 0;
      while i < meta.totalChunks
        invariant i == 0 || i <= meta.totalChunks
        invariant Gather(View(), disk, fileId, i) == Assembled(result)
      {
        var chunkData := GetChunk(fileId, i, disk);
        if chunkData.None? {
          GatherFails(View(), disk, fileId, i + 1, meta.totalChunks);
          return MissingChunk(i);
        }
        result := result + chunkData.value;
        i := i + 1;
      }
      return Assembled(result);
    }
  }

  lemma {:induction false} GatherFails(st: Store, disk: Disk, fileId: Bytes, i: nat, n: nat)
    requires i <= n <= MAX_INT32 && !Gather(st, disk, fileId, i).Assembled?
    ensures Gather(st, disk, fileId, n) == Gather(st, disk, fileId, i)
  {
    if i < n {
      GatherFails(st, disk, fileId, i, n - 1);
    }
  }
}
