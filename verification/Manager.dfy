/** The storage manager: a chunk store with a Bloom filter as its index. */
module Manager {
  import opened GoTypes
  import opened Keys
  import opened Merkle
  import opened Chunks
  import opened Bloom
  import opened BloomProofs

  /** How much of the root hash the upload log line slices off. */
  const LOGGED_PREFIX: nat := 16

  datatype UploadResult = Uploaded(meta: FileMetadata) | UploadFailed | UploadPanics

  /** A peer's storage: the chunks it holds and the bits its filter has set. */
  datatype Peer = Peer(store: Store, bits: set<nat>)

  /** The bits after adding the keys of the first `n` chunks of a file. */
  function WithKeys(c: Config, bits: set<nat>, fileId: Bytes, n: nat): set<nat>
    requires c.Valid() && n <= MAX_INT32
  {
    if n == 0 then bits
    else WithKeys(c, bits, fileId, n - 1) + Positions(c.hs, c.m, c.k, BloomKey(fileId, n - 1))
  }

  /**
   * Nothing is indexed unless every chunk was written.  Logging the upload slices the root hash,
   * which panics when that is too short: for the empty file, whose root hash is empty.
   */
  function AfterUpload(
    h: HashFn, c: Config, p: Peer, fileId: Bytes, fileName: Bytes, data: Bytes,
    persist: Persist): (Peer, UploadResult)
    requires c.Valid()
  {
    var (store', r) := AfterSplit(h, p.store, fileId, fileName, data, persist);
    match r
    case SplitPersistError => (p.(store := store'), UploadFailed)
    case CapacityPanic => (p.(store := store'), UploadPanics)
    case SplitOk(meta, chunks) =>
      (Peer(store', WithKeys(c, p.bits, fileId, |chunks|)),
       if |meta.rootHash| < LOGGED_PREFIX then UploadPanics else Uploaded(meta))
  }

  function AfterReceive(
    h: HashFn, c: Config, p: Peer, fileId: Bytes, index: Int32, data: Bytes, expected: Bytes,
    persists: bool): (Peer, StoreResult)
    requires c.Valid()
  {
    var (store', r) := AfterDownload(h, p.store, fileId, index, data, expected, persists);
    (Peer(store', if r.Accepted? then p.bits + Positions(c.hs, c.m, c.k, BloomKey(fileId, index)) else p.bits), r)
  }

  /** What the filter says about a chunk. */
  predicate MightHold(c: Config, p: Peer, fileId: Bytes, index: Int32)
    requires c.Valid()
  {
    Positions(c.hs, c.m, c.k, BloomKey(fileId, index)) <= p.bits
  }

  class StorageManager {
    const store: ChunkStore
    const bloom: BloomFilter

    ghost predicate Valid() {
      bloom.Valid()
    }

    ghost function Setup(): (c: Config)
      requires Valid()
      ensures c.Valid()
    {
      Config(bloom.hs, bloom.Size(), bloom.numHashes)
    }

    ghost function View(): Peer
      requires Valid()
      reads store, bloom.bitArray
    {
      Peer(store.View(), bloom.Bits())
    }

    constructor (h: HashFn, hs: Hashes, numBits: int, numHashes: int)
      requires 0 < numBits < TWO_32
      ensures Valid() && View() == Peer(Store(map[], map[]), {}) && store.h == h
      ensures Setup() == Config(hs, numBits, numHashes)
    {
      store := new ChunkStore(h);
      bloom := new BloomFilter(hs, numBits, numHashes);
    }

    /** `fileId` is the fresh ID the upload draws. */
    method UploadFile(fileId: Bytes, fileName: Bytes, data: Bytes, persist: Persist) returns (r: UploadResult)
      requires Valid()
      modifies store, bloom, bloom.bitArray
      ensures (View(), r) == AfterUpload(store.h, Setup(), old(View()), fileId, fileName, data, persist)
    {
      var split := store.SplitFile(fileId, fileName, data, persist);
      match split {
        case SplitPersistError => return UploadFailed;
        case CapacityPanic => return UploadPanics;
        case SplitOk(meta, chunks) =>
          assert forall i :: 0 <= i < |chunks| ==> chunks[i].fileId == fileId && chunks[i].index == i;
          AddKeys(fileId, chunks);
          if |meta.rootHash| < LOGGED_PREFIX {
            return UploadPanics;
          }
          return Uploaded(meta);
      }
    }

    method AddKeys(ghost fileId: Bytes, chunks: seq<Chunk>)
      requires Valid() && |chunks| <= MAX_INT32
      requires forall i :: 0 <= i < |chunks| ==> chunks[i].fileId == fileId && chunks[i].index == i
      modifies bloom, bloom.bitArray
      ensures bloom.Bits() == WithKeys(Setup(), old(bloom.Bits()), fileId, |chunks|)
    {
      for i := 0 to |chunks|
        invariant bloom.Bits() == WithKeys(Setup(), old(bloom.Bits()), fileId, i)
      {
        bloom.Add(BloomKey(chunks[i].fileId, chunks[i].index));
      }
    }

    method MightHaveChunk(fileId: Bytes, index: Int32) returns (maybe: bool)
      requires Valid()
      ensures maybe <==> MightHold(Setup(), View(), fileId, index)
    {
      maybe := bloom.MightContain(BloomKey(fileId, index));
    }

    method ConfirmHasChunk(fileId: Bytes, index: Int32) returns (has: bool)
      requires Valid()
      ensures has <==> Holds(View().store, fileId, index)
    {
      has := store.HasChunk(fileId, index);
    }

    method DownloadChunk(fileId: Bytes, index: Int32, disk: Disk) returns (r: Option<(Bytes, Bytes)>)
      requires Valid()
      ensures r == match Lookup(View().store, disk, fileId, index)
                   case Some(data) => Some((data, store.h(data)))
                   case None => None
    {
      var data := store.GetChunk(fileId, index, disk);
      r := if data.None? then None else Some((data.value, store.h(data.value)));
    }

    method ReceiveChunk(
      fileId: Bytes, index: Int32, data: Bytes, expectedHash: Bytes, persists: bool) returns (r: StoreResult)
      requires Valid()
      modifies store, bloom, bloom.bitArray
      ensures (View(), r) == AfterReceive(store.h, Setup(), old(View()), fileId, index, data, expectedHash, persists)
    {
      r := store.StoreDownloadedChunk(fileId, index, data, expectedHash, persists);
      if !r.Accepted? {
        return;
      }
      bloom.Add(BloomKey(fileId, index));
    }

    /** The RPC handler: the filter first, and the store only when the filter says maybe. */
    method HasChunk(fileId: Bytes, index: Int32) returns (mightHave: bool, confirmed: bool)
      requires Valid()
      ensures mightHave <==> MightHold(Setup(), View(), fileId, index)
      ensures confirmed <==> mightHave && Holds(View().store, fileId, index)
    {
      mightHave := MightHaveChunk(fileId, index);
      confirmed := false;
      if mightHave {
        confirmed := ConfirmHasChunk(fileId, index);
      }
    }
  }
}
