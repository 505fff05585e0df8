/** Whole runs of peers: the index agrees with the store, and files travel whole. */
module PeerRuns {
  import opened GoTypes
  import opened Keys
  import opened Merkle
  import opened Chunks
  import opened ChunkProofs
  import opened Bloom
  import opened BloomProofs
  import opened Manager

  datatype PeerOp =
    | Upload(fileId: Bytes, fileName: Bytes, data: Bytes, persist: Persist)
    | Receive(fileId: Bytes, index: Int32, data: Bytes, expectedHash: Bytes, persists: bool)

  function Do(h: HashFn, c: Config, p: Peer, op: PeerOp): Peer
    requires c.Valid()
  {
    match op
    case Upload(fileId, fileName, data, persist) => AfterUpload(h, c, p, fileId, fileName, data, persist).0
    case Receive(fileId, index, data, expected, persists) =>
      AfterReceive(h, c, p, fileId, index, data, expected, persists).0
  }

  function DoAll(h: HashFn, c: Config, p: Peer, ops: seq<PeerOp>): Peer
    requires c.Valid()
  {
    if ops == [] then p else Do(h, c, DoAll(h, c, p, ops[..|ops| - 1]), ops[|ops| - 1])
  }

  const EMPTY: Peer := Peer(Store(map[], map[]), {})

  /** A write to disk failed in the operation. */
  predicate PersistFails(h: HashFn, op: PeerOp) {
    match op
    case Upload(_, _, data, persist) =>
      var n := ChunkCount(|data|);
      0 <= n && Persisted(persist, n) < n
    case Receive(_, _, data, expected, persists) => h(data) == expected && !persists
  }

  /** The operation puts this chunk into the store. */
  predicate Brings(h: HashFn, op: PeerOp, fileId: Bytes, index: Int32) {
    match op
    case Upload(f, _, data, persist) =>
      var n := ChunkCount(|data|);
      f == fileId && 0 <= index < n && index <= Persisted(persist, n)
    case Receive(f, i, data, expected, _) => f == fileId && i == index && h(data) == expected
  }

  /** What the handler answers as `confirmed`. */
  predicate Confirmed(c: Config, p: Peer, fileId: Bytes, index: Int32)
    requires c.Valid()
  {
    MightHold(c, p, fileId, index) && Holds(p.store, fileId, index)
  }

  lemma {:induction false} WithKeysHas(c: Config, bits: set<nat>, fileId: Bytes, n: nat, i: nat)
    requires c.Valid() && n <= MAX_INT32
    ensures bits <= WithKeys(c, bits, fileId, n)
    ensures i < n ==> Positions(c.hs, c.m, c.k, BloomKey(fileId, i)) <= WithKeys(c, bits, fileId, n)
  {
    if n > 0 {
      WithKeysHas(c, bits, fileId, n - 1, i);
    }
  }

  lemma DoKeepsBits(h: HashFn, c: Config, p: Peer, op: PeerOp)
    requires c.Valid()
    ensures p.bits <= Do(h, c, p, op).bits
  {
    if op.Upload? && ChunkCount(|op.data|) >= 0 {
      WithKeysHas(c, p.bits, op.fileId, ChunkCount(|op.data|), 0);
    }
  }

  /** A chunk is in the store after an operation exactly when it was before or the operation brings it. */
  lemma DoHolds(h: HashFn, c: Config, p: Peer, op: PeerOp, fileId: Bytes, index: Int32)
    requires c.Valid()
    ensures Holds(Do(h, c, p, op).store, fileId, index) <==>
      Holds(p.store, fileId, index) || Brings(h, op, fileId, index)
  {
    match op
    case Upload(f, _, data, persist) =>
      var n := ChunkCount(|data|);
      if n >= 0 {
        var k := Persisted(persist, n);
        ChunksStored(p.store.chunks, f, data, if k < n then k + 1 else n, fileId, index);
      }
    case Receive(f, i, _, _, _) =>
      ChunkStoreKeyInjective(f, i, fileId, index);
  }

  /** An operation without a failed write indexes every chunk it brings. */
  lemma DoIndexes(h: HashFn, c: Config, p: Peer, op: PeerOp, fileId: Bytes, index: Int32)
    requires c.Valid() && Brings(h, op, fileId, index) && !PersistFails(h, op)
    ensures MightHold(c, Do(h, c, p, op), fileId, index)
  {
    if op.Upload? {
      WithKeysHas(c, p.bits, fileId, ChunkCount(|op.data|), index);
    }
  }

  /** Some operation without a failed write brought the chunk. */
  ghost predicate BroughtWell(h: HashFn, ops: seq<PeerOp>, fileId: Bytes, index: Int32) {
    exists op :: op in ops && Brings(h, op, fileId, index) && !PersistFails(h, op)
  }

  ghost predicate Brought(h: HashFn, ops: seq<PeerOp>, fileId: Bytes, index: Int32) {
    exists op :: op in ops && Brings(h, op, fileId, index)
  }

  /** In any run, failed writes included, a chunk that once came in without one is confirmed ever after. */
  lemma {:induction false} WellBroughtIsConfirmed(
    h: HashFn, c: Config, p: Peer, ops: seq<PeerOp>, fileId: Bytes, index: Int32)
    requires c.Valid() && BroughtWell(h, ops, fileId, index)
    ensures Confirmed(c, DoAll(h, c, p, ops), fileId, index)
  {
    var init, last := ops[..|ops| - 1], ops[|ops| - 1];
    var before := DoAll(h, c, p, init);
    assert ops == init + [last];
    DoHolds(h, c, before, last, fileId, index);
    DoKeepsBits(h, c, before, last);
    if Brings(h, last, fileId, index) && !PersistFails(h, last) {
      DoIndexes(h, c, before, last, fileId, index);
    } else {
      assert BroughtWell(h, init, fileId, index);
      WellBroughtIsConfirmed(h, c, p, init, fileId, index);
    }
  }

  /** The store of a run from empty holds exactly what its operations brought. */
  lemma {:induction false} HeldWasBrought(h: HashFn, c: Config, ops: seq<PeerOp>, fileId: Bytes, index: Int32)
    requires c.Valid()
    ensures Holds(DoAll(h, c, EMPTY, ops).store, fileId, index) <==> Brought(h, ops, fileId, index)
  {
    if ops != [] {
      var init, last := ops[..|ops| - 1], ops[|ops| - 1];
      assert ops == init + [last];
      HeldWasBrought(h, c, init, fileId, index);
      DoHolds(h, c, DoAll(h, c, EMPTY, init), last, fileId, index);
    }
  }

  /** Without failed writes the handler's `confirmed` is the ground truth, for every chunk of every run. */
  lemma IndexAgreesWithStore(h: HashFn, c: Config, ops: seq<PeerOp>, fileId: Bytes, index: Int32)
    requires c.Valid() && forall op :: op in ops ==> !PersistFails(h, op)
    ensures var p := DoAll(h, c, EMPTY, ops);
      Confirmed(c, p, fileId, index) <==> Holds(p.store, fileId, index)
  {
    HeldWasBrought(h, c, ops, fileId, index);
    if Brought(h, ops, fileId, index) {
      assert BroughtWell(h, ops, fileId, index);
      WellBroughtIsConfirmed(h, c, EMPTY, ops, fileId, index);
    }
  }

  // ---------------------------------------------------------------------------------------------
  // What failed writes do to the index
  // ---------------------------------------------------------------------------------------------

  /**
   * A received chunk whose write failed is in the store all the same; it is confirmed exactly when
   * the filter already said maybe, which for an empty filter with a hash it does not.
   */
  lemma FailedWriteHidesChunk(h: HashFn, c: Config, p: Peer, fileId: Bytes, index: Int32, data: Bytes)
    requires c.Valid()
    ensures var p' := AfterReceive(h, c, p, fileId, index, data, h(data), false).0;
      Holds(p'.store, fileId, index) && (Confirmed(c, p', fileId, index) <==> MightHold(c, p, fileId, index))
    ensures p.bits == {} && c.k > 0 ==> !MightHold(c, p, fileId, index)
  {
    if c.k > 0 {
      FirstPosition(c, BloomKey(fileId, index));
    }
  }

  /** A key has a position as soon as there is a hash. */
  lemma FirstPosition(c: Config, key: Bytes)
    requires c.Valid() && c.k > 0
    ensures Positions(c.hs, c.m, c.k, key) != {}
  {
    assert Position(c.m, c.hs.fnv1a(key), c.hs.fnv1(key), 0) in Positions(c.hs, c.m, c.k, key);
  }

  /**
   * An upload with a failed write leaves the chunks up to that write in the store, the earlier ones
   * written well among them, and indexes none: each is confirmed exactly if the filter said maybe before.
   */
  lemma FailedUploadHidesChunks(
    h: HashFn, c: Config, p: Peer, fileId: Bytes, fileName: Bytes, data: Bytes, persist: Persist, index: Int32)
    requires c.Valid() && PersistFails(h, Upload(fileId, fileName, data, persist))
    requires 0 <= index <= Persisted(persist, ChunkCount(|data|))
    ensures var p' := AfterUpload(h, c, p, fileId, fileName, data, persist).0;
      Holds(p'.store, fileId, index) && (Confirmed(c, p', fileId, index) <==> MightHold(c, p, fileId, index))
    ensures p.bits == {} && c.k > 0 ==> !MightHold(c, p, fileId, index)
  {
    DoHolds(h, c, p, Upload(fileId, fileName, data, persist), fileId, index);
    if c.k > 0 {
      FirstPosition(c, BloomKey(fileId, index));
    }
  }

  lemma {:induction false} WithKeysExact(c: Config, bits: set<nat>, fileId: Bytes, n: nat, p: nat)
    requires c.Valid() && n <= MAX_INT32
    ensures p in WithKeys(c, bits, fileId, n) <==>
      p in bits || exists i: Int32 :: 0 <= i < n && p in Positions(c.hs, c.m, c.k, BloomKey(fileId, i))
  {
    if n > 0 {
      WithKeysExact(c, bits, fileId, n - 1, p);
    }
  }

  /** `p` is a position of a chunk that the operation brings without a failed write. */
  ghost predicate SetsBit(h: HashFn, c: Config, op: PeerOp, p: nat)
    requires c.Valid()
  {
    !PersistFails(h, op) &&
    exists fileId, index :: Brings(h, op, fileId, index) && p in Positions(c.hs, c.m, c.k, BloomKey(fileId, index))
  }

  /** An operation sets exactly the positions of the chunks it brings without a failed write. */
  lemma DoSetsBits(h: HashFn, c: Config, peer: Peer, op: PeerOp, p: nat)
    requires c.Valid()
    ensures p in Do(h, c, peer, op).bits <==> p in peer.bits || SetsBit(h, c, op, p)
  {
    match op
    case Upload(fileId, _, data, persist) =>
      var n := ChunkCount(|data|);
      if n >= 0 && Persisted(persist, n) == n {
        WithKeysExact(c, peer.bits, fileId, n, p);
        forall i: Int32 | 0 <= i < n
          ensures Brings(h, op, fileId, i)
        {
        }
      }
    case Receive(fileId, index, data, expected, persists) =>
      if h(data) == expected {
        assert Brings(h, op, fileId, index);
      }
  }

  /** `p` is a position of a chunk that some operation brought without a failed write. */
  ghost predicate Indexed(h: HashFn, c: Config, ops: seq<PeerOp>, p: nat)
    requires c.Valid()
  {
    exists fileId, index ::
      BroughtWell(h, ops, fileId, index) && p in Positions(c.hs, c.m, c.k, BloomKey(fileId, index))
  }

  lemma IndexedGrows(h: HashFn, c: Config, ops: seq<PeerOp>, op: PeerOp, p: nat)
    requires c.Valid()
    ensures Indexed(h, c, ops + [op], p) <==> Indexed(h, c, ops, p) || SetsBit(h, c, op, p)
  {
    if Indexed(h, c, ops + [op], p) {
      var f, i :| BroughtWell(h, ops + [op], f, i) && p in Positions(c.hs, c.m, c.k, BloomKey(f, i));
      var bringer :| bringer in ops + [op] && Brings(h, bringer, f, i) && !PersistFails(h, bringer);
      assert bringer in ops ==> BroughtWell(h, ops, f, i);
    }
    if Indexed(h, c, ops, p) {
      var f, i :| BroughtWell(h, ops, f, i) && p in Positions(c.hs, c.m, c.k, BloomKey(f, i));
      var bringer :| bringer in ops && Brings(h, bringer, f, i) && !PersistFails(h, bringer);
      assert bringer in ops + [op] && BroughtWell(h, ops + [op], f, i);
    }
    if SetsBit(h, c, op, p) {
      var f, i :| Brings(h, op, f, i) && p in Positions(c.hs, c.m, c.k, BloomKey(f, i));
      assert op in ops + [op] && BroughtWell(h, ops + [op], f, i);
    }
  }

  /** The filter of a run from empty has set exactly the positions of what came in without a failed write. */
  lemma {:induction false} BitsExact(h: HashFn, c: Config, ops: seq<PeerOp>, p: nat)
    requires c.Valid()
    ensures p in DoAll(h, c, EMPTY, ops).bits <==> Indexed(h, c, ops, p)
  {
    if ops != [] {
      var init, last := ops[..|ops| - 1], ops[|ops| - 1];
      assert ops == init + [last];
      BitsExact(h, c, init, p);
      DoSetsBits(h, c, DoAll(h, c, EMPTY, init), last, p);
      IndexedGrows(h, c, init, last, p);
    }
  }

  /**
   * In any run from empty, failed writes included, a chunk is confirmed exactly when some operation
   * brought it and each of its positions is one of a chunk that came in without a failed write.
   */
  lemma ConfirmedExactly(h: HashFn, c: Config, ops: seq<PeerOp>, fileId: Bytes, index: Int32)
    requires c.Valid()
    ensures Confirmed(c, DoAll(h, c, EMPTY, ops), fileId, index) <==>
      && Brought(h, ops, fileId, index)
      && forall p :: p in Positions(c.hs, c.m, c.k, BloomKey(fileId, index)) ==> Indexed(h, c, ops, p)
  {
    HeldWasBrought(h, c, ops, fileId, index);
    forall p | p in Positions(c.hs, c.m, c.k, BloomKey(fileId, index))
      ensures p in DoAll(h, c, EMPTY, ops).bits <==> Indexed(h, c, ops, p)
    {
      BitsExact(h, c, ops, p);
    }
  }

  /** Hashes that send one key to position 0 and every other key to position 1. */
  function Telling(key: Bytes): Hashes {
    Hashes(other => if other == key then 0 else 1, _ => 0)
  }

  /** With second hash 0, all positions of a key are its first hash. */
  lemma ConstantPositions(m: int, k: int, h1: UInt32)
    requires h1 < m && k > 0
    ensures Spots(m, k, h1, 0) == {h1}
  {
    forall i: nat
      ensures Position(m, h1, 0, i) == h1
    {
      CombinedHashIs(h1, 0, i);
    }
    assert Position(m, h1, 0, 0) in Spots(m, k, h1, 0);
  }

  lemma TellingPositions(m: int, k: int, key: Bytes, other: Bytes)
    requires m >= 2 && k > 0
    ensures 0 in Positions(Telling(key), m, k, other) <==> other == key
  {
    ConstantPositions(m, k, if other == key then 0 else 1);
  }

  /** Without a chunk having come in without a failed write, some hashes keep it from being confirmed. */
  lemma TellingDenies(h: HashFn, m: int, k: int, ops: seq<PeerOp>, fileId: Bytes, index: Int32)
    requires m >= 2 && k > 0 && !BroughtWell(h, ops, fileId, index)
    ensures var c := Config(Telling(BloomKey(fileId, index)), m, k);
      !Confirmed(c, DoAll(h, c, EMPTY, ops), fileId, index)
  {
    var key := BloomKey(fileId, index);
    var c := Config(Telling(key), m, k);
    BitsExact(h, c, ops, 0);
    TellingPositions(m, k, key, key);
    if Indexed(h, c, ops, 0) {
      var f, i :| BroughtWell(h, ops, f, i) && 0 in Positions(c.hs, m, k, BloomKey(f, i));
      TellingPositions(m, k, key, BloomKey(f, i));
      BloomKeyInjective(f, i, fileId, index);
    }
  }

  /** The chunk is confirmed after the run whatever the two hash functions are. */
  ghost predicate AlwaysConfirmed(h: HashFn, m: int, k: int, ops: seq<PeerOp>, fileId: Bytes, index: Int32)
    requires m > 0
  {
    forall hs :: Confirmed(Config(hs, m, k), DoAll(h, Config(hs, m, k), EMPTY, ops), fileId, index)
  }

  /**
   * In any run from empty, a chunk is confirmed whatever the hashes exactly when some operation
   * brought it without a failed write: a chunk brought only by failed ones can go unconfirmed.
   */
  lemma ConfirmedWhenBroughtWell(h: HashFn, m: int, k: int, ops: seq<PeerOp>, fileId: Bytes, index: Int32)
    requires m >= 2 && k > 0
    ensures AlwaysConfirmed(h, m, k, ops, fileId, index) <==> BroughtWell(h, ops, fileId, index)
  {
    if BroughtWell(h, ops, fileId, index) {
      forall hs
        ensures Confirmed(Config(hs, m, k), DoAll(h, Config(hs, m, k), EMPTY, ops), fileId, index)
      {
        WellBroughtIsConfirmed(h, Config(hs, m, k), EMPTY, ops, fileId, index);
      }
    } else {
      TellingDenies(h, m, k, ops, fileId, index);
    }
  }

  // ---------------------------------------------------------------------------------------------
  // Transfer between two peers
  // ---------------------------------------------------------------------------------------------

  /** The receiver takes chunk `i` as the sender offers it, with the hash the sender sends along. */
  function Take(
    h: HashFn, c: Config, sender: Store, disk: Disk, receiver: Peer, fileId: Bytes, i: Int32): (Peer, StoreResult)
    requires c.Valid() && Lookup(sender, disk, fileId, i).Some?
  {
    var data := Lookup(sender, disk, fileId, i).value;
    AfterReceive(h, c, receiver, fileId, i, data, h(data), true)
  }

  /** Taking the listed chunks one after the other, in any order and with repetitions; a missing one is skipped. */
  function TakeAll(
    h: HashFn, c: Config, sender: Store, disk: Disk, receiver: Peer, fileId: Bytes, order: seq<Int32>): Peer
    requires c.Valid()
  {
    if order == [] then receiver
    else
      var i, before := order[|order| - 1], TakeAll(h, c, sender, disk, receiver, fileId, order[..|order| - 1]);
      if Lookup(sender, disk, fileId, i).None? then before else Take(h, c, sender, disk, before, fileId, i).0
  }

  ghost predicate AllIntact(st: Store, fileId: Bytes, data: Bytes) {
    ChunksNeeded(|data|) <= MAX_INT32 && forall i: nat :: i < ChunksNeeded(|data|) ==> Intact(st, fileId, data, i)
  }

  /** What a sender offers always passes the receiver's check, and is confirmed by the receiver from then on. */
  lemma OfferPassesCheck(
    h: HashFn, c: Config, sender: Store, disk: Disk, receiver: Peer, fileId: Bytes, i: Int32, later: seq<PeerOp>)
    requires c.Valid() && Lookup(sender, disk, fileId, i).Some?
    ensures Take(h, c, sender, disk, receiver, fileId, i).1 == Accepted
    ensures Confirmed(c, DoAll(h, c, Take(h, c, sender, disk, receiver, fileId, i).0, later), fileId, i)
  {
    StaysConfirmed(h, c, Take(h, c, sender, disk, receiver, fileId, i).0, later, fileId, i);
  }

  /** A confirmed chunk stays confirmed. */
  lemma {:induction false} StaysConfirmed(h: HashFn, c: Config, p: Peer, ops: seq<PeerOp>, fileId: Bytes, index: Int32)
    requires c.Valid() && Confirmed(c, p, fileId, index)
    ensures Confirmed(c, DoAll(h, c, p, ops), fileId, index)
  {
    if ops != [] {
      var init, last := ops[..|ops| - 1], ops[|ops| - 1];
      StaysConfirmed(h, c, p, init, fileId, index);
      DoHolds(h, c, DoAll(h, c, p, init), last, fileId, index);
      DoKeepsBits(h, c, DoAll(h, c, p, init), last);
    }
  }

  /** Taking another chunk leaves an intact, indexed chunk so; taking the chunk itself makes it so. */
  lemma TakeOne(
    h: HashFn, c: Config, sender: Store, disk: Disk, receiver: Peer, fileId: Bytes, data: Bytes, i: nat, last: Int32)
    requires c.Valid() && i < ChunksNeeded(|data|) && i <= MAX_INT32 && Intact(sender, fileId, data, i)
    requires Lookup(sender, disk, fileId, last).Some?
    requires i == last || (Intact(receiver.store, fileId, data, i) && MightHold(c, receiver, fileId, i))
    ensures var receiver' := Take(h, c, sender, disk, receiver, fileId, last).0;
      Intact(receiver'.store, fileId, data, i) && MightHold(c, receiver', fileId, i)
  {
    ChunkStoreKeyInjective(fileId, i, fileId, last);
  }

  lemma {:induction false} TakenIsIntact(
    h: HashFn, c: Config, sender: Store, disk: Disk, receiver: Peer, fileId: Bytes, data: Bytes, order: seq<Int32>,
    i: nat)
    requires c.Valid() && i < ChunksNeeded(|data|) && i <= MAX_INT32 && Intact(sender, fileId, data, i)
    requires i in order
    ensures Intact(TakeAll(h, c, sender, disk, receiver, fileId, order).store, fileId, data, i)
    ensures MightHold(c, TakeAll(h, c, sender, disk, receiver, fileId, order), fileId, i)
  {
    var init, last := order[..|order| - 1], order[|order| - 1];
    if i != last {
      assert order == init + [last];
      TakenIsIntact(h, c, sender, disk, receiver, fileId, data, init, i);
    }
    if Lookup(sender, disk, fileId, last).Some? {
      TakeOne(h, c, sender, disk, TakeAll(h, c, sender, disk, receiver, fileId, init), fileId, data, i, last);
    }
  }

  /**
   * A receiver that takes every chunk of an untouched upload, in any order, holds chunks whose
   * concatenation is the uploaded data, and confirms each of them.
   */
  lemma TransferWhole(
    h: HashFn, c: Config, sender: Store, disk: Disk, receiver: Peer, fileId: Bytes, data: Bytes, order: seq<Int32>)
    requires c.Valid() && AllIntact(sender, fileId, data)
    requires forall i: Int32 :: 0 <= i < ChunksNeeded(|data|) ==> i in order
    ensures var receiver' := TakeAll(h, c, sender, disk, receiver, fileId, order);
      && Gather(receiver'.store, disk, fileId, ChunksNeeded(|data|)) == Assembled(data)
      && forall i: nat :: i < ChunksNeeded(|data|) ==> Confirmed(c, receiver', fileId, i)
  {
    var receiver' := TakeAll(h, c, sender, disk, receiver, fileId, order);
    forall i: nat | i < ChunksNeeded(|data|)
      ensures Intact(receiver'.store, fileId, data, i) && Confirmed(c, receiver', fileId, i)
    {
      TakenIsIntact(h, c, sender, disk, receiver, fileId, data, order, i);
    }
    GatherIntact(receiver'.store, disk, fileId, data, ChunksNeeded(|data|));
    PrefixIsAll(data);
  }

  /** An upload that succeeds leaves every chunk in place for such a transfer. */
  lemma UploadIsIntact(h: HashFn, c: Config, p: Peer, fileId: Bytes, fileName: Bytes, data: Bytes, persist: Persist)
    requires c.Valid() && ChunksNeeded(|data|) <= MAX_INT32
    requires AfterUpload(h, c, p, fileId, fileName, data, persist).1.Uploaded?
    ensures AllIntact(AfterUpload(h, c, p, fileId, fileName, data, persist).0.store, fileId, data)
  {
    forall i: nat | i < ChunksNeeded(|data|)
      ensures Intact(AfterUpload(h, c, p, fileId, fileName, data, persist).0.store, fileId, data, i)
    {
      ChunksStored(p.store.chunks, fileId, data, ChunkCount(|data|), fileId, i);
    }
  }

  /** Uploading panics exactly when the int32 chunk count is not positive: for the empty file in particular. */
  lemma UploadPanicsWhen(h: HashFn, c: Config, p: Peer, fileId: Bytes, fileName: Bytes, data: Bytes, persist: Persist)
    requires c.Valid() && HexDigests(h)
    ensures AfterUpload(h, c, p, fileId, fileName, data, persist).1.UploadPanics? <==> ChunkCount(|data|) <= 0
  {
    var n := ChunkCount(|data|);
    if n > 0 {
      ChunkHashesAreDigests(h, data, n);
      RootIsDigest(h, ChunkHashes(h, data, n));
    }
  }

  // ---------------------------------------------------------------------------------------------
  // What uploads and receipts answer
  // ---------------------------------------------------------------------------------------------

  /** The metadata is that of the data, down to the digest of each chunk. */
  ghost predicate Describes(h: HashFn, meta: FileMetadata, fileId: Bytes, fileName: Bytes, data: Bytes) {
    && meta.fileId == fileId && meta.fileName == fileName && meta.totalSize == |data|
    && meta.totalChunks == |meta.chunkHashes| == ChunksNeeded(|data|)
    && (forall i :: 0 <= i < |meta.chunkHashes| ==> meta.chunkHashes[i] == h(ChunkAt(data, i)))
    && meta.rootHash == Root(h, meta.chunkHashes)
  }

  /**
   * An upload of anything that fits fails exactly if a write fails, and otherwise succeeds.  Then it
   * answers with metadata that describes the data, which the store keeps too, so that a peer that got
   * this answer can ask for each chunk and check it, and this one can put the file together.
   */
  lemma UploadAnswer(
    h: HashFn, c: Config, p: Peer, fileId: Bytes, fileName: Bytes, data: Bytes, persist: Persist, disk: Disk)
    requires c.Valid() && HexDigests(h) && data != [] && ChunksNeeded(|data|) <= MAX_INT32
    ensures var (p', r) := AfterUpload(h, c, p, fileId, fileName, data, persist);
      var fails := PersistFails(h, Upload(fileId, fileName, data, persist));
      && (r.UploadFailed? <==> fails) && (r.Uploaded? <==> !fails)
      && (r.Uploaded? ==>
            && Describes(h, r.meta, fileId, fileName, data)
            && p'.store.files == p.store.files[fileId := r.meta]
            && Assemble(p'.store, disk, r.meta.fileId) == Assembled(data))
  {
    UploadPanicsWhen(h, c, p, fileId, fileName, data, persist);
    if AfterSplit(h, p.store, fileId, fileName, data, persist).1.SplitOk? {
      SplitReturns(h, p.store, fileId, fileName, data, persist);
      SplitThenAssemble(h, p.store, fileId, fileName, data, persist, disk);
    }
  }

  /**
   * An upload fails exactly if a write fails; it panics exactly if the int32 chunk count is negative,
   * or no write fails and the root hash has less than the 16 bytes that are logged.  Without success
   * of all writes neither metadata nor filter change.  Chunks up to a failed write are found as they were
   * uploaded, and no other chunk or file is touched.
   */
  lemma UploadErrors(
    h: HashFn, c: Config, p: Peer, fileId: Bytes, fileName: Bytes, data: Bytes, persist: Persist, disk: Disk,
    f: Bytes, i: Int32)
    requires c.Valid()
    ensures var (p', r) := AfterUpload(h, c, p, fileId, fileName, data, persist);
      var n, fails := ChunkCount(|data|), PersistFails(h, Upload(fileId, fileName, data, persist));
      && (r.UploadFailed? <==> fails)
      && (r.UploadPanics? <==> n < 0 || (!fails && |Root(h, ChunkHashes(h, data, n))| < 16))
      && (fails || n < 0 ==> p'.store.files == p.store.files && p'.bits == p.bits)
      && (n < 0 ==> p' == p)
      && Lookup(p'.store, disk, f, i) ==
         (if Brings(h, Upload(fileId, fileName, data, persist), f, i) then Some(ChunkAt(data, i))
          else Lookup(p.store, disk, f, i))
      && (f != fileId ==>
            && (f in p'.store.files <==> f in p.store.files)
            && (f in p.store.files ==> p'.store.files[f] == p.store.files[f]))
  {
    var n := ChunkCount(|data|);
    if n >= 0 {
      var k := Persisted(persist, n);
      ChunksStored(p.store.chunks, fileId, data, if k < n then k + 1 else n, f, i);
    }
  }

  /**
   * A receipt is accepted exactly if the data has the expected hash and is written; a mismatch is
   * reported exactly if it has not, and leaves the peer as it was.  What is accepted is found as it came
   * and the filter says maybe; what was not written is found too, and the filter is as it was.
   */
  lemma ReceiveAnswer(
    h: HashFn, c: Config, p: Peer, fileId: Bytes, index: Int32, data: Bytes, expected: Bytes, persists: bool,
    disk: Disk)
    requires c.Valid()
    ensures var (p', r) := AfterReceive(h, c, p, fileId, index, data, expected, persists);
      && (r.Accepted? <==> h(data) == expected && persists)
      && (r.HashMismatch? <==> h(data) != expected) && (r.HashMismatch? ==> p' == p)
      && (r.Accepted? ==> MightHold(c, p', fileId, index)) && (r.PersistError? ==> p'.bits == p.bits)
      && (!r.HashMismatch? ==> Lookup(p'.store, disk, fileId, index) == Some(data))
  {
    DownloadVerdict(h, p.store, disk, fileId, index, data, expected, persists, fileId, index);
  }

  // ---------------------------------------------------------------------------------------------
  // Transfer from peers that need not be honest
  // ---------------------------------------------------------------------------------------------

  /** A chunk of the file arrives with any data, to be checked against the uploader's digest. */
  predicate Checked(h: HashFn, op: PeerOp, fileId: Bytes, data: Bytes) {
    match op
    case Upload(f, _, _, _) => f != fileId
    case Receive(f, i, _, expected, _) =>
      f == fileId && 0 <= i < ChunksNeeded(|data|) ==> expected == h(ChunkAt(data, i))
  }

  lemma CheckedStep(h: HashFn, c: Config, p: Peer, op: PeerOp, fileId: Bytes, data: Bytes, i: nat)
    requires c.Valid() && i < ChunksNeeded(|data|) && i <= MAX_INT32 && Checked(h, op, fileId, data)
    requires Holds(p.store, fileId, i) ==> Vouched(h, p.store, fileId, data, i)
    ensures Holds(Do(h, c, p, op).store, fileId, i) ==> Vouched(h, Do(h, c, p, op).store, fileId, data, i)
  {
    match op
    case Upload(f, _, data', persist) =>
      var n := ChunkCount(|data'|);
      if n >= 0 {
        var k := Persisted(persist, n);
        ChunksStored(p.store.chunks, f, data', if k < n then k + 1 else n, fileId, i);
      }
    case Receive(f, j, _, _, _) =>
      ChunkStoreKeyInjective(f, j, fileId, i);
  }

  lemma {:induction false} CheckedRun(
    h: HashFn, c: Config, p: Peer, ops: seq<PeerOp>, fileId: Bytes, data: Bytes, i: nat)
    requires c.Valid() && i < ChunksNeeded(|data|) && i <= MAX_INT32
    requires (forall op :: op in ops ==> Checked(h, op, fileId, data)) && !Holds(p.store, fileId, i)
    ensures Holds(DoAll(h, c, p, ops).store, fileId, i) ==> Vouched(h, DoAll(h, c, p, ops).store, fileId, data, i)
  {
    if ops != [] {
      CheckedRun(h, c, p, ops[..|ops| - 1], fileId, data, i);
      CheckedStep(h, c, DoAll(h, c, p, ops[..|ops| - 1]), ops[|ops| - 1], fileId, data, i);
    }
  }

  /**
   * Whoever sends what: a receiver new to the file that checks against the uploader's digests and
   * ends up holding every chunk holds the uploaded data, or a chunk that collides with an original.
   */
  lemma CheckedTransferWhole(h: HashFn, c: Config, p: Peer, ops: seq<PeerOp>, disk: Disk, fileId: Bytes, data: Bytes)
    requires c.Valid() && ChunksNeeded(|data|) <= MAX_INT32
    requires forall op :: op in ops ==> Checked(h, op, fileId, data)
    requires forall i: nat :: i < ChunksNeeded(|data|) ==> !Holds(p.store, fileId, i)
    requires forall i: nat :: i < ChunksNeeded(|data|) ==> Holds(DoAll(h, c, p, ops).store, fileId, i)
    ensures var st := DoAll(h, c, p, ops).store;
      Gather(st, disk, fileId, ChunksNeeded(|data|)) == Assembled(data) || exists i :: Forged(h, st, fileId, data, i)
  {
    var st := DoAll(h, c, p, ops).store;
    forall i: nat | i < ChunksNeeded(|data|)
      ensures Vouched(h, st, fileId, data, i)
    {
      CheckedRun(h, c, p, ops, fileId, data, i);
    }
    VouchedGathers(h, st, disk, fileId, data);
  }
}
