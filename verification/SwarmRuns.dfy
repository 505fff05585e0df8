/**
 * Runs of any number of peers that pass the chunks of one file around.  Every peer goes on with other
 * work meanwhile, writes fail, chunks travel through peers that never saw the uploader, and messages
 * may be late, lost, repeated and out of order; only their contents are not altered on the way.
 */
module SwarmRuns {
  import opened GoTypes
  import opened Keys
  import opened Merkle
  import opened Chunks
  import opened ChunkProofs
  import opened Bloom
  import opened BloomProofs
  import opened Manager
  import opened PeerRuns

  /** A chunk on its way, with the hash its sender computed of it. */
  datatype Message = Message(index: Int32, data: Bytes, hash: Bytes)

  /** The peers' storage, and every message sent so far. */
  datatype World = World(peers: seq<Peer>, sent: set<Message>)

  datatype Act =
    | Does(who: nat, op: PeerOp)
    | Offers(who: nat, index: Int32, disk: Disk)
    | Arrives(who: nat, message: Message, persists: bool)

  /** The file passed around, and what all peers have in common. */
  datatype Swarm = Swarm(h: HashFn, c: Config, fileId: Bytes, data: Bytes) {
    ghost predicate Valid() {
      c.Valid() && ChunksNeeded(|data|) <= MAX_INT32
    }

    /** The digest of the chunk, if the file has one at that place. */
    predicate Genuine(index: Int32, hash: Bytes) {
      0 <= index < ChunksNeeded(|data|) ==> hash == h(ChunkAt(data, index))
    }

    /**
     * Other work leaves the file alone or checks against its digests; a chunk that is offered from
     * disk is as good as the one that was written; only what was sent arrives.
     */
    predicate Enabled(w: World, act: Act) {
      && act.who < |w.peers|
      && match act
         case Does(_, op) => Checked(h, op, fileId, data)
         case Offers(who, index, disk) =>
           var st := w.peers[who].store;
           && Lookup(st, disk, fileId, index).Some?
           && (Holds(st, fileId, index) || Genuine(index, h(disk(fileId, index).value)))
         case Arrives(_, message, _) => message in w.sent
    }

    function Next(w: World, act: Act): (w': World)
      requires c.Valid() && Enabled(w, act)
      ensures |w'.peers| == |w.peers|
    {
      match act
      case Does(who, op) => w.(peers := w.peers[who := Do(h, c, w.peers[who], op)])
      case Offers(who, index, disk) =>
        var chunk := Lookup(w.peers[who].store, disk, fileId, index).value;
        w.(sent := w.sent + {Message(index, chunk, h(chunk))})
      case Arrives(who, message, persists) =>
        w.(peers := w.peers[who := Do(h, c, w.peers[who], Taking(message, persists))])
    }

    /** The receiver checks against the hash in the message. */
    function Taking(message: Message, persists: bool): PeerOp {
      Receive(fileId, message.index, message.data, message.hash, persists)
    }

    /** `w'` comes of `w` by these acts. */
    ghost predicate Leads(w: World, acts: seq<Act>, w': World)
      requires c.Valid()
      decreases |acts|
    {
      if acts == [] then w' == w
      else
        var init, last := acts[..|acts| - 1], acts[|acts| - 1];
        exists mid :: Leads(w, init, mid) && Moves(mid, last, w')
    }

    ghost predicate Moves(w: World, act: Act, w': World)
      requires c.Valid()
    {
      Enabled(w, act) && w' == Next(w, act)
    }

    ghost predicate PeerVouched(p: Peer)
      requires Valid()
    {
      forall i: nat :: i < ChunksNeeded(|data|) && Holds(p.store, fileId, i) ==> Vouched(h, p.store, fileId, data, i)
    }

    predicate MessageVouched(message: Message) {
      h(message.data) == message.hash && Genuine(message.index, message.hash)
    }

    /** Whatever any peer holds of the file, or is on its way, has the digest of the original. */
    ghost predicate AllVouched(w: World)
      requires Valid()
    {
      && (forall p :: p in w.peers ==> PeerVouched(p))
      && (forall message :: message in w.sent ==> MessageVouched(message))
    }

    // -------------------------------------------------------------------------------------------
    // What every act keeps
    // -------------------------------------------------------------------------------------------

    lemma DoVouches(p: Peer, op: PeerOp)
      requires Valid() && PeerVouched(p) && Checked(h, op, fileId, data)
      ensures PeerVouched(Do(h, c, p, op))
    {
      forall i: nat | i < ChunksNeeded(|data|) && Holds(Do(h, c, p, op).store, fileId, i)
        ensures Vouched(h, Do(h, c, p, op).store, fileId, data, i)
      {
        CheckedStep(h, c, p, op, fileId, data, i);
      }
    }

    /** What a peer holds, or honestly reads from disk, it offers under the original digest. */
    lemma OfferVouched(p: Peer, index: Int32, disk: Disk)
      requires Valid() && PeerVouched(p) && Lookup(p.store, disk, fileId, index).Some?
      requires Holds(p.store, fileId, index) || Genuine(index, h(disk(fileId, index).value))
      ensures var chunk := Lookup(p.store, disk, fileId, index).value;
        MessageVouched(Message(index, chunk, h(chunk)))
    {
      if 0 <= index < ChunksNeeded(|data|) && Holds(p.store, fileId, index) {
        assert Vouched(h, p.store, fileId, data, index);
      }
    }

    lemma NextVouches(w: World, act: Act)
      requires Valid() && AllVouched(w) && Enabled(w, act)
      ensures AllVouched(Next(w, act))
    {
      assert PeerVouched(w.peers[act.who]);
      match act
      case Does(who, op) => DoVouches(w.peers[who], op);
      case Offers(who, index, disk) => OfferVouched(w.peers[who], index, disk);
      case Arrives(who, message, persists) => DoVouches(w.peers[who], Taking(message, persists));
    }

    /** The digests of the original are all there ever is of the file. */
    lemma {:induction false} RunVouches(w: World, acts: seq<Act>, w': World)
      requires Valid() && AllVouched(w) && Leads(w, acts, w')
      ensures AllVouched(w') && |w'.peers| == |w.peers|
      decreases |acts|
    {
      if acts != [] {
        var mid :| Leads(w, acts[..|acts| - 1], mid) && Moves(mid, acts[|acts| - 1], w');
        RunVouches(w, acts[..|acts| - 1], mid);
        NextVouches(mid, acts[|acts| - 1]);
      }
    }

    // -------------------------------------------------------------------------------------------
    // What has arrived
    // -------------------------------------------------------------------------------------------

    /** A chunk of that number reached the peer, and was written to disk if `well`. */
    ghost predicate Reached(acts: seq<Act>, who: nat, index: Int32, well: bool) {
      exists act ::
        && act in acts && act.Arrives? && act.who == who && act.message.index == index
        && (well ==> act.persists)
    }

    lemma ReachedGrows(acts: seq<Act>, act: Act, who: nat, index: Int32, well: bool)
      requires Reached(acts + [act], who, index, well)
      ensures Reached(acts, who, index, well) || Reached([act], who, index, well)
    {
      var a :| a in acts + [act] && a.Arrives? && a.who == who && a.message.index == index && (well ==> a.persists);
      assert a in acts || a in [act];
    }

    lemma NextKeeps(w: World, act: Act, who: nat, index: Int32)
      requires c.Valid() && Enabled(w, act) && who < |w.peers|
      ensures Holds(w.peers[who].store, fileId, index) ==> Holds(Next(w, act).peers[who].store, fileId, index)
      ensures MightHold(c, w.peers[who], fileId, index) ==> MightHold(c, Next(w, act).peers[who], fileId, index)
    {
      if act.who == who && !act.Offers? {
        var op := if act.Does? then act.op else Taking(act.message, act.persists);
        DoHolds(h, c, w.peers[who], op, fileId, index);
        DoKeepsBits(h, c, w.peers[who], op);
      }
    }

    lemma NextReaches(w: World, act: Act, who: nat, index: Int32, well: bool)
      requires Valid() && AllVouched(w) && Enabled(w, act) && Reached([act], who, index, well)
      ensures who < |w.peers| && Holds(Next(w, act).peers[who].store, fileId, index)
      ensures well ==> MightHold(c, Next(w, act).peers[who], fileId, index)
    {
      assert MessageVouched(act.message);
      var op := Taking(act.message, act.persists);
      DoHolds(h, c, w.peers[who], op, fileId, index);
      if well {
        DoIndexes(h, c, w.peers[who], op, fileId, index);
      }
    }

    /** A chunk that reached a peer is in its store from then on, and confirmed if it was ever written well. */
    lemma {:induction false} ReachedStays(w: World, acts: seq<Act>, w': World, who: nat, index: Int32, well: bool)
      requires Valid() && AllVouched(w) && Leads(w, acts, w') && who < |w.peers| && Reached(acts, who, index, well)
      ensures |w'.peers| == |w.peers| && Holds(w'.peers[who].store, fileId, index)
      ensures well ==> Confirmed(c, w'.peers[who], fileId, index)
      decreases |acts|
    {
      var init, last := acts[..|acts| - 1], acts[|acts| - 1];
      assert acts == init + [last];
      var mid :| Leads(w, init, mid) && Moves(mid, last, w');
      RunVouches(w, init, mid);
      ReachedGrows(init, last, who, index, well);
      if Reached([last], who, index, well) {
        NextReaches(mid, last, who, index, well);
      } else {
        ReachedStays(w, init, mid, who, index, well);
        NextKeeps(mid, last, who, index);
      }
    }

    /** And a chunk once held is held from then on. */
    lemma {:induction false} HeldStays(w: World, acts: seq<Act>, w': World, who: nat, index: Int32)
      requires Valid() && AllVouched(w) && Leads(w, acts, w') && who < |w.peers|
      requires Holds(w.peers[who].store, fileId, index)
      ensures |w'.peers| == |w.peers| && Holds(w'.peers[who].store, fileId, index)
      decreases |acts|
    {
      if acts != [] {
        var init, last := acts[..|acts| - 1], acts[|acts| - 1];
        var mid :| Leads(w, init, mid) && Moves(mid, last, w');
        HeldStays(w, init, mid, who, index);
        NextKeeps(mid, last, who, index);
      }
    }

    // -------------------------------------------------------------------------------------------
    // Main result
    // -------------------------------------------------------------------------------------------

    /** The peer had the chunk from the start, or it reached it since. */
    ghost predicate Supplied(w: World, acts: seq<Act>, who: nat, i: nat)
      requires who < |w.peers| && i <= MAX_INT32
    {
      Holds(w.peers[who].store, fileId, i) || Reached(acts, who, i, false)
    }

    /**
     * A peer that every chunk reached, from whomever, through whomever, in whatever order and with
     * whatever failing writes, holds the original file, or a chunk that collides with an original one;
     * and it confirms each chunk that reached it at least once without a failed write.
     */
    lemma SwarmDelivers(w: World, acts: seq<Act>, w': World, who: nat, disk: Disk)
      requires Valid() && AllVouched(w) && Leads(w, acts, w') && who < |w.peers|
      requires forall i: nat :: i < ChunksNeeded(|data|) ==> Supplied(w, acts, who, i)
      ensures |w'.peers| == |w.peers|
      ensures var st := w'.peers[who].store;
        || Gather(st, disk, fileId, ChunksNeeded(|data|)) == Assembled(data)
        || exists i :: Forged(h, st, fileId, data, i)
      ensures forall i: Int32 :: Reached(acts, who, i, true) ==> Confirmed(c, w'.peers[who], fileId, i)
    {
      RunVouches(w, acts, w');
      var st := w'.peers[who].store;
      forall i: nat | i < ChunksNeeded(|data|)
        ensures Vouched(h, st, fileId, data, i)
      {
        assert Supplied(w, acts, who, i);
        if Reached(acts, who, i, false) {
          ReachedStays(w, acts, w', who, i, false);
        } else {
          HeldStays(w, acts, w', who, i);
        }
        assert PeerVouched(w'.peers[who]);
      }
      VouchedGathers(h, st, disk, fileId, data);
      forall i: Int32 | Reached(acts, who, i, true)
        ensures Confirmed(c, w'.peers[who], fileId, i)
      {
        ReachedStays(w, acts, w', who, i, true);
      }
    }

    /** Such a run may start from an uploader, failed writes and all, among peers without a chunk of the file. */
    lemma UploadStarts(w: World, who: nat, fileName: Bytes, persist: Persist)
      requires Valid() && w.sent == {} && who < |w.peers|
      requires forall p :: p in w.peers ==> forall i: Int32 :: !Holds(p.store, fileId, i)
      ensures AllVouched(w.(peers := w.peers[who := Do(h, c, w.peers[who], Upload(fileId, fileName, data, persist))]))
    {
      assert w.peers[who] in w.peers;
      UploadVouches(w.peers[who], fileName, persist);
    }

    lemma UploadVouches(p: Peer, fileName: Bytes, persist: Persist)
      requires Valid() && forall i: Int32 :: !Holds(p.store, fileId, i)
      ensures PeerVouched(Do(h, c, p, Upload(fileId, fileName, data, persist)))
    {
      var n := ChunkCount(|data|);
      var p' := Do(h, c, p, Upload(fileId, fileName, data, persist));
      var k := Persisted(persist, n);
      forall i: nat | i < ChunksNeeded(|data|) && Holds(p'.store, fileId, i)
        ensures Vouched(h, p'.store, fileId, data, i)
      {
        assert !Holds(p.store, fileId, i);
        ChunksStored(p.store.chunks, fileId, data, if k < n then k + 1 else n, fileId, i);
      }
    }
  }
}
