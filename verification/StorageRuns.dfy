/**
 * Runs of one peer's storage in which each locked section is one step.  Storing chunks and adding
 * their keys to the filter are steps of their own, so other operations may come between them, and a
 * question about a chunk reads the filter in one state and the store in a later one.
 */
module StorageRuns {
  import opened GoTypes
  import opened Keys
  import opened Merkle
  import opened Chunks
  import opened Bloom
  import opened BloomProofs
  import opened Manager
  import opened PeerRuns

  /** A chunk that an operation has stored and has yet to add to the filter. */
  type Debt = (Bytes, Int32)

  datatype Storage = Storage(store: Store, bits: set<nat>, owed: multiset<Debt>)

  /** The store section of an upload or a receipt, or the filter section for one of its chunks. */
  datatype Event =
    | Stores(op: PeerOp)
    | Indexes(fileId: Bytes, index: Int32)

  const START: Storage := Storage(EMPTY.store, {}, multiset{})

  function Debts(fileId: Bytes, i: nat, n: nat): multiset<Debt>
    requires n <= MAX_INT32
    decreases n - i
  {
    if i >= n then multiset{} else multiset{(fileId, i)} + Debts(fileId, i + 1, n)
  }

  /** The chunks an operation goes on to index: all it stored, unless a write failed. */
  function Owes(h: HashFn, op: PeerOp): multiset<Debt> {
    if PersistFails(h, op) then multiset{}
    else
      match op
      case Upload(fileId, _, data, _) => Debts(fileId, 0, if ChunkCount(|data|) < 0 then 0 else ChunkCount(|data|))
      case Receive(fileId, index, data, expected, _) =>
        if h(data) == expected then multiset{(fileId, index)} else multiset{}
  }

  predicate Enabled(s: Storage, e: Event) {
    e.Indexes? ==> (e.fileId, e.index) in s.owed
  }

  function Next(h: HashFn, c: Config, s: Storage, e: Event): Storage
    requires c.Valid()
  {
    match e
    case Stores(op) => s.(store := Do(h, c, Peer(s.store, {}), op).store, owed := s.owed + Owes(h, op))
    case Indexes(fileId, index) =>
      var positions := Positions(c.hs, c.m, c.k, BloomKey(fileId, index));
      s.(bits := s.bits + positions, owed := s.owed - multiset{(fileId, index)})
  }

  function After(h: HashFn, c: Config, s: Storage, events: seq<Event>): Storage
    requires c.Valid()
  {
    if events == [] then s else Next(h, c, After(h, c, s, events[..|events| - 1]), events[|events| - 1])
  }

  ghost predicate AllEnabled(h: HashFn, c: Config, s: Storage, events: seq<Event>)
    requires c.Valid()
  {
    events == [] ||
    (AllEnabled(h, c, s, events[..|events| - 1]) &&
     Enabled(After(h, c, s, events[..|events| - 1]), events[|events| - 1]))
  }

  /** Some step stored the chunk; some step did so without a failed write. */
  ghost predicate StoredBy(h: HashFn, events: seq<Event>, fileId: Bytes, index: Int32) {
    exists e :: e in events && e.Stores? && Brings(h, e.op, fileId, index)
  }

  ghost predicate StoredWell(h: HashFn, events: seq<Event>, fileId: Bytes, index: Int32) {
    exists e :: e in events && e.Stores? && Brings(h, e.op, fileId, index) && !PersistFails(h, e.op)
  }

  predicate Mights(c: Config, s: Storage, fileId: Bytes, index: Int32)
    requires c.Valid()
  {
    Positions(c.hs, c.m, c.k, BloomKey(fileId, index)) <= s.bits
  }

  // ---------------------------------------------------------------------------------------------
  // What every run keeps
  // ---------------------------------------------------------------------------------------------

  lemma {:induction false} DebtsHold(fileId: Bytes, i: nat, n: nat, d: Debt)
    requires n <= MAX_INT32
    ensures d in Debts(fileId, i, n) <==> d.0 == fileId && i <= d.1 < n
    decreases n - i
  {
    if i < n {
      DebtsHold(fileId, i + 1, n, d);
    }
  }

  /** An operation owes exactly the chunks it brings, if no write failed. */
  lemma OwesWhatItBrings(h: HashFn, op: PeerOp, fileId: Bytes, index: Int32)
    ensures (fileId, index) in Owes(h, op) <==> Brings(h, op, fileId, index) && !PersistFails(h, op)
  {
    if op.Upload? && ChunkCount(|op.data|) >= 0 {
      DebtsHold(op.fileId, 0, ChunkCount(|op.data|), (fileId, index));
    }
  }

  /** The store of a run holds exactly what its steps stored. */
  lemma {:induction false} HeldWasStored(h: HashFn, c: Config, events: seq<Event>, fileId: Bytes, index: Int32)
    requires c.Valid()
    ensures Holds(After(h, c, START, events).store, fileId, index) <==> StoredBy(h, events, fileId, index)
  {
    if events != [] {
      var init, last := events[..|events| - 1], events[|events| - 1];
      assert events == init + [last];
      HeldWasStored(h, c, init, fileId, index);
      if last.Stores? {
        DoHolds(h, c, Peer(After(h, c, START, init).store, {}), last.op, fileId, index);
      }
    }
  }

  lemma StoredWellGrows(h: HashFn, events: seq<Event>, e: Event, fileId: Bytes, index: Int32)
    ensures StoredWell(h, events + [e], fileId, index) <==>
      StoredWell(h, events, fileId, index) || (e.Stores? && (fileId, index) in Owes(h, e.op))
  {
    if e.Stores? {
      OwesWhatItBrings(h, e.op, fileId, index);
    }
    if StoredWell(h, events, fileId, index) {
      var e' :| e' in events && e'.Stores? && Brings(h, e'.op, fileId, index) && !PersistFails(h, e'.op);
      assert e' in events + [e];
    }
    if e.Stores? && (fileId, index) in Owes(h, e.op) {
      assert e in events + [e];
    }
  }

  /** A chunk stored without a failed write is owed to the filter or in it. */
  lemma {:induction false} OwedOrIndexed(h: HashFn, c: Config, events: seq<Event>, fileId: Bytes, index: Int32)
    requires c.Valid() && StoredWell(h, events, fileId, index)
    ensures var s := After(h, c, START, events);
      (fileId, index) in s.owed || Mights(c, s, fileId, index)
  {
    var init, last := events[..|events| - 1], events[|events| - 1];
    assert events == init + [last];
    StoredWellGrows(h, init, last, fileId, index);
    if StoredWell(h, init, fileId, index) {
      OwedOrIndexed(h, c, init, fileId, index);
    }
  }

  /** And only such a chunk is ever owed. */
  lemma {:induction false} OwedWasStoredWell(h: HashFn, c: Config, events: seq<Event>, fileId: Bytes, index: Int32)
    requires c.Valid() && (fileId, index) in After(h, c, START, events).owed
    ensures StoredWell(h, events, fileId, index)
  {
    var init, last := events[..|events| - 1], events[|events| - 1];
    assert events == init + [last];
    StoredWellGrows(h, init, last, fileId, index);
    if (fileId, index) in After(h, c, START, init).owed {
      OwedWasStoredWell(h, c, init, fileId, index);
    }
  }

  // ---------------------------------------------------------------------------------------------
  // Settled runs are runs of whole operations
  // ---------------------------------------------------------------------------------------------

  /** The operations of a run, in the order of their store sections. */
  function Ops(events: seq<Event>): seq<PeerOp> {
    if events == [] then []
    else
      var last := events[|events| - 1];
      Ops(events[..|events| - 1]) + if last.Stores? then [last.op] else []
  }

  lemma {:induction false} OpsHold(events: seq<Event>, op: PeerOp)
    ensures op in Ops(events) <==> Stores(op) in events
  {
    if events != [] {
      var init, last := events[..|events| - 1], events[|events| - 1];
      assert events == init + [last];
      OpsHold(init, op);
    }
  }

  lemma WellStoredWasBrought(h: HashFn, events: seq<Event>, fileId: Bytes, index: Int32)
    ensures StoredWell(h, events, fileId, index) <==> BroughtWell(h, Ops(events), fileId, index)
  {
    if StoredWell(h, events, fileId, index) {
      var e :| e in events && e.Stores? && Brings(h, e.op, fileId, index) && !PersistFails(h, e.op);
      OpsHold(events, e.op);
    }
    if BroughtWell(h, Ops(events), fileId, index) {
      var op :| op in Ops(events) && Brings(h, op, fileId, index) && !PersistFails(h, op);
      OpsHold(events, op);
      assert Stores(op) in events;
    }
  }

  /** What an operation does to the store does not depend on the filter. */
  lemma DoIgnoresBits(h: HashFn, c: Config, store: Store, bits: set<nat>, op: PeerOp)
    requires c.Valid()
    ensures Do(h, c, Peer(store, {}), op).store == Do(h, c, Peer(store, bits), op).store
  {
  }

  lemma {:induction false} SameStore(h: HashFn, c: Config, events: seq<Event>)
    requires c.Valid()
    ensures After(h, c, START, events).store == DoAll(h, c, EMPTY, Ops(events)).store
  {
    if events != [] {
      var init, last := events[..|events| - 1], events[|events| - 1];
      SameStore(h, c, init);
      if last.Stores? {
        var before := DoAll(h, c, EMPTY, Ops(init));
        DoIgnoresBits(h, c, before.store, before.bits, last.op);
        assert Ops(events)[..|Ops(init)|] == Ops(init);
      } else {
        assert Ops(events) == Ops(init);
      }
    }
  }

  /** `p` is a position of a chunk that was stored without a failed write. */
  ghost predicate KeyPosition(h: HashFn, c: Config, events: seq<Event>, p: nat)
    requires c.Valid()
  {
    exists fileId, index ::
      StoredWell(h, events, fileId, index) && p in Positions(c.hs, c.m, c.k, BloomKey(fileId, index))
  }

  lemma KeyPositionGrows(h: HashFn, c: Config, events: seq<Event>, e: Event, p: nat)
    requires c.Valid() && KeyPosition(h, c, events, p)
    ensures KeyPosition(h, c, events + [e], p)
  {
    var f, i :| StoredWell(h, events, f, i) && p in Positions(c.hs, c.m, c.k, BloomKey(f, i));
    StoredWellGrows(h, events, e, f, i);
    assert StoredWell(h, events + [e], f, i);
  }

  lemma NewBitIsKeyPosition(h: HashFn, c: Config, events: seq<Event>, e: Event, p: nat)
    requires c.Valid() && Enabled(After(h, c, START, events), e)
    requires p !in After(h, c, START, events).bits && p in Next(h, c, After(h, c, START, events), e).bits
    ensures KeyPosition(h, c, events, p)
  {
    OwedWasStoredWell(h, c, events, e.fileId, e.index);
  }

  lemma OneMoreEvent(h: HashFn, c: Config, events: seq<Event>)
    requires c.Valid() && events != []
    ensures var init, last := events[..|events| - 1], events[|events| - 1];
      && events == init + [last]
      && After(h, c, START, events) == Next(h, c, After(h, c, START, init), last)
      && (AllEnabled(h, c, START, events) ==>
            AllEnabled(h, c, START, init) && Enabled(After(h, c, START, init), last))
  {
  }

  /** The filter never holds a position of anything else. */
  lemma {:induction false} BitsAreKeyPositions(h: HashFn, c: Config, events: seq<Event>, p: nat)
    requires c.Valid() && AllEnabled(h, c, START, events) && p in After(h, c, START, events).bits
    ensures KeyPosition(h, c, events, p)
  {
    if events != [] {
      var init, last := events[..|events| - 1], events[|events| - 1];
      OneMoreEvent(h, c, events);
      if p in After(h, c, START, init).bits {
        BitsAreKeyPositions(h, c, init, p);
      } else {
        NewBitIsKeyPosition(h, c, init, last, p);
      }
      KeyPositionGrows(h, c, init, last, p);
    }
  }

  lemma SettledBit(h: HashFn, c: Config, events: seq<Event>, p: nat)
    requires c.Valid() && AllEnabled(h, c, START, events) && After(h, c, START, events).owed == multiset{}
    ensures p in After(h, c, START, events).bits <==> p in DoAll(h, c, EMPTY, Ops(events)).bits
  {
    BitsExact(h, c, Ops(events), p);
    if p in After(h, c, START, events).bits {
      BitsAreKeyPositions(h, c, events, p);
      var f, i :| StoredWell(h, events, f, i) && p in Positions(c.hs, c.m, c.k, BloomKey(f, i));
      WellStoredWasBrought(h, events, f, i);
    }
    if Indexed(h, c, Ops(events), p) {
      var f, i :| BroughtWell(h, Ops(events), f, i) && p in Positions(c.hs, c.m, c.k, BloomKey(f, i));
      WellStoredWasBrought(h, events, f, i);
      OwedOrIndexed(h, c, events, f, i);
    }
  }

  /**
   * However the sections of operations are interleaved, once nothing is owed to the filter the peer
   * is as if the operations had been carried out whole, one after the other.
   */
  lemma SettledIsSequential(h: HashFn, c: Config, events: seq<Event>)
    requires c.Valid() && AllEnabled(h, c, START, events) && After(h, c, START, events).owed == multiset{}
    ensures var s := After(h, c, START, events);
      Peer(s.store, s.bits) == DoAll(h, c, EMPTY, Ops(events))
  {
    SameStore(h, c, events);
    forall p
      ensures p in After(h, c, START, events).bits <==> p in DoAll(h, c, EMPTY, Ops(events)).bits
    {
      SettledBit(h, c, events, p);
    }
  }

  // ---------------------------------------------------------------------------------------------
  // Questions about a chunk, with other steps between their two reads
  // ---------------------------------------------------------------------------------------------

  /** The handler's answer: the filter as it is after `events`, the store as it is after `between` more steps. */
  predicate TornAnswer(h: HashFn, c: Config, events: seq<Event>, between: seq<Event>, fileId: Bytes, index: Int32)
    requires c.Valid()
  {
    Mights(c, After(h, c, START, events), fileId, index) &&
    Holds(After(h, c, START, events + between).store, fileId, index)
  }

  /** No chunk ever leaves the store. */
  lemma {:induction false} StaysStored(
    h: HashFn, c: Config, events: seq<Event>, more: seq<Event>, fileId: Bytes, index: Int32)
    requires c.Valid() && Holds(After(h, c, START, events).store, fileId, index)
    ensures Holds(After(h, c, START, events + more).store, fileId, index)
  {
    HeldWasStored(h, c, events, fileId, index);
    HeldWasStored(h, c, events + more, fileId, index);
    var e :| e in events && e.Stores? && Brings(h, e.op, fileId, index);
    assert e in events + more;
  }

  /** No step before had a failed write. */
  ghost predicate NoFailures(h: HashFn, events: seq<Event>) {
    forall e :: e in events && e.Stores? ==> !PersistFails(h, e.op)
  }

  /**
   * An answer between two moments: it says yes if the chunk was stored without a failed write and
   * no longer owed when the filter was read, which every stored chunk was if no write has failed; and
   * a yes means that the chunk is stored when the store is read and ever after.
   */
  lemma TornAnswerIsBetween(
    h: HashFn, c: Config, events: seq<Event>, between: seq<Event>, more: seq<Event>, fileId: Bytes, index: Int32)
    requires c.Valid()
    ensures NoFailures(h, events) && Holds(After(h, c, START, events).store, fileId, index) ==>
      StoredWell(h, events, fileId, index)
    ensures StoredWell(h, events, fileId, index) && (fileId, index) !in After(h, c, START, events).owed ==>
      TornAnswer(h, c, events, between, fileId, index)
    ensures TornAnswer(h, c, events, between, fileId, index) ==>
      Holds(After(h, c, START, events + between + more).store, fileId, index)
  {
    HeldWasStored(h, c, events, fileId, index);
    if NoFailures(h, events) && StoredBy(h, events, fileId, index) {
      var e :| e in events && e.Stores? && Brings(h, e.op, fileId, index);
      assert StoredWell(h, events, fileId, index);
    }
    if StoredWell(h, events, fileId, index) {
      StaysStored(h, c, events, between, fileId, index);
      OwedOrIndexed(h, c, events, fileId, index);
    }
    if TornAnswer(h, c, events, between, fileId, index) {
      StaysStored(h, c, events + between, more, fileId, index);
    }
  }
}
