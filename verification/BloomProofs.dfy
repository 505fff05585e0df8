/** What a Bloom filter remembers over whole runs of additions and merges. */
module BloomProofs {
  import opened GoTypes
  import opened Bloom

  /** The parameters of a filter: hashes, number of bits and number of hashes. */
  datatype Config = Config(hs: Hashes, m: int, k: int) {
    ghost predicate Valid() {
      0 < m
    }
  }

  datatype FilterOp =
    | AddKey(key: Bytes)
    | MergeBits(bits: set<nat>)

  function Step(c: Config, bits: set<nat>, op: FilterOp): set<nat>
    requires c.Valid()
  {
    match op
    case AddKey(key) => bits + Positions(c.hs, c.m, c.k, key)
    case MergeBits(other) => bits + other
  }

  function RunAll(c: Config, bits: set<nat>, ops: seq<FilterOp>): set<nat>
    requires c.Valid()
  {
    if ops == [] then bits else Step(c, RunAll(c, bits, ops[..|ops| - 1]), ops[|ops| - 1])
  }

  function Adds(keys: seq<Bytes>): (ops: seq<FilterOp>)
    ensures |ops| == |keys|
  {
    seq(|keys|, i requires 0 <= i < |keys| => AddKey(keys[i]))
  }

  function KeySet(keys: seq<Bytes>): set<Bytes> {
    set key | key in keys
  }

  /** Hash `i` of a key, as double hashing defines it. */
  function HashAt(c: Config, key: Bytes, i: nat): int
    requires c.Valid()
  {
    (c.hs.fnv1a(key) + i * c.hs.fnv1(key)) % TWO_32 % c.m
  }

  /** `p` is one of the first `k` hashes of some key. */
  ghost predicate Hit(c: Config, keys: set<Bytes>, p: nat)
    requires c.Valid()
  {
    exists key, i: nat :: key in keys && i < c.k && p == HashAt(c, key, i)
  }

  lemma PositionsAre(c: Config, key: Bytes, p: nat)
    requires c.Valid()
    ensures p in Positions(c.hs, c.m, c.k, key) <==> exists i: nat :: i < c.k && p == HashAt(c, key, i)
  {
    var h1, h2 := c.hs.fnv1a(key), c.hs.fnv1(key);
    forall i: nat
      ensures Position(c.m, h1, h2, i) == HashAt(c, key, i)
    {
      CombinedHashIs(h1, h2, i);
    }
  }

  lemma {:induction false} AddsCollect(c: Config, keys: seq<Bytes>, p: nat)
    requires c.Valid()
    ensures p in RunAll(c, {}, Adds(keys)) <==> exists key :: key in keys && p in Positions(c.hs, c.m, c.k, key)
  {
    if keys != [] {
      var init, last := keys[..|keys| - 1], keys[|keys| - 1];
      AddsCollect(c, init, p);
      assert Adds(keys)[..|keys| - 1] == Adds(init);
      assert keys == init + [last];
    }
  }

  /** From an empty filter, a bit is set exactly when it is the position of a hash of an added key. */
  lemma AddsExact(c: Config, keys: seq<Bytes>, p: nat)
    requires c.Valid()
    ensures p in RunAll(c, {}, Adds(keys)) <==> Hit(c, KeySet(keys), p)
  {
    AddsCollect(c, keys, p);
    if p in RunAll(c, {}, Adds(keys)) {
      var key :| key in keys && p in Positions(c.hs, c.m, c.k, key);
      PositionsAre(c, key, p);
      assert key in KeySet(keys);
    }
    if Hit(c, KeySet(keys), p) {
      var key, i: nat :| key in KeySet(keys) && i < c.k && p == HashAt(c, key, i);
      PositionsAre(c, key, p);
    }
  }

  /** The order and the number of additions do not matter. */
  lemma AddOrderIrrelevant(c: Config, a: seq<Bytes>, b: seq<Bytes>)
    requires c.Valid() && (forall key :: key in a <==> key in b)
    ensures RunAll(c, {}, Adds(a)) == RunAll(c, {}, Adds(b))
  {
    forall p: nat
      ensures p in RunAll(c, {}, Adds(a)) <==> p in RunAll(c, {}, Adds(b))
    {
      AddsCollect(c, a, p);
      AddsCollect(c, b, p);
    }
  }

  /** Bits are never cleared: an answer "maybe" stays "maybe" through any additions and merges. */
  lemma {:induction false} NeverForgets(c: Config, bits: set<nat>, ops: seq<FilterOp>)
    requires c.Valid()
    ensures bits <= RunAll(c, bits, ops)
  {
    if ops != [] {
      NeverForgets(c, bits, ops[..|ops| - 1]);
    }
  }

  /** No false negatives: a key added at any point of any run is found ever after. */
  lemma {:induction false} NoFalseNegatives(c: Config, bits: set<nat>, ops: seq<FilterOp>, key: Bytes)
    requires c.Valid() && AddKey(key) in ops
    ensures Positions(c.hs, c.m, c.k, key) <= RunAll(c, bits, ops)
  {
    var init, last := ops[..|ops| - 1], ops[|ops| - 1];
    if last != AddKey(key) {
      assert ops == init + [last];
      NoFalseNegatives(c, bits, init, key);
    }
  }

  /** Merging two filters of one configuration gives the filter of both key lists. */
  lemma MergeIsUnion(c: Config, a: seq<Bytes>, b: seq<Bytes>)
    requires c.Valid()
    ensures Step(c, RunAll(c, {}, Adds(a)), MergeBits(RunAll(c, {}, Adds(b)))) == RunAll(c, {}, Adds(a + b))
  {
    forall p: nat
      ensures p in RunAll(c, {}, Adds(a + b)) <==> p in RunAll(c, {}, Adds(a)) || p in RunAll(c, {}, Adds(b))
    {
      AddsCollect(c, a, p);
      AddsCollect(c, b, p);
      AddsCollect(c, a + b, p);
    }
  }
}
