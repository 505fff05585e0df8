/** What a root hash identifies: a list of digests of known length, and a file up to what it may be mistaken for. */
module RootLimits {
  import opened GoTypes
  import opened Merkle
  import opened Chunks
  import opened ChunkProofs

  // ---------------------------------------------------------------------------------------------
  // Lists of different lengths
  // ---------------------------------------------------------------------------------------------

  lemma TreeJoins(h: HashFn, all: seq<Bytes>, a: seq<Bytes>, b: seq<Bytes>)
    requires |all| >= 2 && |a| == SplitPoint(|all|) && all == a + b
    ensures TreeOf(h, all) == Combine(h, TreeOf(h, a), TreeOf(h, b))
  {
    assert all[..|a|] == a && all[|a|..] == b;
  }

  lemma RootJoins(h: HashFn, all: seq<Bytes>, a: seq<Bytes>, b: seq<Bytes>)
    requires |all| >= 2 && |a| == SplitPoint(|all|) && all == a + b
    ensures Root(h, all) == h(Root(h, a) + Root(h, b))
  {
    TreeJoins(h, all, a, b);
  }

  lemma RootOfOne(h: HashFn, x: Bytes)
    ensures Root(h, [x]) == x
  {
  }

  /** Digest lists of these two lengths with one root. */
  ghost predicate OneRoot(h: HashFn, a: seq<Bytes>, b: seq<Bytes>, m: nat, n: nat) {
    |a| == m && |b| == n && AllDigests(a) && AllDigests(b) && Root(h, a) == Root(h, b)
  }

  lemma DigestsOfOneRoot(h: HashFn, n: nat) returns (x: seq<Bytes>, b: seq<Bytes>)
    requires HexDigests(h) && n > 0
    ensures OneRoot(h, x, b, 1, n)
  {
    b := seq(n, _ => h([]));
    RootIsDigest(h, b);
    RootOfOne(h, Root(h, b));
    x := [Root(h, b)];
  }

  lemma JoinedDigests(a: seq<Bytes>, b: seq<Bytes>)
    requires AllDigests(a) && AllDigests(b)
    ensures AllDigests(a + b)
  {
  }

  lemma OneRootJoins(
    h: HashFn, l: seq<Bytes>, l': seq<Bytes>, r: seq<Bytes>, r': seq<Bytes>, m: nat, n: nat)
    requires m >= 2 && n >= 2
    requires OneRoot(h, l, l', SplitPoint(m), SplitPoint(n)) && OneRoot(h, r, r', m - SplitPoint(m), n - SplitPoint(n))
    ensures OneRoot(h, l + r, l' + r', m, n)
  {
    JoinedDigests(l, r);
    JoinedDigests(l', r');
    RootJoins(h, l + r, l, r);
    RootJoins(h, l' + r', l', r');
  }

  /** Under any hash there are digest lists of any two lengths with one root. */
  lemma {:induction false} SharedRoot(h: HashFn, m: nat, n: nat) returns (a: seq<Bytes>, b: seq<Bytes>)
    requires HexDigests(h) && m > 0 && n > 0
    ensures OneRoot(h, a, b, m, n)
    decreases m + n
  {
    if m == 1 {
      a, b := DigestsOfOneRoot(h, n);
    } else if n == 1 {
      b, a := DigestsOfOneRoot(h, m);
    } else {
      var l, l' := SharedRoot(h, SplitPoint(m), SplitPoint(n));
      var r, r' := SharedRoot(h, m - SplitPoint(m), n - SplitPoint(n));
      OneRootJoins(h, l, l', r, r', m, n);
      a, b := l + r, l' + r';
    }
  }

  /** A root tells any two digest lists of these lengths apart, unless their trees collide. */
  ghost predicate RootDecides(h: HashFn, m: nat, n: nat) {
    forall a, b :: OneRoot(h, a, b, m, n) ==> a == b || (a != [] && b != [] && |a| == |b| && TreesCollide(h, a, b))
  }

  ghost predicate TreesCollide(h: HashFn, a: seq<Bytes>, b: seq<Bytes>)
    requires a != [] && b != []
  {
    Collide(h, TreeOf(h, a), TreeOf(h, b))
  }

  /** A root binds digest lists of two lengths exactly when the lengths are equal or one of them is zero. */
  lemma LengthsExact(h: HashFn, m: nat, n: nat)
    requires HexDigests(h)
    ensures RootDecides(h, m, n) <==> m == n || m == 0 || n == 0
  {
    if m == n || m == 0 || n == 0 {
      forall a, b | OneRoot(h, a, b, m, n)
        ensures a == b || (a != [] && b != [] && |a| == |b| && TreesCollide(h, a, b))
      {
        EqualLengthsDecide(h, a, b);
      }
    } else {
      var a, b := SharedRoot(h, m, n);
      assert OneRoot(h, a, b, m, n);
    }
  }

  lemma {:induction false} ConstantTree(h: HashFn, x: Bytes, n: nat)
    requires n > 0 && forall y :: h(y) == x
    ensures TreeOf(h, seq(n, _ => x)).hash == x && Hashed(TreeOf(h, seq(n, _ => x))) <= {x + x}
  {
    if n > 1 {
      var k := SplitPoint(n);
      ConstantTree(h, x, k);
      ConstantTree(h, x, n - k);
      TreeJoins(h, seq(n, _ => x), seq(k, _ => x), seq(n - k, _ => x));
    }
  }

  /** Lists of any two lengths can have one root without any collision between their trees. */
  lemma NoCollisionNeeded(m: nat, n: nat) returns (h: HashFn, a: seq<Bytes>, b: seq<Bytes>)
    requires m > 0 && n > 0
    ensures HexDigests(h) && OneRoot(h, a, b, m, n) && a != [] && b != [] && !TreesCollide(h, a, b)
  {
    var x: Bytes := seq(DIGEST_LENGTH, _ => 0);
    h, a, b := _ => x, seq(m, _ => x), seq(n, _ => x);
    ConstantTree(h, x, m);
    ConstantTree(h, x, n);
  }

  lemma EqualLengthsDecide(h: HashFn, a: seq<Bytes>, b: seq<Bytes>)
    requires HexDigests(h) && AllDigests(a) && AllDigests(b) && Root(h, a) == Root(h, b)
    requires |a| == |b| || a == [] || b == []
    ensures a == b || (a != [] && b != [] && |a| == |b| && TreesCollide(h, a, b))
  {
    if a != [] {
      RootIsDigest(h, a);
    }
    if b != [] {
      RootIsDigest(h, b);
    }
    if |a| == |b| {
      RootBinds(h, a, b);
    }
  }

  /** Two entries against their joined digest; and entries that are no digests, against others of the same bytes. */
  lemma LengthsMatter(h: HashFn, x: Bytes, y: Bytes)
    ensures Root(h, [x, y]) == Root(h, [h(x + y)])
    ensures Root(h, [x, y]) == Root(h, [x + y, []])
  {
    TwoLeaves(h, x, y);
    TwoLeaves(h, x + y, []);
    assert x + y + [] == x + y;
  }

  lemma TwoLeaves(h: HashFn, x: Bytes, y: Bytes)
    ensures Root(h, [x, y]) == h(x + y)
  {
    assert SplitPoint(2) == 1;
    assert [x, y][..1] == [x] && [x, y][1..] == [y];
    assert TreeOf(h, [x]) == Leaf(x) && TreeOf(h, [y]) == Leaf(y);
    assert TreeOf(h, [x, y]) == Combine(h, TreeOf(h, [x, y][..1]), TreeOf(h, [x, y][1..]));
  }

  // ---------------------------------------------------------------------------------------------
  // Root hashes of files
  // ---------------------------------------------------------------------------------------------

  /** The digests of all chunks of a file, and its root hash. */
  function FileHashes(h: HashFn, data: Bytes): (hashes: seq<Bytes>)
    ensures |hashes| == ChunksNeeded(|data|)
  {
    ChunkHashes(h, data, ChunksNeeded(|data|))
  }

  function FileRoot(h: HashFn, data: Bytes): Bytes {
    Root(h, FileHashes(h, data))
  }

  lemma {:induction false} SameChunksSamePrefix(a: Bytes, b: Bytes, n: nat)
    requires n <= ChunksNeeded(|a|) == ChunksNeeded(|b|)
    requires forall i: nat :: i < n ==> ChunkAt(a, i) == ChunkAt(b, i)
    ensures Prefix(a, n) == Prefix(b, n)
  {
    if n > 0 {
      SameChunksSamePrefix(a, b, n - 1);
      PrefixGrows(a, n);
      PrefixGrows(b, n);
    }
  }

  /** Chunk `i` of the two files differs but has one digest. */
  ghost predicate ChunksCollide(h: HashFn, a: Bytes, b: Bytes, i: nat) {
    && i < ChunksNeeded(|a|) && i < ChunksNeeded(|b|)
    && ChunkAt(a, i) != ChunkAt(b, i) && h(ChunkAt(a, i)) == h(ChunkAt(b, i))
  }

  lemma SameHashesSameFile(h: HashFn, a: Bytes, b: Bytes)
    requires ChunksNeeded(|a|) == ChunksNeeded(|b|) <= MAX_INT32
    requires ChunkHashes(h, a, ChunksNeeded(|a|)) == ChunkHashes(h, b, ChunksNeeded(|b|))
    ensures a == b || exists i :: ChunksCollide(h, a, b, i)
  {
    var n := ChunksNeeded(|a|);
    if forall i: nat :: i < n ==> ChunkAt(a, i) == ChunkAt(b, i) {
      SameChunksSamePrefix(a, b, n);
      PrefixIsAll(a);
      PrefixIsAll(b);
    } else {
      var i: nat :| i < n && ChunkAt(a, i) != ChunkAt(b, i);
      assert ChunkHashes(h, a, n)[i] == h(ChunkAt(a, i)) && ChunkHashes(h, b, n)[i] == h(ChunkAt(b, i));
      assert ChunksCollide(h, a, b, i);
    }
  }


  /** A chunk of the file differs from an input that the tree of the hashes hashed, but has its digest. */
  ghost predicate ChunkMeetsNode(h: HashFn, data: Bytes, hashes: seq<Bytes>)
    requires hashes != []
  {
    exists i, x ::
      && 0 <= i < ChunksNeeded(|data|) && x in Hashed(TreeOf(h, hashes))
      && ChunkAt(data, i) != x && h(ChunkAt(data, i)) == h(x)
  }

  /** Two different inputs with one digest, each a chunk or hashed by the tree of one of the files. */
  ghost predicate FilesCollide(h: HashFn, a: Bytes, b: Bytes) {
    || (exists i :: ChunksCollide(h, a, b, i))
    || (a != [] && b != [] &&
          (TreesCollide(h, FileHashes(h, a), FileHashes(h, b))
           || ChunkMeetsNode(h, a, FileHashes(h, b)) || ChunkMeetsNode(h, b, FileHashes(h, a))))
  }

  /** A chunk of the file is itself two digests that the tree of the hashes joined. */
  ghost predicate ShowsNode(h: HashFn, data: Bytes, hashes: seq<Bytes>)
    requires hashes != []
  {
    exists i :: 0 <= i < ChunksNeeded(|data|) && ChunkAt(data, i) in Hashed(TreeOf(h, hashes))
  }

  lemma {:induction false} HashedLength(h: HashFn, t: Tree)
    requires HexDigests(h) && Authentic(h, t) && DigestLeaves(t)
    ensures forall x :: x in Hashed(t) ==> |x| == 2 * DIGEST_LENGTH
  {
    if t.Join? {
      HashedLength(h, t.left);
      HashedLength(h, t.right);
      RootOfDigestLeaves(h, t.left);
      RootOfDigestLeaves(h, t.right);
    }
  }

  lemma HashedByFile(h: HashFn, data: Bytes)
    requires HexDigests(h) && data != []
    ensures AllDigests(FileHashes(h, data))
    ensures forall x :: x in Hashed(TreeOf(h, FileHashes(h, data))) ==> |x| == 2 * DIGEST_LENGTH
  {
    var hashes := FileHashes(h, data);
    ChunkHashesAreDigests(h, data, ChunksNeeded(|data|));
    TreesOfOneLength(h, hashes, hashes);
    TreeShape(h, hashes);
    HashedLength(h, TreeOf(h, hashes));
  }

  /** Only a last chunk of 128 bytes can be such a node. */
  lemma NodeChunkIsLast(h: HashFn, a: Bytes, b: Bytes)
    requires HexDigests(h) && b != [] && ShowsNode(h, a, FileHashes(h, b))
    ensures |a| % CHUNK_SIZE == 2 * DIGEST_LENGTH
  {
    HashedByFile(h, b);
    var i :| 0 <= i < ChunksNeeded(|a|) && ChunkAt(a, i) in Hashed(TreeOf(h, FileHashes(h, b)));
    ChunkBounds(a, i);
    LastChunkLength(a, i);
  }

  lemma LastChunkLength(data: Bytes, i: nat)
    requires i < ChunksNeeded(|data|) && |ChunkAt(data, i)| < CHUNK_SIZE
    ensures |data| % CHUNK_SIZE == |ChunkAt(data, i)|
  {
  }

  lemma ForgedLeaf(h: HashFn, a: Bytes, b: Bytes)
    requires a != [] && b != []
    requires LeafForges(h, TreeOf(h, FileHashes(h, a)), TreeOf(h, FileHashes(h, b)))
    ensures ChunkMeetsNode(h, a, FileHashes(h, b)) || ShowsNode(h, a, FileHashes(h, b))
  {
    var ha, hb := FileHashes(h, a), FileHashes(h, b);
    TreeShape(h, ha);
    var i, x :| 0 <= i < |ha| && x in Hashed(TreeOf(h, hb)) && LeafHashes(TreeOf(h, ha))[i] == h(x);
    assert ha[i] == h(ChunkAt(a, i));
  }

  lemma EmptyRoot(h: HashFn, data: Bytes)
    requires HexDigests(h)
    ensures FileRoot(h, data) == [] <==> data == []
  {
    if data != [] {
      ChunkHashesAreDigests(h, data, ChunksNeeded(|data|));
      RootIsDigest(h, FileHashes(h, data));
    }
  }

  /**
   * Two files with one root are equal, or two different inputs of theirs have one digest, or the last
   * chunk of one is two joined digests of the other.  The last case falls away if neither file has 128
   * bytes in its last chunk, or if they have equally many chunks.
   */
  lemma RootIdentifiesFile(h: HashFn, a: Bytes, b: Bytes)
    requires HexDigests(h) && ChunksNeeded(|a|) <= MAX_INT32 && ChunksNeeded(|b|) <= MAX_INT32
    requires FileRoot(h, a) == FileRoot(h, b)
    ensures a == b || FilesCollide(h, a, b)
      || (a != [] && b != [] && (ShowsNode(h, a, FileHashes(h, b)) || ShowsNode(h, b, FileHashes(h, a))))
    ensures |a| % CHUNK_SIZE != 128 && |b| % CHUNK_SIZE != 128 ==>
      a == b || FilesCollide(h, a, b)
    ensures ChunksNeeded(|a|) == ChunksNeeded(|b|) ==>
      || a == b
      || (exists i :: ChunksCollide(h, a, b, i))
      || (a != [] && b != [] && TreesCollide(h, FileHashes(h, a), FileHashes(h, b)))
  {
    EmptyRoot(h, a);
    EmptyRoot(h, b);
    if a != [] && b != [] {
      var ha, hb := FileHashes(h, a), FileHashes(h, b);
      HashedByFile(h, a);
      HashedByFile(h, b);
      RootsMeet(h, a, b);
      if |ha| == |hb| {
        RootBinds(h, ha, hb);
        if ha == hb {
          SameHashesSameFile(h, a, b);
        }
      }
      if ShowsNode(h, a, hb) {
        NodeChunkIsLast(h, a, b);
      }
      if ShowsNode(h, b, ha) {
        NodeChunkIsLast(h, b, a);
      }
    }
  }

  lemma RootsMeet(h: HashFn, a: Bytes, b: Bytes)
    requires HexDigests(h) && ChunksNeeded(|a|) <= MAX_INT32 && ChunksNeeded(|b|) <= MAX_INT32
    requires a != [] && b != [] && FileRoot(h, a) == FileRoot(h, b)
    requires AllDigests(FileHashes(h, a)) && AllDigests(FileHashes(h, b))
    ensures a == b || FilesCollide(h, a, b)
      || ShowsNode(h, a, FileHashes(h, b)) || ShowsNode(h, b, FileHashes(h, a))
  {
    var ha, hb := FileHashes(h, a), FileHashes(h, b);
    RootBindsAnyLength(h, ha, hb);
    if ha == hb {
      SameHashesSameFile(h, a, b);
    } else if LeafForges(h, TreeOf(h, ha), TreeOf(h, hb)) {
      ForgedLeaf(h, a, b);
    } else if LeafForges(h, TreeOf(h, hb), TreeOf(h, ha)) {
      ForgedLeaf(h, b, a);
    }
  }

  /**
   * Any file of more than one chunk shares its root with a file of 128 bytes: the two digests joined at
   * the top of its tree.  For two chunks these are the digests of the chunks.
   */
  lemma TwinFile(h: HashFn, a: Bytes) returns (twin: Bytes)
    requires HexDigests(h) && ChunksNeeded(|a|) > 1
    ensures |twin| == 128 && twin != a && FileRoot(h, twin) == FileRoot(h, a)
    ensures ShowsNode(h, twin, FileHashes(h, a))
    ensures ChunksNeeded(|a|) == 2 ==> twin == h(ChunkAt(a, 0)) + h(ChunkAt(a, 1))
  {
    var t := TreeOf(h, FileHashes(h, a));
    HashedByFile(h, a);
    twin := t.left.hash + t.right.hash;
    assert twin in Hashed(t);
    OneChunk(h, twin);
    if ChunksNeeded(|a|) == 2 {
      TopOfTwo(h, FileHashes(h, a));
    }
  }

  lemma OneChunk(h: HashFn, data: Bytes)
    requires 0 < |data| <= CHUNK_SIZE
    ensures ChunksNeeded(|data|) == 1 && ChunkAt(data, 0) == data && FileRoot(h, data) == h(data)
  {
    assert ChunkAt(data, 0) == data;
    assert FileHashes(h, data)[0] == h(data);
    assert FileHashes(h, data) == [h(data)];
    RootOfOne(h, h(data));
  }

  lemma TopOfTwo(h: HashFn, hashes: seq<Bytes>)
    requires |hashes| == 2
    ensures TreeOf(h, hashes) == Combine(h, Leaf(hashes[0]), Leaf(hashes[1]))
  {
    assert SplitPoint(2) == 1;
  }
}
