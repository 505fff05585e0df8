/**
 * Merkle trees over chunk hashes.  The hash is any function from byte strings to byte strings, and
 * what depends on it being hard to invert is said as "or here are two inputs with one hash".
 */
module Merkle {
  import opened GoTypes

  /** `ComputeHash`: the digest of some bytes, as text. */
  type HashFn = Bytes -> Bytes

  const DIGEST_LENGTH: nat := 64

  ghost predicate HexDigests(h: HashFn) {
    forall x :: |h(x)| == DIGEST_LENGTH
  }

  datatype Tree =
    | Leaf(hash: Bytes)
    | Join(hash: Bytes, left: Tree, right: Tree)

  function Combine(h: HashFn, l: Tree, r: Tree): Tree {
    Join(h(l.hash + r.hash), l, r)
  }

  function Leaves(hashes: seq<Bytes>): (leaves: seq<Tree>)
    ensures |leaves| == |hashes|
  {
    seq(|hashes|, i requires 0 <= i < |hashes| => Leaf(hashes[i]))
  }

  // ---------------------------------------------------------------------------------------------
  // The recursive tree
  // ---------------------------------------------------------------------------------------------

  predicate IsPowerOfTwo(k: nat)
    decreases k
  {
    k == 1 || (k > 0 && k % 2 == 0 && IsPowerOfTwo(k / 2))
  }

  /** The largest power of two below `n`. */
  function SplitPoint(n: nat): (k: nat)
    requires n >= 2
    ensures IsPowerOfTwo(k) && k < n <= 2 * k
  {
    if n == 2 then 1 else 2 * SplitPoint((n + 1) / 2)
  }

  /** Split at the largest power of two below the number of nodes, and join the two halves. */
  function Split(h: HashFn, nodes: seq<Tree>): Tree
    requires nodes != []
    decreases |nodes|
  {
    if |nodes| == 1 then nodes[0]
    else
      var k := SplitPoint(|nodes|);
      Combine(h, Split(h, nodes[..k]), Split(h, nodes[k..]))
  }

  /** The tree of a list of hashes: the shape of section 2.1 of RFC 6962, without its prefixes. */
  function TreeOf(h: HashFn, hashes: seq<Bytes>): Tree
    requires hashes != []
    decreases |hashes|
  {
    if |hashes| == 1 then Leaf(hashes[0])
    else
      var k := SplitPoint(|hashes|);
      Combine(h, TreeOf(h, hashes[..k]), TreeOf(h, hashes[k..]))
  }

  lemma LeavesSplit(hashes: seq<Bytes>, k: nat)
    requires k <= |hashes|
    ensures Leaves(hashes)[..k] == Leaves(hashes[..k]) && Leaves(hashes)[k..] == Leaves(hashes[k..])
  {
  }

  lemma {:induction false} SplitOfLeaves(h: HashFn, hashes: seq<Bytes>)
    requires hashes != []
    ensures Split(h, Leaves(hashes)) == TreeOf(h, hashes)
    decreases |hashes|
  {
    if |hashes| > 1 {
      var k := SplitPoint(|hashes|);
      LeavesSplit(hashes, k);
      SplitOfLeaves(h, hashes[..k]);
      SplitOfLeaves(h, hashes[k..]);
    }
  }

  // ---------------------------------------------------------------------------------------------
  // The loop over levels
  // ---------------------------------------------------------------------------------------------

  /** Node `i` of the next level: two neighbours joined, or an odd node out promoted as it is. */
  function Parent(h: HashFn, nodes: seq<Tree>, i: nat): Tree
    requires 2 * i < |nodes|
  {
    if 2 * i + 1 < |nodes| then Combine(h, nodes[2 * i], nodes[2 * i + 1]) else nodes[2 * i]
  }

  function NextLevel(h: HashFn, nodes: seq<Tree>): (next: seq<Tree>)
    ensures |next| == (|nodes| + 1) / 2
  {
    seq((|nodes| + 1) / 2, i requires 0 <= i < (|nodes| + 1) / 2 => Parent(h, nodes, i))
  }

  /** Splitting a level at an even place splits the next level at half of it. */
  lemma NextLevelSplits(h: HashFn, nodes: seq<Tree>, half: nat)
    requires 2 * half <= |nodes|
    ensures NextLevel(h, nodes)[..half] == NextLevel(h, nodes[..2 * half])
    ensures NextLevel(h, nodes)[half..] == NextLevel(h, nodes[2 * half..])
  {
    forall i: nat | i < half
      ensures Parent(h, nodes, i) == Parent(h, nodes[..2 * half], i)
    {
    }
    forall i: nat | 2 * i < |nodes| - 2 * half
      ensures Parent(h, nodes, half + i) == Parent(h, nodes[2 * half..], i)
    {
    }
  }

  /** Going up one level does not change the recursive tree. */
  lemma {:induction false} NextLevelKeepsSplit(h: HashFn, nodes: seq<Tree>)
    requires nodes != []
    ensures Split(h, NextLevel(h, nodes)) == Split(h, nodes)
    decreases |nodes|
  {
    if |nodes| == 1 {
      assert NextLevel(h, nodes) == nodes;
    } else if |nodes| == 2 {
      assert NextLevel(h, nodes) == [Combine(h, nodes[0], nodes[1])];
      assert nodes[..1] == [nodes[0]] && nodes[1..] == [nodes[1]];
    } else {
      var half := SplitPoint(|nodes|) / 2;
      assert SplitPoint(|NextLevel(h, nodes)|) == half;
      NextLevelSplits(h, nodes, half);
      NextLevelKeepsSplit(h, nodes[..2 * half]);
      NextLevelKeepsSplit(h, nodes[2 * half..]);
    }
  }

  /** The level-by-level loop builds the recursive tree, and ends. */
  method BuildMerkleTree(h: HashFn, chunkHashes: seq<Bytes>) returns (root: Option<Tree>)
    ensures root == if chunkHashes == [] then None else Some(TreeOf(h, chunkHashes))
  {
    if chunkHashes == [] {
      return None;
    }
    var nodes := Leaves(chunkHashes);
    SplitOfLeaves(h, chunkHashes);
    while |nodes| > 1
      invariant nodes != [] && Split(h, nodes) == TreeOf(h, chunkHashes)
      decreases |nodes|
    {
      var nextLevel := BuildLevel(h, nodes);
      NextLevelKeepsSplit(h, nodes);
      nodes := nextLevel;
    }
    return Some(nodes[0]);
  }

  method BuildLevel(h: HashFn, nodes: seq<Tree>) returns (nextLevel: seq<Tree>)
    ensures nextLevel == NextLevel(h, nodes)
  {
    nextLevel := [];
    var i := 0;
    while i < |nodes|
      invariant 0 <= i <= |nodes| + 1 && i == 2 * |nextLevel|
      invariant forall j: nat :: j < |nextLevel| ==> nextLevel[j] == Parent(h, nodes, j)
    {
      if i + 1 < |nodes| {
        nextLevel := nextLevel + [Combine(h, nodes[i], nodes[i + 1])];
      } else {
        nextLevel := nextLevel + [nodes[i]];
      }
      i := i + 2;
    }
  }

  // ---------------------------------------------------------------------------------------------
  // The shape of the tree
  // ---------------------------------------------------------------------------------------------

  function LeafHashes(t: Tree): seq<Bytes> {
    match t
    case Leaf(hash) => [hash]
    case Join(_, l, r) => LeafHashes(l) + LeafHashes(r)
  }

  function InternalNodes(t: Tree): nat {
    match t
    case Leaf(_) => 0
    case Join(_, l, r) => 1 + InternalNodes(l) + InternalNodes(r)
  }

  function Height(t: Tree): nat {
    match t
    case Leaf(_) => 0
    case Join(_, l, r) => 1 + if Height(l) < Height(r) then Height(r) else Height(l)
  }

  /** Every joined node carries the hash of its children's hashes. */
  predicate Authentic(h: HashFn, t: Tree) {
    match t
    case Leaf(_) => true
    case Join(hash, l, r) => hash == h(l.hash + r.hash) && Authentic(h, l) && Authentic(h, r)
  }

  lemma {:induction false} Pow2Grows(d: nat, e: nat)
    requires d < e
    ensures Pow2(d) < Pow2(e)
  {
    if d < e - 1 {
      Pow2Grows(d, e - 1);
    }
  }

  lemma {:induction false} PowerOfTwoIsPow2(k: nat) returns (e: nat)
    requires IsPowerOfTwo(k)
    ensures k == Pow2(e)
  {
    if k == 1 {
      e := 0;
    } else {
      e := PowerOfTwoIsPow2(k / 2);
      e := e + 1;
    }
  }

  /** What the root of the tree, `t`, promises about the list it was built from. */
  ghost predicate Shaped(h: HashFn, t: Tree, hashes: seq<Bytes>) {
    LeafHashes(t) == hashes && InternalNodes(t) == |hashes| - 1 && Authentic(h, t)
  }

  lemma JoinedShape(h: HashFn, l: Tree, r: Tree, a: seq<Bytes>, b: seq<Bytes>)
    requires Shaped(h, l, a) && Shaped(h, r, b)
    ensures Shaped(h, Combine(h, l, r), a + b)
  {
  }

  /** The tree of a list: leaves in order, one internal node fewer than leaves, honest hashes. */
  lemma {:induction false} TreeShape(h: HashFn, hashes: seq<Bytes>)
    requires hashes != []
    ensures Shaped(h, TreeOf(h, hashes), hashes)
    decreases |hashes|
  {
    if |hashes| == 1 {
      assert hashes == [hashes[0]];
    } else {
      var k := SplitPoint(|hashes|);
      var a, b := hashes[..k], hashes[k..];
      TreeShape(h, a);
      TreeShape(h, b);
      JoinedShape(h, TreeOf(h, a), TreeOf(h, b), a, b);
      assert hashes == a + b;
    }
  }

  /** The height is the least exponent whose power of two covers the leaves. */
  lemma {:induction false} TreeHeight(h: HashFn, hashes: seq<Bytes>)
    requires hashes != []
    ensures Covers(Height(TreeOf(h, hashes)), |hashes|)
    decreases |hashes|
  {
    if |hashes| > 1 {
      var k := SplitPoint(|hashes|);
      var e := PowerOfTwoIsPow2(k);
      TreeHeight(h, hashes[..k]);
      TreeHeight(h, hashes[k..]);
      CoversJoined(h, TreeOf(h, hashes[..k]), TreeOf(h, hashes[k..]), |hashes|, k, e);
    }
  }

  /** `height` is the least exponent whose power of two is at least `n`. */
  ghost predicate Covers(height: nat, n: nat) {
    n <= Pow2(height) && (height > 0 ==> Pow2(height - 1) < n)
  }

  lemma CoversJoined(h: HashFn, l: Tree, r: Tree, n: nat, k: nat, e: nat)
    requires k < n <= 2 * k && k == Pow2(e) && Covers(Height(l), k) && Covers(Height(r), n - k)
    ensures Covers(Height(Combine(h, l, r)), n)
  {
    HeightAtMost(Height(l), k, e);
    HeightAtMost(Height(r), n - k, e);
    HeightAtLeast(Height(l), k, e);
  }

  lemma HeightAtMost(height: nat, n: nat, e: nat)
    requires Covers(height, n) && n <= Pow2(e)
    ensures height <= e
  {
    if height > e + 1 {
      Pow2Grows(e, height - 1);
    }
  }

  lemma HeightAtLeast(height: nat, n: nat, e: nat)
    requires Covers(height, n) && n == Pow2(e)
    ensures e <= height
  {
    if height < e {
      Pow2Grows(height, e);
    }
  }

  // ---------------------------------------------------------------------------------------------
  // Root hashes
  // ---------------------------------------------------------------------------------------------

  /** The root hash of a list of chunk hashes; empty for the empty list. */
  function Root(h: HashFn, hashes: seq<Bytes>): Bytes {
    if hashes == [] then [] else TreeOf(h, hashes).hash
  }

  method RootHash(h: HashFn, chunkHashes: seq<Bytes>) returns (root: Bytes)
    ensures root == Root(h, chunkHashes)
  {
    var tree := BuildMerkleTree(h, chunkHashes);
    if tree.None? {
      return [];
    }
    return tree.value.hash;
  }

  method VerifyFileIntegrity(h: HashFn, chunkHashes: seq<Bytes>, expectedRoot: Bytes) returns (ok: bool)
    ensures ok <==> Root(h, chunkHashes) == expectedRoot
  {
    var root := RootHash(h, chunkHashes);
    return root == expectedRoot;
  }

  /** The inputs that building the tree hashed. */
  function Hashed(t: Tree): set<Bytes> {
    match t
    case Leaf(_) => {}
    case Join(_, l, r) => {l.hash + r.hash} + Hashed(l) + Hashed(r)
  }

  /** Two different inputs with one hash, the first hashed by one tree and the second by the other. */
  ghost predicate Collide(h: HashFn, t: Tree, t': Tree) {
    exists x, y :: x in Hashed(t) && y in Hashed(t') && x != y && h(x) == h(y)
  }

  ghost predicate AllDigests(hashes: seq<Bytes>) {
    forall i :: 0 <= i < |hashes| ==> |hashes[i]| == DIGEST_LENGTH
  }

  predicate SameShape(t: Tree, t': Tree) {
    match (t, t')
    case (Leaf(_), Leaf(_)) => true
    case (Join(_, l, r), Join(_, l', r')) => SameShape(l, l') && SameShape(r, r')
    case _ => false
  }

  predicate DigestLeaves(t: Tree) {
    match t
    case Leaf(hash) => |hash| == DIGEST_LENGTH
    case Join(_, l, r) => DigestLeaves(l) && DigestLeaves(r)
  }

  /** Joined nodes with one hash join nodes with the same hashes, or collide. */
  lemma JoinBinds(h: HashFn, l: Tree, r: Tree, l': Tree, r': Tree)
    requires |l.hash| == |l'.hash| && Combine(h, l, r).hash == Combine(h, l', r').hash
    ensures (l.hash == l'.hash && r.hash == r'.hash) || Collide(h, Combine(h, l, r), Combine(h, l', r'))
  {
    var x, y := l.hash + r.hash, l'.hash + r'.hash;
    if x == y {
      assert x[..|l.hash|] == l.hash && y[..|l.hash|] == l'.hash;
      assert x[|l.hash|..] == r.hash && y[|l.hash|..] == r'.hash;
    } else {
      assert x in Hashed(Combine(h, l, r)) && y in Hashed(Combine(h, l', r'));
    }
  }

  lemma CollideAbove(h: HashFn, l: Tree, r: Tree, l': Tree, r': Tree)
    requires Collide(h, l, l') || Collide(h, r, r')
    ensures Collide(h, Combine(h, l, r), Combine(h, l', r'))
  {
    if Collide(h, l, l') {
      var x, y :| x in Hashed(l) && y in Hashed(l') && x != y && h(x) == h(y);
      assert x in Hashed(Combine(h, l, r)) && y in Hashed(Combine(h, l', r'));
    } else {
      var x, y :| x in Hashed(r) && y in Hashed(r') && x != y && h(x) == h(y);
      assert x in Hashed(Combine(h, l, r)) && y in Hashed(Combine(h, l', r'));
    }
  }

  lemma RootIsDigest(h: HashFn, hashes: seq<Bytes>)
    requires HexDigests(h) && AllDigests(hashes) && hashes != []
    ensures |Root(h, hashes)| == DIGEST_LENGTH
  {
  }

  /** Honest trees of one shape with one root hash are equal, or collide. */
  lemma {:induction false} TreeBinds(h: HashFn, t: Tree, t': Tree)
    requires HexDigests(h) && Authentic(h, t) && Authentic(h, t') && DigestLeaves(t) && DigestLeaves(t')
    requires SameShape(t, t') && t.hash == t'.hash
    ensures t == t' || Collide(h, t, t')
  {
    if t.Join? {
      assert t == Combine(h, t.left, t.right) && t' == Combine(h, t'.left, t'.right);
      JoinBinds(h, t.left, t.right, t'.left, t'.right);
      if !Collide(h, t, t') {
        TreeBinds(h, t.left, t'.left);
        TreeBinds(h, t.right, t'.right);
        if t != t' {
          CollideAbove(h, t.left, t.right, t'.left, t'.right);
        }
      }
    }
  }

  lemma {:induction false} TreesOfOneLength(h: HashFn, a: seq<Bytes>, b: seq<Bytes>)
    requires |a| == |b| > 0 && AllDigests(a)
    ensures SameShape(TreeOf(h, a), TreeOf(h, b)) && DigestLeaves(TreeOf(h, a))
    decreases |a|
  {
    if |a| > 1 {
      var k := SplitPoint(|a|);
      TreesOfOneLength(h, a[..k], b[..k]);
      TreesOfOneLength(h, a[k..], b[k..]);
    }
  }

  /** A root hash binds the list: two lists of one length with one root are equal, or their trees collide. */
  lemma RootBinds(h: HashFn, a: seq<Bytes>, b: seq<Bytes>)
    requires HexDigests(h) && AllDigests(a) && AllDigests(b)
    requires |a| == |b| && Root(h, a) == Root(h, b)
    ensures a == b || (a != [] && Collide(h, TreeOf(h, a), TreeOf(h, b)))
  {
    if a != [] {
      TreesOfOneLength(h, a, b);
      TreesOfOneLength(h, b, a);
      TreeShape(h, a);
      TreeShape(h, b);
      TreeBinds(h, TreeOf(h, a), TreeOf(h, b));
    }
  }

  /** A leaf of `t` carries the hash of an input that `t'` hashed. */
  ghost predicate LeafForges(h: HashFn, t: Tree, t': Tree) {
    exists i, x :: 0 <= i < |LeafHashes(t)| && x in Hashed(t') && LeafHashes(t)[i] == h(x)
  }

  lemma LeafForgesAbove(h: HashFn, l: Tree, r: Tree, l': Tree, r': Tree)
    requires LeafForges(h, l, l') || LeafForges(h, r, r')
    ensures LeafForges(h, Combine(h, l, r), Combine(h, l', r'))
  {
    var t, t' := Combine(h, l, r), Combine(h, l', r');
    if LeafForges(h, l, l') {
      var i, x :| 0 <= i < |LeafHashes(l)| && x in Hashed(l') && LeafHashes(l)[i] == h(x);
      assert LeafHashes(t)[i] == h(x) && x in Hashed(t');
    } else {
      var i, x :| 0 <= i < |LeafHashes(r)| && x in Hashed(r') && LeafHashes(r)[i] == h(x);
      assert LeafHashes(t)[|LeafHashes(l)| + i] == h(x) && x in Hashed(t');
    }
  }

  lemma LeafMeetsJoin(h: HashFn, t: Tree, t': Tree)
    requires t.Leaf? && t'.Join? && Authentic(h, t') && t.hash == t'.hash
    ensures LeafForges(h, t, t')
  {
    assert LeafHashes(t)[0] == h(t'.left.hash + t'.right.hash);
    assert t'.left.hash + t'.right.hash in Hashed(t');
  }

  lemma RootOfDigestLeaves(h: HashFn, t: Tree)
    requires HexDigests(h) && Authentic(h, t) && DigestLeaves(t)
    ensures |t.hash| == DIGEST_LENGTH
  {
  }

  /** The trees collide, or one of them shows as a leaf what the other hashed. */
  ghost predicate Clash(h: HashFn, t: Tree, t': Tree) {
    Collide(h, t, t') || LeafForges(h, t, t') || LeafForges(h, t', t)
  }

  /** Honest trees of any two shapes with one root are equal, collide, or one shows an inner node as a leaf. */
  lemma {:induction false} AnyTreesBind(h: HashFn, t: Tree, t': Tree)
    requires HexDigests(h) && Authentic(h, t) && Authentic(h, t') && DigestLeaves(t) && DigestLeaves(t')
    requires t.hash == t'.hash
    ensures t == t' || Clash(h, t, t')
  {
    if t.Leaf? && t'.Join? {
      LeafMeetsJoin(h, t, t');
    } else if t.Join? && t'.Leaf? {
      LeafMeetsJoin(h, t', t);
    } else if t.Join? && t'.Join? {
      assert t == Combine(h, t.left, t.right) && t' == Combine(h, t'.left, t'.right);
      RootOfDigestLeaves(h, t.left);
      RootOfDigestLeaves(h, t'.left);
      JoinBinds(h, t.left, t.right, t'.left, t'.right);
      if !Collide(h, t, t') {
        AnyTreesBind(h, t.left, t'.left);
        AnyTreesBind(h, t.right, t'.right);
        if t != t' {
          ClashAbove(h, t.left, t.right, t'.left, t'.right);
        }
      }
    }
  }

  lemma ClashAbove(h: HashFn, l: Tree, r: Tree, l': Tree, r': Tree)
    requires Clash(h, l, l') || Clash(h, r, r')
    ensures Clash(h, Combine(h, l, r), Combine(h, l', r'))
  {
    if Collide(h, l, l') || Collide(h, r, r') {
      CollideAbove(h, l, r, l', r');
    } else if LeafForges(h, l, l') || LeafForges(h, r, r') {
      LeafForgesAbove(h, l, r, l', r');
    } else if LeafForges(h, l', l) || LeafForges(h, r', r) {
      LeafForgesAbove(h, l', r', l, r);
    }
  }

  /**
   * Lists of any lengths with one root are equal, or their trees collide, or an entry of one list is
   * the digest of an input that the tree of the other list hashed.
   */
  lemma RootBindsAnyLength(h: HashFn, a: seq<Bytes>, b: seq<Bytes>)
    requires HexDigests(h) && AllDigests(a) && AllDigests(b) && Root(h, a) == Root(h, b)
    ensures a == b || (a != [] && b != [] && Clash(h, TreeOf(h, a), TreeOf(h, b)))
  {
    if a != [] && b != [] {
      TreesOfOneLength(h, a, a);
      TreesOfOneLength(h, b, b);
      TreeShape(h, a);
      TreeShape(h, b);
      AnyTreesBind(h, TreeOf(h, a), TreeOf(h, b));
    } else if a != [] {
      RootIsDigest(h, a);
    } else if b != [] {
      RootIsDigest(h, b);
    }
  }
}
