/**
 * Merging filters with different numbers of hashes: when every key of the other filter survives.  The
 * answer depends on how often the double hashes, taken modulo 2^32 and then modulo the number of bits,
 * reach a position again.
 */
module MergeLimits {
  import opened GoTypes
  import opened Graphs
  import opened Bloom
  import opened BloomProofs

  // ---------------------------------------------------------------------------------------------
  // Remainders
  // ---------------------------------------------------------------------------------------------

  /** Only zero lies strictly between a number and its opposite among its multiples. */
  lemma NoSmallMultiple(d: int, m: int)
    requires m > 0 && -m < d * m < m
    ensures d == 0
  {
  }

  lemma RemainderUnique(x: int, q: int, r: int, m: int)
    requires x == q * m + r && 0 <= r < m
    ensures x % m == r
  {
    var d := x / m - q;
    assert d * m == r - x % m by {
      Distribute(x / m, -q, m);
    }
    NoSmallMultiple(d, m);
  }

  lemma DropMultiple(x: int, q: int, m: int)
    requires m > 0
    ensures (x + q * m) % m == x % m
  {
    Distribute(x / m, q, m);
    RemainderUnique(x + q * m, x / m + q, x % m, m);
  }

  lemma IsMultiple(x: int, q: int, m: int)
    requires m > 0 && x == q * m
    ensures x % m == 0
  {
    RemainderUnique(x, q, 0, m);
  }

  lemma DropZero(x: int, y: int, m: int)
    requires m > 0 && y % m == 0
    ensures (x + y) % m == x % m
  {
    DropMultiple(x, y / m, m);
  }

  /** Equal remainders mean a difference that is a multiple. */
  lemma Congruent(a: int, b: int, m: int)
    requires m > 0
    ensures a % m == b % m <==> (a - b) % m == 0
  {
    if a % m == b % m {
      Distribute(a / m, -(b / m), m);
      IsMultiple(a - b, a / m - b / m, m);
    }
    if (a - b) % m == 0 {
      DropZero(b, a - b, m);
    }
  }

  lemma SumOfMultiples(a: int, b: int, m: int)
    requires m > 0 && a % m == 0 && b % m == 0
    ensures (a + b) % m == 0
  {
    DropZero(a, b, m);
  }

  lemma Times(a: int, b: int, c: int)
    ensures a * (b * c) == a * b * c == b * (a * c)
  {
  }

  lemma MultipleTimes(q: int, x: int, m: int)
    requires m > 0 && x % m == 0
    ensures (q * x) % m == 0
  {
    Times(q, x / m, m);
    IsMultiple(q * x, q * (x / m), m);
  }

  /** A multiple of a multiple. */
  lemma MultipleOfMultiple(x: int, n: int, m: int)
    requires n > 0 && m > 0 && x % n == 0 && n % m == 0
    ensures x % m == 0
  {
    Times(x / n, n / m, m);
    IsMultiple(x, (x / n) * (n / m), m);
  }

  // ---------------------------------------------------------------------------------------------
  // Odd factors and powers of two
  // ---------------------------------------------------------------------------------------------

  /** The largest power of two that divides `m`, and what is left of `m`. */
  function TwoPart(m: int): (g: int)
    requires m > 0
    ensures 1 <= g <= m
  {
    if m % 2 == 0 then 2 * TwoPart(m / 2) else 1
  }

  function OddPart(m: int): (u: int)
    requires m > 0
    ensures 1 <= u <= m && u % 2 == 1
  {
    if m % 2 == 0 then OddPart(m / 2) else m
  }

  lemma {:induction false} Parts(m: int) returns (e: nat)
    requires m > 0
    ensures m == TwoPart(m) * OddPart(m) && TwoPart(m) == Pow2(e)
  {
    if m % 2 == 0 {
      e := Parts(m / 2);
      e := e + 1;
      Times(2, TwoPart(m / 2), OddPart(m / 2));
    } else {
      e := 0;
    }
  }

  lemma {:induction false} Pow2Divides(d: nat, e: nat)
    requires Pow2(d) <= Pow2(e)
    ensures Pow2(e) % Pow2(d) == 0
  {
    if d > 0 {
      if e > 0 {
        Pow2Divides(d - 1, e - 1);
        var q := Pow2(e - 1) / Pow2(d - 1);
        Times(2, q, Pow2(d - 1));
        Times(q, 2, Pow2(d - 1));
        IsMultiple(Pow2(e), q, Pow2(d));
      }
    } else {
      IsMultiple(Pow2(e), Pow2(e), 1);
    }
  }

  /** An odd factor does not help to reach a multiple of a power of two. */
  lemma {:induction false} OddCancels(e: nat, u: int, x: int)
    requires u % 2 == 1 && (u * x) % Pow2(e) == 0
    ensures x % Pow2(e) == 0
  {
    if e > 0 {
      var q, half := u * x / Pow2(e), Pow2(e - 1);
      var y := OddHalves(u, x, q * half);
      IsMultiple(u * y, q, half);
      OddCancels(e - 1, u, y);
      IsMultiple(x, y / half, Pow2(e));
    } else {
      IsMultiple(x, x, 1);
    }
  }

  lemma OddHalves(u: int, x: int, z: int) returns (y: int)
    requires u % 2 == 1 && u * x == 2 * z
    ensures x == 2 * y && u * y == z
  {
    var a := u / 2;
    assert u * x == 2 * (a * x) + x;
    y := z - a * x;
    Times(2, u, y);
  }

  /** The multiplier that takes the odd number `u` to `x` modulo a power of two. */
  function Solution(e: nat, u: int, x: int): (i: nat)
    ensures i < Pow2(e)
  {
    if e == 0 then 0
    else
      var i := Solution(e - 1, u, x);
      if (i * u - x) % Pow2(e) == 0 then i else i + Pow2(e - 1)
  }

  lemma {:induction false} SolutionSolves(e: nat, u: int, x: int)
    requires u % 2 == 1
    ensures (Solution(e, u, x) * u - x) % Pow2(e) == 0
  {
    if e > 0 {
      var i, half := Solution(e - 1, u, x), Pow2(e - 1);
      SolutionSolves(e - 1, u, x);
      if (i * u - x) % Pow2(e) != 0 {
        OtherHalf(i * u - x, u, half);
        Distribute(i, half, u);
      }
    }
  }

  /** Of two numbers that an odd multiple of `half` separates, one is a multiple of twice `half`. */
  lemma OtherHalf(x: int, u: int, half: int)
    requires half > 0 && u % 2 == 1 && x % half == 0 && x % (2 * half) != 0
    ensures (x + half * u) % (2 * half) == 0
  {
    var q := x / half;
    assert x == q * half;
    if q % 2 == 0 {
      Times(q / 2, 2, half);
      IsMultiple(x, q / 2, 2 * half);
    } else {
      var s := (q + u) / 2;
      Distribute(q, u, half);
      Times(s, 2, half);
      IsMultiple(x + half * u, s, 2 * half);
    }
  }

  lemma TwoTo32()
    ensures Pow2(32) == TWO_32 && Pow2(31) == TWO_32 / 2
  {
    assert Pow2(8) == 256;
    assert Pow2(16) == 0x1_0000;
    assert Pow2(24) == 0x100_0000;
    assert Pow2(31) == 0x8000_0000;
  }

  // ---------------------------------------------------------------------------------------------
  // Kept and lost keys
  // ---------------------------------------------------------------------------------------------

  /** A receiver with `k` hashes and keys `a` after merging a filter with `k'` hashes and keys `b`. */
  function MergedBits(hs: Hashes, m: int, k: int, k': int, a: seq<Bytes>, b: seq<Bytes>): set<nat>
    requires 0 < m
  {
    var mine, theirs := Config(hs, m, k), Config(hs, m, k');
    Step(mine, RunAll(mine, {}, Adds(a)), MergeBits(RunAll(theirs, {}, Adds(b))))
  }

  /** Whatever the hashes and the keys, the receiver finds every key that the other filter was given. */
  ghost predicate MergeKeepsKeys(m: int, k: int, k': int)
    requires 0 < m
  {
    forall hs, a, b, key :: key in b ==> Positions(hs, m, k, key) <= MergedBits(hs, m, k, k', a, b)
  }

  /** The first `k'` hashes of any key already reach all that the first `k` do. */
  ghost predicate SpotsCovered(m: int, k: int, k': int)
    requires 0 < m
  {
    forall h1: UInt32, h2: UInt32 :: Spots(m, k, h1, h2) <= Spots(m, k', h1, h2)
  }

  lemma CoveredIsKept(m: int, k: int, k': int)
    requires 0 < m && SpotsCovered(m, k, k')
    ensures MergeKeepsKeys(m, k, k')
  {
    forall hs, a, b, key: Bytes | key in b
      ensures Positions(hs, m, k, key) <= MergedBits(hs, m, k, k', a, b)
    {
      forall p | p in Positions(hs, m, k', key)
        ensures p in RunAll(Config(hs, m, k'), {}, Adds(b))
      {
        AddsCollect(Config(hs, m, k'), b, p);
      }
    }
  }

  /** A position that only the receiver looks at denies a key of the other filter after the merge. */
  lemma UncoveredIsLost(m: int, k: int, k': int, h1: UInt32, h2: UInt32, p: nat)
    requires 0 < m && p in Spots(m, k, h1, h2) && p !in Spots(m, k', h1, h2)
    ensures !MergeKeepsKeys(m, k, k')
  {
    var hs, key: Bytes := Hashes(_ => h1, _ => h2), [];
    AddsCollect(Config(hs, m, k), [], p);
    AddsCollect(Config(hs, m, k'), [key], p);
    assert key in [key] && p !in MergedBits(hs, m, k, k', [], [key]);
  }

  /** So many hashes reach every position that any more would, whatever the base hashes. */
  function Enough(m: int): int
    requires 0 < m
  {
    TWO_32 - (TWO_32 / m - 1) * TwoPart(m)
  }

  /** When the receiver's hashes reach nothing new: it has no more, or has none, or the other has enough. */
  predicate NothingNew(m: int, k: int, k': int)
    requires 0 < m
  {
    k <= k' || k <= 0 || Enough(m) <= k'
  }

  // ---------------------------------------------------------------------------------------------
  // Too few hashes
  // ---------------------------------------------------------------------------------------------

  /** The base hash that makes hash `k'` the last position, in steps of the odd part of the size. */
  function LateStart(m: int, k': nat): UInt32
    requires 0 < m
  {
    (m - 1 - k' * OddPart(m)) % TWO_32
  }

  lemma LatePosition(m: int, k': nat)
    requires 0 < m < TWO_32
    ensures Position(m, LateStart(m, k'), OddPart(m), k') == m - 1
  {
    var u, h1 := OddPart(m), LateStart(m, k');
    CombinedHashIs(h1, u, k');
    AddsBack(m - 1, k' * u);
    RemainderUnique(m - 1, 0, m - 1, m);
  }

  lemma AddsBack(x: UInt32, y: int)
    ensures ((x - y) % TWO_32 + y) % TWO_32 == x
  {
    Congruent((x - y) % TWO_32, x - y, TWO_32);
    Congruent((x - y) % TWO_32 + y, x, TWO_32);
  }

  /** An earlier hash that reached the last position would be a whole number of 2^32 away. */
  lemma NotEarlier(m: int, k': nat, i: nat)
    requires 0 < m < TWO_32 && i < k' < Enough(m)
    ensures Position(m, LateStart(m, k'), OddPart(m), i) != m - 1
  {
    var v := CombinedHash(LateStart(m, k'), OddPart(m), i);
    if v % m == m - 1 {
      CombinedHashIs(LateStart(m, k'), OddPart(m), i);
      LastClass(m, v);
      EarlierDistance(m, k', i, v, v / m);
      NotWholeRounds(m, k' - i, v / m);
    }
  }

  lemma NotWholeRounds(m: int, d: int, j: int)
    requires 0 < m && d > 0 && 0 <= j <= TWO_32 / m - 1 && d < Enough(m)
    ensures (OddPart(m) * (d + j * TwoPart(m))) % TWO_32 != 0
  {
    TwoTo32();
    WithinRound(j, TWO_32 / m - 1, TwoPart(m), d);
    if (OddPart(m) * (d + j * TwoPart(m))) % TWO_32 == 0 {
      OddCancels(32, OddPart(m), d + j * TwoPart(m));
    }
  }

  lemma LastClass(m: int, v: int)
    requires 0 < m && 0 <= v < TWO_32 && v % m == m - 1
    ensures 0 <= v / m <= TWO_32 / m - 1 && v == v / m * m + m - 1
  {
    var j := v / m;
    assert (j + 1) * m <= TWO_32;
  }

  lemma EarlierDistance(m: int, k': nat, i: nat, v: int, j: int)
    requires 0 < m && v == (LateStart(m, k') + i * OddPart(m)) % TWO_32 && v == j * m + m - 1
    ensures (OddPart(m) * (k' - i + j * TwoPart(m))) % TWO_32 == 0
  {
    var u, g, h1 := OddPart(m), TwoPart(m), LateStart(m, k');
    var e := Parts(m);
    BothWrapped(v, h1, m - 1, k' * u, i * u);
    Expand(u, k', i, j, g);
    assert j * (g * u) == v - (m - 1);
  }

  lemma BothWrapped(v: int, h1: int, x: int, y: int, z: int)
    requires v == (h1 + z) % TWO_32 && h1 == (x - y) % TWO_32
    ensures (v - x + y - z) % TWO_32 == 0
  {
    Congruent(v, h1 + z, TWO_32);
    Congruent(h1, x - y, TWO_32);
    SumOfMultiples(v - (h1 + z), h1 - (x - y), TWO_32);
  }

  lemma Expand(u: int, k: int, i: int, j: int, g: int)
    ensures u * (k - i + j * g) == k * u - i * u + j * (g * u)
  {
    Distribute(k - i, j * g, u);
    Distribute(k, -i, u);
    Times(j, g, u);
  }

  lemma WithinRound(j: int, c: int, g: int, d: int)
    requires 0 <= j <= c && g > 0 && d > 0 && d + c * g < TWO_32
    ensures (d + j * g) % TWO_32 != 0
  {
    assert j * g <= c * g;
  }

  lemma TooFewLose(m: int, k: int, k': nat)
    requires 0 < m < TWO_32 && k' < k && k' < Enough(m)
    ensures !MergeKeepsKeys(m, k, k')
  {
    LatePosition(m, k');
    forall i: nat | i < k'
      ensures Position(m, LateStart(m, k'), OddPart(m), i) != m - 1
    {
      NotEarlier(m, k', i);
    }
    UncoveredIsLost(m, k, k', LateStart(m, k'), OddPart(m), m - 1);
  }

  // ---------------------------------------------------------------------------------------------
  // Enough hashes
  // ---------------------------------------------------------------------------------------------

  /** Reduced by a divisor of 2^32, wrap-around does not matter. */
  lemma TwoModuli(x: int, m: int)
    requires m > 0 && TWO_32 % m == 0
    ensures x % TWO_32 % m == x % m
  {
    Congruent(x % TWO_32, x, TWO_32);
    MultipleOfMultiple(x % TWO_32 - x, TWO_32, m);
    Congruent(x % TWO_32, x, m);
  }

  /** After `n` hashes the sums are the same modulo any divisor of `n` steps. */
  lemma SumsRepeat(h1: int, h2: int, i: nat, n: nat, d: int)
    requires 0 < n && 0 < d && (n * h2) % d == 0
    ensures (h1 + i * h2) % d == (h1 + i % n * h2) % d
  {
    Rounds(i, n, h2);
    MultipleTimes(i / n, n * h2, d);
    DropZero(h1 + i % n * h2, i / n * (n * h2), d);
  }

  lemma Rounds(i: nat, n: nat, h: int)
    requires 0 < n
    ensures i * h == i % n * h + i / n * (n * h)
  {
    Distribute(i / n * n, i % n, h);
    Times(i / n, n, h);
  }

  /** An even step comes around after half of 2^32 hashes. */
  lemma EvenRepeats(m: int, h1: UInt32, h2: UInt32, i: nat)
    requires 0 < m && h2 % 2 == 0
    ensures Position(m, h1, h2, i) == Position(m, h1, h2, i % (TWO_32 / 2))
  {
    var n := TWO_32 / 2;
    IsMultiple(n * h2, h2 / 2, TWO_32);
    SumsRepeat(h1, h2, i, n, TWO_32);
    CombinedHashIs(h1, h2, i);
    CombinedHashIs(h1, h2, i % n);
  }

  /** Any step comes around after as many hashes as there are bits, if their number divides 2^32. */
  lemma SizeRepeats(m: int, h1: UInt32, h2: UInt32, i: nat)
    requires 0 < m && TWO_32 % m == 0
    ensures Position(m, h1, h2, i) == Position(m, h1, h2, i % m)
  {
    IsMultiple(m * h2, h2, m);
    SumsRepeat(h1, h2, i, m, m);
    CombinedHashIs(h1, h2, i);
    CombinedHashIs(h1, h2, i % m);
    TwoModuli(h1 + i * h2, m);
    TwoModuli(h1 + i % m * h2, m);
  }

  /** The hash that an odd step takes to the `j`th of the sums that stand for position `p`. */
  function Hit(m: int, h1: UInt32, h2: UInt32, p: nat, j: nat): (i: nat)
    ensures i < TWO_32
  {
    TwoTo32();
    Solution(32, h2, p + j * m - h1)
  }

  lemma HitIs(m: int, h1: UInt32, h2: UInt32, p: nat, j: nat)
    requires h2 % 2 == 1 && p < m && j < TWO_32 / m
    ensures (h1 + Hit(m, h1, h2, p, j) * h2) % TWO_32 == p + j * m
    ensures Position(m, h1, h2, Hit(m, h1, h2, p, j)) == p
  {
    var i := Hit(m, h1, h2, p, j);
    TwoTo32();
    SolutionSolves(32, h2, p + j * m - h1);
    ClassFits(m, p, j);
    ReachesSum(h1, h2, i, p + j * m);
    CombinedHashIs(h1, h2, i);
    RemainderUnique(p + j * m, j, p, m);
  }

  lemma ReachesSum(h1: int, h2: int, i: int, x: int)
    requires (i * h2 - (x - h1)) % TWO_32 == 0 && 0 <= x < TWO_32
    ensures (h1 + i * h2) % TWO_32 == x
  {
    Congruent(h1 + i * h2, x, TWO_32);
  }

  lemma ClassFits(m: int, p: nat, j: nat)
    requires p < m && j < TWO_32 / m
    ensures 0 <= p + j * m < TWO_32
  {
    assert (j + 1) * m <= TWO_32 / m * m;
  }

  /** These hashes lie whole steps of the size's power of two apart. */
  lemma HitsApart(m: int, h1: UInt32, h2: UInt32, p: nat, j: nat, l: nat)
    requires h2 % 2 == 1 && p < m < TWO_32 && j < TWO_32 / m && l < TWO_32 / m
    ensures (Hit(m, h1, h2, p, j) - Hit(m, h1, h2, p, l)) % TwoPart(m) == 0
  {
    var a, b, g := Hit(m, h1, h2, p, j), Hit(m, h1, h2, p, l), TwoPart(m);
    HitIs(m, h1, h2, p, j);
    HitIs(m, h1, h2, p, l);
    var e := Parts(m);
    TwoPartDivides(m, e);
    HitModulo(h1 + a * h2, p, j, m, g);
    HitModulo(h1 + b * h2, p, l, m, g);
    StepsApart(h1, h2, a, b, e);
  }

  lemma StepsApart(h1: int, h2: int, a: int, b: int, e: nat)
    requires h2 % 2 == 1 && (h1 + a * h2) % Pow2(e) == (h1 + b * h2) % Pow2(e)
    ensures (a - b) % Pow2(e) == 0
  {
    Congruent(h1 + a * h2, h1 + b * h2, Pow2(e));
    StepsBetween(h2, a, b);
    OddCancels(e, h2, a - b);
  }

  lemma StepsBetween(h2: int, a: int, b: int)
    ensures h2 * (a - b) == a * h2 - b * h2
  {
  }

  lemma HitModulo(x: int, p: int, j: int, m: int, g: int)
    requires m > 0 && g > 0 && TWO_32 % g == 0 && m % g == 0 && x % TWO_32 == p + j * m
    ensures x % g == p % g
  {
    TwoModuli(x, g);
    Times(j, m / g, g);
    DropMultiple(p, j * (m / g), g);
  }

  lemma TwoPartDivides(m: int, e: nat)
    requires 0 < m < TWO_32 && m == TwoPart(m) * OddPart(m) && TwoPart(m) == Pow2(e)
    ensures TWO_32 % TwoPart(m) == 0 && m % TwoPart(m) == 0
  {
    DividesTwoTo32(e);
    IsMultiple(m, OddPart(m), TwoPart(m));
  }

  lemma DividesTwoTo32(e: nat)
    requires Pow2(e) < TWO_32
    ensures TWO_32 % Pow2(e) == 0
  {
    TwoTo32();
    Pow2Divides(e, 32);
  }

  /** Where such a hash is, in those steps, counted down from 2^32. */
  function Slot(m: int, h1: UInt32, h2: UInt32, p: nat, j: nat): int
    requires 0 < m
  {
    (TWO_32 - 1 - Hit(m, h1, h2, p, j)) / TwoPart(m)
  }

  lemma SlotsDiffer(m: int, h1: UInt32, h2: UInt32, p: nat, j: nat, l: nat)
    requires h2 % 2 == 1 && p < m < TWO_32 && j < TWO_32 / m && l < TWO_32 / m
    requires Slot(m, h1, h2, p, j) == Slot(m, h1, h2, p, l)
    ensures j == l
  {
    var a, b, g := Hit(m, h1, h2, p, j), Hit(m, h1, h2, p, l), TwoPart(m);
    HitsApart(m, h1, h2, p, l, j);
    SameSlot(TWO_32 - 1 - a, TWO_32 - 1 - b, g);
    HitIs(m, h1, h2, p, j);
    HitIs(m, h1, h2, p, l);
    SameMultiple(p, j, l, m);
  }

  lemma SameSlot(x: int, y: int, g: int)
    requires g > 0 && (x - y) % g == 0 && x / g == y / g
    ensures x == y
  {
    Congruent(x, y, g);
  }

  lemma SameMultiple(p: int, j: int, l: int, m: int)
    requires m > 0 && p + j * m == p + l * m
    ensures j == l
  {
    Distribute(j, -l, m);
    NoSmallMultiple(j - l, m);
  }

  lemma SlotBound(m: int, h1: UInt32, h2: UInt32, p: nat, j: nat)
    requires 0 < m && Enough(m) <= Hit(m, h1, h2, p, j)
    ensures 0 <= Slot(m, h1, h2, p, j) < TWO_32 / m - 1
  {
    QuotientBound(TWO_32 - 1 - Hit(m, h1, h2, p, j), TWO_32 / m - 1, TwoPart(m));
  }

  lemma QuotientBound(x: int, c: int, g: int)
    requires g > 0 && 0 <= x < c * g
    ensures 0 <= x / g < c
  {
    LessFactor(x / g, c, g);
  }

  lemma LessFactor(a: int, c: int, g: int)
    requires g > 0 && a * g < c * g
    ensures a < c
  {
  }

  ghost function Below(n: nat): (numbers: set<int>)
    ensures |numbers| == n && forall x :: x in numbers <==> 0 <= x < n
  {
    if n == 0 then {} else Below(n - 1) + {n - 1}
  }

  /** With an odd step, enough hashes reach every position: there are more hits than free slots beyond. */
  lemma OddReaches(m: int, k': int, h1: UInt32, h2: UInt32, p: nat) returns (i: nat)
    requires h2 % 2 == 1 && p < m < TWO_32 && Enough(m) <= k'
    ensures i < k' && Position(m, h1, h2, i) == p
  {
    var c := TWO_32 / m;
    if j: nat :| j < c && Hit(m, h1, h2, p, j) < k' {
      HitIs(m, h1, h2, p, j);
      i := Hit(m, h1, h2, p, j);
    } else {
      var slots := seq(c, j requires 0 <= j < c => Slot(m, h1, h2, p, j));
      forall j: nat | j < c
        ensures 0 <= slots[j] < c - 1
      {
        SlotBound(m, h1, h2, p, j);
      }
      forall j: nat, l: nat | j < c && l < c && slots[j] == slots[l]
        ensures j == l
      {
        SlotsDiffer(m, h1, h2, p, j, l);
      }
      assert c > 0;
      NoRepeatsFits(slots, Below(c - 1));
      assert false;
    }
  }

  /** For a power of two, as many hashes as bits are enough; else at least half of 2^32 are needed. */
  lemma EnoughIs(m: int)
    requires 0 < m < TWO_32
    ensures if OddPart(m) == 1 then TWO_32 % m == 0 && Enough(m) == m else Enough(m) >= TWO_32 / 2
  {
    var e := Parts(m);
    TwoPartDivides(m, e);
    if OddPart(m) == 1 {
      WholeSize(TWO_32 / m, m);
    } else {
      FloorFits(m);
      ThirdAtMost(TWO_32 / m, TwoPart(m), OddPart(m));
    }
  }

  lemma FloorFits(m: int)
    requires 0 < m < TWO_32
    ensures TWO_32 / m >= 0 && TWO_32 / m * m <= TWO_32
  {
  }

  lemma WholeSize(c: int, m: int)
    requires m > 0 && TWO_32 % m == 0 && c == TWO_32 / m
    ensures TWO_32 - (c - 1) * m == m
  {
    Distribute(c, -1, m);
  }

  lemma ThirdAtMost(c: int, g: int, u: int)
    requires c >= 0 && g > 0 && u >= 3 && c * (g * u) <= TWO_32
    ensures TWO_32 - (c - 1) * g >= TWO_32 / 2
  {
    Times(c, g, u);
    ThreeTimes(c * g, u);
    Distribute(c, -1, g);
  }

  lemma ThreeTimes(x: int, u: int)
    requires x >= 0 && u >= 3
    ensures 3 * x <= x * u
  {
  }

  /** Beyond enough hashes no position is new. */
  lemma EnoughReach(m: int, k': int, h1: UInt32, h2: UInt32, later: nat) returns (i: nat)
    requires 0 < m < TWO_32 && Enough(m) <= k'
    ensures i < k' && Position(m, h1, h2, i) == Position(m, h1, h2, later)
  {
    EnoughIs(m);
    if OddPart(m) == 1 {
      SizeRepeats(m, h1, h2, later);
      i := later % m;
    } else if h2 % 2 == 0 {
      EvenRepeats(m, h1, h2, later);
      i := later % (TWO_32 / 2);
    } else {
      i := OddReaches(m, k', h1, h2, Position(m, h1, h2, later));
    }
  }

  lemma NothingNewIsCovered(m: int, k: int, k': int)
    requires 0 < m < TWO_32 && NothingNew(m, k, k')
    ensures SpotsCovered(m, k, k')
  {
    forall h1: UInt32, h2: UInt32, p | p in Spots(m, k, h1, h2)
      ensures p in Spots(m, k', h1, h2)
    {
      var later: nat :| later < k && p == Position(m, h1, h2, later);
      if k' < k {
        var i := EnoughReach(m, k', h1, h2, later);
      }
    }
  }

  /**
   * The merge guard compares sizes only.  The other filter's keys survive in the receiver, whatever
   * the keys and the hashes, exactly when the receiver uses no more hashes than the other did, or the
   * other used enough of them to leave no position for more: as many as there are bits for a power of
   * two, and for no other size less than half of 2^32.
   */
  lemma MergeKeepsOther(m: int, k: int, k': int)
    requires 0 < m < TWO_32
    ensures MergeKeepsKeys(m, k, k') <==> NothingNew(m, k, k')
  {
    EnoughIs(m);
    if NothingNew(m, k, k') {
      NothingNewIsCovered(m, k, k');
      CoveredIsKept(m, k, k');
    } else if k' >= 0 {
      TooFewLose(m, k, k');
    } else {
      assert Position(m, 0, 0, 0) in Spots(m, k, 0, 0);
      UncoveredIsLost(m, k, k', 0, 0, Position(m, 0, 0, 0));
    }
  }
}
