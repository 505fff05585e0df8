/**
 * The strings under which the Go maps file their entries.  Each key determines what it was made
 * from, over all int32 values, so a string-keyed map stands for a map on pairs.
 */
module Keys {
  import opened GoTypes

  const MINUS: Byte := 45
  const ZERO: Byte := 48
  const COLON: Byte := 58
  const GREATER: Byte := 62

  /** The decimal digits of a natural number, without leading zeros. */
  function Digits(n: nat): (d: Bytes)
    ensures d != [] && forall i :: 0 <= i < |d| ==> ZERO <= d[i] < ZERO + 10
  {
    if n < 10 then [ZERO + n] else Digits(n / 10) + [ZERO + n % 10]
  }

  /** Go's `%d`. */
  function Decimal(n: int): (d: Bytes)
    ensures d != [] && (d[0] == MINUS <==> n < 0)
    ensures forall i :: 0 <= i < |d| ==> d[i] == MINUS || ZERO <= d[i] < ZERO + 10
    ensures forall i :: 1 <= i < |d| ==> d[i] != MINUS
  {
    if n < 0 then [MINUS] + Digits(-n) else Digits(n)
  }

  function CacheKey(from: Int32, to: Int32): Bytes {
    Decimal(from) + [MINUS, GREATER] + Decimal(to)
  }

  function EdgeKey(from: Int32, to: Int32): Bytes {
    Decimal(from) + [MINUS] + Decimal(to)
  }

  function ChunkStoreKey(fileId: Bytes, index: Int32): Bytes {
    fileId + [COLON] + Decimal(index)
  }

  /** Four big-endian bytes of the index as a uint32. */
  function BigEndian(index: Int32): (b: Bytes)
    ensures |b| == 4
  {
    var n := index % TWO_32;
    [n / 0x100_0000, n / 0x1_0000 % 256, n / 0x100 % 256, n % 256]
  }

  /** The key a chunk has in the Bloom filter. */
  function BloomKey(fileId: Bytes, index: Int32): Bytes {
    fileId + [COLON] + BigEndian(index)
  }

  function DigitsValue(d: Bytes): int {
    if d == [] then 0 else 10 * DigitsValue(d[..|d| - 1]) + d[|d| - 1] - ZERO
  }

  /** Reading digits back undoes writing them. */
  lemma {:induction false} DigitsRoundTrip(n: nat)
    ensures DigitsValue(Digits(n)) == n
  {
    if n >= 10 {
      DigitsRoundTrip(n / 10);
      assert Digits(n)[..|Digits(n)| - 1] == Digits(n / 10);
    }
  }

  lemma DigitsInjective(m: nat, n: nat)
    requires Digits(m) == Digits(n)
    ensures m == n
  {
    DigitsRoundTrip(m);
    DigitsRoundTrip(n);
  }

  lemma DecimalInjective(a: int, b: int)
    requires Decimal(a) == Decimal(b)
    ensures a == b
  {
    if a < 0 {
      assert Decimal(a)[1..] == Digits(-a) && Decimal(b)[1..] == Digits(-b);
      DigitsInjective(-a, -b);
    } else {
      DigitsInjective(a, b);
    }
  }

  /** A separator that does not occur before itself splits a string in one way only. */
  lemma SplitAtFirst(c: Byte, x: Bytes, y: Bytes, x': Bytes, y': Bytes)
    requires x + [c] + y == x' + [c] + y' && c !in x && c !in x'
    ensures x == x' && y == y'
  {
    var s := x + [c] + y;
    assert s[|x|] == c && s[|x'|] == c;
    assert s[..|x|] == x && s[..|x'|] == x';
    assert s[|x| + 1..] == y && s[|x| + 1..] == y';
  }

  /** And so does one that does not occur after itself. */
  lemma SplitAtLast(c: Byte, x: Bytes, y: Bytes, x': Bytes, y': Bytes)
    requires x + [c] + y == x' + [c] + y' && c !in y && c !in y'
    ensures x == x' && y == y'
  {
    var s := x + [c] + y;
    assert s[|x|] == c && s[|x'|] == c;
    assert s[..|x|] == x && s[..|x'|] == x';
    assert s[|x| + 1..] == y && s[|x| + 1..] == y';
  }

  lemma CacheKeyInjective(a: Int32, b: Int32, a': Int32, b': Int32)
    ensures CacheKey(a, b) == CacheKey(a', b') <==> a == a' && b == b'
  {
    if CacheKey(a, b) == CacheKey(a', b') {
      var x, x' := Decimal(a) + [MINUS], Decimal(a') + [MINUS];
      assert CacheKey(a, b) == x + [GREATER] + Decimal(b);
      assert CacheKey(a', b') == x' + [GREATER] + Decimal(b');
      SplitAtFirst(GREATER, x, Decimal(b), x', Decimal(b'));
      assert x[..|x| - 1] == Decimal(a) && x'[..|x'| - 1] == Decimal(a');
      DecimalInjective(a, a');
      DecimalInjective(b, b');
    }
  }

  /** The separator is also the minus sign; only the one after the first digit can separate. */
  lemma EdgeKeyInjective(a: Int32, b: Int32, a': Int32, b': Int32)
    ensures EdgeKey(a, b) == EdgeKey(a', b') <==> a == a' && b == b'
  {
    if EdgeKey(a, b) == EdgeKey(a', b') {
      EdgeKeySplits(Decimal(a), Decimal(b), Decimal(a'), Decimal(b'));
      DecimalInjective(a, a');
      DecimalInjective(b, b');
    }
  }

  lemma EdgeKeySplits(x: Bytes, y: Bytes, x': Bytes, y': Bytes)
    requires x != [] && x' != [] && x + [MINUS] + y == x' + [MINUS] + y'
    requires MINUS !in x[1..] && MINUS !in x'[1..]
    ensures x == x' && y == y'
  {
    assert (x + [MINUS] + y)[0] == x[0] && (x' + [MINUS] + y')[0] == x'[0];
    assert (x + [MINUS] + y)[1..] == x[1..] + [MINUS] + y;
    assert (x' + [MINUS] + y')[1..] == x'[1..] + [MINUS] + y';
    SplitAtFirst(MINUS, x[1..], y, x'[1..], y');
    assert x == [x[0]] + x[1..] && x' == [x'[0]] + x'[1..];
  }

  /** File IDs may hold colons: the last colon is the separator. */
  lemma ChunkStoreKeyInjective(f: Bytes, i: Int32, f': Bytes, i': Int32)
    ensures ChunkStoreKey(f, i) == ChunkStoreKey(f', i') <==> f == f' && i == i'
  {
    if ChunkStoreKey(f, i) == ChunkStoreKey(f', i') {
      SplitAtLast(COLON, f, Decimal(i), f', Decimal(i'));
      DecimalInjective(i, i');
    }
  }

  /** The keys as Go's formats spell them: "-1->20", "-1-20", "f:7", and four bytes after "f:", highest first. */
  lemma KeyFormats()
    ensures CacheKey(-1, 20) == [45, 49, 45, 62, 50, 48] && EdgeKey(-1, 20) == [45, 49, 45, 50, 48]
    ensures ChunkStoreKey([102], 7) == [102, 58, 55]
    ensures BloomKey([102], 258) == [102, 58, 0, 0, 1, 2] && BloomKey([102], -1) == [102, 58, 255, 255, 255, 255]
  {
    assert Digits(1) == [49] && Digits(2) == [50] && Digits(7) == [55];
    assert Digits(20) == Digits(2) + [48];
  }

  lemma BigEndianInjective(i: Int32, i': Int32)
    requires BigEndian(i) == BigEndian(i')
    ensures i == i'
  {
    var b, b' := BigEndian(i), BigEndian(i');
    assert b[0] == b'[0] && b[1] == b'[1] && b[2] == b'[2] && b[3] == b'[3];
    BigEndianValue(i % TWO_32);
    BigEndianValue(i' % TWO_32);
  }

  lemma BigEndianValue(n: UInt32)
    ensures n == n / 0x100_0000 * 0x100_0000 + n / 0x1_0000 % 256 * 0x1_0000 + n / 0x100 % 256 * 0x100 + n % 256
  {
    assert n / 0x100 / 0x100 == n / 0x1_0000;
    assert n / 0x1_0000 / 0x100 == n / 0x100_0000;
  }

  lemma BloomKeyInjective(f: Bytes, i: Int32, f': Bytes, i': Int32)
    ensures BloomKey(f, i) == BloomKey(f', i') <==> f == f' && i == i'
  {
    var s, s' := BloomKey(f, i), BloomKey(f', i');
    if s == s' {
      assert s[..|s| - 5] == f && s'[..|s'| - 5] == f';
      assert s[|s| - 4..] == BigEndian(i) && s'[|s'| - 4..] == BigEndian(i');
      BigEndianInjective(i, i');
    }
  }
}
