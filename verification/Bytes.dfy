/** Bytes, little- and big-endian integers and the byte copy of memops.h. */
module Bytes {
  type byte = x: int | 0 <= x < 0x100

  const U32_LIMIT: int := 0x1_0000_0000

  function Min(a: nat, b: nat): nat { if a < b then a else b }

  /** ALIGN(x, 0x40) without the 32-bit wrap: callers keep the sum below 2^32. */
  function Align64(x: nat): (r: nat)
    ensures x <= r < x + 64 && r % 64 == 0
  {
    (x + 63) / 64 * 64
  }

  /** a - b in u32 arithmetic. */
  function Sub32(a: nat, b: nat): (r: nat)
    ensures r < U32_LIMIT
    ensures b <= a < b + U32_LIMIT ==> r == a - b
    ensures a < b <= a + U32_LIMIT ==> r == a + U32_LIMIT - b
  {
    (a - b) % U32_LIMIT
  }

  /** A packed u32 field read on a little-endian machine. */
  function Le32(b: seq<byte>, at: nat): nat
    requires at + 4 <= |b|
  {
    (b[at] as int) + 0x100 * (b[at + 1] as int) + 0x1_0000 * (b[at + 2] as int) + 0x100_0000 * (b[at + 3] as int)
  }

  function Le64(b: seq<byte>, at: nat): nat
    requires at + 8 <= |b|
  {
    Le32(b, at + 4) * U32_LIMIT + Le32(b, at)
  }

  /** A packed u64 field after __builtin_bswap64. */
  function Be64(b: seq<byte>, at: nat): nat
    requires at + 8 <= |b|
  {
    Be32(b, at) * U32_LIMIT + Be32(b, at + 4)
  }

  function Be32(b: seq<byte>, at: nat): nat
    requires at + 4 <= |b|
  {
    0x100_0000 * (b[at] as int) + 0x1_0000 * (b[at + 1] as int) + 0x100 * (b[at + 2] as int) + (b[at + 3] as int)
  }

  /** The k low-order bytes of n, most significant first. */
  function BeBytes(n: nat, k: nat): (r: seq<byte>)
    ensures |r| == k
  {
    if k == 0 then [] else BeBytes(n / 0x100, k - 1) + [n % 0x100]
  }

  /** The k low-order bytes of n, least significant first. */
  function LeBytes(n: nat, k: nat): (r: seq<byte>)
    ensures |r| == k
  {
    if k == 0 then [] else [n % 0x100] + LeBytes(n / 0x100, k - 1)
  }

  // The fields are read in the byte order they are written in.

  lemma ByteOut(hi: nat, lo: nat)
    ensures (hi * 0x100 + lo) / 0x100 == hi + lo / 0x100 && (hi * 0x100 + lo) % 0x100 == lo % 0x100
  {
  }

  /** The four low-order bytes, one by one. */
  lemma FourOut(hi: nat, lo: nat)
    requires lo < U32_LIMIT
    ensures var n := hi * U32_LIMIT + lo;
            && n % 0x100 == lo % 0x100 && n / 0x100 % 0x100 == lo / 0x100 % 0x100
            && n / 0x100 / 0x100 % 0x100 == lo / 0x100 / 0x100 % 0x100
            && n / 0x100 / 0x100 / 0x100 % 0x100 == lo / 0x100 / 0x100 / 0x100 % 0x100
            && n / 0x100 / 0x100 / 0x100 / 0x100 == hi && lo / 0x100 / 0x100 / 0x100 / 0x100 == 0
  {
    ByteOut(hi * 0x100_0000, lo);
    ByteOut(hi * 0x1_0000, lo / 0x100);
    ByteOut(hi * 0x100, lo / 0x100 / 0x100);
    ByteOut(hi, lo / 0x100 / 0x100 / 0x100);
  }

  /** The low-order part in front. */
  lemma LeBytesSplit(hi: nat, lo: nat, k: nat)
    requires lo < U32_LIMIT
    ensures LeBytes(hi * U32_LIMIT + lo, k + 4) == LeBytes(lo, 4) + LeBytes(hi, k)
  {
    FourOut(hi, lo);
    LeBytesFour(hi * U32_LIMIT + lo, k);
    LeBytesFour(lo, 0);
    NoMoreBytes(0);
    hide LeBytes;
    var four := [lo % 0x100, lo / 0x100 % 0x100, lo / 0x100 / 0x100 % 0x100, lo / 0x100 / 0x100 / 0x100 % 0x100];
    assert four + [] == four;
  }

  lemma LeBytesFour(n: nat, k: nat)
    ensures var n1 := n / 0x100;
            var n2 := n1 / 0x100;
            var n3 := n2 / 0x100;
            LeBytes(n, k + 4) == [n % 0x100, n1 % 0x100, n2 % 0x100, n3 % 0x100] + LeBytes(n3 / 0x100, k)
  {
    var n1 := n / 0x100;
    var n2 := n1 / 0x100;
    var n3 := n2 / 0x100;
    assert LeBytes(n, k + 4) == [n % 0x100] + LeBytes(n1, k + 3);
    assert LeBytes(n1, k + 3) == [n1 % 0x100] + LeBytes(n2, k + 2);
    assert LeBytes(n2, k + 2) == [n2 % 0x100] + LeBytes(n3, k + 1);
    assert LeBytes(n3, k + 1) == [n3 % 0x100] + LeBytes(n3 / 0x100, k);
  }

  lemma Le64Bytes(b: seq<byte>, at: nat)
    requires at + 8 <= |b|
    ensures LeBytes(Le64(b, at), 8) == b[at..at + 8]
  {
    hide LeBytes, Le32;
    Le32Bytes(b, at);
    Le32Bytes(b, at + 4);
    LeBytesSplit(Le32(b, at + 4), Le32(b, at), 4);
    SlicesMeet(b, at, at + 4, at + 8);
  }

  /** The high-order part in front. */
  lemma BeBytesSplit(hi: nat, lo: nat, k: nat)
    requires lo < U32_LIMIT
    ensures BeBytes(hi * U32_LIMIT + lo, k + 4) == BeBytes(hi, k) + BeBytes(lo, 4)
  {
    FourOut(hi, lo);
    BeBytesFour(hi * U32_LIMIT + lo, k);
    BeBytesFour(lo, 0);
    NoMoreBytes(0);
    hide BeBytes;
    var four := [lo / 0x100 / 0x100 / 0x100 % 0x100, lo / 0x100 / 0x100 % 0x100, lo / 0x100 % 0x100, lo % 0x100];
    assert [] + four == four;
  }

  lemma NoMoreBytes(n: nat)
    ensures BeBytes(n, 0) == LeBytes(n, 0) == []
  {
  }

  lemma BeBytesFour(n: nat, k: nat)
    ensures var n1 := n / 0x100;
            var n2 := n1 / 0x100;
            var n3 := n2 / 0x100;
            BeBytes(n, k + 4) == BeBytes(n3 / 0x100, k) + [n3 % 0x100, n2 % 0x100, n1 % 0x100, n % 0x100]
  {
    var n1 := n / 0x100;
    var n2 := n1 / 0x100;
    var n3 := n2 / 0x100;
    assert BeBytes(n, k + 4) == BeBytes(n1, k + 3) + [n % 0x100];
    assert BeBytes(n1, k + 3) == BeBytes(n2, k + 2) + [n1 % 0x100];
    assert BeBytes(n2, k + 2) == BeBytes(n3, k + 1) + [n2 % 0x100];
    assert BeBytes(n3, k + 1) == BeBytes(n3 / 0x100, k) + [n3 % 0x100];
  }

  /** The digits of a number put together from four bytes. */
  lemma FourDigits(b3: byte, b2: byte, b1: byte, b0: byte)
    ensures var n := 0x100_0000 * (b3 as int) + 0x1_0000 * (b2 as int) + 0x100 * (b1 as int) + (b0 as int);
            && n % 0x100 == b0 && n / 0x100 % 0x100 == b1 && n / 0x100 / 0x100 % 0x100 == b2
            && n / 0x100 / 0x100 / 0x100 % 0x100 == b3 && n < U32_LIMIT
  {
    var hi := 0x100 * (b3 as int) + (b2 as int);
    ByteOut(0x100 * hi + b1, b0);
    ByteOut(hi, b1);
    ByteOut(b3, b2);
  }

  lemma Le32Bytes(b: seq<byte>, at: nat)
    requires at + 4 <= |b|
    ensures LeBytes(Le32(b, at), 4) == b[at..at + 4] && Le32(b, at) < U32_LIMIT
  {
    FourDigits(b[at + 3], b[at + 2], b[at + 1], b[at]);
    LeBytesFour(Le32(b, at), 0);
    hide LeBytes;
  }

  lemma Be32Bytes(b: seq<byte>, at: nat)
    requires at + 4 <= |b|
    ensures BeBytes(Be32(b, at), 4) == b[at..at + 4] && Be32(b, at) < U32_LIMIT
  {
    FourDigits(b[at], b[at + 1], b[at + 2], b[at + 3]);
    BeBytesFour(Be32(b, at), 0);
    hide BeBytes;
  }

  lemma Be64Bytes(b: seq<byte>, at: nat)
    requires at + 8 <= |b|
    ensures BeBytes(Be64(b, at), 8) == b[at..at + 8] && Be64(b, at) < U32_LIMIT * U32_LIMIT
  {
    hide BeBytes, Be32;
    Be32Bytes(b, at);
    Be32Bytes(b, at + 4);
    BeBytesSplit(Be32(b, at), Be32(b, at + 4), 4);
    SlicesMeet(b, at, at + 4, at + 8);
  }

  /** b with the bytes of src written from index at on. */
  function Splice(b: seq<byte>, at: nat, src: seq<byte>): (r: seq<byte>)
    requires at + |src| <= |b|
    ensures |r| == |b|
  {
    b[..at] + src + b[at + |src|..]
  }

  /** _memcpy: the destination changes exactly in [at, at + |src|). */
  method MemCopy(dst: array<byte>, at: nat, src: seq<byte>)
    requires at + |src| <= dst.Length
    modifies dst
    ensures dst[..] == Splice(old(dst[..]), at, src)
  {
    ghost var was := dst[..];
    for i := 0 to |src|
      invariant forall k :: 0 <= k < dst.Length ==> dst[k] == if at <= k < at + i then src[k - at] else was[k]
    {
      dst[at + i] := src[i];
    }
    assert dst[..] == Splice(was, at, src);
  }

  function Zeros(n: nat): (r: seq<byte>)
    ensures |r| == n
  {
    seq(n, _ => 0)
  }

  /** _memset to zero. */
  method MemZero(dst: array<byte>, at: nat, n: nat)
    requires at + n <= dst.Length
    modifies dst
    ensures dst[..] == Splice(old(dst[..]), at, Zeros(n))
  {
    ghost var was := dst[..];
    for i := 0 to n
      invariant forall k :: 0 <= k < dst.Length ==> dst[k] == if at <= k < at + i then 0 else was[k]
    {
      dst[at + i] := 0;
    }
    assert dst[..] == Splice(was, at, Zeros(n));
  }

  /** Splicing right behind a known prefix extends that prefix. */
  lemma SplicePrefix(b: seq<byte>, at: nat, src: seq<byte>)
    requires at + |src| <= |b|
    ensures Splice(b, at, src)[..at + |src|] == b[..at] + src
  {
  }

  predicate Ascending(s: seq<nat>) {
    forall i, j :: 0 <= i < j < |s| ==> s[i] < s[j]
  }

  lemma SlicesMeet<T>(s: seq<T>, a: nat, b: nat, c: nat)
    requires a <= b <= c <= |s|
    ensures s[a..b] + s[b..c] == s[a..c]
  {
  }
}
