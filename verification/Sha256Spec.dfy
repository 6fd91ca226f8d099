/** The secure hash algorithm SHA-256 as FIPS 180-4 defines it. */
module Sha256Spec {
  import opened Bytes

  type word = bv32

  /** Section 3.2: addition modulo 2^32. */
  function Add(x: word, y: word): word {
    x + y
  }

  function Sum(a: word, b: word, c: word, d: word): word {
    a + b + c + d
  }

  /** Section 3.2: rotation to the right. */
  function Rotr(x: word, n: bv6): word
    requires 0 < n < 32
  {
    (x >> n) | (x << (32 - n))
  }

  // Section 4.1.2: the six functions of SHA-256.
  function Ch(x: word, y: word, z: word): word { (x & y) ^ (!x & z) }
  function Maj(x: word, y: word, z: word): word { (x & y) ^ (x & z) ^ (y & z) }
  function BigSigma0(x: word): word { Rotr(x, 2) ^ Rotr(x, 13) ^ Rotr(x, 22) }
  function BigSigma1(x: word): word { Rotr(x, 6) ^ Rotr(x, 11) ^ Rotr(x, 25) }
  function SmallSigma0(x: word): word { Rotr(x, 7) ^ Rotr(x, 18) ^ (x >> 3) }
  function SmallSigma1(x: word): word { Rotr(x, 17) ^ Rotr(x, 19) ^ (x >> 10) }

  type Block = b: seq<byte> | |b| == 64 witness seq(64, _ => 0)
  type HashValue = h: seq<word> | |h| == 8 witness seq(8, _ => 0)

  /** Section 4.2.2: the sixty-four constants, eight in a row. */
  const K: seq<HashValue> := [
    [0x428a2f98, 0x71374491, 0xb5c0fbcf, 0xe9b5dba5, 0x3956c25b, 0x59f111f1, 0x923f82a4, 0xab1c5ed5],
    [0xd807aa98, 0x12835b01, 0x243185be, 0x550c7dc3, 0x72be5d74, 0x80deb1fe, 0x9bdc06a7, 0xc19bf174],
    [0xe49b69c1, 0xefbe4786, 0x0fc19dc6, 0x240ca1cc, 0x2de92c6f, 0x4a7484aa, 0x5cb0a9dc, 0x76f988da],
    [0x983e5152, 0xa831c66d, 0xb00327c8, 0xbf597fc7, 0xc6e00bf3, 0xd5a79147, 0x06ca6351, 0x14292967],
    [0x27b70a85, 0x2e1b2138, 0x4d2c6dfc, 0x53380d13, 0x650a7354, 0x766a0abb, 0x81c2c92e, 0x92722c85],
    [0xa2bfe8a1, 0xa81a664b, 0xc24b8b70, 0xc76c51a3, 0xd192e819, 0xd6990624, 0xf40e3585, 0x106aa070],
    [0x19a4c116, 0x1e376c08, 0x2748774c, 0x34b0bcb5, 0x391c0cb3, 0x4ed8aa4a, 0x5b9cca4f, 0x682e6ff3],
    [0x748f82ee, 0x78a5636f, 0x84c87814, 0x8cc70208, 0x90befffa, 0xa4506ceb, 0xbef9a3f7, 0xc67178f2]]

  function Constant(t: nat): word
    requires t < 64
  {
    K[t / 8][t % 8]
  }

  /** Section 5.3.3: the initial hash value. */
  const H0: seq<word> := [
    0x6a09e667, 0xbb67ae85, 0x3c6ef372, 0xa54ff53a, 0x510e527f, 0x9b05688c, 0x1f83d9ab, 0x5be0cd19]

  /** Section 3.1: four bytes, most significant first, make a word. */
  function WordOf(b: seq<byte>, at: nat): word
    requires at + 4 <= |b|
  {
    Be32(b, at) as word
  }

  /** Section 6.2.2, step 1: the message schedule. */
  function W(b: Block, t: nat): word
    requires t < 64
  {
    if t < 16 then WordOf(b, 4 * t)
    else Sum(SmallSigma1(W(b, t - 2)), W(b, t - 7), SmallSigma0(W(b, t - 15)), W(b, t - 16))
  }

  /** Step 3: one round on the working variables a..h. */
  function Round(v: HashValue, k: word, w: word): HashValue {
    var t1 := Add(Add(Add(Add(v[7], BigSigma1(v[4])), Ch(v[4], v[5], v[6])), k), w);
    var t2 := Add(BigSigma0(v[0]), Maj(v[0], v[1], v[2]));
    [Add(t1, t2), v[0], v[1], v[2], Add(v[3], t1), v[4], v[5], v[6]]
  }

  /** The working variables after t rounds. */
  function Rounds(h: HashValue, b: Block, t: nat): HashValue
    requires t <= 64
  {
    if t == 0 then h else Round(Rounds(h, b, t - 1), Constant(t - 1), W(b, t - 1))
  }

  lemma RoundsNext(h: HashValue, b: Block, t: nat)
    requires t < 64
    ensures Rounds(h, b, t + 1) == Round(Rounds(h, b, t), Constant(t), W(b, t))
  {
    hide W, Round;
  }

  /** Step 4: the next hash value. */
  function Compress(h: HashValue, b: Block): HashValue {
    var v := Rounds(h, b, 64);
    seq(8, i requires 0 <= i < 8 => Add(h[i], v[i]))
  }

  /** The hash value after the first n blocks of a message. */
  function HashBlocks(m: seq<byte>, n: nat): HashValue
    requires 64 * n <= |m|
  {
    if n == 0 then H0 else Compress(HashBlocks(m, n - 1), m[64 * (n - 1)..64 * n])
  }

  predicate CompletesBlock(len: nat, zeros: nat) {
    (len + 1 + zeros + 8) % 64 == 0
  }

  /** Section 5.1.1: the number of zero bytes between the 0x80 byte and the length, the least
      that completes a block. */
  function ZeroBytes(len: nat): (k: nat)
    ensures CompletesBlock(len, k)
    ensures forall j :: 0 <= j < k ==> !CompletesBlock(len, j)
  {
    (64 - (len + 9) % 64) % 64
  }

  /** Section 5.1.1: the padded message. */
  function Pad(m: seq<byte>): (r: seq<byte>)
    ensures |r| % 64 == 0
  {
    m + [0x80] + Zeros(ZeroBytes(|m|)) + BeBytes(8 * |m|, 8)
  }

  /** Big-endian bytes of a word. */
  function WordBytes(w: word): (r: seq<byte>)
    ensures |r| == 4
  {
    BeBytes(w as int, 4)
  }

  function DigestBytes(h: seq<word>): (r: seq<byte>)
    ensures |r| == 4 * |h|
  {
    if h == [] then [] else DigestBytes(h[..|h| - 1]) + WordBytes(h[|h| - 1])
  }

  /** Section 6.2: the message digest. */
  function Sha256(m: seq<byte>): (r: seq<byte>)
    ensures |r| == 32
  {
    DigestBytes(HashBlocks(Pad(m), |Pad(m)| / 64))
  }
}
