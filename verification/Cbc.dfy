/** Cipher block chaining, section 6.2 of NIST SP 800-38A, over any block decryption. */
module Cbc {
  import opened Bytes

  const BLOCK: nat := 16

  type AesBlock = b: seq<byte> | |b| == BLOCK witness seq(BLOCK, _ => 0)

  /** Decryption of one block under the key of a section. */
  type Cipher = AesBlock -> AesBlock

  function Pow2(k: nat): (n: nat)
    ensures n > 0
  {
    if k == 0 then 1 else 2 * Pow2(k - 1)
  }

  /** The k low-order binary digits of a and b, each pair added modulo 2. */
  function XorBits(a: nat, b: nat, k: nat): (r: nat)
    ensures r < Pow2(k)
  {
    if k == 0 then 0 else 2 * XorBits(a / 2, b / 2, k - 1) + (a + b) % 2
  }

  function XorByte(a: byte, b: byte): byte {
    ByteLimit();
    XorBits(a, b, 8)
  }

  lemma ByteLimit()
    ensures Pow2(8) == 0x100
  {
    assert Pow2(4) == 16;
  }

  function Xor(a: AesBlock, b: AesBlock): AesBlock {
    seq(BLOCK, i requires 0 <= i < BLOCK => XorByte(a[i], b[i]))
  }

  predicate Whole(c: seq<byte>) {
    |c| % BLOCK == 0
  }

  /** The plaintext of c. */
  function Decrypt(dec: Cipher, iv: AesBlock, c: seq<byte>): (p: seq<byte>)
    requires Whole(c)
    ensures |p| == |c|
    decreases |c|
  {
    if c == [] then [] else Xor(dec(c[..BLOCK]), iv) + Decrypt(dec, c[..BLOCK], c[BLOCK..])
  }

  /** The chaining value after c: its last ciphertext block. */
  function Chained(iv: AesBlock, c: seq<byte>): AesBlock
    requires Whole(c)
  {
    if c == [] then iv else c[|c| - BLOCK..]
  }

  /** The plaintext of the j-th block is its decryption xor the ciphertext block before it. */
  lemma {:induction false} BlockWise(dec: Cipher, iv: AesBlock, c: seq<byte>, j: nat)
    requires Whole(c) && BLOCK * (j + 1) <= |c|
    ensures Decrypt(dec, iv, c)[BLOCK * j..BLOCK * (j + 1)]
         == Xor(dec(c[BLOCK * j..BLOCK * (j + 1)]), if j == 0 then iv else c[BLOCK * (j - 1)..BLOCK * j])
    decreases j
  {
    hide Xor;
    var rest := Decrypt(dec, c[..BLOCK], c[BLOCK..]);
    if j == 0 {
      assert Decrypt(dec, iv, c)[..BLOCK] == Xor(dec(c[..BLOCK]), iv);
    } else {
      BlockWise(dec, c[..BLOCK], c[BLOCK..], j - 1);
      assert Decrypt(dec, iv, c)[BLOCK * j..BLOCK * (j + 1)] == rest[BLOCK * (j - 1)..BLOCK * j];
      assert c[BLOCK..][BLOCK * (j - 1)..BLOCK * j] == c[BLOCK * j..BLOCK * (j + 1)];
      if j > 1 {
        assert c[BLOCK..][BLOCK * (j - 2)..BLOCK * (j - 1)] == c[BLOCK * (j - 1)..BLOCK * j];
      }
    }
  }

  /** Decrypting in pieces, each with the chaining value of the one before, is decrypting at once. */
  lemma HeadOff(a: seq<byte>, b: seq<byte>)
    requires Whole(a) && a != [] && Whole(b)
    ensures BLOCK <= |a| && Whole(a[..BLOCK]) && Whole(a[BLOCK..]) && Whole(a + b) && Whole(a[BLOCK..] + b)
    ensures (a + b)[..BLOCK] == a[..BLOCK] && (a + b)[BLOCK..] == a[BLOCK..] + b
  {
  }

  lemma DecryptHead(dec: Cipher, iv: AesBlock, c: seq<byte>)
    requires Whole(c) && BLOCK <= |c|
    ensures Whole(c[BLOCK..]) && Decrypt(dec, iv, c) == Xor(dec(c[..BLOCK]), iv) + Decrypt(dec, c[..BLOCK], c[BLOCK..])
    ensures Chained(iv, c) == Chained(c[..BLOCK], c[BLOCK..])
  {
    hide Xor;
  }

  lemma {:induction false} InPieces(dec: Cipher, iv: AesBlock, a: seq<byte>, b: seq<byte>)
    requires Whole(a) && Whole(b)
    ensures Whole(a + b) && Decrypt(dec, iv, a + b) == Decrypt(dec, iv, a) + Decrypt(dec, Chained(iv, a), b)
    ensures Chained(iv, a + b) == Chained(Chained(iv, a), b)
    decreases |a|
  {
    hide Xor;
    if a == [] {
      assert a + b == b;
    } else {
      HeadOff(a, b);
      DecryptHead(dec, iv, a);
      DecryptHead(dec, iv, a + b);
      hide Whole, Decrypt, Chained;
      InPieces(dec, a[..BLOCK], a[BLOCK..], b);
    }
  }

  // Decryption is the inverse of encryption.

  lemma {:induction false} XorTwice(a: nat, b: nat, k: nat)
    requires a < Pow2(k)
    ensures XorBits(XorBits(a, b, k), b, k) == a
  {
    if k > 0 {
      XorTwice(a / 2, b / 2, k - 1);
      DigitTwice(XorBits(a / 2, b / 2, k - 1), a, b);
    }
  }

  lemma DigitTwice(x: nat, a: nat, b: nat)
    ensures var r := 2 * x + (a + b) % 2; r / 2 == x && (r + b) % 2 == a % 2 && 2 * (a / 2) + a % 2 == a
  {
  }

  lemma XorByteTwice(a: byte, b: byte)
    ensures XorByte(XorByte(a, b), b) == a
  {
    hide XorBits;
    ByteLimit();
    XorTwice(a, b, 8);
  }

  /** Section 6.2: each plaintext block is xored with the ciphertext block before it and encrypted. */
  function Encrypt(enc: Cipher, iv: AesBlock, p: seq<byte>): (c: seq<byte>)
    requires Whole(p)
    ensures |c| == |p|
    decreases |p|
  {
    if p == [] then [] else var c0 := enc(Xor(p[..BLOCK], iv)); c0 + Encrypt(enc, c0, p[BLOCK..])
  }

  lemma {:induction false} DecryptsEncrypted(enc: Cipher, dec: Cipher, iv: AesBlock, p: seq<byte>)
    requires Whole(p) && forall b: AesBlock :: dec(enc(b)) == b
    ensures Decrypt(dec, iv, Encrypt(enc, iv, p)) == p
    decreases |p|
  {
    hide Xor, XorByte;
    if p != [] {
      var c0 := enc(Xor(p[..BLOCK], iv));
      DecryptsEncrypted(enc, dec, c0, p[BLOCK..]);
      var c := c0 + Encrypt(enc, c0, p[BLOCK..]);
      assert c[..BLOCK] == c0 && c[BLOCK..] == Encrypt(enc, c0, p[BLOCK..]);
      XorBlockTwice(p[..BLOCK], iv);
    }
  }

  lemma XorBlockTwice(a: AesBlock, b: AesBlock)
    ensures Xor(Xor(a, b), b) == a
  {
    hide XorByte;
    forall i | 0 <= i < BLOCK ensures Xor(Xor(a, b), b)[i] == a[i] {
      XorByteTwice(a[i], b[i]);
    }
  }
}
