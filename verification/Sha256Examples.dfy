/** SHA-256 is the published one: its constants are the roots they are said to be, and it has the digests
    published with FIPS 180-4 for a message of one block and for a message of two. */
module Sha256Examples {
  import opened Bytes
  import opened Sha256Spec

  // The constants.

  type OfEight = s: seq<nat> | |s| == 8 witness seq(8, _ => 0)

  /** The first primes, eight in a row. */
  const PRIMES: seq<OfEight> := [
    [2, 3, 5, 7, 11, 13, 17, 19],
    [23, 29, 31, 37, 41, 43, 47, 53],
    [59, 61, 67, 71, 73, 79, 83, 89],
    [97, 101, 103, 107, 109, 113, 127, 131],
    [137, 139, 149, 151, 157, 163, 167, 173],
    [179, 181, 191, 193, 197, 199, 211, 223],
    [227, 229, 233, 239, 241, 251, 257, 263],
    [269, 271, 277, 281, 283, 293, 307, 311]]

  /** The roots in units of 2^-32, rounded down. */
  const CUBE_ROOTS: seq<OfEight> := [
    [0x1428a2f98, 0x171374491, 0x1b5c0fbcf, 0x1e9b5dba5, 0x23956c25b, 0x259f111f1, 0x2923f82a4, 0x2ab1c5ed5],
    [0x2d807aa98, 0x312835b01, 0x3243185be, 0x3550c7dc3, 0x372be5d74, 0x380deb1fe, 0x39bdc06a7, 0x3c19bf174],
    [0x3e49b69c1, 0x3efbe4786, 0x40fc19dc6, 0x4240ca1cc, 0x42de92c6f, 0x44a7484aa, 0x45cb0a9dc, 0x476f988da],
    [0x4983e5152, 0x4a831c66d, 0x4b00327c8, 0x4bf597fc7, 0x4c6e00bf3, 0x4d5a79147, 0x506ca6351, 0x514292967],
    [0x527b70a85, 0x52e1b2138, 0x54d2c6dfc, 0x553380d13, 0x5650a7354, 0x5766a0abb, 0x581c2c92e, 0x592722c85],
    [0x5a2bfe8a1, 0x5a81a664b, 0x5c24b8b70, 0x5c76c51a3, 0x5d192e819, 0x5d6990624, 0x5f40e3585, 0x6106aa070],
    [0x619a4c116, 0x61e376c08, 0x62748774c, 0x634b0bcb5, 0x6391c0cb3, 0x64ed8aa4a, 0x65b9cca4f, 0x6682e6ff3],
    [0x6748f82ee, 0x678a5636f, 0x684c87814, 0x68cc70208, 0x690befffa, 0x6a4506ceb, 0x6bef9a3f7, 0x6c67178f2]]

  const SQUARE_ROOTS: OfEight := [
    0x16a09e667, 0x1bb67ae85, 0x23c6ef372, 0x2a54ff53a,
    0x3510e527f, 0x39b05688c, 0x41f83d9ab, 0x45be0cd19]

  /** k is the first 32 bits of the fractional part of the cube root of n, r the root in units of 2^-32
      rounded down. */
  predicate CubeRoot(k: word, n: nat, r: nat) {
    r * r * r <= n * (U32_LIMIT * U32_LIMIT * U32_LIMIT) < (r + 1) * (r + 1) * (r + 1) && r % U32_LIMIT == k as nat
  }

  predicate RootRow(k: HashValue, n: OfEight, r: OfEight) {
    forall i :: 0 <= i < 8 ==> CubeRoot(k[i], n[i], r[i])
  }

  predicate SquareRoot(k: word, n: nat, r: nat) {
    r * r <= n * (U32_LIMIT * U32_LIMIT) < (r + 1) * (r + 1) && r % U32_LIMIT == k as nat
  }

  lemma CubeRoots0()
    ensures RootRow(K[0], PRIMES[0], CUBE_ROOTS[0])
  {
  }

  lemma CubeRoots1()
    ensures RootRow(K[1], PRIMES[1], CUBE_ROOTS[1])
  {
  }

  lemma CubeRoots2()
    ensures RootRow(K[2], PRIMES[2], CUBE_ROOTS[2])
  {
  }

  lemma CubeRoots3()
    ensures RootRow(K[3], PRIMES[3], CUBE_ROOTS[3])
  {
  }

  lemma CubeRoots4()
    ensures RootRow(K[4], PRIMES[4], CUBE_ROOTS[4])
  {
  }

  lemma CubeRoots5()
    ensures RootRow(K[5], PRIMES[5], CUBE_ROOTS[5])
  {
  }

  lemma CubeRoots6()
    ensures RootRow(K[6], PRIMES[6], CUBE_ROOTS[6])
  {
  }

  lemma CubeRoots7()
    ensures RootRow(K[7], PRIMES[7], CUBE_ROOTS[7])
  {
  }

  /** The constants of the rounds are the fractional parts of the cube roots of the first primes. */
  lemma ConstantsAreCubeRoots(t: nat)
    requires t < 64
    ensures CubeRoot(Constant(t), PRIMES[t / 8][t % 8], CUBE_ROOTS[t / 8][t % 8])
  {
    hide CubeRoot;
    CubeRoots0();
    CubeRoots1();
    CubeRoots2();
    CubeRoots3();
    CubeRoots4();
    CubeRoots5();
    CubeRoots6();
    CubeRoots7();
    assert RootRow(K[t / 8], PRIMES[t / 8], CUBE_ROOTS[t / 8]);
  }

  /** The initial hash value is the fractional parts of the square roots of the first eight. */
  lemma InitialIsSquareRoots(i: nat)
    requires i < 8
    ensures SquareRoot(H0[i], PRIMES[0][i], SQUARE_ROOTS[i])
  {
  }

  // The examples.

  /** Eight rounds in one. */
  function Eight(v: HashValue, k: HashValue, w: HashValue): HashValue {
    var v4 := Round(Round(Round(Round(v, k[0], w[0]), k[1], w[1]), k[2], w[2]), k[3], w[3]);
    Round(Round(Round(Round(v4, k[4], w[4]), k[5], w[5]), k[6], w[6]), k[7], w[7])
  }

  /** The eight words of the schedule behind x and y. */
  function NextWords(x: HashValue, y: HashValue): HashValue {
    var w0 := Sum(SmallSigma1(y[6]), y[1], SmallSigma0(x[1]), x[0]);
    var w1 := Sum(SmallSigma1(y[7]), y[2], SmallSigma0(x[2]), x[1]);
    var w2 := Sum(SmallSigma1(w0), y[3], SmallSigma0(x[3]), x[2]);
    var w3 := Sum(SmallSigma1(w1), y[4], SmallSigma0(x[4]), x[3]);
    var w4 := Sum(SmallSigma1(w2), y[5], SmallSigma0(x[5]), x[4]);
    var w5 := Sum(SmallSigma1(w3), y[6], SmallSigma0(x[6]), x[5]);
    var w6 := Sum(SmallSigma1(w4), y[7], SmallSigma0(x[7]), x[6]);
    var w7 := Sum(SmallSigma1(w5), w0, SmallSigma0(y[0]), x[7]);
    [w0, w1, w2, w3, w4, w5, w6, w7]
  }

  predicate WordsAt(b: Block, t: nat, x: HashValue)
    requires t + 8 <= 64
  {
    && W(b, t) == x[0] && W(b, t + 1) == x[1] && W(b, t + 2) == x[2] && W(b, t + 3) == x[3]
    && W(b, t + 4) == x[4] && W(b, t + 5) == x[5] && W(b, t + 6) == x[6] && W(b, t + 7) == x[7]
  }

  /** One row of a table of a block's working variables and words, eight rounds apart, leads to the next. */
  predicate RowFollows(v: seq<HashValue>, w: seq<HashValue>, r: nat)
    requires |v| == 9 && |w| == 8 && r < 8
  {
    v[r + 1] == Eight(v[r], K[r], w[r]) && (r < 6 ==> w[r + 2] == NextWords(w[r], w[r + 1]))
  }

  predicate TableFollows(v: seq<HashValue>, w: seq<HashValue>) {
    |v| == 9 && |w| == 8 && forall r :: 0 <= r < 8 ==> RowFollows(v, w, r)
  }

  lemma WordInRow(b: Block, t: nat, x: HashValue, i: nat)
    requires t + 8 <= 64 && WordsAt(b, t, x) && i < 8
    ensures W(b, t + i) == x[i]
  {
    hide W;
    assert i in {0, 1, 2, 3, 4, 5, 6, 7};
  }

  lemma RoundInRow(h: HashValue, b: Block, r: nat, i: nat, x: HashValue)
    requires r < 8 && i < 8 && WordsAt(b, 8 * r, x)
    ensures |K| == 8 && Rounds(h, b, 8 * r + i + 1) == Round(Rounds(h, b, 8 * r + i), K[r][i], x[i])
  {
    hide Round, W, Rounds, WordsAt;
    RoundsNext(h, b, 8 * r + i);
    WordInRow(b, 8 * r, x, i);
    assert (8 * r + i) / 8 == r && (8 * r + i) % 8 == i;
  }

  lemma EightRounds(h: HashValue, b: Block, r: nat, x: HashValue)
    requires r < 8 && WordsAt(b, 8 * r, x)
    ensures |K| == 8 && Rounds(h, b, 8 * r + 8) == Eight(Rounds(h, b, 8 * r), K[r], x)
  {
    hide Round, W, Rounds, K, WordsAt;
    RoundInRow(h, b, r, 0, x);
    RoundInRow(h, b, r, 1, x);
    RoundInRow(h, b, r, 2, x);
    RoundInRow(h, b, r, 3, x);
    RoundInRow(h, b, r, 4, x);
    RoundInRow(h, b, r, 5, x);
    RoundInRow(h, b, r, 6, x);
    RoundInRow(h, b, r, 7, x);
  }

  lemma LaterWord(b: Block, t: nat)
    requires 16 <= t < 64
    ensures W(b, t) == Sum(SmallSigma1(W(b, t - 2)), W(b, t - 7), SmallSigma0(W(b, t - 15)), W(b, t - 16))
  {
  }

  lemma EightWords(b: Block, t: nat, x: HashValue, y: HashValue)
    requires t + 24 <= 64 && WordsAt(b, t, x) && WordsAt(b, t + 8, y)
    ensures WordsAt(b, t + 16, NextWords(x, y))
  {
    hide Sum, SmallSigma0, SmallSigma1, W;
    LaterWord(b, t + 16);
    LaterWord(b, t + 17);
    LaterWord(b, t + 18);
    LaterWord(b, t + 19);
    LaterWord(b, t + 20);
    LaterWord(b, t + 21);
    LaterWord(b, t + 22);
    LaterWord(b, t + 23);
  }

  /** A table that starts with a block's hash value and words is the computation of the block. */
  predicate RowReached(h: HashValue, b: Block, v: seq<HashValue>, w: seq<HashValue>, r: nat) {
    && r <= 8 && |v| == 9 && |w| == 8
    && Rounds(h, b, 8 * r) == v[r]
    && (r < 8 ==> WordsAt(b, 8 * r, w[r])) && (r < 7 ==> WordsAt(b, 8 * r + 8, w[r + 1]))
  }

  lemma RowAfter(h: HashValue, b: Block, v: seq<HashValue>, w: seq<HashValue>, r: nat)
    requires r < 8 && RowReached(h, b, v, w, r) && RowFollows(v, w, r)
    ensures RowReached(h, b, v, w, r + 1)
  {
    hide Eight, NextWords, WordsAt, W, K, Rounds;
    EightRounds(h, b, r, w[r]);
    if r < 6 {
      EightWords(b, 8 * r, w[r], w[r + 1]);
    }
  }

  lemma {:induction false} TableIsComputation(h: HashValue, b: Block, v: seq<HashValue>, w: seq<HashValue>, r: nat)
    requires TableFollows(v, w) && r <= 8 && v[0] == h && WordsAt(b, 0, w[0]) && WordsAt(b, 8, w[1])
    ensures RowReached(h, b, v, w, r)
  {
    hide RowFollows, WordsAt;
    if r > 0 {
      TableIsComputation(h, b, v, w, r - 1);
      hide RowReached;
      RowAfter(h, b, v, w, r - 1);
    }
  }

  function Summed(h: HashValue, v: HashValue): HashValue {
    [Add(h[0], v[0]), Add(h[1], v[1]), Add(h[2], v[2]), Add(h[3], v[3]),
     Add(h[4], v[4]), Add(h[5], v[5]), Add(h[6], v[6]), Add(h[7], v[7])]
  }

  lemma CompressSums(h: HashValue, b: Block)
    ensures Compress(h, b) == Summed(h, Rounds(h, b, 64))
  {
    hide Rounds, Add;
  }

  lemma TableCompresses(b: Block, v: seq<HashValue>, w: seq<HashValue>)
    requires |v| == 9 && |w| == 8 && TableFollows(v, w) && WordsAt(b, 0, w[0]) && WordsAt(b, 8, w[1])
    ensures Compress(v[0], b) == Summed(v[0], v[8])
  {
    hide TableFollows, WordsAt, Rounds, Compress, Summed;
    TableIsComputation(v[0], b, v, w, 8);
    CompressSums(v[0], b);
  }

  /** Working variables and words of the block of "abc", as the standard's example lists them. */
  const ABC_VARIABLES: seq<HashValue> := [
    [0x6a09e667, 0xbb67ae85, 0x3c6ef372, 0xa54ff53a, 0x510e527f, 0x9b05688c, 0x1f83d9ab, 0x5be0cd19],
    [0x85a07b5f, 0xe5030380, 0x2b4209f5, 0x04409a6a, 0x0c657a79, 0x9b27a401, 0x714260ad, 0x43ada245],
    [0xb0fa238e, 0xc0645fde, 0xd932eb16, 0x87912990, 0x07590dcd, 0x0b92f20c, 0x745a48de, 0x1e578218],
    [0xc5d53d8d, 0xa7a3623f, 0xc2606d6d, 0x9dc68b63, 0xaa47c347, 0x49f5114a, 0xe1257970, 0x8ada8930],
    [0x73b33bf5, 0xea992a22, 0xa0060b30, 0x363482c9, 0xba591112, 0x0109ab3a, 0xade79437, 0x6112a3b7],
    [0x79ea687a, 0x6dc57a8a, 0x34df1604, 0x41a65cb1, 0x1efbc0a0, 0xf0781bc8, 0xa507a53d, 0x0772a26b],
    [0x4172328d, 0xa14c14b0, 0x72ab4b91, 0x26628815, 0xfecf0bc6, 0xd57b94a9, 0xb7755da1, 0xa80f11f0],
    [0x38cc9913, 0x3ec45cdb, 0xf5702fdb, 0x101fd28f, 0x54cb266b, 0xe50e1b4f, 0x9f4787c3, 0x529e7d00],
    [0x506e3058, 0xd39a2165, 0x04d24d6c, 0xb85e2ce9, 0x5ef50f24, 0xfb121210, 0x948d25b6, 0x961f4894]]

  const ABC_WORDS: seq<HashValue> := [
    [0x61626380, 0x00000000, 0x00000000, 0x00000000, 0x00000000, 0x00000000, 0x00000000, 0x00000000],
    [0x00000000, 0x00000000, 0x00000000, 0x00000000, 0x00000000, 0x00000000, 0x00000000, 0x00000018],
    [0x61626380, 0x000f0000, 0x7da86405, 0x600003c6, 0x3e9d7b78, 0x0183fc00, 0x12dcbfdb, 0xe2e2c38e],
    [0xc8215c1a, 0xb73679a2, 0xe5bc3909, 0x32663c5b, 0x9d209d67, 0xec8726cb, 0x702138a4, 0xd3b7973b],
    [0x93f5997f, 0x3b68ba73, 0xaff4ffc1, 0xf10a5c62, 0x0a8b3996, 0x72af830a, 0x9409e33e, 0x24641522],
    [0x9f47bf94, 0xf0a64f5a, 0x3e246a79, 0x27333ba3, 0x0c4763f2, 0x840abf27, 0x7a290d5d, 0x065c43da],
    [0xfb3e89cb, 0xcc7617db, 0xb9e66c34, 0xa9993667, 0x84badedd, 0xc21462bc, 0x1487472c, 0xb20f7a99],
    [0xef57b9cd, 0xebe6b238, 0x9fe3095e, 0x78bc8d4b, 0xa43fcf15, 0x668b2ff8, 0xeeaba2cc, 0x12b1edeb]]

  lemma AbcRows0()
    ensures RowFollows(ABC_VARIABLES, ABC_WORDS, 0) && RowFollows(ABC_VARIABLES, ABC_WORDS, 1)
  {
  }

  lemma AbcRows2()
    ensures RowFollows(ABC_VARIABLES, ABC_WORDS, 2) && RowFollows(ABC_VARIABLES, ABC_WORDS, 3)
  {
  }

  lemma AbcRows4()
    ensures RowFollows(ABC_VARIABLES, ABC_WORDS, 4) && RowFollows(ABC_VARIABLES, ABC_WORDS, 5)
  {
  }

  lemma AbcRow6()
    ensures RowFollows(ABC_VARIABLES, ABC_WORDS, 6)
  {
  }

  lemma AbcRow7()
    ensures RowFollows(ABC_VARIABLES, ABC_WORDS, 7)
  {
  }

  lemma AbcFollows()
    ensures |ABC_VARIABLES| == 9 && |ABC_WORDS| == 8 && TableFollows(ABC_VARIABLES, ABC_WORDS)
  {
    hide RowFollows;
    AbcRows0();
    AbcRows2();
    AbcRows4();
    AbcRow6();
    AbcRow7();
    forall r | 0 <= r < 8 ensures RowFollows(ABC_VARIABLES, ABC_WORDS, r) {
      assert r in {0, 1, 2, 3, 4, 5, 6, 7};
    }
  }

  /** The same for the two blocks of the longer example. */
  const FIRST_VARIABLES: seq<HashValue> := [
    [0x6a09e667, 0xbb67ae85, 0x3c6ef372, 0xa54ff53a, 0x510e527f, 0x9b05688c, 0x1f83d9ab, 0x5be0cd19],
    [0xd237e6db, 0x485835b7, 0x55c8ef48, 0xf921c212, 0xa401d211, 0x39a5b2ca, 0x7ff91c94, 0x05c4f88a],
    [0xc3486194, 0xdd16cbb3, 0xd68e6457, 0x101a4861, 0x1496a54f, 0x9162aded, 0x9243f8af, 0x839a0fc9],
    [0x59fce6b9, 0xae2e2d4f, 0x1b2b66b8, 0xd70ac17d, 0xa2c7d51d, 0xf074fc95, 0xd560b028, 0x7cc6b262],
    [0x5581ab07, 0xeb43f3ed, 0xdf7151a0, 0x74bcf468, 0xdf980085, 0x0635d880, 0x7629c961, 0x72abaecd],
    [0x7e4d30b8, 0x91ac9d5d, 0xa985b4be, 0x2c55d3a6, 0x9f5b9b6d, 0x68d8d590, 0xf72bf353, 0xb067c1af],
    [0x13d82741, 0x165be9cd, 0x18f0d19d, 0xde71e2f2, 0xa7802a4d, 0xa483f080, 0x6b88472c, 0xff61c636],
    [0x9e57c4a0, 0xf907b313, 0x1d6de87a, 0xb8d55619, 0xeec13548, 0x61a41711, 0x3443bed4, 0x1c806a61],
    [0x1bdc6f6f, 0x86126910, 0xf6f443f8, 0xbcfce922, 0x25d2430a, 0x2fc08f85, 0xacc75916, 0x962d8621]]

  const FIRST_WORDS: seq<HashValue> := [
    [0x61626364, 0x62636465, 0x63646566, 0x64656667, 0x65666768, 0x66676869, 0x6768696a, 0x68696a6b],
    [0x696a6b6c, 0x6a6b6c6d, 0x6b6c6d6e, 0x6c6d6e6f, 0x6d6e6f70, 0x6e6f7071, 0x80000000, 0x00000000],
    [0xeb8012ad, 0xa7c3ae92, 0x76e93ba2, 0xba42e743, 0x92a92204, 0xd847e75e, 0x9e160036, 0xb280a7cb],
    [0xddeb1516, 0xf36586f4, 0x969cd048, 0xe959d99d, 0x6accc0ec, 0xf54cb098, 0x2af1b2da, 0xee59c4c9],
    [0xa835e16a, 0x1dff4429, 0xd6e15959, 0xc397cd6e, 0x6f1801ca, 0x21574205, 0x35ff7a84, 0x9743ee78],
    [0xe44183e7, 0x0d09f00d, 0x9c89af54, 0x042d5bef, 0x71f134d0, 0x0f94f463, 0x7e49dc63, 0x6f65c997],
    [0x0b706583, 0x179312ca, 0x503054e9, 0xba125c39, 0x7e9392c9, 0xd5cbaa1e, 0x78e0585d, 0xf6e7611c],
    [0x8ac830ce, 0x8b47a303, 0xfd6e627f, 0x8c6e2c6a, 0x4001adf1, 0x1a3dd097, 0xa9df6f62, 0x6aa60a39]]

  lemma FirstRows0()
    ensures RowFollows(FIRST_VARIABLES, FIRST_WORDS, 0) && RowFollows(FIRST_VARIABLES, FIRST_WORDS, 1)
  {
  }

  lemma FirstRows2()
    ensures RowFollows(FIRST_VARIABLES, FIRST_WORDS, 2) && RowFollows(FIRST_VARIABLES, FIRST_WORDS, 3)
  {
  }

  lemma FirstRows4()
    ensures RowFollows(FIRST_VARIABLES, FIRST_WORDS, 4) && RowFollows(FIRST_VARIABLES, FIRST_WORDS, 5)
  {
  }

  lemma FirstRow6()
    ensures RowFollows(FIRST_VARIABLES, FIRST_WORDS, 6)
  {
  }

  lemma FirstRow7()
    ensures RowFollows(FIRST_VARIABLES, FIRST_WORDS, 7)
  {
  }

  lemma FirstFollows()
    ensures |FIRST_VARIABLES| == 9 && |FIRST_WORDS| == 8 && TableFollows(FIRST_VARIABLES, FIRST_WORDS)
  {
    hide RowFollows;
    FirstRows0();
    FirstRows2();
    FirstRows4();
    FirstRow6();
    FirstRow7();
    forall r | 0 <= r < 8 ensures RowFollows(FIRST_VARIABLES, FIRST_WORDS, r) {
      assert r in {0, 1, 2, 3, 4, 5, 6, 7};
    }
  }

  const SECOND_VARIABLES: seq<HashValue> := [
    [0x85e655d6, 0x417a1795, 0x3363376a, 0x624cde5c, 0x76e09589, 0xcac5f811, 0xcc4b32c1, 0xf20e533a],
    [0xbf9a93a0, 0x89bba3f1, 0x3eeb6c06, 0x185a5d79, 0x059abdd1, 0x0a34df03, 0xfe20cda6, 0x8dff3001],
    [0x16a8cc79, 0x0cea5cbc, 0xd74080fa, 0x35ee996d, 0x0fcb1f6f, 0x60356548, 0x68aa893f, 0x5c24e2a2],
    [0xa4195b91, 0xf13ae55b, 0xd44dc81a, 0x20aad899, 0xeddbd6ed, 0x966aa287, 0x5bace62d, 0xcc4769f2],
    [0xb0eab1c5, 0x02ef3a5f, 0x1cfa5eb0, 0xd958b529, 0xf6d93952, 0x5da10665, 0x6c49db9f, 0xc2fa99b1],
    [0x221b8a5a, 0xadca7a96, 0xd949682b, 0x2f11c939, 0x0b82c5eb, 0xc6cce4ff, 0x32d99008, 0xfed4ce1d],
    [0xd7354d5b, 0x0b3303a7, 0x104a7db4, 0x0f154e11, 0xaad55b6b, 0xbbe1c39a, 0x5348e8f6, 0x6f9517cb],
    [0x92952710, 0xd9f0c115, 0xec02560a, 0x4eca6fa0, 0x226806d6, 0x624150c4, 0x7151df8e, 0x989ed071],
    [0x9ea7148b, 0x908c2123, 0xb25cef29, 0xa9f181dd, 0x2c5c4ed0, 0x9a392956, 0x2aa1bb13, 0x27ccb387]]

  const SECOND_WORDS: seq<HashValue> := [
    [0x00000000, 0x00000000, 0x00000000, 0x00000000, 0x00000000, 0x00000000, 0x00000000, 0x00000000],
    [0x00000000, 0x00000000, 0x00000000, 0x00000000, 0x00000000, 0x00000000, 0x00000000, 0x000001c0],
    [0x00000000, 0x00d80000, 0x00000000, 0x00003677, 0x00000000, 0x1df5600d, 0x000001c0, 0x1c00501c],
    [0x01b00000, 0x220a8d94, 0x0000a365, 0x177017e7, 0x63d38035, 0x090ab713, 0x4c7539ca, 0x0f19a8c9],
    [0x5df4b0c4, 0xe257036a, 0xc97bb6f1, 0xc5b46f4d, 0xf8253c4e, 0xa558d189, 0x78696285, 0xed07117f],
    [0x107358f6, 0x390ae496, 0x565010a2, 0xc51d7d44, 0x9e74c972, 0x6614b561, 0x30fc129d, 0x9ac684a8],
    [0x2b658dbd, 0xe290f793, 0x9eebb24c, 0x9713b5de, 0x41061ab7, 0xe022e23b, 0x0772079e, 0x7de22d9c],
    [0xc8b83778, 0x75a79849, 0xd93dbddb, 0x0a036c9d, 0xcb4f6ac6, 0x823f97e2, 0xea2f2a7a, 0xb9018b52]]

  lemma SecondRows0()
    ensures RowFollows(SECOND_VARIABLES, SECOND_WORDS, 0) && RowFollows(SECOND_VARIABLES, SECOND_WORDS, 1)
  {
  }

  lemma SecondRows2()
    ensures RowFollows(SECOND_VARIABLES, SECOND_WORDS, 2) && RowFollows(SECOND_VARIABLES, SECOND_WORDS, 3)
  {
  }

  lemma SecondRows4()
    ensures RowFollows(SECOND_VARIABLES, SECOND_WORDS, 4) && RowFollows(SECOND_VARIABLES, SECOND_WORDS, 5)
  {
  }

  lemma SecondRow6()
    ensures RowFollows(SECOND_VARIABLES, SECOND_WORDS, 6)
  {
  }

  lemma SecondRow7()
    ensures RowFollows(SECOND_VARIABLES, SECOND_WORDS, 7)
  {
  }

  lemma SecondFollows()
    ensures |SECOND_VARIABLES| == 9 && |SECOND_WORDS| == 8 && TableFollows(SECOND_VARIABLES, SECOND_WORDS)
  {
    hide RowFollows;
    SecondRows0();
    SecondRows2();
    SecondRows4();
    SecondRow6();
    SecondRow7();
    forall r | 0 <= r < 8 ensures RowFollows(SECOND_VARIABLES, SECOND_WORDS, r) {
      assert r in {0, 1, 2, 3, 4, 5, 6, 7};
    }
  }

  // The padding of a short message.

  lemma LengthBytes(n: nat, k: nat)
    requires n < 0x1_0000
    ensures BeBytes(n, k + 2) == Zeros(k) + [n / 0x100, n % 0x100]
  {
    assert BeBytes(n, k + 2) == BeBytes(n / 0x100, k + 1) + [n % 0x100];
    assert BeBytes(n / 0x100, k + 1) == BeBytes(0, k) + [n / 0x100];
    NoBytes(k);
  }

  lemma {:induction false} NoBytes(k: nat)
    ensures BeBytes(0, k) == Zeros(k)
  {
    if k > 0 {
      NoBytes(k - 1);
    }
  }

  lemma PaddedAt(m: seq<byte>, i: nat)
    requires |m| < 0x2000 && i < |Pad(m)|
    ensures Pad(m)[i] == if i < |m| then m[i] else if i == |m| then 0x80
                         else if i == |Pad(m)| - 2 then 8 * |m| / 0x100 else if i == |Pad(m)| - 1 then 8 * |m| % 0x100
                         else 0
  {
    LengthBytes(8 * |m|, 6);
  }

  /** The message "abc". */
  const ABC: seq<byte> := [0x61, 0x62, 0x63]

  lemma FirstWordIs(b: Block, j: nat, n: nat)
    requires j < 16 && Be32(b, 4 * j) == n
    ensures n < U32_LIMIT && W(b, j) == n as word
  {
  }

  lemma SameWord(w: word)
    ensures (w as int) as word == w
  {
  }

  lemma FirstWord(b: Block, j: nat, w: word)
    requires j < 16 && Be32(b, 4 * j) == w as int
    ensures W(b, j) == w
  {
    hide *;
    FirstWordIs(b, j, w as int);
    SameWord(w);
  }

  lemma AbcPadded()
    ensures |Pad(ABC)| == 64
  {
  }

  lemma AbcBytes(b: Block, i: nat)
    requires b == Pad(ABC) && i < 64
    ensures b[i] == if i < 3 then ABC[i] else if i == 3 then 0x80 else if i == 63 then 0x18 else 0
  {
    PaddedAt(ABC, i);
  }

  lemma AbcWords(b: Block, j: nat)
    requires b == Pad(ABC) && j < 16
    ensures W(b, j) == if j == 0 then 0x61626380 else if j == 15 then 0x18 else 0
  {
    hide Pad, W;
    AbcBytes(b, 4 * j);
    AbcBytes(b, 4 * j + 1);
    AbcBytes(b, 4 * j + 2);
    AbcBytes(b, 4 * j + 3);
    FirstWord(b, j, if j == 0 then 0x61626380 else if j == 15 then 0x18 else 0);
  }

  lemma AbcTable(b: Block)
    requires b == Pad(ABC)
    ensures WordsAt(b, 0, ABC_WORDS[0]) && WordsAt(b, 8, ABC_WORDS[1])
  {
    hide Pad, W;
    forall j | 0 <= j < 16 ensures W(b, j) == if j == 0 then 0x61626380 else if j == 15 then 0x18 else 0 {
      AbcWords(b, j);
    }
  }

  lemma AbcSum()
    ensures ABC_VARIABLES[0] == H0
    ensures Summed(ABC_VARIABLES[0], ABC_VARIABLES[8]) ==
              [0xba7816bf, 0x8f01cfea, 0x414140de, 0x5dae2223, 0xb00361a3, 0x96177a9c, 0xb410ff61, 0xf20015ad]
  {
  }

  lemma AbcCompressed(b: Block)
    requires b == Pad(ABC)
    ensures Compress(H0, b) ==
              [0xba7816bf, 0x8f01cfea, 0x414140de, 0x5dae2223, 0xb00361a3, 0x96177a9c, 0xb410ff61, 0xf20015ad]
  {
    hide *;
    AbcTable(b);
    AbcFollows();
    TableCompresses(b, ABC_VARIABLES, ABC_WORDS);
    AbcSum();
  }

  lemma OneBlock(m: seq<byte>)
    requires |Pad(m)| == 64
    ensures Sha256(m) == DigestBytes(Compress(H0, Pad(m)))
  {
    hide Pad, Compress, DigestBytes;
    var b := Pad(m);
    assert b[64 * 0..64 * 1] == b && HashBlocks(b, 0) == H0;
    assert HashBlocks(b, 1) == Compress(HashBlocks(b, 0), b[64 * 0..64 * 1]);
  }

  lemma BytesOfWord(w: word, b3: byte, b2: byte, b1: byte, b0: byte)
    requires w as int == 0x100_0000 * (b3 as int) + 0x1_0000 * (b2 as int) + 0x100 * (b1 as int) + (b0 as int)
    ensures WordBytes(w) == [b3, b2, b1, b0]
  {
    hide BeBytes;
    var b: seq<byte> := [b3, b2, b1, b0];
    Be32Bytes(b, 0);
    assert b[0..4] == b;
  }

  lemma DigestNext(h: HashValue, n: nat)
    requires n < 8
    ensures DigestBytes(h[..n + 1]) == DigestBytes(h[..n]) + WordBytes(h[n])
  {
    hide WordBytes;
    assert h[..n + 1][..n] == h[..n];
  }

  lemma DigestOfEight(h: HashValue)
    ensures DigestBytes(h) == WordBytes(h[0]) + WordBytes(h[1]) + WordBytes(h[2]) + WordBytes(h[3])
                              + WordBytes(h[4]) + WordBytes(h[5]) + WordBytes(h[6]) + WordBytes(h[7])
  {
    hide *;
    assert h[..8] == h && h[..0] == [];
    NoDigest(h[..0]);
    assert [] + WordBytes(h[0]) == WordBytes(h[0]);
    DigestNext(h, 0);
    DigestNext(h, 1);
    DigestNext(h, 2);
    DigestNext(h, 3);
    DigestNext(h, 4);
    DigestNext(h, 5);
    DigestNext(h, 6);
    DigestNext(h, 7);
  }

  lemma NoDigest(h: seq<word>)
    requires h == []
    ensures DigestBytes(h) == []
  {
  }

  lemma AbcWordBytes()
    ensures WordBytes(0xba7816bf) == [0xba, 0x78, 0x16, 0xbf]
    ensures WordBytes(0x8f01cfea) == [0x8f, 0x01, 0xcf, 0xea]
    ensures WordBytes(0x414140de) == [0x41, 0x41, 0x40, 0xde]
    ensures WordBytes(0x5dae2223) == [0x5d, 0xae, 0x22, 0x23]
    ensures WordBytes(0xb00361a3) == [0xb0, 0x03, 0x61, 0xa3]
    ensures WordBytes(0x96177a9c) == [0x96, 0x17, 0x7a, 0x9c]
    ensures WordBytes(0xb410ff61) == [0xb4, 0x10, 0xff, 0x61]
    ensures WordBytes(0xf20015ad) == [0xf2, 0x00, 0x15, 0xad]
  {
    hide WordBytes;
    BytesOfWord(0xba7816bf, 0xba, 0x78, 0x16, 0xbf);
    BytesOfWord(0x8f01cfea, 0x8f, 0x01, 0xcf, 0xea);
    BytesOfWord(0x414140de, 0x41, 0x41, 0x40, 0xde);
    BytesOfWord(0x5dae2223, 0x5d, 0xae, 0x22, 0x23);
    BytesOfWord(0xb00361a3, 0xb0, 0x03, 0x61, 0xa3);
    BytesOfWord(0x96177a9c, 0x96, 0x17, 0x7a, 0x9c);
    BytesOfWord(0xb410ff61, 0xb4, 0x10, 0xff, 0x61);
    BytesOfWord(0xf20015ad, 0xf2, 0x00, 0x15, 0xad);
  }

  /** The example of one block. */
  lemma AbcDigest()
    ensures Sha256(ABC) ==
              [0xba, 0x78, 0x16, 0xbf] + [0x8f, 0x01, 0xcf, 0xea]
              + [0x41, 0x41, 0x40, 0xde] + [0x5d, 0xae, 0x22, 0x23]
              + [0xb0, 0x03, 0x61, 0xa3] + [0x96, 0x17, 0x7a, 0x9c]
              + [0xb4, 0x10, 0xff, 0x61] + [0xf2, 0x00, 0x15, 0xad]
  {
    hide *;
    AbcPadded();
    OneBlock(ABC);
    AbcCompressed(Pad(ABC));
    DigestOfEight([0xba7816bf, 0x8f01cfea, 0x414140de, 0x5dae2223, 0xb00361a3, 0x96177a9c, 0xb410ff61, 0xf20015ad]);
    AbcWordBytes();
  }

  /** The message "abcdbcdecdefdefgefghfghighijhijkijkljklmklmnlmnomnopnopq". */
  const ALPHABET: seq<byte> := seq(56, i requires 0 <= i < 56 => 0x61 + i / 4 + i % 4)

  lemma AlphabetPadded()
    ensures |Pad(ALPHABET)| == 128
  {
  }

  lemma AlphabetBytes(i: nat)
    requires i < 128
    ensures |Pad(ALPHABET)| == 128
    ensures Pad(ALPHABET)[i] == if i < 56 then 0x61 + i / 4 + i % 4 else if i == 56 then 0x80
                                else if i == 126 then 0x01 else if i == 127 then 0xc0 else 0
  {
    AlphabetPadded();
    PaddedAt(ALPHABET, i);
  }

  lemma ByteOfWord(j: nat, k: nat)
    requires k < 4
    ensures (4 * j + k) / 4 == j && (4 * j + k) % 4 == k
  {
  }

  lemma AlphabetWord(j: nat)
    requires j < 32
    ensures |Pad(ALPHABET)| == 128
    ensures Be32(Pad(ALPHABET), 4 * j) == if j < 14 then 0x61626364 + 0x1010101 * j else if j == 14 then 0x80000000
                                          else if j == 31 then 0x1c0 else 0
  {
    hide Pad;
    AlphabetBytes(4 * j);
    AlphabetBytes(4 * j + 1);
    AlphabetBytes(4 * j + 2);
    AlphabetBytes(4 * j + 3);
    ByteOfWord(j, 0);
    ByteOfWord(j, 1);
    ByteOfWord(j, 2);
    ByteOfWord(j, 3);
  }

  lemma AlphabetFirst(b: Block, j: nat, w: word)
    requires |Pad(ALPHABET)| == 128 && b == Pad(ALPHABET)[64 * 0..64 * 1] && j < 16
    requires w as int == if j < 14 then 0x61626364 + 0x1010101 * j else if j == 14 then 0x80000000 else 0
    ensures W(b, j) == w
  {
    hide W, Pad;
    AlphabetWord(j);
    FirstWord(b, j, w);
  }

  lemma FirstTable(b: Block)
    requires |Pad(ALPHABET)| == 128 && b == Pad(ALPHABET)[64 * 0..64 * 1]
    ensures WordsAt(b, 0, FIRST_WORDS[0]) && WordsAt(b, 8, FIRST_WORDS[1])
  {
    hide W, Pad;
    AlphabetFirst(b, 0, 0x61626364);
    AlphabetFirst(b, 1, 0x62636465);
    AlphabetFirst(b, 2, 0x63646566);
    AlphabetFirst(b, 3, 0x64656667);
    AlphabetFirst(b, 4, 0x65666768);
    AlphabetFirst(b, 5, 0x66676869);
    AlphabetFirst(b, 6, 0x6768696a);
    AlphabetFirst(b, 7, 0x68696a6b);
    AlphabetFirst(b, 8, 0x696a6b6c);
    AlphabetFirst(b, 9, 0x6a6b6c6d);
    AlphabetFirst(b, 10, 0x6b6c6d6e);
    AlphabetFirst(b, 11, 0x6c6d6e6f);
    AlphabetFirst(b, 12, 0x6d6e6f70);
    AlphabetFirst(b, 13, 0x6e6f7071);
    AlphabetFirst(b, 14, 0x80000000);
    AlphabetFirst(b, 15, 0x00000000);
  }

  lemma SecondTable(b: Block)
    requires |Pad(ALPHABET)| == 128 && b == Pad(ALPHABET)[64 * 1..64 * 2]
    ensures WordsAt(b, 0, SECOND_WORDS[0]) && WordsAt(b, 8, SECOND_WORDS[1])
  {
    hide Pad, W;
    forall j | 0 <= j < 16 ensures W(b, j) == if j == 15 then 0x1c0 else 0 {
      AlphabetWord(16 + j);
      FirstWord(b, j, if j == 15 then 0x1c0 else 0);
    }
  }

  lemma FirstSum()
    ensures FIRST_VARIABLES[0] == H0
    ensures Summed(FIRST_VARIABLES[0], FIRST_VARIABLES[8]) == SECOND_VARIABLES[0]
  {
  }

  lemma SecondSum()
    ensures Summed(SECOND_VARIABLES[0], SECOND_VARIABLES[8]) ==
              [0x248d6a61, 0xd20638b8, 0xe5c02693, 0x0c3e6039, 0xa33ce459, 0x64ff2167, 0xf6ecedd4, 0x19db06c1]
  {
  }

  lemma TwoBlocks(m: seq<byte>)
    requires |Pad(m)| == 128
    ensures Sha256(m) == DigestBytes(Compress(Compress(H0, Pad(m)[64 * 0..64 * 1]), Pad(m)[64 * 1..64 * 2]))
  {
    hide Pad, Compress, DigestBytes;
    var b := Pad(m);
    assert HashBlocks(b, 0) == H0;
    assert HashBlocks(b, 1) == Compress(HashBlocks(b, 0), b[64 * 0..64 * 1]);
    assert HashBlocks(b, 2) == Compress(HashBlocks(b, 1), b[64 * 1..64 * 2]);
  }

  lemma AlphabetCompressed(b0: Block, b1: Block)
    requires |Pad(ALPHABET)| == 128 && b0 == Pad(ALPHABET)[64 * 0..64 * 1] && b1 == Pad(ALPHABET)[64 * 1..64 * 2]
    ensures Compress(Compress(H0, b0), b1) ==
              [0x248d6a61, 0xd20638b8, 0xe5c02693, 0x0c3e6039, 0xa33ce459, 0x64ff2167, 0xf6ecedd4, 0x19db06c1]
  {
    hide *;
    FirstTable(b0);
    FirstFollows();
    TableCompresses(b0, FIRST_VARIABLES, FIRST_WORDS);
    FirstSum();
    SecondTable(b1);
    SecondFollows();
    TableCompresses(b1, SECOND_VARIABLES, SECOND_WORDS);
    SecondSum();
  }

  lemma AlphabetWordBytes()
    ensures WordBytes(0x248d6a61) == [0x24, 0x8d, 0x6a, 0x61]
    ensures WordBytes(0xd20638b8) == [0xd2, 0x06, 0x38, 0xb8]
    ensures WordBytes(0xe5c02693) == [0xe5, 0xc0, 0x26, 0x93]
    ensures WordBytes(0x0c3e6039) == [0x0c, 0x3e, 0x60, 0x39]
    ensures WordBytes(0xa33ce459) == [0xa3, 0x3c, 0xe4, 0x59]
    ensures WordBytes(0x64ff2167) == [0x64, 0xff, 0x21, 0x67]
    ensures WordBytes(0xf6ecedd4) == [0xf6, 0xec, 0xed, 0xd4]
    ensures WordBytes(0x19db06c1) == [0x19, 0xdb, 0x06, 0xc1]
  {
    hide WordBytes;
    BytesOfWord(0x248d6a61, 0x24, 0x8d, 0x6a, 0x61);
    BytesOfWord(0xd20638b8, 0xd2, 0x06, 0x38, 0xb8);
    BytesOfWord(0xe5c02693, 0xe5, 0xc0, 0x26, 0x93);
    BytesOfWord(0x0c3e6039, 0x0c, 0x3e, 0x60, 0x39);
    BytesOfWord(0xa33ce459, 0xa3, 0x3c, 0xe4, 0x59);
    BytesOfWord(0x64ff2167, 0x64, 0xff, 0x21, 0x67);
    BytesOfWord(0xf6ecedd4, 0xf6, 0xec, 0xed, 0xd4);
    BytesOfWord(0x19db06c1, 0x19, 0xdb, 0x06, 0xc1);
  }

  /** The example of two blocks. */
  lemma AlphabetDigest()
    ensures Sha256(ALPHABET) ==
              [0x24, 0x8d, 0x6a, 0x61] + [0xd2, 0x06, 0x38, 0xb8]
              + [0xe5, 0xc0, 0x26, 0x93] + [0x0c, 0x3e, 0x60, 0x39]
              + [0xa3, 0x3c, 0xe4, 0x59] + [0x64, 0xff, 0x21, 0x67]
              + [0xf6, 0xec, 0xed, 0xd4] + [0x19, 0xdb, 0x06, 0xc1]
  {
    hide *;
    AlphabetPadded();
    TwoBlocks(ALPHABET);
    AlphabetCompressed(Pad(ALPHABET)[64 * 0..64 * 1], Pad(ALPHABET)[64 * 1..64 * 2]);
    DigestOfEight([0x248d6a61, 0xd20638b8, 0xe5c02693, 0x0c3e6039, 0xa33ce459, 0x64ff2167, 0xf6ecedd4, 0x19db06c1]);
    AlphabetWordBytes();
  }
}
