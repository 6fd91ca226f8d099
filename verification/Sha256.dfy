/** The streaming SHA-256 of sha256.c: a partial chunk, a path that hashes whole chunks without
    copying them, and a message schedule of sixteen words used in turn. */
module Sha256 {
  import opened Bytes
  import opened Sha256Spec

  // The compression function.

  /** After j of the sixteen rounds of turn i, slot k of the schedule holds the word of this
      turn if k < j and of the turn before otherwise. */
  ghost predicate Schedule(w: seq<word>, p: Block, i: nat, j: nat)
    requires i < 4 && j <= 16
  {
    && |w| == 16
    && (forall k :: 0 <= k < j ==> w[k] == W(p, 16 * i + k))
    && (i > 0 ==> forall k :: j <= k < 16 ==> w[k] == W(p, 16 * (i - 1) + k))
  }

  lemma ScheduleSlot(w: seq<word>, p: Block, i: nat, j: nat, back: nat)
    requires 0 < i < 4 && j < 16 && Schedule(w, p, i, j) && 0 < back <= 16
    ensures |w| == 16 && w[(j + 16 - back) % 16] == W(p, 16 * i + j - back)
  {
    hide W;
    var k := (j + 16 - back) % 16;
    if back <= j {
      assert k == j - back;
    } else {
      assert k == j + 16 - back && 16 * (i - 1) + k == 16 * i + j - back;
    }
  }

  /** The sum of sha256.c:81 and that of section 6.2.2 list their terms in different orders. */
  lemma SumOrder(w16: word, s0: word, w7: word, s1: word)
    ensures Sum(w16, s0, w7, s1) == Sum(s1, w7, s0, w16)
  {
  }

  method ExtendSchedule(w: array<word>, p: Block, i: nat, j: nat)
    requires w.Length == 16 && i < 4 && j < 16 && Schedule(w[..], p, i, j)
    modifies w
    ensures Schedule(w[..], p, i, j + 1)
  {
    hide Sum, SmallSigma0, SmallSigma1, WordOf;
    ghost var before := w[..];
    if i == 0 {
      w[j] := WordOf(p, 4 * j);
    } else {
      var s0 := SmallSigma0(w[(j + 1) % 16]);
      var s1 := SmallSigma1(w[(j + 14) % 16]);
      var w7, w16 := w[(j + 9) % 16], w[j];
      w[j] := Sum(w16, s0, w7, s1);
      Extended(before, p, i, j);
    }
    assert w[..] == before[j := W(p, 16 * i + j)];
    SlotFilled(before, p, i, j);
  }

  lemma FourSlots(w: seq<word>, p: Block, i: nat, j: nat)
    requires 0 < i < 4 && j < 16 && Schedule(w, p, i, j)
    ensures |w| == 16 && w[j] == W(p, 16 * i + j - 16) && w[(j + 1) % 16] == W(p, 16 * i + j - 15)
    ensures w[(j + 9) % 16] == W(p, 16 * i + j - 7) && w[(j + 14) % 16] == W(p, 16 * i + j - 2)
  {
    hide W, Schedule;
    ScheduleSlot(w, p, i, j, 16);
    ScheduleSlot(w, p, i, j, 15);
    ScheduleSlot(w, p, i, j, 7);
    ScheduleSlot(w, p, i, j, 2);
  }

  lemma Extended(w: seq<word>, p: Block, i: nat, j: nat)
    requires 0 < i < 4 && j < 16 && Schedule(w, p, i, j)
    ensures |w| == 16
    ensures W(p, 16 * i + j) ==
      Sum(w[j], SmallSigma0(w[(j + 1) % 16]), w[(j + 9) % 16], SmallSigma1(w[(j + 14) % 16]))
  {
    hide Sum, SmallSigma0, SmallSigma1, WordOf, Schedule;
    FourSlots(w, p, i, j);
    SumOrder(w[j], SmallSigma0(w[(j + 1) % 16]), w[(j + 9) % 16], SmallSigma1(w[(j + 14) % 16]));
  }

  lemma SlotFilled(w: seq<word>, p: Block, i: nat, j: nat)
    requires i < 4 && j < 16 && Schedule(w, p, i, j)
    ensures Schedule(w[j := W(p, 16 * i + j)], p, i, j + 1)
  {
    hide W;
  }

  lemma SlotRead(w: seq<word>, p: Block, i: nat, j: nat)
    requires i < 4 && j < 16 && Schedule(w, p, i, j + 1)
    ensures |w| == 16 && w[j] == W(p, 16 * i + j)
  {
    hide W;
  }

  lemma NextTurn(w: seq<word>, p: Block, i: nat)
    requires i < 4 && |w| == 16 && (i > 0 ==> Schedule(w, p, i - 1, 16))
    ensures Schedule(w, p, i, 0)
  {
    hide W;
  }

  /** The assignments that close a round. */
  method ShiftVariables(ah: array<word>, temp1: word, temp2: word)
    requires ah.Length == 8
    modifies ah
    ensures ah[0] == Add(temp1, temp2) && ah[4] == Add(old(ah[3]), temp1)
    ensures forall k :: 1 <= k < 8 && k != 4 ==> ah[k] == old(ah[k - 1])
  {
    hide Add;
    ah[7] := ah[6];
    ah[6] := ah[5];
    ah[5] := ah[4];
    ah[4] := Add(ah[3], temp1);
    ah[3] := ah[2];
    ah[2] := ah[1];
    ah[1] := ah[0];
    ah[0] := Add(temp1, temp2);
  }

  method MainRound(ah: array<word>, k: word, w: word)
    requires ah.Length == 8
    modifies ah
    ensures ah[..] == Round(old(ah[..]), k, w)
  {
    hide Add, BigSigma0, BigSigma1, Ch, Maj;
    var s1, ch := BigSigma1(ah[4]), Ch(ah[4], ah[5], ah[6]);
    var temp1 := Add(Add(Add(Add(ah[7], s1), ch), k), w);
    var s0, maj := BigSigma0(ah[0]), Maj(ah[0], ah[1], ah[2]);
    var temp2 := Add(s0, maj);
    ShiftVariables(ah, temp1, temp2);
  }

  method ConsumeChunk(h: array<word>, p: Block)
    requires h.Length == 8
    modifies h
    ensures h[..] == Compress(old(h[..]), p)
  {
    hide W, Round, Schedule, Add, K, Constant;
    ghost var h0 := h[..];
    var ah := new word[8];
    for i := 0 to 8
      modifies ah
      invariant forall k :: 0 <= k < i ==> ah[k] == h0[k]
    {
      ah[i] := h[i];
    }
    assert ah[..] == h0;
    assert Rounds(h0, p, 0) == h0;
    hide Rounds;
    var w := new word[16];
    for i := 0 to 4
      modifies ah, w
      invariant i > 0 ==> Schedule(w[..], p, i - 1, 16)
      invariant ah[..] == Rounds(h0, p, 16 * i)
    {
      NextTurn(w[..], p, i);
      for j := 0 to 16
        modifies ah, w
        invariant Schedule(w[..], p, i, j)
        invariant ah[..] == Rounds(h0, p, 16 * i + j)
      {
        ExtendSchedule(w, p, i, j);
        SlotRead(w[..], p, i, j);
        RoundsNext(h0, p, 16 * i + j);
        MainRound(ah, Constant(16 * i + j), w[j]);
      }
    }
    for i := 0 to 8
      modifies h
      invariant forall k :: 0 <= k < i ==> h[k] == Add(h0[k], ah[k])
      invariant forall k :: i <= k < 8 ==> h[k] == h0[k]
    {
      h[i] := Add(h[i], ah[i]);
    }
    assert h[..] == Compress(h0, p);
  }

  // Blocks of a growing message.

  lemma {:induction false} HashBlocksPrefix(m: seq<byte>, more: seq<byte>, n: nat)
    requires 64 * n <= |m|
    ensures HashBlocks(m + more, n) == HashBlocks(m, n)
  {
    hide Compress;
    if n > 0 {
      HashBlocksPrefix(m, more, n - 1);
      assert (m + more)[64 * (n - 1)..64 * n] == m[64 * (n - 1)..64 * n];
    }
  }

  lemma BlockAdded(m: seq<byte>, p: Block)
    requires |m| % 64 == 0
    ensures HashBlocks(m + p, |m| / 64 + 1) == Compress(HashBlocks(m, |m| / 64), p)
  {
    hide Compress;
    var n := |m| / 64;
    HashBlocksPrefix(m, p, n);
    assert (m + p)[64 * n..64 * (n + 1)] == p;
  }

  /** All whole blocks of q before its last pos bytes are in the hash value; those bytes fill the
      chunk up to pos. */
  ghost predicate Holds(chunk: seq<byte>, h: seq<word>, q: seq<byte>, pos: nat) {
    && |chunk| == 64 && |h| == 8 && pos <= 64 && pos <= |q|
    && (|q| - pos) % 64 == 0
    && chunk[..pos] == q[|q| - pos..]
    && h == HashBlocks(q[..|q| - pos], (|q| - pos) / 64)
  }

  lemma PutHolds(chunk: seq<byte>, h: seq<word>, q: seq<byte>, pos: nat, part: seq<byte>)
    requires Holds(chunk, h, q, pos) && pos + |part| <= 64
    ensures Holds(Splice(chunk, pos, part), h, q + part, pos + |part|)
  {
    hide HashBlocks;
    SplicePrefix(chunk, pos, part);
    var r := q + part;
    assert r[..|r| - (pos + |part|)] == q[..|q| - pos];
    assert r[|r| - (pos + |part|)..] == q[|q| - pos..] + part;
  }

  lemma BlockHolds(chunk: seq<byte>, h: seq<word>, q: seq<byte>, p: Block)
    requires Holds(chunk, h, q, 0)
    ensures Holds(chunk, Compress(h, p), q + p, 0)
  {
    hide HashBlocks, Compress;
    assert q[..|q|] == q && (q + p)[..|q + p|] == q + p;
    BlockAdded(q, p);
    assert (q + p)[|q + p|..] == [];
  }

  lemma ChunkHolds(chunk: seq<byte>, h: seq<word>, q: seq<byte>)
    requires Holds(chunk, h, q, 64)
    ensures Holds(chunk, Compress(h, chunk), q, 0)
  {
    hide HashBlocks, Compress;
    var whole := q[..|q| - 64];
    assert q == whole + q[|q| - 64..] && chunk[..64] == chunk;
    assert whole[..|whole|] == whole;
    BlockHolds(chunk, h, whole, chunk);
  }

  lemma LastBlock(n: nat, pos: nat)
    requires pos < 64 && pos <= n && (n - pos) % 64 == 0
    ensures n % 64 == pos && (n - pos) / 64 == n / 64
  {
  }

  /** However a message was cut into writes, what the context holds is the same. */
  lemma PiecesAlike(chunk0: seq<byte>, h0: seq<word>, pos0: nat, chunk1: seq<byte>, h1: seq<word>, pos1: nat,
                    q: seq<byte>)
    requires Holds(chunk0, h0, q, pos0) && pos0 < 64
    requires Holds(chunk1, h1, q, pos1) && pos1 < 64
    ensures pos0 == pos1 == |q| % 64 && chunk0[..pos0] == chunk1[..pos1] && h0 == h1
    ensures h0 == HashBlocks(q, |q| / 64)
  {
    hide HashBlocks;
    LastBlock(|q|, pos0);
    LastBlock(|q|, pos1);
    var whole := q[..|q| - pos0];
    assert whole + q[|q| - pos0..] == q;
    HashBlocksPrefix(whole, q[|q| - pos0..], |q| / 64);
  }

  // Padding.

  /** The padded message when the length bytes are those of len. */
  function PadWith(m: seq<byte>, len: nat): (r: seq<byte>)
    ensures |r| % 64 == 0 && |r| > 0
  {
    Marked(m, ZeroBytes(|m|)) + BeBytes(8 * len, 8)
  }

  /** What the streaming functions make of a message: the length bytes are those of its length in u32. */
  function Digest(m: seq<byte>): seq<byte> {
    var padded := PadWith(m, |m| % U32_LIMIT);
    DigestBytes(HashBlocks(padded, |padded| / 64))
  }

  /** The message, the one bit and a run of zeros. */
  function Marked(m: seq<byte>, zeros: nat): (r: seq<byte>)
    ensures |r| == |m| + 1 + zeros
  {
    m + [0x80] + Zeros(zeros)
  }

  lemma MarkedMeet(m: seq<byte>, a: nat, b: nat)
    ensures Marked(m, 0) == m + [0x80]
    ensures Marked(m, a) + Zeros(b) == Marked(m, a + b)
  {
  }

  function Pow256(k: nat): (r: nat)
    ensures r > 0
  {
    if k == 0 then 1 else 0x100 * Pow256(k - 1)
  }

  /** k bytes tell any two numbers below 256^k apart. */
  lemma {:induction false} BeBytesInjective(a: nat, b: nat, k: nat)
    requires a < Pow256(k) && b < Pow256(k) && BeBytes(a, k) == BeBytes(b, k)
    ensures a == b
  {
    if k > 0 {
      var x, y := BeBytes(a, k), BeBytes(b, k);
      assert x[k - 1] == a % 0x100 && y[k - 1] == b % 0x100;
      assert x[..k - 1] == BeBytes(a / 0x100, k - 1) && y[..k - 1] == BeBytes(b / 0x100, k - 1);
      BeBytesInjective(a / 0x100, b / 0x100, k - 1);
    }
  }

  /** The length is kept in 32 bits, so the padding is that of section 5.1.1 exactly for messages
      below 2^32 bytes (the standard itself stops at 2^64 bits). */
  lemma PaddingExact(m: seq<byte>)
    requires 8 * |m| < U32_LIMIT * U32_LIMIT
    ensures PadWith(m, |m| % U32_LIMIT) == Pad(m) <==> |m| < U32_LIMIT
  {
    hide BeBytes, ZeroBytes, Zeros;
    if PadWith(m, |m| % U32_LIMIT) == Pad(m) {
      SameTail(m + [0x80] + Zeros(ZeroBytes(|m|)), BeBytes(8 * (|m| % U32_LIMIT), 8), BeBytes(8 * |m|, 8));
      SameLength(|m| % U32_LIMIT, |m|);
    }
  }

  lemma SameTail(head: seq<byte>, a: seq<byte>, b: seq<byte>)
    requires head + a == head + b
    ensures a == b
  {
    assert (head + a)[|head|..] == a && (head + b)[|head|..] == b;
  }

  lemma SameLength(a: nat, b: nat)
    requires 8 * a < U32_LIMIT * U32_LIMIT && 8 * b < U32_LIMIT * U32_LIMIT
    requires BeBytes(8 * a, 8) == BeBytes(8 * b, 8)
    ensures a == b
  {
    hide BeBytes;
    EightBytes();
    BeBytesInjective(8 * a, 8 * b, 8);
  }

  lemma EightBytes()
    ensures Pow256(8) == U32_LIMIT * U32_LIMIT
  {
    assert Pow256(2) == 0x1_0000;
    assert Pow256(4) == U32_LIMIT;
    assert Pow256(6) == U32_LIMIT * 0x1_0000;
  }

  // The streaming interface.

  /** struct SHA256.  hash is the caller's buffer; message is all that was written so far. */
  class Context {
    const hash: array<byte>
    const chunk: array<byte>
    const h: array<word>
    var chunkPos: nat
    var spaceLeft: nat
    var totalLen: nat
    ghost var message: seq<byte>

    ghost predicate Shape() {
      hash.Length == 32 && chunk.Length == 64 && h.Length == 8 && hash != chunk
    }

    /** Between calls: the bytes of the last unfinished block wait in the chunk, which always has
        room, and all earlier blocks are folded into h. */
    ghost predicate Valid()
      reads this, chunk, h
    {
      && Shape()
      && Holds(chunk[..], h[..], message, chunkPos)
      && 1 <= spaceLeft <= 64 && chunkPos + spaceLeft == 64
      && totalLen == |message| % U32_LIMIT
    }

    /** sha_256_init. */
    constructor (hash: array<byte>)
      requires hash.Length == 32
      ensures Valid() && this.hash == hash && message == []
      ensures fresh(chunk) && fresh(h)
    {
      this.hash := hash;
      chunk := new byte[64];
      h := new word[8](i requires 0 <= i < 8 => H0[i]);
      chunkPos := 0;
      spaceLeft := 64;
      totalLen := 0;
      message := [];
      new;
      assert h[..] == H0;
    }

    /** sha_256_write: len is a 32-bit size_t. */
    method Write(data: seq<byte>)
      requires Valid() && |data| < U32_LIMIT
      modifies this`chunkPos, this`spaceLeft, this`totalLen, this`message, chunk, h
      ensures Valid() && message == old(message) + data
    {
      hide Holds, Splice, HashBlocks, Compress;
      totalLen := (totalLen + |data|) % U32_LIMIT;
      var p: nat, len: nat := 0, |data|;
      assert message + data[..0] == message;
      while len > 0
        modifies this`chunkPos, this`spaceLeft, chunk, h
        invariant p + len == |data|
        invariant Shape() && Holds(chunk[..], h[..], message + data[..p], chunkPos)
        invariant 1 <= spaceLeft <= 64 && chunkPos + spaceLeft == 64
      {
        ghost var q := message + data[..p];
        if spaceLeft == 64 && len >= 64 {
          BlockHolds(chunk[..], h[..], q, data[p..p + 64]);
          ConsumeChunk(h, data[p..p + 64]);
          Advanced(message, data, p, 64);
          len := len - 64;
          p := p + 64;
          continue;
        }
        var consumed := if len < spaceLeft then len else spaceLeft;
        Fill(q, data[p..p + consumed]);
        Advanced(message, data, p, consumed);
        len := len - consumed;
        p := p + consumed;
      }
      assert data[..p] == data;
      message := message + data;
    }

    /** The general case of the loop: copy, and consume the chunk once it is full. */
    method Fill(ghost q: seq<byte>, part: seq<byte>)
      requires Shape() && Holds(chunk[..], h[..], q, chunkPos)
      requires 1 <= |part| <= spaceLeft && chunkPos + spaceLeft == 64
      modifies this`chunkPos, this`spaceLeft, chunk, h
      ensures Holds(chunk[..], h[..], q + part, chunkPos)
      ensures 1 <= spaceLeft <= 64 && chunkPos + spaceLeft == 64
    {
      hide Holds;
      PutHolds(chunk[..], h[..], q, chunkPos, part);
      MemCopy(chunk, chunkPos, part);
      spaceLeft := spaceLeft - |part|;
      if spaceLeft == 0 {
        FullChunk(q + part);
        chunkPos := 0;
        spaceLeft := 64;
      } else {
        chunkPos := chunkPos + |part|;
      }
    }

    method FullChunk(ghost q: seq<byte>)
      requires Shape() && Holds(chunk[..], h[..], q, 64)
      modifies h
      ensures Holds(chunk[..], h[..], q, 0)
    {
      ChunkHolds(chunk[..], h[..], q);
      ConsumeChunk(h, chunk[..]);
    }

    method Put(ghost q: seq<byte>, pos: nat, part: seq<byte>)
      requires Shape() && Holds(chunk[..], h[..], q, pos) && pos + |part| <= 64
      modifies chunk
      ensures Holds(chunk[..], h[..], q + part, pos + |part|)
    {
      hide Holds;
      PutHolds(chunk[..], h[..], q, pos, part);
      MemCopy(chunk, pos, part);
    }

    method PutZeros(ghost q: seq<byte>, pos: nat, n: nat)
      requires Shape() && Holds(chunk[..], h[..], q, pos) && pos + n <= 64
      modifies chunk
      ensures Holds(chunk[..], h[..], q + Zeros(n), pos + n)
    {
      hide Holds;
      PutHolds(chunk[..], h[..], q, pos, Zeros(n));
      MemZero(chunk, pos, n);
    }

    method PutLength(ghost q: seq<byte>, pos: nat, len: nat)
      requires Shape() && Holds(chunk[..], h[..], q, pos) && pos == 56
      modifies chunk
      ensures Holds(chunk[..], h[..], q + BeBytes(8 * len, 8), 64)
    {
      hide Holds, BeBytes;
      PutHolds(chunk[..], h[..], q, pos, BeBytes(8 * len, 8));
      EncodeLength(pos, len);
    }

    /** The extra chunk, when the length does not fit in this one. */
    method MakeRoom(pos: nat, space: nat) returns (at: nat, ghost zeros: nat)
      requires Shape() && pos + space == 64 && Holds(chunk[..], h[..], Marked(message, 0), pos)
      modifies chunk, h
      ensures at <= 56 && Holds(chunk[..], h[..], Marked(message, zeros), at)
      ensures if space < 8 then at == 0 && zeros == space else at == pos && zeros == 0
    {
      hide Holds, Marked, Zeros;
      at, zeros := pos, 0;
      if space < 8 {
        MarkedMeet(message, 0, space);
        PutZeros(Marked(message, 0), pos, space);
        at, zeros := 0, space;
        FullChunk(Marked(message, zeros));
      }
    }

    /** sha_256_close up to its last consume_chunk: the one-block and the two-block padding. */
    method PadOut()
      requires Valid()
      modifies chunk, h
      ensures Holds(chunk[..], h[..], PadWith(message, totalLen), 0)
    {
      hide HashBlocks, Zeros, Holds, BeBytes, ZeroBytes, Marked, PadWith;
      ZeroRun(chunk[..], h[..], message, chunkPos);
      Completed(message, totalLen);
      Put(message, chunkPos, [0x80]);
      MarkedMeet(message, 0, 0);
      var pos, zeros := MakeRoom(chunkPos + 1, spaceLeft - 1);
      var left := 64 - pos - 8;
      MarkedMeet(message, zeros, left);
      PutZeros(Marked(message, zeros), pos, left);
      PutLength(Marked(message, zeros + left), pos + left, totalLen);
      FullChunk(PadWith(message, totalLen));
    }

    /** sha_256_close. */
    method Close() returns (digest: array<byte>)
      requires Valid()
      modifies hash, chunk, h
      ensures digest == hash
      ensures var m := PadWith(message, totalLen); hash[..] == DigestBytes(HashBlocks(m, |m| / 64))
      ensures hash[..] == Digest(message)
      ensures |message| < U32_LIMIT ==> hash[..] == Sha256(message)
    {
      hide HashBlocks, DigestBytes, PadWith, Pad, Holds;
      if |message| < U32_LIMIT { PaddingExact(message); }
      PadOut();
      Finished(chunk[..], h[..], PadWith(message, totalLen));
      WriteDigest();
      digest := hash;
    }

    /** The shift by three and the shifts by five and eight spell eight times len. */
    method EncodeLength(pos: nat, len: nat)
      requires Shape() && pos == 56
      modifies chunk
      ensures chunk[..] == Splice(old(chunk[..]), pos, BeBytes(8 * len, 8))
    {
      ghost var bytes := BeBytes(8 * len, 8);
      chunk[pos + 7] := (8 * len) % 0x100;
      var rest: nat := len / 32;
      var i := 6;
      while i >= 0
        invariant -1 <= i <= 6
        invariant bytes == BeBytes(rest, i + 1) + chunk[pos + i + 1..pos + 8]
        invariant chunk[..pos + i + 1] == old(chunk[..pos + i + 1])
        invariant chunk[pos + 8..] == old(chunk[pos + 8..])
      {
        chunk[pos + i] := rest % 0x100;
        rest := rest / 0x100;
        i := i - 1;
      }
    }

    /** The hash value, most significant bytes first. */
    method WriteDigest()
      requires Shape()
      modifies hash
      ensures hash[..] == DigestBytes(h[..])
    {
      hide WordBytes;
      var j := 0;
      for i := 0 to 8
        invariant j == 4 * i
        invariant hash[..j] == DigestBytes(h[..i])
      {
        var bytes := WordBytes(h[i]);
        hash[j] := bytes[0];
        hash[j + 1] := bytes[1];
        hash[j + 2] := bytes[2];
        hash[j + 3] := bytes[3];
        j := j + 4;
        assert h[..i + 1][..i] == h[..i];
        assert hash[..j] == hash[..j - 4] + bytes;
      }
      assert hash[..32] == hash[..] && h[..8] == h[..];
    }
  }

  /** The zero run of the one-block and of the two-block branch. */
  lemma ZeroRun(chunk: seq<byte>, h: seq<word>, q: seq<byte>, pos: nat)
    requires Holds(chunk, h, q, pos) && pos < 64
    ensures ZeroBytes(|q|) == if 63 - pos < 8 then 63 - pos + 56 else 55 - pos
  {
    hide HashBlocks;
    assert |q| % 64 == pos;
  }

  lemma Completed(m: seq<byte>, len: nat)
    ensures PadWith(m, len) == Marked(m, ZeroBytes(|m|)) + BeBytes(8 * len, 8)
  {
  }

  lemma Finished(chunk: seq<byte>, h: seq<word>, q: seq<byte>)
    requires Holds(chunk, h, q, 0)
    ensures |q| % 64 == 0 && h == HashBlocks(q, |q| / 64)
  {
    hide HashBlocks;
    assert q[..|q|] == q;
  }

  /** calc_sha_256. */
  method CalcSha256(hash: array<byte>, input: seq<byte>)
    requires hash.Length == 32 && |input| < U32_LIMIT
    modifies hash
    ensures hash[..] == Sha256(input)
  {
    hide Holds, HashBlocks, DigestBytes, PadWith, Sha256;
    var context := new Context(hash);
    context.Write(input);
    assert [] + input == input;
    var _ := context.Close();
  }

  lemma Advanced(m: seq<byte>, data: seq<byte>, p: nat, n: nat)
    requires p + n <= |data|
    ensures m + data[..p] + data[p..p + n] == m + data[..p + n]
  {
  }
}
