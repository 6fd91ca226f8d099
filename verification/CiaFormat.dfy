/** Where the parts of a CIA file lie, which contents it carries, and what has to be
    installed from it. Everything here is a function of the file's bytes. */
module CiaFormat {
  import opened Bytes
  import opened Am9

  const HEADER_SIZE: nat := 0x20
  const INDEX_END: nat := 0x2020
  const CERT_START: nat := 0x2040
  const TICKET_HEADER_SIZE: nat := 0x2A4
  const TMD_HEADER_COPY: nat := 0x210
  const MAX_INDEX: nat := 0xFFFF

  function CertSize(h: seq<byte>): nat
    requires |h| == HEADER_SIZE
  {
    Le32(h, 8)
  }

  function TicketStart(h: seq<byte>): nat
    requires |h| == HEADER_SIZE
  {
    Align64(CERT_START + CertSize(h))
  }

  function TicketEnd(h: seq<byte>): nat
    requires |h| == HEADER_SIZE
  {
    TicketStart(h) + Le32(h, 0xC)
  }

  function TmdStart(h: seq<byte>): nat
    requires |h| == HEADER_SIZE
  {
    Align64(TicketEnd(h))
  }

  function TmdEnd(h: seq<byte>): nat
    requires |h| == HEADER_SIZE
  {
    TmdStart(h) + Le32(h, 0x10)
  }

  function MetaSize(h: seq<byte>): nat
    requires |h| == HEADER_SIZE
  {
    Le32(h, 0x14)
  }

  function ContentSize(h: seq<byte>): nat
    requires |h| == HEADER_SIZE
  {
    Le64(h, 0x18)
  }

  function MetaEnd(h: seq<byte>): nat
    requires |h| == HEADER_SIZE
  {
    Align64(Align64(TmdEnd(h)) + ContentSize(h)) + MetaSize(h)
  }

  /** The parts of a file in terms of the header's bytes: each begins at the first multiple of 64 that is not
      inside what lies before it, and is as long as its little-endian field says. */
  lemma Layout(h: seq<byte>)
    requires |h| == HEADER_SIZE
    ensures LeBytes(CertSize(h), 4) == h[0x08..0x0C] && CertSize(h) < U32_LIMIT
    ensures TicketStart(h) % 64 == 0 && 0x2040 + CertSize(h) <= TicketStart(h) < 0x2040 + CertSize(h) + 64
    ensures LeBytes(TicketEnd(h) - TicketStart(h), 4) == h[0x0C..0x10] && TicketEnd(h) < TicketStart(h) + U32_LIMIT
    ensures TmdStart(h) % 64 == 0 && TicketEnd(h) <= TmdStart(h) < TicketEnd(h) + 64
    ensures LeBytes(TmdEnd(h) - TmdStart(h), 4) == h[0x10..0x14] && TmdEnd(h) < TmdStart(h) + U32_LIMIT
    ensures LeBytes(MetaSize(h), 4) == h[0x14..0x18] && MetaSize(h) < U32_LIMIT
    ensures LeBytes(ContentSize(h), 8) == h[0x18..0x20]
    ensures exists contents :: MetaBehind(h, contents)
  {
    hide LeBytes, Le32, Le64, Align64;
    Le32Bytes(h, 0x08);
    Le32Bytes(h, 0x0C);
    Le32Bytes(h, 0x10);
    Le32Bytes(h, 0x14);
    Le64Bytes(h, 0x18);
    assert MetaBehind(h, Align64(TmdEnd(h)));
  }

  /** The contents begin at the first multiple of 64 behind the TMD, and the meta region, at the first behind
      the contents, ends at MetaEnd. */
  predicate MetaBehind(h: seq<byte>, contents: nat)
    requires |h| == HEADER_SIZE
  {
    && contents % 64 == 0 && TmdEnd(h) <= contents < TmdEnd(h) + 64
    && MetaSize(h) <= MetaEnd(h) && (MetaEnd(h) - MetaSize(h)) % 64 == 0
    && contents + ContentSize(h) <= MetaEnd(h) - MetaSize(h) < contents + ContentSize(h) + 64
  }

  /** The header describes a file this installer is meant for: a ticket and a TMD at least
      as long as their fixed headers, and no part before the contents beyond 32-bit offsets. */
  predicate GoodHeader(h: seq<byte>) {
    && |h| == HEADER_SIZE
    && TICKET_HEADER_SIZE <= Le32(h, 0xC)
    && TMD_HEADER_COPY <= Le32(h, 0x10)
    && Align64(TmdEnd(h)) < U32_LIMIT
  }

  // What a title id says of its title.

  function Category(tid: nat): nat { tid / U32_LIMIT % 0x1_0000 }
  function ConsoleType(tid: nat): nat { tid / 0x1_0000_0000_0000 % 0x1_0000 }

  // (category & 0xC010) == 0x0010
  predicate IsSystemCtr(tid: nat) { Category(tid) < 0x4000 && Category(tid) / 0x10 % 2 == 1 }
  predicate IsDlpChild(tid: nat) { ConsoleType(tid) == 4 && Category(tid) == 1 }
  predicate IsDlc(tid: nat) { ConsoleType(tid) == 4 && Category(tid) == 0x8C }

  lemma IdParts(b: seq<byte>, at: nat)
    requires at + 8 <= |b|
    ensures ConsoleType(Be64(b, at)) == 0x100 * (b[at] as int) + (b[at + 1] as int)
    ensures Category(Be64(b, at)) == 0x100 * (b[at + 2] as int) + (b[at + 3] as int)
  {
    var hi, lo := Be32(b, at), Be32(b, at + 4);
    HighWord(hi, lo);
    assert hi == 0x1_0000 * (0x100 * (b[at] as int) + (b[at + 1] as int)) +
                 (0x100 * (b[at + 2] as int) + (b[at + 3] as int));
  }

  lemma HighWord(hi: nat, lo: nat)
    requires hi < U32_LIMIT && lo < U32_LIMIT
    ensures (hi * U32_LIMIT + lo) / U32_LIMIT == hi && (hi * U32_LIMIT + lo) / 0x1_0000_0000_0000 == hi / 0x1_0000
  {
  }

  /** The same, read off the bytes of the id. */
  lemma IdBytes(b: seq<byte>, at: nat)
    requires at + 8 <= |b|
    ensures IsDlc(Be64(b, at)) <==> b[at..at + 4] == [0x00, 0x04, 0x00, 0x8C]
    ensures IsDlpChild(Be64(b, at)) <==> b[at..at + 4] == [0x00, 0x04, 0x00, 0x01]
    ensures IsSystemCtr(Be64(b, at)) <==> b[at + 2] < 0x40 && b[at + 3] / 0x10 % 2 == 1
  {
    hide Be64, ConsoleType, Category;
    IdParts(b, at);
    CategoryBit(b[at + 2], b[at + 3]);
  }

  lemma CategoryBit(x: byte, y: byte)
    ensures (0x100 * (x as int) + y) / 0x10 % 2 == y / 0x10 % 2
  {
  }

  /** CON_ENABLED: bit x of the bitmap, most significant bit of each byte first. */
  predicate Enabled(bitmap: seq<byte>, x: nat)
    requires |bitmap| == 0x2000 && x < 0x1_0000
  {
    (bitmap[x / 8] as int) / [128, 64, 32, 16, 8, 4, 2, 1][x % 8] % 2 == 1
  }

  /** 0x80 shifted to the right. */
  function Bit(k: nat): byte
    requires k < 8
  {
    ((0x80 as bv8) >> k) as int
  }

  /** The bitmap whose only bit is the x-th, counted from the most significant bit of each byte. */
  function OneBit(x: nat): (r: seq<byte>)
    requires x < 0x1_0000
    ensures |r| == 0x2000
  {
    var bit := Bit(x % 8);
    seq(0x2000, i => if i == x / 8 then bit else 0)
  }

  lemma BitIs(k: nat)
    requires k < 8
    ensures Bit(k) == [128, 64, 32, 16, 8, 4, 2, 1][k]
  {
    assert k in {0, 1, 2, 3, 4, 5, 6, 7};
  }

  lemma BitTested(k: nat, l: nat)
    requires k < 8 && l < 8
    ensures (Bit(k) as int) / [128, 64, 32, 16, 8, 4, 2, 1][l] % 2 == 1 <==> k == l
  {
    BitIs(k);
    hide Bit;
    assert k in {0, 1, 2, 3, 4, 5, 6, 7} && l in {0, 1, 2, 3, 4, 5, 6, 7};
  }

  /** Of the bitmap with one bit set, exactly the index of that bit is enabled. */
  lemma OneBitEnabled(x: nat, y: nat)
    requires x < 0x1_0000 && y < 0x1_0000
    ensures Enabled(OneBit(x), y) <==> y == x
  {
    hide Bit;
    BitTested(x % 8, y % 8);
    assert x == x / 8 * 8 + x % 8 && y == y / 8 * 8 + y % 8;
  }

  /** The enabled indices below hi, ascending. */
  function EnabledBelow(bitmap: seq<byte>, hi: nat): (r: seq<nat>)
    requires |bitmap| == 0x2000 && hi <= MAX_INDEX
    ensures |r| <= hi
  {
    if hi == 0 then []
    else EnabledBelow(bitmap, hi - 1) + if Enabled(bitmap, hi - 1) then [hi - 1] else []
  }

  /** The enabled indices from lo on, ascending. */
  function EnabledFrom(bitmap: seq<byte>, lo: nat): seq<nat>
    requires |bitmap| == 0x2000 && lo <= MAX_INDEX
    decreases MAX_INDEX - lo
  {
    if lo == MAX_INDEX then []
    else (if Enabled(bitmap, lo) then [lo] else []) + EnabledFrom(bitmap, lo + 1)
  }

  /** Exactly the enabled bits below 0xFFFF, each once and in ascending order. */
  lemma {:induction false} EnabledBelowExact(bitmap: seq<byte>, hi: nat)
    requires |bitmap| == 0x2000 && hi <= MAX_INDEX
    ensures Ascending(EnabledBelow(bitmap, hi))
    ensures forall i :: i in EnabledBelow(bitmap, hi) <==> 0 <= i < hi && Enabled(bitmap, i)
  {
    hide Enabled;
    if hi > 0 {
      EnabledBelowExact(bitmap, hi - 1);
      var r, tail := EnabledBelow(bitmap, hi - 1), if Enabled(bitmap, hi - 1) then [hi - 1] else [];
      forall i, j | 0 <= i < j < |r + tail| ensures (r + tail)[i] < (r + tail)[j] {
        assert (r + tail)[i] in r;
      }
    }
  }

  lemma {:induction false} EnabledSplit(bitmap: seq<byte>, at: nat)
    requires |bitmap| == 0x2000 && at <= MAX_INDEX
    ensures EnabledBelow(bitmap, at) + EnabledFrom(bitmap, at) == EnabledBelow(bitmap, MAX_INDEX)
    decreases MAX_INDEX - at
  {
    hide Enabled;
    if at < MAX_INDEX {
      EnabledSplit(bitmap, at + 1);
      var a, one, b := EnabledBelow(bitmap, at), if Enabled(bitmap, at) then [at] else [], EnabledFrom(bitmap, at + 1);
      assert a + (one + b) == (a + one) + b;
    }
  }

  /** Where the last of the contents listed in idxs ends, when the TMD ends at `base`:
      each content starts on the next 64-byte boundary. */
  function ContentsEnd(base: nat, idxs: seq<nat>, sizeOf: nat -> nat): (r: nat)
    ensures base <= r
  {
    if idxs == [] then base
    else Align64(ContentsEnd(base, idxs[..|idxs| - 1], sizeOf)) + sizeOf(idxs[|idxs| - 1]) % U32_LIMIT
  }

  /** The contents listed in idxs, cut out of the file. */
  function Contents(file: seq<byte>, base: nat, idxs: seq<nat>, sizeOf: nat -> nat): (r: seq<Content>)
    requires ContentsEnd(base, idxs, sizeOf) <= |file|
    ensures |r| == |idxs|
  {
    if idxs == [] then []
    else
      var init, last := idxs[..|idxs| - 1], idxs[|idxs| - 1];
      var start := Align64(ContentsEnd(base, init, sizeOf));
      Contents(file, base, init, sizeOf)
      + [Content(last, file[start..start + sizeOf(last) % U32_LIMIT])]
  }

  /** More file behind the contents does not change them. */
  lemma {:induction false} ContentsMonotone(file: seq<byte>, more: seq<byte>, base: nat, idxs: seq<nat>,
                                            sizeOf: nat -> nat)
    requires ContentsEnd(base, idxs, sizeOf) <= |file|
    ensures Contents(file + more, base, idxs, sizeOf) == Contents(file, base, idxs, sizeOf)
  {
    if idxs != [] {
      var init, last := idxs[..|idxs| - 1], idxs[|idxs| - 1];
      ContentsMonotone(file, more, base, init, sizeOf);
      var start := Align64(ContentsEnd(base, init, sizeOf));
      assert (file + more)[start..start + sizeOf(last) % U32_LIMIT] == file[start..start + sizeOf(last) % U32_LIMIT];
    }
  }

  lemma ContentsEndSnoc(base: nat, idxs: seq<nat>, i: nat, sizeOf: nat -> nat)
    ensures ContentsEnd(base, idxs + [i], sizeOf) == Align64(ContentsEnd(base, idxs, sizeOf)) + sizeOf(i) % U32_LIMIT
  {
    hide Align64;
    var all := idxs + [i];
    assert all[..|all| - 1] == idxs && all[|all| - 1] == i;
  }

  lemma ContentsSnoc(file: seq<byte>, base: nat, idxs: seq<nat>, i: nat, sizeOf: nat -> nat)
    requires ContentsEnd(base, idxs + [i], sizeOf) <= |file|
    ensures ContentsEnd(base, idxs, sizeOf) <= Align64(ContentsEnd(base, idxs, sizeOf))
    ensures Align64(ContentsEnd(base, idxs, sizeOf)) <= ContentsEnd(base, idxs + [i], sizeOf)
    ensures var start := Align64(ContentsEnd(base, idxs, sizeOf));
            Contents(file, base, idxs + [i], sizeOf)
            == Contents(file, base, idxs, sizeOf) + [Content(i, file[start..ContentsEnd(base, idxs + [i], sizeOf)])]
  {
    hide Align64;
    ContentsEndSnoc(base, idxs, i, sizeOf);
    var all, end := idxs + [i], ContentsEnd(base, idxs + [i], sizeOf);
    var start := Align64(ContentsEnd(base, idxs, sizeOf));
    assert all[..|all| - 1] == idxs && all[|all| - 1] == i;
    assert Contents(file, base, all, sizeOf) == Contents(file, base, idxs, sizeOf) + [Content(i, file[start..end])];
  }
}
