/** What the cutting of a file alone decides about its TMD: how many bytes are held back after each
    piece, and whether the TMD's end has been missed. */
module CiaWalk {
  import opened Bytes
  import opened CiaFormat

  /** held is the number of TMD bytes held back - behind the TMD's end, the number held back there -
      and overrun says that the offset has passed the TMD's end without stopping at it. */
  datatype Walk = Walk(held: nat, overrun: bool)

  const AT_START := Walk(0, false)

  /** Where the TMD's first part, its header, ends and the blocks begin. */
  function BodyStart(header: seq<byte>): nat
    requires |header| == HEADER_SIZE
  {
    TmdStart(header) + TMD_HEADER_COPY
  }

  /** n bytes arrive at an offset in the TMD where a block begins. */
  function FromBlock(end: nat, at: nat, n: nat): (w: Walk)
    ensures w.held < 16
  {
    if end <= at + n then Walk(0, false) else Walk(n % 16, false)
  }

  /** n bytes arrive in the TMD. Too few for the block held back are lost with it, unless the TMD ends with
      them; enough of them complete it, even from beyond the TMD's end. */
  function InTmd(end: nat, at: nat, held: nat, n: nat): (w: Walk)
    requires held < 16
    ensures w.held < 16
  {
    if held == 0 then FromBlock(end, at, n)
    else if held + n < 16 then (if at + n == end then Walk(held + n, false) else Walk(0, end < at + n))
    else if end < at + 16 - held then Walk(0, true)
    else FromBlock(end, at + 16 - held, held + n - 16)
  }

  /** A piece of n bytes arrives at offset at. */
  function Next(header: seq<byte>, at: nat, w: Walk, n: nat): (w1: Walk)
    requires |header| == HEADER_SIZE && w.held < 16
    ensures w1.held < 16
  {
    if n == 0 || w.overrun then w
    else if at < BodyStart(header) then
      if at + n <= BodyStart(header) then w
      else FromBlock(TmdEnd(header), BodyStart(header), at + n - BodyStart(header))
    else if TmdEnd(header) <= at then w
    else InTmd(TmdEnd(header), at, w.held, n)
  }

  lemma BeforeBody(header: seq<byte>, at: nat, to: nat, n: nat)
    requires |header| == HEADER_SIZE && at <= to <= BodyStart(header) <= TmdEnd(header) && to <= at + n
    ensures Next(header, at, AT_START, n) == Next(header, to, AT_START, at + n - to)
  {
    hide TmdStart, TmdEnd;
  }

  /** Too few bytes for the block held back. */
  predicate Appends(held: nat, n: nat) {
    0 < held && held + n < 16
  }

  /** Where the first whole block begins from here on. */
  function BlockStart(at: nat, held: nat): nat
    requires held < 16
  {
    if held == 0 then at else at + 16 - held
  }

  /** What the writes of one turn inside the TMD come to. */
  predicate Moved(end: nat, at: nat, held: nat, to: nat, held1: nat, n: nat)
    requires held < 16
  {
    at <= to <= at + n &&
    if Appends(held, n) then
      to == at + n && (to <= end ==> held1 == if to == end then held + n else 0)
    else if end < BlockStart(at, held) then end < to
    else
      && BlockStart(at, held) <= to <= end
      && held1 == (if to == end then 0 else (to - BlockStart(at, held)) % 16)
      && (to < at + n ==> held1 == 0)
  }

  /** A turn leaves the walk of the whole piece as it is. */
  lemma TurnKept(header: seq<byte>, at: nat, held: nat, to: nat, held1: nat, n: nat)
    requires |header| == HEADER_SIZE && BodyStart(header) <= at < TmdEnd(header) && held < 16 && held1 < 16
    requires Moved(TmdEnd(header), at, held, to, held1, n) && 0 < n
    ensures Next(header, at, Walk(held, false), n)
         == Next(header, to, if TmdEnd(header) < to then Walk(0, true) else Walk(held1, false), at + n - to)
  {
    hide TmdStart, TmdEnd;
    if !Appends(held, n) && BlockStart(at, held) <= to < TmdEnd(header) && to < at + n {
      BlocksSkipped(BlockStart(at, held), to, at + n);
    }
  }

  lemma BlocksSkipped(from: nat, to: nat, end: nat)
    requires from <= to <= end && (to - from) % 16 == 0
    ensures (end - to) % 16 == (end - from) % 16
  {
  }
}
