/** How the installer's invariant moves with each step of its state machine, up to the TMD. */
module CiaSteps {
  import opened Bytes
  import opened Am9
  import opened CiaFormat
  import opened CiaInvariant
  import opened CiaWalk

  /** The chunk being written is the last part of the file. */
  ghost predicate IsTail(data: seq<byte>, file: seq<byte>) {
    |data| <= |file| && data == file[|file| - |data|..]
  }

  lemma WholeTail(data: seq<byte>, file: seq<byte>, at: nat)
    requires at + |data| == |file| && file == file[..at] + data
    ensures IsTail(data, file)
  {
    assert (file[..at] + data)[at..] == data;
  }

  lemma TailSlice(data: seq<byte>, file: seq<byte>, i: nat, n: nat)
    requires IsTail(data, file) && i + n <= |data|
    ensures data[i..i + n] == file[|file| - |data| + i..|file| - |data| + i + n]
  {
  }

  lemma InvBasics(m: InstallData, at: nat, v: View, run: Run)
    requires Inv(m, at, v, run)
    ensures FlagsAgree(m, v) && !v.failed && at <= |run.file| && |run.file| + 64 <= U32_LIMIT
    ensures |m.header| == HEADER_SIZE && |m.bitmap| == 0x2000
  {
  }

  lemma HeaderNow(m: InstallData, at: nat, v: View, run: Run)
    requires m.state == HeaderCopy && Inv(m, at, v, run)
    ensures at <= HEADER_SIZE == |m.header|
  {
  }

  lemma HeaderCopied(m: InstallData, at: nat, v: View, run: Run, n: nat)
    requires m.state == HeaderCopy && Inv(m, at, v, run) && |m.header| == HEADER_SIZE
    requires at + n <= HEADER_SIZE && at + n <= |run.file|
    ensures Inv(m.(header := Splice(m.header, at, run.file[at..at + n])), at + n, v, run)
  {
    SplicePrefix(m.header, at, run.file[at..at + n]);
  }

  lemma HeaderComplete(m: InstallData, at: nat, v: View, run: Run)
    requires m.state == HeaderCopy && Inv(m, at, v, run) && at == HEADER_SIZE
    ensures Inv(m.(state := ContentIndexCopy), at, v, run)
  {
    assert m.header[..HEADER_SIZE] == m.header;
  }

  lemma BitmapNow(m: InstallData, at: nat, v: View, run: Run)
    requires m.state == ContentIndexCopy && Inv(m, at, v, run)
    ensures HEADER_SIZE <= at <= INDEX_END == HEADER_SIZE + |m.bitmap|
  {
  }

  lemma BitmapCopied(m: InstallData, at: nat, v: View, run: Run, n: nat)
    requires m.state == ContentIndexCopy && Inv(m, at, v, run) && |m.bitmap| == 0x2000
    requires HEADER_SIZE <= at && at + n <= INDEX_END && at + n <= |run.file|
    ensures Inv(m.(bitmap := Splice(m.bitmap, at - HEADER_SIZE, run.file[at..at + n])),
                at + n, v, run)
  {
    SplicePrefix(m.bitmap, at - HEADER_SIZE, run.file[at..at + n]);
    SlicesMeet(run.file, HEADER_SIZE, at, at + n);
  }

  lemma BitmapComplete(m: InstallData, at: nat, v: View, run: Run)
    requires m.state == ContentIndexCopy && Inv(m, at, v, run) && at == INDEX_END
    ensures Inv(m.(state := CertChainCopy), at, v, run)
  {
    assert m.bitmap[..INDEX_END - HEADER_SIZE] == m.bitmap;
  }

  /** The three states that collect a region, with its size and place. */
  function Region(m: InstallData): (nat, nat)
    requires |m.header| == HEADER_SIZE
  {
    match m.state
    case TicketHeader => (TICKET_HEADER_SIZE, TicketStart(m.header))
    case TmdHeader => (TMD_HEADER_COPY, TmdStart(m.header))
    case _ => (CertSize(m.header), CERT_START)
  }

  predicate Collects(s: State) {
    s == CertChainCopy || s == TicketHeader || s == TmdHeader
  }

  function AfterRegion(s: State): State {
    match s
    case TicketHeader => Ticket
    case TmdHeader => Tmd
    case _ => CertChainInstall
  }

  /** The file's next bytes behind the part of a region already collected. */
  lemma CollectGrown(buf: seq<byte>, file: seq<byte>, start: nat, from: nat, to: nat)
    requires start <= from <= to <= |file| && to - start <= |buf| && buf[..from - start] == file[start..from]
    ensures var b := Splice(buf, from - start, file[from..to]);
            |b| == |buf| && b[..to - start] == file[start..to]
  {
    SplicePrefix(buf, from - start, file[from..to]);
    SlicesMeet(file, start, from, to);
  }

  lemma CollectingNow(m: InstallData, at: nat, v: View, run: Run)
    requires Collects(m.state) && Inv(m, at, v, run)
    ensures at <= |run.file| && |m.header| == HEADER_SIZE
    ensures Collecting(m.buf, Region(m).0, run.file, at, Region(m).1)
    ensures FlagsAgree(m.(buf := None), v)
  {
  }

  lemma TmdHeaderNow(m: InstallData, at: nat, v: View, run: Run)
    requires m.state == TmdHeader && Inv(m, at, v, run)
    ensures m.misalign == [] && !m.tmdHeaderImported
  {
  }

  lemma RegionGrown(m: InstallData, at: nat, v: View, run: Run, to: nat, b: Option<seq<byte>>)
    requires Collects(m.state) && Inv(m, at, v, run) && |m.header| == HEADER_SIZE && 0 < Region(m).0
    requires at <= to <= |run.file| && Collecting(b, Region(m).0, run.file, to, Region(m).1)
    ensures Inv(m.(buf := b), to, v, run)
    ensures Collected(b, Region(m).0, run.file, to, Region(m).1) ==>
              Inv(m.(buf := b, state := AfterRegion(m.state)), to, v, run)
  {
  }

  lemma NoCertChain(m: InstallData, at: nat, v: View, run: Run)
    requires m.state == CertChainCopy && Inv(m, at, v, run) && |m.header| == HEADER_SIZE && CertSize(m.header) == 0
    ensures Inv(m.(state := TicketHeader), at, v, run)
  {
  }

  lemma CertChainNow(m: InstallData, at: nat, v: View, run: Run)
    requires m.state == CertChainInstall && Inv(m, at, v, run)
    ensures m.buf.Some?
  {
  }

  lemma CertChainImported(m: InstallData, at: nat, v: View, run: Run, chain: seq<byte>)
    requires m.state == CertChainInstall && Inv(m, at, v, run)
    ensures Inv(m.(buf := None, state := TicketHeader), at, Apply(v, ImportCertificate(chain, true)), run)
    ensures FlagsAgree(m, Apply(v, ImportCertificate(chain, false)))
  {
  }

  lemma TicketNow(m: InstallData, at: nat, v: View, run: Run)
    requires m.state == Ticket && Inv(m, at, v, run)
    ensures |m.header| == HEADER_SIZE && TicketStart(m.header) <= at <= TicketEnd(m.header)
    ensures !m.ticketHeaderImported ==> m.buf.Some? && |m.buf.value| == TICKET_HEADER_SIZE
    ensures m.ticketHeaderImported == m.importingTicket
  {
  }

  /** Begin, then the header as the first write. */
  lemma TicketHeaderInstalled(m: InstallData, at: nat, v: View, run: Run, buf: Option<seq<byte>>)
    requires m.state == Ticket && Inv(m, at, v, run) && !m.ticketHeaderImported && m.buf.Some?
    ensures FlagsAgree(m, Apply(v, TicketBegin(false)))
    ensures var v1, m1 := Apply(v, TicketBegin(true)), m.(importingTicket := true);
            && FlagsAgree(m1, Apply(v1, TicketWrite(m.buf.value, false)))
            && FlagsAgree(m1.(buf := None), Apply(v1, TicketWrite(m.buf.value, true)))
            && (buf.Some? ==> Inv(m1.(buf := buf, ticketHeaderImported := true), at,
                                  Apply(v1, TicketWrite(m.buf.value, true)), run))
  {
    assert [] + m.buf.value == m.buf.value;
  }

  lemma TicketFinished(m: InstallData, at: nat, v: View, run: Run, r: FinishResult)
    requires m.state == Ticket && Inv(m, at, v, run) && m.ticketHeaderImported && |m.header| == HEADER_SIZE
    requires at == TicketEnd(m.header)
    ensures if r == NotFinished then FlagsAgree(m, Apply(v, TicketFinish(r)))
            else Inv(m.(buf := None, state := TmdHeader, importingTicket := false), at, Apply(v, TicketFinish(r)), run)
  {
  }

  lemma TicketWritten(m: InstallData, at: nat, v: View, run: Run, n: nat)
    requires m.state == Ticket && Inv(m, at, v, run) && m.ticketHeaderImported && |m.header| == HEADER_SIZE
    requires at + n <= TicketEnd(m.header) && at + n <= |run.file|
    ensures Inv(m, at + n, Apply(v, TicketWrite(run.file[at..at + n], true)), run)
    ensures FlagsAgree(m, Apply(v, TicketWrite(run.file[at..at + n], false)))
  {
    var start := TicketStart(m.header);
    SlicesMeet(run.file, start, at, at + n);
  }

  /** A call of this size may begin at this offset without losing TMD bytes: it does not begin in
      the middle of a TMD block, or it completes the block and the block ends inside the TMD. */
  predicate TmdSafe(header: seq<byte>, at: nat, size: nat)
    requires |header| == HEADER_SIZE
  {
    InTmdBlock(header, at) ==> 16 <= HeldAt(header, at) + size && at + 16 - HeldAt(header, at) <= TmdEnd(header)
  }

  predicate InTmdBlock(header: seq<byte>, at: nat)
    requires |header| == HEADER_SIZE
  {
    TmdStart(header) + TMD_HEADER_COPY <= at < TmdEnd(header) && HeldAt(header, at) != 0
  }

  /** How far into a TMD block the offset is. */
  function HeldAt(header: seq<byte>, at: nat): nat
    requires |header| == HEADER_SIZE
  {
    if TmdStart(header) <= at then (at - TmdStart(header)) % 16 else 0
  }

  /** Before and after its state, no TMD block is open. */
  lemma OutsideTmd(m: InstallData, at: nat, v: View, run: Run)
    requires Inv(m, at, v, run)
    ensures |m.header| == HEADER_SIZE && (m.state != Tmd ==> !InTmdBlock(m.header, at))
  {
    hide Le32, Enabled, EnabledBelow, EnabledFrom, IndexInv, DataInv, ExactInv, BatchInv, Clean;
  }

  lemma TmdNow(m: InstallData, at: nat, v: View, run: Run)
    requires m.state == Tmd && Inv(m, at, v, run)
    ensures |m.header| == HEADER_SIZE && at <= |run.file| < U32_LIMIT
    ensures |m.misalign| < 16 && TmdEnd(m.header) < U32_LIMIT
    ensures !m.tmdHeaderImported ==> m.buf.Some? && |m.buf.value| == TMD_HEADER_COPY && m.misalign == [] && run.intact
    ensures run.intact && at == TmdEnd(m.header) ==> m.misalign == []
    ensures run.intact && at != TmdEnd(m.header) ==>
              |m.misalign| == HeldAt(m.header, at) && (InTmdBlock(m.header, at) <==> m.misalign != [])
    ensures !m.importingContent
    ensures HEADER_SIZE <= |run.file| && m.header == run.file[..HEADER_SIZE] && BodyStart(m.header) <= TmdEnd(m.header)
    ensures BodyStart(m.header) <= at && (!m.tmdHeaderImported ==> at == BodyStart(m.header))
  {
  }

  function TmdBegun(m: InstallData, dlc: bool): InstallData {
    m.(isDlc := dlc, importingTitle := true, importingTmd := true)
  }

  /** The flags through title begin and TMD begin. */
  lemma TmdBegunFlags(m: InstallData, at: nat, v: View, run: Run, dlc: bool, overwrite: bool, tid: nat)
    requires m.state == Tmd && Inv(m, at, v, run) && !m.tmdHeaderImported
    ensures var m0, v1 := m.(isDlc := dlc), Apply(v, TitleBegin(overwrite, tid, true));
            && FlagsAgree(m0, v)
            && FlagsAgree(m0, Apply(v, TitleBegin(overwrite, tid, false)))
            && FlagsAgree(m0.(importingTitle := true), Apply(v1, TmdBegin(false)))
  {
  }

  /** Title begin, TMD begin, then the header as the first write. */
  lemma TmdHeaderInstalled(m: InstallData, at: nat, v: View, run: Run, dlc: bool, overwrite: bool, tid: nat,
                           ok: bool, buf: Option<seq<byte>>)
    requires m.state == Tmd && Inv(m, at, v, run) && !m.tmdHeaderImported && m.buf.Some?
    ensures var v2 := Apply(Apply(v, TitleBegin(overwrite, tid, true)), TmdBegin(true));
            var v3 := Apply(v2, TmdWrite(m.buf.value, ok));
            && FlagsAgree(TmdBegun(m, dlc), v3)
            && FlagsAgree(TmdBegun(m, dlc).(buf := None), v3)
            && (ok && buf.Some? ==> Inv(TmdBegun(m, dlc).(buf := buf, tmdHeaderImported := true), at, v3, run))
  {
    assert [] + m.buf.value == m.buf.value;
  }

  lemma TmdFinished(m: InstallData, at: nat, v: View, run: Run)
    requires m.state == Tmd && Inv(m, at, v, run) && m.tmdHeaderImported && |m.header| == HEADER_SIZE
    requires at == TmdEnd(m.header) && at < |run.file|
    ensures FlagsAgree(m, Apply(v, TmdFinish(false)))
    ensures Inv(m.(buf := None, state := Contents, conStart := Align64(TmdEnd(m.header)), importingTmd := false), at,
                Apply(v, TmdFinish(true)), run.(leads := [m.misalign]))
  {
  }

  /** A step inside the TMD: what is left to show is what it does to the TMD's bytes. */
  lemma TmdMoved(m: InstallData, at: nat, v: View, run: Run, held: seq<byte>, to: nat, v1: View, intact: bool)
    requires m.state == Tmd && Inv(m, at, v, run) && m.tmdHeaderImported && |m.header| == HEADER_SIZE
    requires at <= to <= |run.file| && |held| < 16 && TmdStart(m.header) <= to
    requires v1 == v.(log := v1.log, legal := v1.legal, tmdData := v1.tmdData) && FlagsAgree(m, v1)
    requires TmdBody(intact, held, v1.tmdData, run.file, to, TmdStart(m.header), TmdEnd(m.header)) == true
    ensures Inv(m.(misalign := held), to, v1, run.(intact := intact))
  {
    hide TmdBody, TmdStart, TmdEnd, Le32;
  }

  lemma TmdBodyNow(m: InstallData, at: nat, v: View, run: Run)
    requires m.state == Tmd && Inv(m, at, v, run) && m.tmdHeaderImported && |m.header| == HEADER_SIZE
    ensures TmdStart(m.header) + TMD_HEADER_COPY <= at <= |run.file| && |m.misalign| < 16 && !v.failed
    ensures TmdBody(run.intact, m.misalign, v.tmdData, run.file, at, TmdStart(m.header), TmdEnd(m.header))
  {
    hide TmdBody, TmdStart, TmdEnd, Le32;
  }

  lemma TmdFlags(m: InstallData, at: nat, v: View, run: Run, d: seq<byte>)
    requires m.state == Tmd && Inv(m, at, v, run) && m.tmdHeaderImported
    ensures FlagsAgree(m, Apply(v, TmdWrite(d, false))) && FlagsAgree(m, Apply(v, TmdWrite(d, true)))
  {
  }

  lemma TmdBlockCompleted(m: InstallData, at: nat, v: View, run: Run, d: seq<byte>)
    requires m.state == Tmd && Inv(m, at, v, run) && m.tmdHeaderImported && |m.header| == HEADER_SIZE
    requires at != TmdEnd(m.header) && m.misalign != [] && |m.misalign| + |d| == 16
    requires at + |d| <= |run.file| && d == run.file[at..at + |d|]
    ensures FlagsAgree(m, Apply(v, TmdWrite(m.misalign + d, false)))
    ensures Inv(m.(misalign := []), at + |d|, Apply(v, TmdWrite(m.misalign + d, true)),
                run.(intact := run.intact && at + |d| <= TmdEnd(m.header)))
  {
    hide Inv, FlagsAgree, TmdStart, TmdEnd;
    var start, block := TmdStart(m.header), m.misalign + d;
    TmdBodyNow(m, at, v, run);
    TmdFlags(m, at, v, run, block);
    SlicesMeet(run.file, start, at, at + |d|);
    assert v.tmdData + m.misalign + d == (v.tmdData + block) + [];
    TmdMoved(m, at, v, run, [], at + |d|, Apply(v, TmdWrite(block, true)), run.intact && at + |d| <= TmdEnd(m.header));
  }

  /** The append branch: whatever happens to the bytes held back, the TMD is not intact. */
  lemma TmdBlockLost(m: InstallData, at: nat, v: View, run: Run, n: nat, held: seq<byte>)
    requires m.state == Tmd && Inv(m, at, v, run) && m.tmdHeaderImported && |m.header| == HEADER_SIZE
    requires at != TmdEnd(m.header) && m.misalign != [] && |held| < 16 && at + n <= |run.file|
    ensures FlagsAgree(m.(misalign := held), Apply(v, TmdWrite([], false)))
    ensures at + n == TmdEnd(m.header) ==>
              Inv(m.(misalign := held), at + n, Apply(v, TmdWrite([], true)), run.(intact := false))
    ensures at + n != TmdEnd(m.header) ==> Inv(m.(misalign := []), at + n, v, run.(intact := false))
  {
    assert v.tmdData + [] == v.tmdData;
    if run.intact {
      assert |v.tmdData| + |m.misalign| == at - TmdStart(m.header);
    }
  }

  lemma TmdHeldBack(m: InstallData, at: nat, v: View, run: Run, n: nat)
    requires m.state == Tmd && Inv(m, at, v, run) && m.tmdHeaderImported && |m.header| == HEADER_SIZE
    requires m.misalign == [] && n < 16 && at + n <= |run.file| && at != TmdEnd(m.header)
    requires at < TmdEnd(m.header) ==> at + n < TmdEnd(m.header)
    ensures Inv(m.(misalign := run.file[at..at + n]), at + n, v, run)
  {
    hide Inv, TmdStart, TmdEnd;
    var start := TmdStart(m.header);
    TmdBodyNow(m, at, v, run);
    InvBasics(m, at, v, run);
    SlicesMeet(run.file, start, at, at + n);
    assert v.tmdData + [] + run.file[at..at + n] == v.tmdData + run.file[at..at + n];
    assert run.(intact := run.intact) == run;
    TmdMoved(m, at, v, run, run.file[at..at + n], at + n, v, run.intact);
  }

  lemma TmdWritten(m: InstallData, at: nat, v: View, run: Run, n: nat)
    requires m.state == Tmd && Inv(m, at, v, run) && m.tmdHeaderImported && |m.header| == HEADER_SIZE
    requires m.misalign == [] && at + n <= |run.file|
    requires at <= TmdEnd(m.header) ==> at + n == TmdEnd(m.header) || (n % 16 == 0 && at + n <= TmdEnd(m.header))
    ensures FlagsAgree(m, Apply(v, TmdWrite(run.file[at..at + n], false)))
    ensures Inv(m, at + n, Apply(v, TmdWrite(run.file[at..at + n], true)), run)
  {
    hide Inv, FlagsAgree, TmdStart, TmdEnd;
    var start, d := TmdStart(m.header), run.file[at..at + n];
    TmdBodyNow(m, at, v, run);
    TmdFlags(m, at, v, run, d);
    SlicesMeet(run.file, start, at, at + n);
    assert v.tmdData + [] == v.tmdData && v.tmdData + d + [] == v.tmdData + d;
    assert m.(misalign := []) == m && run.(intact := run.intact) == run;
    TmdMoved(m, at, v, run, [], at + n, Apply(v, TmdWrite(d, true)), run.intact);
  }

  /** A zero-length write changes nothing but the log. */
  lemma TmdWriteNothing(m: InstallData, at: nat, v: View, run: Run)
    requires m.state == Tmd && Inv(m, at, v, run) && m.tmdHeaderImported
    ensures FlagsAgree(m, Apply(v, TmdWrite([], false)))
    ensures Inv(m, at, Apply(v, TmdWrite([], true)), run)
  {
    assert v.tmdData + [] == v.tmdData;
  }

  // The walk through the TMD.

  /** From the point where the header is complete, the installer's header is the file's. */
  lemma HeaderKnown(m: InstallData, at: nat, v: View, run: Run)
    requires Inv(m, at, v, run)
    ensures |m.header| == HEADER_SIZE && at <= |run.file|
    ensures HEADER_SIZE <= at ==> m.header == run.file[..HEADER_SIZE]
    ensures at < HEADER_SIZE ==> m.state == HeaderCopy
    ensures ContentState(m) ==> TmdEnd(m.header) <= at
  {
    hide Le32, Align64, Enabled, EnabledBelow, EnabledFrom, IndexInv, DataInv, ExactInv, BatchInv, Clean, TmdBody;
    if m.state == HeaderCopy && at == HEADER_SIZE {
      assert m.header[..HEADER_SIZE] == m.header;
    }
  }

  /** Where the walk stands between two turns. */
  function WalkOf(m: InstallData, at: nat, run: Run): Walk {
    if ContentState(m) then Walk(if run.leads == [] then 0 else |run.leads[0]|, false)
    else if m.state != Tmd || |m.header| != HEADER_SIZE then AT_START
    else if TmdEnd(m.header) < at then Walk(0, true)
    else Walk(|m.misalign|, false)
  }

  /** Where it will stand when n more bytes of this file have been consumed. */
  function WalkOn(m: InstallData, at: nat, run: Run, file: seq<byte>, n: nat): Walk {
    var w := WalkOf(m, at, run);
    if HEADER_SIZE <= |file| && w.held < 16 then Next(file[..HEADER_SIZE], at, w, n) else w
  }

  /** Where it will stand at the end of the piece being consumed. */
  function WalkRest(m: InstallData, at: nat, run: Run): Walk {
    WalkOn(m, at, run, run.file, if at <= |run.file| then |run.file| - at else 0)
  }

  lemma WalkEnd(m: InstallData, at: nat, run: Run)
    requires at >= |run.file|
    ensures WalkRest(m, at, run) == WalkOf(m, at, run)
  {
    hide WalkOf;
  }

  lemma EarlyPlace(m: InstallData, at: nat, v: View, run: Run)
    requires Inv(m, at, v, run) && !ContentState(m) && (m.state == Tmd ==> !m.tmdHeaderImported)
    ensures at <= |run.file| && WalkOf(m, at, run) == AT_START
    ensures HEADER_SIZE <= |run.file| ==>
              var header := run.file[..HEADER_SIZE]; at <= BodyStart(header) <= TmdEnd(header)
  {
    hide Le32, Enabled, EnabledBelow, EnabledFrom, IndexInv, DataInv, ExactInv, BatchInv, Clean, TmdBody;
    HeaderKnown(m, at, v, run);
  }

  lemma WalkEarly(m: InstallData, at: nat, v: View, run: Run, m1: InstallData, to: nat, v1: View)
    requires Inv(m, at, v, run) && Inv(m1, to, v1, run) && at <= to
    requires !ContentState(m) && m.state != Tmd && !ContentState(m1) && (m1.state == Tmd ==> !m1.tmdHeaderImported)
    ensures WalkRest(m1, to, run) == WalkRest(m, at, run)
  {
    hide Inv, WalkOf, TmdEnd, BodyStart;
    EarlyPlace(m, at, v, run);
    EarlyPlace(m1, to, v1, run);
    if HEADER_SIZE <= |run.file| {
      BeforeBody(run.file[..HEADER_SIZE], at, to, |run.file| - at);
    }
  }

  lemma WalkTmd(m: InstallData, at: nat, v: View, run: Run, m1: InstallData, to: nat, v1: View, run1: Run)
    requires Inv(m, at, v, run) && Inv(m1, to, v1, run1) && m.state == m1.state == Tmd && run1.file == run.file
    requires |m.header| == HEADER_SIZE && |m.misalign| < 16 && at != TmdEnd(m.header)
    requires at <= to <= |run.file| && at < |run.file|
    requires at < TmdEnd(m.header) ==>
               Moved(TmdEnd(m.header), at, |m.misalign|, to, |m1.misalign|, |run.file| - at)
    ensures WalkRest(m1, to, run1) == WalkRest(m, at, run)
  {
    hide Inv, TmdEnd, BodyStart, Next, Moved;
    TmdNow(m, at, v, run);
    TmdNow(m1, to, v1, run1);
    if at < TmdEnd(m.header) {
      TurnKept(m.header, at, |m.misalign|, to, |m1.misalign|, |run.file| - at);
    } else {
      Overrun(m.header, at, |run.file| - at);
      Overrun(m.header, to, |run.file| - to);
    }
  }

  lemma Overrun(header: seq<byte>, at: nat, n: nat)
    requires |header| == HEADER_SIZE
    ensures Next(header, at, Walk(0, true), n) == Walk(0, true)
  {
  }

  lemma Behind(header: seq<byte>, at: nat, w: Walk, n: nat)
    requires |header| == HEADER_SIZE && BodyStart(header) <= TmdEnd(header) <= at && w.held < 16
    ensures Next(header, at, w, n) == w
  {
  }

  lemma WalkFinished(m: InstallData, at: nat, v: View, run: Run, m1: InstallData, v1: View, run1: Run)
    requires Inv(m, at, v, run) && m.state == Tmd && |m.header| == HEADER_SIZE && at == TmdEnd(m.header)
    requires ContentState(m1) && run1 == run.(intact := run1.intact, leads := [m.misalign])
    ensures WalkRest(m1, at, run1) == WalkRest(m, at, run)
  {
    hide Inv, Next, TmdEnd, BodyStart;
    TmdNow(m, at, v, run);
  }

  /** Behind the TMD the walk stands still. */
  lemma WalkLate(m: InstallData, at: nat, v: View, run: Run)
    requires Inv(m, at, v, run) && ContentState(m)
    ensures WalkRest(m, at, run) == WalkOf(m, at, run) && run.leads != []
    ensures HEADER_SIZE <= |run.file| && TmdEnd(run.file[..HEADER_SIZE]) < |run.file|
  {
    hide Inv, Next, TmdEnd, BodyStart;
    LateHeader(m, at, v, run);
    Behind(m.header, at, WalkOf(m, at, run), |run.file| - at);
  }

  lemma LateHeader(m: InstallData, at: nat, v: View, run: Run)
    requires Inv(m, at, v, run) && ContentState(m)
    ensures |m.header| == HEADER_SIZE <= |run.file| && m.header == run.file[..HEADER_SIZE] && at <= |run.file|
    ensures BodyStart(m.header) <= TmdEnd(m.header) <= at && TmdEnd(m.header) < |run.file|
    ensures run.leads != [] && |run.leads[0]| < 16
  {
    hide Le32, Align64, Enabled, EnabledBelow, EnabledFrom, BatchInv, ContentsEnd, CiaFormat.Contents;
  }
}
