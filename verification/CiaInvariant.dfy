/** The installer's state, and what it always says about the part of the file consumed so
    far and about the calls AM9 has seen. */
module CiaInvariant {
  import opened Bytes
  import opened Am9
  import opened CiaFormat

  datatype Option<T> = None | Some(value: T)

  datatype State =
    | HeaderCopy
    | ContentIndexCopy
    | CertChainCopy
    | CertChainInstall
    | TicketHeader
    | Ticket
    | TmdHeader
    | Tmd
    | Contents
    | Finalize

  function Rank(s: State): nat {
    match s
    case HeaderCopy => 0
    case ContentIndexCopy => 1
    case CertChainCopy => 2
    case CertChainInstall => 3
    case TicketHeader => 4
    case Ticket => 5
    case TmdHeader => 6
    case Tmd => 7
    case Contents => 8
    case Finalize => 9
  }

  /** The struct CIAInstallData, without its offset, together with the content bitmap it is
      used with. The field misalign is the filled part of misalign_buf. */
  datatype InstallData = InstallData(
    state: State,
    header: seq<byte>,
    bitmap: seq<byte>,
    buf: Option<seq<byte>>,
    misalign: seq<byte>,
    conStart: nat,
    conEnd: nat,
    numImported: nat,
    numBatch: nat,
    batchSize: nat,
    cindex: nat,
    isDlc: bool,
    importingTitle: bool,
    importingContent: bool,
    importingTmd: bool,
    importingTicket: bool,
    ticketHeaderImported: bool,
    tmdHeaderImported: bool)

  predicate ContentState(m: InstallData) {
    m.state == Contents || m.state == Finalize
  }

  /** What the state is measured against: the file as far as it has been handed over, the
      content sizes AM9 reports, whether every TMD block could be completed by the call
      after the one that started it, and the bytes held back in misalign_buf when the first
      content began and, from then on, when each content was finished. */
  datatype Run = Run(file: seq<byte>, sizeOf: nat -> nat, intact: bool, leads: seq<seq<byte>>)

  /** The bytes that the present or the next content starts with, before its own. */
  function Lead(run: Run): seq<byte>
    requires run.leads != []
  {
    run.leads[|run.leads| - 1]
  }

  /** The importing flags name exactly the installs that are open in AM9. */
  ghost predicate FlagsAgree(m: InstallData, v: View) {
    // compared with true so that the verifier handles it as one fact
    (&& v.legal
     && v.ticket == m.importingTicket
     && v.title == m.importingTitle
     && v.tmd == m.importingTmd
     && v.content == m.importingContent) == true
  }

  ghost predicate NoContentsYet(m: InstallData, v: View) {
    && v.installed == [] && v.everBegun == [] && v.batch == [] && v.begun == [] && v.commits == [] && v.blocksOnly
    && m.numImported == 0 && m.numBatch == 0 && m.batchSize == 0 && m.cindex == 0
    && !m.importingContent
  }

  ghost predicate BeforeTmd(m: InstallData, v: View) {
    && NoContentsYet(m, v)
    && !m.importingTitle && !m.importingTmd && !m.tmdHeaderImported
    && m.misalign == []
  }

  ghost predicate BeforeTicket(m: InstallData, v: View) {
    BeforeTmd(m, v) && !m.importingTicket && !m.ticketHeaderImported
  }

  /** Header and bitmap are the first 0x2020 bytes of the file. Throughout, `at` is the
      number of bytes consumed. */
  ghost predicate HeadRead(m: InstallData, file: seq<byte>, at: nat) {
    && INDEX_END <= at <= |file|
    && m.header == file[..HEADER_SIZE]
    && m.bitmap == file[HEADER_SIZE..INDEX_END]
    && GoodHeader(m.header)
  }

  /** A region of the file is being collected in a buffer. */
  ghost predicate Collecting(buf: Option<seq<byte>>, size: nat, file: seq<byte>, at: nat, start: nat)
    requires at <= |file|
  {
    match buf
    case None => at <= start
    case Some(b) => |b| == size && start <= at <= start + size && b[..at - start] == file[start..at]
  }

  ghost predicate Collected(buf: Option<seq<byte>>, size: nat, file: seq<byte>, at: nat, start: nat)
    requires at <= |file|
  {
    at == start + size && buf == Some(file[start..at])
  }

  ghost predicate TicketInv(m: InstallData, file: seq<byte>, at: nat, v: View)
    requires GoodHeader(m.header) && at <= |file|
  {
    var start := TicketStart(m.header);
    if !m.ticketHeaderImported then
      !m.importingTicket && Collected(m.buf, TICKET_HEADER_SIZE, file, at, start)
    else
      && m.importingTicket
      && start + TICKET_HEADER_SIZE <= at <= TicketEnd(m.header)
      && v.ticketData == file[start..at]
  }

  ghost predicate TicketDone(m: InstallData, file: seq<byte>, at: nat, v: View)
    requires GoodHeader(m.header) && at <= |file|
  {
    && !m.importingTicket
    && TicketEnd(m.header) <= at
    && v.ticketData == file[TicketStart(m.header)..TicketEnd(m.header)]
  }

  /** The TMD bytes delivered and held back are the TMD's bytes so far, and whole blocks have been
      delivered - as long as no call has begun in the middle of a block it could not complete
      inside the TMD. After such a call the bytes delivered are too few, or the install has run
      past the TMD's end. */
  ghost predicate TmdBody(intact: bool, misalign: seq<byte>, data: seq<byte>, file: seq<byte>,
                          at: nat, start: nat, end: nat)
    requires start <= at <= |file|
  {
    if intact then
      && data + misalign == file[start..at] && at <= end
      && if at == end then misalign == [] else |misalign| == (at - start) % 16
    else
      || end < at
      || |data| + |misalign| < at - start
      || (at == end && |data| < at - start)
  }

  ghost predicate TmdInv(m: InstallData, at: nat, v: View, run: Run)
    requires GoodHeader(m.header) && at <= |run.file|
  {
    var start := TmdStart(m.header);
    if !m.tmdHeaderImported then
      && run.intact
      && !m.importingTitle && !m.importingTmd
      && m.misalign == []
      && Collected(m.buf, TMD_HEADER_COPY, run.file, at, start)
    else
      && m.importingTitle && m.importingTmd
      && |m.misalign| < 16
      && start + TMD_HEADER_COPY <= at
      && TmdBody(run.intact, m.misalign, v.tmdData, run.file, at, start, TmdEnd(m.header))
  }

  ghost predicate TmdDone(m: InstallData, at: nat, v: View, run: Run)
    requires GoodHeader(m.header) && at <= |run.file|
  {
    && !m.importingTmd && m.importingTitle
    && TmdEnd(m.header) <= at
    && if run.intact then v.tmdData == run.file[TmdStart(m.header)..TmdEnd(m.header)]
       else |v.tmdData| < TmdEnd(m.header) - TmdStart(m.header)
  }

  /** Which contents have been begun, whatever was written to them. */
  ghost predicate IndexInv(m: InstallData, v: View) {
    && |m.bitmap| == 0x2000 && m.cindex <= MAX_INDEX
    && m.numImported == |EnabledBelow(m.bitmap, m.cindex)|
    && (m.importingContent ==>
          && m.cindex < MAX_INDEX && Enabled(m.bitmap, m.cindex) && v.current.index == m.cindex
          && m.conStart <= m.conEnd < m.conStart + U32_LIMIT)
    && v.everBegun == EnabledBelow(m.bitmap, m.cindex) + if m.importingContent then [m.cindex] else []
  }

  /** The contents installed, the regions of the file they come from, and the bytes held back
      between them: each content got the bytes held back when it began and its region, except the
      bytes held back when it was finished. */
  ghost predicate Chained(installed: seq<Content>, leads: seq<seq<byte>>, regions: seq<Content>) {
    && |installed| == |regions| && |leads| == |regions| + 1
    && (forall k :: 0 <= k < |leads| ==> |leads[k]| < 16)
    && forall k :: 0 <= k < |regions| ==>
         installed[k].index == regions[k].index && installed[k].data + leads[k + 1] == leads[k] + regions[k].data
  }

  /** Where the contents lie and what AM9 has been given of them, in every run. */
  ghost predicate DataInv(m: InstallData, at: nat, v: View, run: Run)
    requires GoodHeader(m.header) && IndexInv(m, v) && at <= |run.file|
  {
    var base := TmdEnd(m.header);
    var done := EnabledBelow(m.bitmap, m.cindex);
    var end := ContentsEnd(base, done, run.sizeOf);
    && end <= at
    && Chained(v.installed, run.leads, CiaFormat.Contents(run.file, base, done, run.sizeOf))
    && if m.importingContent then
         && m.conStart == Align64(end)
         && m.conEnd == m.conStart + run.sizeOf(m.cindex) % U32_LIMIT
         && OpenContent(m, at, v, Lead(run), run.file)
       else
         && m.misalign == Lead(run)
         && (m.state == Contents ==> if done == [] then at <= m.conStart == Align64(base)
                                     else m.conStart <= at == end)
  }

  /** The open content has been given the bytes held back when it began and its region up to the
      bytes held back now. */
  ghost predicate OpenContent(m: InstallData, at: nat, v: View, lead: seq<byte>, file: seq<byte>)
    requires at <= |file|
  {
    if at < m.conStart then v.current.data == [] && m.misalign == lead
    else v.current.data + m.misalign == lead + file[m.conStart..at]
  }

  /** When nothing was held back as the contents began, nothing is held back between them, whole
      blocks are delivered, and no content is overrun. */
  ghost predicate ExactInv(m: InstallData, at: nat, v: View, run: Run) {
    && v.blocksOnly
    && (forall k :: 0 <= k < |run.leads| ==> run.leads[k] == [])
    && (m.importingContent ==>
          at <= m.conEnd && (m.conStart <= at ==> |m.misalign| == (at - m.conStart) % 16))
  }

  /** The commits made for downloadable content: the first content alone, then whole batches. */
  ghost predicate CommitsWhole(commits: seq<CommitRecord>) {
    && (commits != [] ==> commits[0].batch == [] && |commits[0].begun| == 1)
    && forall k :: 1 <= k < |commits| ==> commits[k].batch == commits[k].begun && 1 <= |commits[k].batch| <= 64
  }

  function AllBegun(commits: seq<CommitRecord>): seq<nat> {
    if commits == [] then [] else AllBegun(commits[..|commits| - 1]) + commits[|commits| - 1].begun
  }

  /** Batches of 64; only the last may be smaller, and only if nothing is left behind it. */
  ghost predicate CommitsFull(commits: seq<CommitRecord>, ended: bool) {
    forall k :: 1 <= k < |commits| ==> |commits[k].batch| == 64 || (ended && k == |commits| - 1)
  }

  /** The commits made so far account for everything begun before the last of them. */
  ghost predicate CommitsInv(m: InstallData, v: View)
    requires |m.bitmap| == 0x2000 && m.cindex <= MAX_INDEX
  {
    && AllBegun(v.commits) + v.begun == v.everBegun
    && CommitsWhole(v.commits)
    && CommitsFull(v.commits, v.batch == [] && EnabledFrom(m.bitmap, m.cindex) == [])
    && (v.commits != [] ==> m.isDlc && m.numImported >= 1)
  }

  /** A batch is the next enabled indices, 64 of them unless fewer are left, and what has been
      begun since the last commit is the batch up to the content being imported. */
  ghost predicate BatchInv(m: InstallData, v: View)
    requires |m.bitmap| == 0x2000 && m.cindex <= MAX_INDEX
  {
    && CommitsInv(m, v)
    && m.numBatch <= m.batchSize <= 64
    && m.batchSize == |v.batch|
    && (v.commits == [] ==> v.batch == [] && (m.isDlc ==> |v.everBegun| <= 1))
    && (v.commits != [] ==>
          && v.begun == v.batch[..m.numBatch] + (if m.importingContent then [m.cindex] else [])
          && v.batch[m.numBatch..] <= EnabledFrom(m.bitmap, m.cindex)
          && (m.batchSize == 64 || v.batch[m.numBatch..] == EnabledFrom(m.bitmap, m.cindex))
          && (m.importingContent ==> m.numBatch < m.batchSize)
          && (m.state == Contents ==> 0 < m.batchSize))
  }

  /** The enabled contents are whole AES blocks. */
  ghost predicate BlockSizes(bitmap: seq<byte>, sizeOf: nat -> nat)
    requires |bitmap| == 0x2000
  {
    forall i: nat :: i < MAX_INDEX && Enabled(bitmap, i) ==> sizeOf(i) % 16 == 0
  }

  /** No TMD byte was held back when the contents began, and the contents are whole blocks. */
  ghost predicate Clean(bitmap: seq<byte>, run: Run)
    requires |bitmap| == 0x2000
  {
    run.leads != [] && run.leads[0] == [] && BlockSizes(bitmap, run.sizeOf)
  }

  /** What holds in the content state apart from the batch being installed. */
  ghost predicate ContentsCore(m: InstallData, at: nat, v: View, run: Run) {
    && HeadRead(m, run.file, at) && TicketDone(m, run.file, at, v) && TmdDone(m, at, v, run)
    && TmdEnd(m.header) < |run.file|
    && m.buf == None
    && |m.misalign| < 16
    && IndexInv(m, v)
    && DataInv(m, at, v, run)
    && (run.intact ==> run.leads[0] == [])
    && (Clean(m.bitmap, run) ==> ExactInv(m, at, v, run))
  }

  ghost predicate ContentsInv(m: InstallData, at: nat, v: View, run: Run) {
    ContentsCore(m, at, v, run) && BatchInv(m, v)
  }

  /** The search for contents has come to the end of the list, which takes a byte behind the last content;
      a file without contents only needs its padding behind the TMD. */
  ghost predicate EndReached(m: InstallData, at: nat, run: Run)
    requires |m.header| == HEADER_SIZE && |m.bitmap| == 0x2000
  {
    var base, enabled := TmdEnd(m.header), EnabledBelow(m.bitmap, MAX_INDEX);
    if enabled == [] then Align64(base) <= at else ContentsEnd(base, enabled, run.sizeOf) < |run.file|
  }

  /** The header, once complete, describes a file this installer is meant for. */
  ghost predicate GoodInput(file: seq<byte>) {
    && |file| + 64 <= U32_LIMIT
    && (|file| >= HEADER_SIZE ==> GoodHeader(file[..HEADER_SIZE]))
  }

  /** The invariant of an install that has not failed. */
  ghost predicate Inv(m: InstallData, at: nat, v: View, run: Run) {
    (&& !v.failed && FlagsAgree(m, v)
     && at <= |run.file| && GoodInput(run.file)
     && |m.header| == HEADER_SIZE && |m.bitmap| == 0x2000
     && StateInv(m, at, v, run)) == true
  }

  ghost predicate StateInv(m: InstallData, at: nat, v: View, run: Run)
    requires at <= |run.file| && |m.header| == HEADER_SIZE && |m.bitmap| == 0x2000
  {
    var file := run.file;
    match m.state
    case HeaderCopy =>
      run.intact && BeforeTicket(m, v) && m.buf == None
      && at <= HEADER_SIZE && m.header[..at] == file[..at]
    case ContentIndexCopy =>
      run.intact && BeforeTicket(m, v) && m.buf == None
      && HEADER_SIZE <= at <= INDEX_END && m.header == file[..HEADER_SIZE] && GoodHeader(m.header)
      && m.bitmap[..at - HEADER_SIZE] == file[HEADER_SIZE..at]
    case CertChainCopy =>
      run.intact && BeforeTicket(m, v) && HeadRead(m, file, at)
      && Collecting(m.buf, CertSize(m.header), file, at, CERT_START)
      && (CertSize(m.header) == 0 ==> m.buf == None)
    case CertChainInstall =>
      run.intact && BeforeTicket(m, v) && HeadRead(m, file, at) && CertSize(m.header) != 0
      && Collected(m.buf, CertSize(m.header), file, at, CERT_START)
    case TicketHeader =>
      run.intact && BeforeTicket(m, v) && HeadRead(m, file, at)
      && (CertSize(m.header) != 0 ==> CERT_START + CertSize(m.header) <= at)
      && Collecting(m.buf, TICKET_HEADER_SIZE, file, at, TicketStart(m.header))
    case Ticket =>
      run.intact && BeforeTmd(m, v) && HeadRead(m, file, at) && TicketInv(m, file, at, v)
    case TmdHeader =>
      run.intact && BeforeTmd(m, v) && HeadRead(m, file, at) && TicketDone(m, file, at, v)
      && Collecting(m.buf, TMD_HEADER_COPY, file, at, TmdStart(m.header))
    case Tmd =>
      NoContentsYet(m, v) && HeadRead(m, file, at) && TicketDone(m, file, at, v) && TmdInv(m, at, v, run)
    case Contents =>
      ContentsInv(m, at, v, run)
    case Finalize =>
      ContentsInv(m, at, v, run) && m.cindex == MAX_INDEX && !m.importingContent && EndReached(m, at, run)
  }

  /** Between calls a content that has some bytes is finished as soon as they have arrived. */
  predicate Settled(m: InstallData, at: nat) {
    m.state == Contents && m.importingContent && m.conStart < m.conEnd ==> at != m.conEnd
  }
}
