/** How the installer's invariant moves with each step of the content state: padding, commits,
    batches, and the re-blocking of content bytes. */
module CiaContentSteps {
  import opened Bytes
  import opened Am9
  import opened CiaFormat
  import opened CiaInvariant

  lemma ContentsNow(m: InstallData, at: nat, v: View, run: Run)
    requires m.state == Contents && Inv(m, at, v, run)
    ensures |m.bitmap| == 0x2000 && m.cindex <= MAX_INDEX && |m.misalign| < 16 && m.batchSize <= 64
    ensures at <= |run.file| && |run.file| + 64 <= U32_LIMIT
    ensures m.importingContent ==> m.cindex < MAX_INDEX && m.conStart <= m.conEnd < m.conStart + U32_LIMIT
  {
  }

  lemma LeadsNow(m: InstallData, at: nat, v: View, run: Run)
    requires ContentState(m) && Inv(m, at, v, run)
    ensures run.leads != [] && (run.intact ==> run.leads[0] == [])
  {
    hide Enabled, EnabledBelow, EnabledFrom, Align64, Le32, BatchInv, ContentsEnd, CiaFormat.Contents;
  }

  lemma PaddingSkipped(m: InstallData, at: nat, v: View, run: Run, to: nat)
    requires m.state == Contents && Inv(m, at, v, run)
    requires at <= to <= |run.file| && (at < m.conStart ==> to <= m.conStart) && (m.conStart <= at ==> to == at)
    ensures Inv(m, to, v, run)
  {
    hide Enabled, Align64, Le32;
  }

  /** The condition for finishing, committing and restarting a title of downloadable content. */
  predicate CommitNeeded(m: InstallData) {
    m.isDlc && ((m.batchSize == 0 && m.numImported == 1) || (m.batchSize != 0 && m.numBatch == m.batchSize))
  }

  /** Right after a commit: no batch is set up and nothing has been begun. */
  ghost predicate Committed(m: InstallData, at: nat, v: View, run: Run) {
    // compared with true so that the verifier handles it as one fact
    (&& !v.failed && FlagsAgree(m, v)
     && at <= |run.file| && GoodInput(run.file)
     && |m.header| == HEADER_SIZE && |m.bitmap| == 0x2000
     && m.state == Contents && !m.importingContent && m.isDlc && m.batchSize == 0 && m.numBatch == 0
     && v.commits != [] && v.batch == [] && v.begun == []
     && ContentsCore(m, at, v, run) && CommitsInv(m, v)) == true
  }

  lemma InvFlags(m: InstallData, at: nat, v: View, run: Run)
    requires Inv(m, at, v, run)
    ensures FlagsAgree(m, v) && !v.failed
  {
    hide StateInv;
  }

  /** The parts of the invariant that say which contents have been begun. */
  lemma IndicesNow(m: InstallData, at: nat, v: View, run: Run)
    requires m.state == Contents && Inv(m, at, v, run)
    ensures |m.bitmap| == 0x2000 && m.cindex <= MAX_INDEX && IndexInv(m, v) && BatchInv(m, v)
    ensures m.importingTitle && !m.importingTmd && !m.importingTicket
  {
    hide DataInv, ExactInv, HeadRead, Clean, FlagsAgree, GoodInput;
    hide Enabled, EnabledBelow, EnabledFrom, Align64, Le32, GoodHeader, AllBegun, CommitsWhole;
  }

  /** A commit is due only while no content is open. */
  lemma NoneOpen(m: InstallData, v: View)
    requires |m.bitmap| == 0x2000 && m.cindex <= MAX_INDEX
    requires m.state == Contents && IndexInv(m, v) && BatchInv(m, v) && CommitNeeded(m)
    ensures !m.importingContent
  {
    hide Enabled, EnabledBelow, EnabledFrom, AllBegun, CommitsWhole;
  }

  /** The flags through title finish, commit and title begin. */
  lemma CommitCalls(m: InstallData, v: View, tid: nat)
    requires FlagsAgree(m, v) && !v.failed
    requires m.importingTitle && !m.importingTmd && !m.importingTicket && !m.importingContent
    ensures FlagsAgree(m, Apply(v, TitleFinish(false)))
    ensures var v1, m1 := Apply(v, TitleFinish(true)), m.(importingTitle := false);
            && FlagsAgree(m1, Apply(v1, TitlesCommit(tid, false)))
            && FlagsAgree(m1, Apply(Apply(v1, TitlesCommit(tid, true)), TitleBegin(false, tid, false)))
  {
  }

  lemma CommitFlags(m: InstallData, at: nat, v: View, run: Run, tid: nat)
    requires m.state == Contents && Inv(m, at, v, run) && CommitNeeded(m)
    ensures !m.importingContent && m.importingTitle && FlagsAgree(m, Apply(v, TitleFinish(false)))
    ensures var v1, m1 := Apply(v, TitleFinish(true)), m.(importingTitle := false);
            && FlagsAgree(m1, Apply(v1, TitlesCommit(tid, false)))
            && FlagsAgree(m1, Apply(Apply(v1, TitlesCommit(tid, true)), TitleBegin(false, tid, false)))
  {
    hide Inv, StateInv, IndexInv, BatchInv, FlagsAgree, Apply, CommitNeeded;
    InvFlags(m, at, v, run);
    IndicesNow(m, at, v, run);
    NoneOpen(m, v);
    CommitCalls(m, v, tid);
  }

  function AfterCommit(v: View, tid: nat): View {
    Apply(Apply(Apply(v, TitleFinish(true)), TitlesCommit(tid, true)), TitleBegin(false, tid, true))
  }

  lemma CommitRecorded(m: InstallData, v: View)
    requires |m.bitmap| == 0x2000 && m.cindex <= MAX_INDEX
    requires m.state == Contents && IndexInv(m, v) && BatchInv(m, v) && CommitNeeded(m)
    ensures !m.importingContent
    ensures CommitsWhole(v.commits + [CommitRecord(v.batch, v.begun)])
    ensures AllBegun(v.commits + [CommitRecord(v.batch, v.begun)]) + [] == v.everBegun
  {
    hide Enabled, EnabledBelow, EnabledFrom;
    var r := CommitRecord(v.batch, v.begun);
    assert (v.commits + [r])[..|v.commits + [r]| - 1] == v.commits;
    if v.commits == [] {
      assert [] + v.begun == v.begun;
    } else {
      assert v.batch[..|v.batch|] + [] == v.batch;
    }
  }

  lemma CommitDone(m: InstallData, at: nat, v: View, run: Run, tid: nat)
    requires m.state == Contents && Inv(m, at, v, run) && CommitNeeded(m)
    ensures Committed(m.(numBatch := 0, batchSize := 0), at, AfterCommit(v, tid), run)
  {
    hide Enabled, EnabledBelow, EnabledFrom, Align64, Le32, GoodHeader, AllBegun, CommitsWhole;
    CommitFlags(m, at, v, run, tid);
    CommitRecorded(m, v);
    var m1, v1 := m.(numBatch := 0, batchSize := 0), AfterCommit(v, tid);
    assert FlagsAgree(m1, v1);
    assert CommitsInv(m1, v1);
    assert DataInv(m1, at, v1, run);
    assert Clean(m.bitmap, run) ==> ExactInv(m1, at, v1, run);
    assert ContentsCore(m1, at, v1, run);
  }

  /** The batch collected from cindex up to i. */
  ghost predicate BatchUpTo(bitmap: seq<byte>, cindex: nat, i: nat, batch: seq<nat>)
    requires |bitmap| == 0x2000
  {
    cindex <= i <= MAX_INDEX && batch + EnabledFrom(bitmap, i) == EnabledFrom(bitmap, cindex)
  }

  lemma BatchGrown(bitmap: seq<byte>, cindex: nat, i: nat, batch: seq<nat>)
    requires |bitmap| == 0x2000 && BatchUpTo(bitmap, cindex, i, batch) && i < MAX_INDEX
    ensures BatchUpTo(bitmap, cindex, i + 1, if Enabled(bitmap, i) then batch + [i] else batch)
  {
    hide Enabled;
    var rest := EnabledFrom(bitmap, i + 1);
    assert batch + ([i] + rest) == (batch + [i]) + rest;
    assert [] + rest == rest;
  }

  lemma BatchAnnounced(m: InstallData, at: nat, v: View, run: Run, i: nat, batch: seq<nat>)
    requires Committed(m, at, v, run) && |m.bitmap| == 0x2000 && BatchUpTo(m.bitmap, m.cindex, i, batch)
    requires 0 < |batch| <= 64 && (|batch| == 64 || i == MAX_INDEX)
    ensures FlagsAgree(m.(batchSize := |batch|), Apply(v, CreateContexts(batch, false)))
    ensures Inv(m.(batchSize := |batch|), at, Apply(v, CreateContexts(batch, true)), run)
  {
    hide Enabled, EnabledBelow, Align64, Le32, GoodHeader, AllBegun, CommitsWhole;
    var m1, v1 := m.(batchSize := |batch|), Apply(v, CreateContexts(batch, true));
    assert batch[..0] + [] == [] && batch[0..] == batch;
    assert batch <= EnabledFrom(m.bitmap, m.cindex);
    assert i == MAX_INDEX ==> batch + [] == batch == EnabledFrom(m.bitmap, m.cindex);
    assert BatchInv(m1, v1);
    assert DataInv(m1, at, v1, run);
    assert Clean(m.bitmap, run) ==> ExactInv(m1, at, v1, run);
  }

  /** Looking for the next enabled content: nothing is being imported, and unless no content is
      left a batch has been set up where one is needed. */
  ghost predicate Searching(m: InstallData, at: nat, v: View, run: Run) {
    // compared with true so that the verifier handles it as one fact
    (&& m.state == Contents && !m.importingContent && |m.bitmap| == 0x2000 && m.cindex <= MAX_INDEX
     && if m.isDlc && m.numImported >= 1 && EnabledFrom(m.bitmap, m.cindex) == [] && m.batchSize == 0
        then Committed(m, at, v, run)
        else Inv(m, at, v, run) && !CommitNeeded(m)) == true
  }

  lemma BatchSearches(m: InstallData, at: nat, v: View, run: Run, i: nat, batch: seq<nat>)
    requires Committed(m, at, v, run) && |m.bitmap| == 0x2000 && BatchUpTo(m.bitmap, m.cindex, i, batch)
    requires 0 < |batch| <= 64 && (|batch| == 64 || i == MAX_INDEX)
    ensures Searching(m.(batchSize := |batch|), at, Apply(v, CreateContexts(batch, true)), run)
  {
    hide Inv, Enabled, EnabledFrom, EnabledBelow, Align64, Le32, GoodHeader, AllBegun, CommitsWhole, DataInv;
    CommittedNow(m, at, v, run);
    BatchAnnounced(m, at, v, run, i, batch);
  }

  lemma BatchEmpty(m: InstallData, at: nat, v: View, run: Run, i: nat)
    requires Committed(m, at, v, run) && |m.bitmap| == 0x2000 && BatchUpTo(m.bitmap, m.cindex, i, []) && i == MAX_INDEX
    ensures Searching(m, at, v, run)
  {
    hide Enabled, EnabledBelow, Align64, Le32, GoodHeader, AllBegun, CommitsWhole;
  }

  /** Downloadable content past its first content has a batch, or has just been committed. */
  lemma SearchStarts(m: InstallData, at: nat, v: View, run: Run)
    requires m.state == Contents && Inv(m, at, v, run) && !CommitNeeded(m) && !m.importingContent
    ensures Searching(m, at, v, run) && !(m.isDlc && m.numImported >= 1 && m.batchSize == 0)
  {
    hide Enabled, EnabledFrom, Align64, Le32, GoodHeader, AllBegun, CommitsWhole, DataInv;
  }

  lemma CommittedNow(m: InstallData, at: nat, v: View, run: Run)
    requires Committed(m, at, v, run)
    ensures |m.bitmap| == 0x2000 && m.cindex <= MAX_INDEX && m.batchSize == 0 && m.isDlc && m.numImported >= 1
    ensures !m.importingContent && FlagsAgree(m, v)
  {
    hide Enabled, EnabledFrom, EnabledBelow, Align64, Le32, GoodHeader, AllBegun, CommitsWhole, DataInv;
  }

  lemma SearchingNow(m: InstallData, at: nat, v: View, run: Run)
    requires Searching(m, at, v, run)
    ensures m.state == Contents && !m.importingContent && |m.bitmap| == 0x2000 && m.cindex <= MAX_INDEX
  {
    hide Inv, Committed;
  }

  lemma DisabledSkipped(bitmap: seq<byte>, i: nat)
    requires |bitmap| == 0x2000 && i < MAX_INDEX
    ensures EnabledBelow(bitmap, i + 1) == EnabledBelow(bitmap, i) + if Enabled(bitmap, i) then [i] else []
    ensures EnabledFrom(bitmap, i) == (if Enabled(bitmap, i) then [i] else []) + EnabledFrom(bitmap, i + 1)
  {
  }

  lemma CoreNext(m: InstallData, at: nat, v: View, run: Run)
    requires |m.bitmap| == 0x2000 && m.cindex < MAX_INDEX && !Enabled(m.bitmap, m.cindex) && !m.importingContent
    requires ContentsCore(m, at, v, run)
    ensures ContentsCore(m.(cindex := m.cindex + 1), at, v, run) == true
  {
    hide Enabled, EnabledBelow, EnabledFrom, Align64, Le32, GoodHeader, Chained, ContentsEnd, CiaFormat.Contents;
    hide HeadRead, TicketDone, TmdDone, Clean;
    DisabledSkipped(m.bitmap, m.cindex);
    assert EnabledBelow(m.bitmap, m.cindex) + [] == EnabledBelow(m.bitmap, m.cindex);
    KeptParts(m, m.(cindex := m.cindex + 1), at, v, run);
  }

  /** What the content index does not bear on. */
  lemma KeptParts(m: InstallData, m1: InstallData, at: nat, v: View, run: Run)
    requires m1 == m.(cindex := m1.cindex)
    ensures HeadRead(m, run.file, at) == HeadRead(m1, run.file, at)
    ensures HeadRead(m, run.file, at) ==>
              && (TicketDone(m, run.file, at, v) == TicketDone(m1, run.file, at, v))
              && (TmdDone(m, at, v, run) == TmdDone(m1, at, v, run))
  {
    hide Align64, Le32, Enabled;
  }

  lemma BatchNext(m: InstallData, v: View)
    requires |m.bitmap| == 0x2000 && m.cindex < MAX_INDEX && !Enabled(m.bitmap, m.cindex) && !m.importingContent
    requires BatchInv(m, v)
    ensures BatchInv(m.(cindex := m.cindex + 1), v) == true
  {
    hide Enabled, EnabledBelow, EnabledFrom, AllBegun, CommitsWhole;
    DisabledSkipped(m.bitmap, m.cindex);
    assert [] + EnabledFrom(m.bitmap, m.cindex + 1) == EnabledFrom(m.bitmap, m.cindex + 1);
  }

  lemma SearchNext(m: InstallData, at: nat, v: View, run: Run)
    requires Searching(m, at, v, run) && |m.bitmap| == 0x2000 && m.cindex < MAX_INDEX && !Enabled(m.bitmap, m.cindex)
    ensures Searching(m.(cindex := m.cindex + 1), at, v, run)
  {
    hide ContentsCore, BatchInv, FlagsAgree, GoodInput, Enabled, EnabledFrom, AllBegun, CommitsWhole;
    SearchingNow(m, at, v, run);
    DisabledSkipped(m.bitmap, m.cindex);
    assert [] + EnabledFrom(m.bitmap, m.cindex + 1) == EnabledFrom(m.bitmap, m.cindex + 1);
    CoreNext(m, at, v, run);
    if Inv(m, at, v, run) {
      BatchNext(m, v);
    }
    assert FlagsAgree(m.(cindex := m.cindex + 1), v) == FlagsAgree(m, v) by { SameFlags(m, m.cindex + 1, v); }
  }

  lemma SameFlags(m: InstallData, cindex: nat, v: View)
    ensures FlagsAgree(m.(cindex := cindex), v) == FlagsAgree(m, v)
  {
  }

  lemma CoreFinal(m: InstallData, at: nat, v: View, run: Run)
    requires ContentsCore(m, at, v, run) && m.state == Contents && !m.importingContent
    ensures ContentsCore(m.(state := Finalize), at, v, run) == true
    ensures FlagsAgree(m.(state := Finalize), v) == FlagsAgree(m, v)
  {
    hide Enabled, EnabledBelow, EnabledFrom, Align64, Le32, GoodHeader, Chained, ContentsEnd, CiaFormat.Contents, Clean;
  }

  lemma BatchFinal(m: InstallData, v: View)
    requires |m.bitmap| == 0x2000 && m.cindex == MAX_INDEX && m.state == Contents && !m.importingContent
    requires || BatchInv(m, v)
             || (&& CommitsInv(m, v) && m.numBatch == 0 == m.batchSize
                 && v.commits != [] && v.batch == [] && v.begun == [])
    ensures BatchInv(m.(state := Finalize), v) == true
  {
    hide Enabled, AllBegun, CommitsWhole;
  }

  lemma SearchedAll(m: InstallData, at: nat, v: View, run: Run)
    requires Searching(m, at, v, run) && m.cindex == MAX_INDEX && m.conStart <= at
    requires |m.bitmap| == 0x2000 && (at < |run.file| || EnabledBelow(m.bitmap, MAX_INDEX) == [])
    ensures Inv(m.(state := Finalize), at, v, run)
  {
    hide ContentsCore, BatchInv, CommitsInv, FlagsAgree, GoodInput, Enabled, EnabledFrom;
    SearchingNow(m, at, v, run);
    CoreFinal(m, at, v, run);
    BatchFinal(m, v);
    EndNow(m, at, v, run);
  }

  lemma EndNow(m: InstallData, at: nat, v: View, run: Run)
    requires ContentsCore(m, at, v, run) && m.state == Contents && !m.importingContent && m.cindex == MAX_INDEX
    requires m.conStart <= at && (at < |run.file| || EnabledBelow(m.bitmap, MAX_INDEX) == [])
    ensures |m.header| == HEADER_SIZE && EndReached(m.(state := Finalize), at, run) == true
  {
    hide Enabled, EnabledBelow, Align64, Le32, Chained, ContentsEnd, CiaFormat.Contents, Clean, TmdEnd;
  }

  /** No content has been installed so far. */
  predicate NoneDone(m: InstallData) {
    |m.bitmap| == 0x2000 && m.cindex <= MAX_INDEX && EnabledBelow(m.bitmap, m.cindex) == []
  }

  lemma NoneDoneNext(m: InstallData)
    requires |m.bitmap| == 0x2000 && m.cindex < MAX_INDEX && !Enabled(m.bitmap, m.cindex)
    ensures NoneDone(m.(cindex := m.cindex + 1)) == NoneDone(m)
  {
    hide Enabled;
    assert EnabledBelow(m.bitmap, m.cindex) + [] == EnabledBelow(m.bitmap, m.cindex);
  }

  lemma NoneDoneAtAll(m: InstallData)
    requires NoneDone(m) && m.cindex == MAX_INDEX
    ensures EnabledBelow(m.bitmap, MAX_INDEX) == []
  {
    hide EnabledBelow;
  }

  /** Padding is skipped only in front of an open content, or of the first one. */
  lemma PaddingNow(m: InstallData, at: nat, v: View, run: Run)
    requires m.state == Contents && Inv(m, at, v, run)
    ensures at < m.conStart ==> m.importingContent || NoneDone(m)
  {
    hide Enabled, EnabledBelow, EnabledFrom, Align64, Le32, GoodHeader, Chained, ContentsEnd, CiaFormat.Contents;
    hide BatchInv;
  }

  /** The facts to show after a step that touches neither the header parts nor the flags of
      ticket, title and TMD. */
  lemma Assemble(m: InstallData, at: nat, v: View, run: Run, m1: InstallData, to: nat, v1: View, run1: Run)
    requires m.state == Contents && Inv(m, at, v, run)
    requires m1 == m.(importingContent := m1.importingContent, conStart := m1.conStart, conEnd := m1.conEnd,
                      misalign := m1.misalign, numImported := m1.numImported, numBatch := m1.numBatch,
                      batchSize := m1.batchSize, cindex := m1.cindex)
    requires FlagsAgree(m1, v1) && !v1.failed && v1.ticketData == v.ticketData && v1.tmdData == v.tmdData
    requires at <= to <= |run.file| && |m1.misalign| < 16
    requires |m.bitmap| == 0x2000 && m1.cindex <= MAX_INDEX
    requires run1 == run.(leads := run1.leads) && run.leads != [] && run1.leads != [] && run1.leads[0] == run.leads[0]
    requires IndexInv(m1, v1) == true && BatchInv(m1, v1) == true
    requires GoodHeader(m1.header) == true && DataInv(m1, to, v1, run1) == true
    requires Clean(m.bitmap, run) ==> ExactInv(m1, to, v1, run1) == true
    ensures Inv(m1, to, v1, run1)
  {
    hide Enabled, EnabledBelow, EnabledFrom, Align64, Le32, GoodHeader, DataInv, ExactInv, BatchInv, IndexInv;
    hide BlockSizes;
  }

  /** What is known of the open or the next content. */
  lemma DataNow(m: InstallData, at: nat, v: View, run: Run)
    requires m.state == Contents && Inv(m, at, v, run)
    ensures |m.bitmap| == 0x2000 && m.cindex <= MAX_INDEX && IndexInv(m, v) && GoodHeader(m.header) && at <= |run.file|
    ensures DataInv(m, at, v, run) && run.leads != [] && |m.misalign| < 16
    ensures Clean(m.bitmap, run) ==> ExactInv(m, at, v, run)
  {
    hide BatchInv, Clean, FlagsAgree, GoodInput, TicketDone, TmdDone;
    hide Enabled, EnabledBelow, ContentsEnd, CiaFormat.Contents, Align64, Le32, OpenContent;
  }

  function Begun(m: InstallData, at: nat, size: nat): InstallData {
    m.(importingContent := true, conStart := Align64(at), conEnd := Align64(at) + size)
  }

  lemma SearchFound(m: InstallData, at: nat, v: View, run: Run)
    requires Searching(m, at, v, run) && |m.bitmap| == 0x2000 && m.cindex < MAX_INDEX && Enabled(m.bitmap, m.cindex)
    ensures Inv(m, at, v, run) && !CommitNeeded(m)
    ensures FlagsAgree(m, Apply(v, ContentBegin(m.cindex, false)))
    ensures FlagsAgree(m.(importingContent := true),
                       Apply(Apply(v, ContentBegin(m.cindex, true)), GetContext(m.cindex, false)))
  {
    hide Enabled, EnabledBelow, EnabledFrom, Align64, Le32, GoodHeader, AllBegun, CommitsWhole;
    DisabledSkipped(m.bitmap, m.cindex);
  }

  lemma BegunBatch(m: InstallData, v: View, v1: View, at: nat, size: nat)
    requires |m.bitmap| == 0x2000 && m.cindex < MAX_INDEX && Enabled(m.bitmap, m.cindex)
    requires m.state == Contents && !m.importingContent && IndexInv(m, v) && BatchInv(m, v) && !CommitNeeded(m)
    requires v1.commits == v.commits && v1.batch == v.batch
    requires v1.everBegun == v.everBegun + [m.cindex] && v1.begun == v.begun + [m.cindex]
    ensures BatchInv(Begun(m, at, size), v1)
  {
    hide Enabled, Align64, AllBegun, CommitsWhole;
    var done := EnabledBelow(m.bitmap, m.cindex);
    assert done + [] == done && v.batch[..m.numBatch] + [] == v.batch[..m.numBatch];
    assert AllBegun(v.commits) + (v.begun + [m.cindex]) == (AllBegun(v.commits) + v.begun) + [m.cindex];
  }

  lemma BegunData(m: InstallData, at: nat, v: View, run: Run, v1: View)
    requires GoodHeader(m.header) && IndexInv(m, v) && at <= |run.file| && DataInv(m, at, v, run)
    requires m.state == Contents && !m.importingContent && m.conStart <= at
    requires m.cindex < MAX_INDEX && v1.installed == v.installed && v1.current == Content(m.cindex, [])
    requires IndexInv(Begun(m, at, run.sizeOf(m.cindex) % U32_LIMIT), v1)
    ensures DataInv(Begun(m, at, run.sizeOf(m.cindex) % U32_LIMIT), at, v1, run)
  {
    hide Enabled, EnabledBelow, ContentsEnd, CiaFormat.Contents, TmdEnd, Chained;
    var done := EnabledBelow(m.bitmap, m.cindex);
    assert [] + m.misalign == m.misalign + run.file[at..at];
    if done == [] {
      ContentsEndNone(TmdEnd(m.header), run.sizeOf);
    }
  }

  lemma BegunExact(m: InstallData, at: nat, v: View, run: Run, v1: View)
    requires GoodHeader(m.header) && IndexInv(m, v) && at <= |run.file| && DataInv(m, at, v, run) && run.leads != []
    requires !m.importingContent && m.cindex < MAX_INDEX && ExactInv(m, at, v, run) && v1.blocksOnly == v.blocksOnly
    ensures ExactInv(Begun(m, at, run.sizeOf(m.cindex) % U32_LIMIT), at, v1, run)
  {
    hide Enabled, EnabledBelow, ContentsEnd, CiaFormat.Contents, TmdEnd, Chained;
    assert m.misalign == [];
  }

  lemma ContentsEndNone(base: nat, sizeOf: nat -> nat)
    ensures ContentsEnd(base, [], sizeOf) == base
  {
  }

  /** The flags and the data through content begin and the query for its size. */
  lemma BegunCalls(m: InstallData, v: View, at: nat, size: nat)
    requires FlagsAgree(m, v) && !v.failed
    requires m.importingTitle && !m.importingTmd && !m.importingTicket && !m.importingContent
    ensures var v1 := Apply(Apply(v, ContentBegin(m.cindex, true)), GetContext(m.cindex, true));
            && v1 == v.(log := v1.log, legal := v1.legal, content := true, current := Content(m.cindex, []),
                        everBegun := v.everBegun + [m.cindex], begun := v.begun + [m.cindex])
            && FlagsAgree(Begun(m, at, size), v1)
  {
  }

  lemma BegunIndex(m: InstallData, v: View, v1: View, at: nat, size: nat)
    requires |m.bitmap| == 0x2000 && m.cindex < MAX_INDEX && Enabled(m.bitmap, m.cindex)
    requires !m.importingContent && IndexInv(m, v) && size < U32_LIMIT
    requires v1.everBegun == v.everBegun + [m.cindex] && v1.current.index == m.cindex
    ensures IndexInv(Begun(m, at, size), v1)
  {
    hide Enabled, EnabledBelow, Align64;
    assert EnabledBelow(m.bitmap, m.cindex) + [] == EnabledBelow(m.bitmap, m.cindex);
  }

  lemma ContentBegun(m: InstallData, at: nat, v: View, run: Run)
    requires m.state == Contents && Inv(m, at, v, run) && !CommitNeeded(m) && !m.importingContent
    requires |m.bitmap| == 0x2000 && m.cindex < MAX_INDEX && Enabled(m.bitmap, m.cindex) && m.conStart <= at
    ensures Inv(Begun(m, at, run.sizeOf(m.cindex) % U32_LIMIT), at,
                Apply(Apply(v, ContentBegin(m.cindex, true)), GetContext(m.cindex, true)), run)
  {
    hide Inv, IndexInv, BatchInv, DataInv, ExactInv, Clean, FlagsAgree, CommitNeeded, Apply, Enabled, EnabledBelow;
    hide Align64, Le32, GoodHeader;
    var size := run.sizeOf(m.cindex) % U32_LIMIT;
    var m1, v1 := Begun(m, at, size), Apply(Apply(v, ContentBegin(m.cindex, true)), GetContext(m.cindex, true));
    InvFlags(m, at, v, run);
    IndicesNow(m, at, v, run);
    BegunCalls(m, v, at, size);
    BegunIndex(m, v, v1, at, size);
    DataNow(m, at, v, run);
    BegunBatch(m, v, v1, at, size);
    BegunData(m, at, v, run, v1);
    if Clean(m.bitmap, run) {
      BegunExact(m, at, v, run, v1);
    }
    Assemble(m, at, v, run, m1, at, v1, run);
  }

  // The bytes of the content being imported.

  /** The same content is being imported. */
  ghost predicate SameContent(m: InstallData, m1: InstallData) {
    && m1.state == m.state && m1.importingContent == m.importingContent && m1.cindex == m.cindex
    && m1.conStart == m.conStart && m1.conEnd == m.conEnd
  }

  /** The bytes of the open content, and in a clean run how they stand to its blocks. */
  lemma OpenNow(m: InstallData, at: nat, v: View, run: Run)
    requires m.state == Contents && Inv(m, at, v, run) && m.importingContent
    ensures |m.bitmap| == 0x2000 && at <= |run.file| && run.leads != [] && OpenContent(m, at, v, Lead(run), run.file)
    ensures Clean(m.bitmap, run) ==> Fitting(m, at) && v.blocksOnly
  {
    hide Inv, StateInv, OpenContent, Chained, Enabled, EnabledBelow, Align64, ContentsEnd, CiaFormat.Contents;
    DataNow(m, at, v, run);
    WholeBlocks(run.sizeOf(m.cindex));
  }

  /** The offset is inside the open content, which is a whole number of blocks, and what is held
      back is the block that has been started. */
  predicate Fitting(m: InstallData, at: nat) {
    && at <= m.conEnd && m.conStart <= m.conEnd && (m.conEnd - m.conStart) % 16 == 0
    && (m.conStart <= at ==> |m.misalign| == (at - m.conStart) % 16)
  }

  lemma WholeBlocks(size: nat)
    ensures size % 16 == 0 ==> size % U32_LIMIT % 16 == 0
  {
  }

  /** A step inside the content that keeps its bytes in order keeps the invariant. */
  lemma OpenMoved(m: InstallData, at: nat, v: View, run: Run, held: seq<byte>, to: nat, v1: View)
    requires m.state == Contents && Inv(m, at, v, run) && m.importingContent && run.leads != [] && |m.bitmap| == 0x2000
    requires at <= to <= |run.file| && |held| < 16
    requires v1 == v.(log := v1.log, legal := v1.legal, current := v1.current, blocksOnly := v1.blocksOnly)
    requires FlagsAgree(m, v1) && v1.current.index == v.current.index
    requires OpenContent(m.(misalign := held), to, v1, Lead(run), run.file)
    requires Clean(m.bitmap, run) ==> v1.blocksOnly && Fitting(m.(misalign := held), to)
    ensures Inv(m.(misalign := held), to, v1, run)
  {
    hide Enabled, EnabledBelow, EnabledFrom, Align64, Le32, AllBegun, CommitsWhole, Inv, OpenContent, Clean, FlagsAgree;
    hide ContentsEnd, CiaFormat.Contents, Chained, BatchInv;
    var m1 := m.(misalign := held);
    DataNow(m, at, v, run);
    InvFlags(m, at, v, run);
    IndicesNow(m, at, v, run);
    SameBatch(m, v, m1, v1);
    Assemble(m, at, v, run, m1, to, v1, run);
  }

  lemma SameBatch(m: InstallData, v: View, m1: InstallData, v1: View)
    requires |m.bitmap| == 0x2000 && m.cindex <= MAX_INDEX && BatchInv(m, v)
    requires m1 == m.(misalign := m1.misalign)
    requires v1 == v.(log := v1.log, legal := v1.legal, current := v1.current, blocksOnly := v1.blocksOnly)
    ensures BatchInv(m1, v1)
    ensures FlagsAgree(m, v1) ==> FlagsAgree(m1, v1)
  {
    hide Enabled, EnabledFrom, AllBegun, CommitsWhole;
  }

  lemma OpenCompleted(m: InstallData, at: nat, v: View, lead: seq<byte>, file: seq<byte>, d: seq<byte>, v1: View)
    requires at + |d| <= |file| && OpenContent(m, at, v, lead, file) && m.conStart <= at && |m.misalign| < 16
    requires m.misalign != [] && |m.misalign| + |d| == 16 && d == file[at..at + |d|]
    requires v1.current.data == v.current.data + (m.misalign + d)
    ensures OpenContent(m.(misalign := []), at + |d|, v1, lead, file)
    ensures Fitting(m, at) ==> Fitting(m.(misalign := []), at + |d|)
  {
    SlicesMeet(file, m.conStart, at, at + |d|);
    assert v1.current.data + [] == (v.current.data + m.misalign) + d;
    assert (lead + file[m.conStart..at]) + d == lead + (file[m.conStart..at] + d);
  }

  lemma OpenHeldBack(m: InstallData, at: nat, v: View, lead: seq<byte>, file: seq<byte>, d: seq<byte>)
    requires at + |d| <= |file| && OpenContent(m, at, v, lead, file) && m.conStart <= at
    requires |m.misalign| + |d| < 16 && d == file[at..at + |d|]
    requires m.misalign == [] && at <= m.conEnd ==> at + |d| <= m.conEnd
    ensures OpenContent(m.(misalign := m.misalign + d), at + |d|, v, lead, file)
    ensures Fitting(m, at) ==> Fitting(m.(misalign := m.misalign + d), at + |d|)
  {
    SlicesMeet(file, m.conStart, at, at + |d|);
    assert v.current.data + (m.misalign + d) == (v.current.data + m.misalign) + d;
    assert (lead + file[m.conStart..at]) + d == lead + (file[m.conStart..at] + d);
  }

  lemma OpenWritten(m: InstallData, at: nat, v: View, lead: seq<byte>, file: seq<byte>, n: nat, v1: View)
    requires at + n <= |file| && OpenContent(m, at, v, lead, file) && m.conStart <= at && m.misalign == []
    requires at <= m.conEnd ==> at + n == m.conEnd || (n % 16 == 0 && at + n <= m.conEnd)
    requires v1.current.data == v.current.data + file[at..at + n]
    ensures OpenContent(m, at + n, v1, lead, file)
    ensures Fitting(m, at) ==> Fitting(m, at + n) && n % 16 == 0
  {
    hide Fitting;
    WrittenFits(m, at, n);
    SlicesMeet(file, m.conStart, at, at + n);
    assert v1.current.data + [] == (v.current.data + []) + file[at..at + n];
    assert (lead + file[m.conStart..at]) + file[at..at + n] == lead + (file[m.conStart..at] + file[at..at + n]);
  }

  lemma WrittenFits(m: InstallData, at: nat, n: nat)
    requires m.conStart <= at && m.misalign == []
    requires at <= m.conEnd ==> at + n == m.conEnd || (n % 16 == 0 && at + n <= m.conEnd)
    ensures Fitting(m, at) ==> Fitting(m, at + n) && n % 16 == 0
  {
  }

  lemma WriteFlags(m: InstallData, at: nat, v: View, run: Run, d: seq<byte>)
    requires Inv(m, at, v, run) && m.importingContent
    ensures FlagsAgree(m, Apply(v, ContentWrite(d, false))) && FlagsAgree(m, Apply(v, ContentWrite(d, true)))
  {
    hide StateInv;
  }

  lemma ContentBlockCompleted(m: InstallData, at: nat, v: View, run: Run, d: seq<byte>)
    requires m.state == Contents && Inv(m, at, v, run) && m.importingContent && m.conStart <= at && |m.misalign| < 16
    requires m.misalign != [] && |m.misalign| + |d| == 16 && at + |d| <= |run.file| && d == run.file[at..at + |d|]
    ensures FlagsAgree(m, Apply(v, ContentWrite(m.misalign + d, false)))
    ensures Inv(m.(misalign := []), at + |d|, Apply(v, ContentWrite(m.misalign + d, true)), run)
  {
    hide Inv, StateInv, OpenContent, FlagsAgree, Fitting, Clean;
    var v1 := Apply(v, ContentWrite(m.misalign + d, true));
    WriteFlags(m, at, v, run, m.misalign + d);
    InvFlags(m, at, v, run);
    OpenNow(m, at, v, run);
    OpenCompleted(m, at, v, Lead(run), run.file, d, v1);
    OpenMoved(m, at, v, run, [], at + |d|, v1);
  }

  lemma ContentHeldBack(m: InstallData, at: nat, v: View, run: Run, d: seq<byte>)
    requires m.state == Contents && Inv(m, at, v, run) && m.importingContent && m.conStart <= at
    requires |m.misalign| + |d| < 16 && at + |d| <= |run.file| && d == run.file[at..at + |d|]
    requires m.misalign == [] && at <= m.conEnd ==> at + |d| <= m.conEnd
    ensures Inv(m.(misalign := m.misalign + d), at + |d|, v, run)
  {
    hide Inv, StateInv, OpenContent, Fitting, Clean;
    OpenNow(m, at, v, run);
    OpenHeldBack(m, at, v, Lead(run), run.file, d);
    InvFlags(m, at, v, run);
    OpenMoved(m, at, v, run, m.misalign + d, at + |d|, v);
  }

  lemma ContentWritten(m: InstallData, at: nat, v: View, run: Run, n: nat)
    requires m.state == Contents && Inv(m, at, v, run) && m.importingContent && m.conStart <= at
    requires m.misalign == [] && 0 < n && at + n <= |run.file|
    requires at <= m.conEnd ==> at + n == m.conEnd || (n % 16 == 0 && at + n <= m.conEnd)
    ensures FlagsAgree(m, Apply(v, ContentWrite(run.file[at..at + n], false)))
    ensures Inv(m, at + n, Apply(v, ContentWrite(run.file[at..at + n], true)), run)
  {
    hide Inv, StateInv, FlagsAgree, OpenContent, Fitting, Clean;
    var d := run.file[at..at + n];
    var v1 := Apply(v, ContentWrite(d, true));
    WriteFlags(m, at, v, run, d);
    InvFlags(m, at, v, run);
    assert m.(misalign := []) == m;
    OpenNow(m, at, v, run);
    OpenWritten(m, at, v, Lead(run), run.file, n, v1);
    OpenMoved(m, at, v, run, [], at + n, v1);
  }

  /** The state after a content has been finished; content 0 of downloadable content is not
      part of a batch. */
  function AfterContent(m: InstallData): InstallData {
    m.(numBatch := if m.isDlc && m.numImported != 0 then m.numBatch + 1 else m.numBatch,
       numImported := m.numImported + 1, cindex := m.cindex + 1, importingContent := false)
  }

  lemma FinishedIndex(m: InstallData, v: View, v1: View)
    requires |m.bitmap| == 0x2000 && m.cindex < MAX_INDEX && m.importingContent && IndexInv(m, v)
    requires v1.everBegun == v.everBegun
    ensures IndexInv(AfterContent(m), v1)
  {
    hide Enabled, EnabledBelow;
    DisabledSkipped(m.bitmap, m.cindex);
    assert v.everBegun + [] == v.everBegun;
  }

  lemma FinishedBatch(m: InstallData, v: View, v1: View)
    requires |m.bitmap| == 0x2000 && m.cindex < MAX_INDEX && Enabled(m.bitmap, m.cindex)
    requires m.state == Contents && m.importingContent && BatchInv(m, v)
    requires m.isDlc && m.numImported != 0 ==> v.commits != []
    requires v1.everBegun == v.everBegun && v1.begun == v.begun && v1.batch == v.batch && v1.commits == v.commits
    ensures BatchInv(AfterContent(m), v1)
  {
    hide Enabled, EnabledBelow, EnabledFrom, AllBegun, CommitsWhole;
    DisabledSkipped(m.bitmap, m.cindex);
    if v.commits != [] {
      FinishedInBatch(v.batch, m.numBatch, m.cindex, EnabledFrom(m.bitmap, m.cindex + 1));
    }
  }

  /** The content just finished was the next one of its batch. */
  lemma FinishedInBatch(batch: seq<nat>, k: nat, i: nat, rest: seq<nat>)
    requires k < |batch| && batch[k..] <= [i] + rest
    ensures batch[..k] + [i] == batch[..k + 1] + [] && batch[k + 1..] <= rest
    ensures batch[k..] == [i] + rest ==> batch[k + 1..] == rest
  {
    assert batch[k..][0] == i;
    assert batch[k..][1..] == batch[k + 1..] && ([i] + rest)[1..] == rest;
  }

  lemma ChainedSnoc(installed: seq<Content>, leads: seq<seq<byte>>, regions: seq<Content>,
                    c: Content, held: seq<byte>, r: Content)
    requires Chained(installed, leads, regions) && |held| < 16
    requires c.index == r.index && c.data + held == leads[|leads| - 1] + r.data
    ensures Chained(installed + [c], leads + [held], regions + [r])
  {
  }

  /** A content that is finished leaves the bytes held back to the next one. */
  function LeadLeft(m: InstallData, run: Run): Run {
    run.(leads := run.leads + [m.misalign])
  }

  lemma FinishedData(m: InstallData, at: nat, v: View, run: Run, v1: View)
    requires m.state == Contents && m.importingContent && m.conStart <= at == m.conEnd
    requires at <= |run.file| && |m.misalign| < 16
    requires GoodHeader(m.header) && IndexInv(m, v) && DataInv(m, at, v, run) && IndexInv(AfterContent(m), v1)
    requires v1.installed == v.installed + [v.current]
    ensures DataInv(AfterContent(m), at, v1, LeadLeft(m, run))
  {
    hide Enabled, EnabledBelow, Align64, ContentsEnd, CiaFormat.Contents, TmdEnd, Chained;
    DisabledSkipped(m.bitmap, m.cindex);
    var base, done := TmdEnd(m.header), EnabledBelow(m.bitmap, m.cindex);
    ContentsEndSnoc(base, done, m.cindex, run.sizeOf);
    ContentsSnoc(run.file, base, done, m.cindex, run.sizeOf);
    ChainedNonempty(v.installed, run.leads, CiaFormat.Contents(run.file, base, done, run.sizeOf));
    ChainedSnoc(v.installed, run.leads, CiaFormat.Contents(run.file, base, done, run.sizeOf), v.current, m.misalign,
                Content(m.cindex, run.file[m.conStart..m.conEnd]));
  }

  lemma ChainedNonempty(installed: seq<Content>, leads: seq<seq<byte>>, regions: seq<Content>)
    requires Chained(installed, leads, regions)
    ensures leads != []
  {
  }

  /** With nothing held back between them the contents installed are their regions. */
  lemma ChainedExact(installed: seq<Content>, leads: seq<seq<byte>>, regions: seq<Content>)
    requires Chained(installed, leads, regions) && forall k :: 0 <= k < |leads| ==> leads[k] == []
    ensures installed == regions
  {
    forall k | 0 <= k < |regions| ensures installed[k] == regions[k] {
      assert installed[k].data + leads[k + 1] == leads[k] + regions[k].data;
      assert installed[k].data + [] == installed[k].data && [] + regions[k].data == regions[k].data;
    }
  }

  lemma FinishedExact(m: InstallData, at: nat, v: View, run: Run, v1: View)
    requires m.importingContent && m.conStart <= at == m.conEnd && Fitting(m, at) && ExactInv(m, at, v, run)
    requires v1.blocksOnly == v.blocksOnly
    ensures ExactInv(AfterContent(m), at, v1, LeadLeft(m, run))
  {
  }

  /** Of downloadable content, only the first content is finished before any commit. */
  lemma IndexNow(m: InstallData, at: nat, v: View, run: Run)
    requires m.state == Contents && Inv(m, at, v, run) && m.importingContent
    ensures |m.bitmap| == 0x2000 && m.cindex < MAX_INDEX && IndexInv(m, v) && BatchInv(m, v) && at <= |run.file|
    ensures m.isDlc && m.numImported != 0 ==> v.commits != []
    ensures FlagsAgree(AfterContent(m), Apply(v, ContentFinish(true))) && FlagsAgree(m, Apply(v, ContentFinish(false)))
    ensures !v.failed && |m.misalign| < 16
  {
    hide Inv, IndexInv, BatchInv, DataInv, ExactInv, Clean, FlagsAgree, Apply, Enabled, GoodHeader;
    InvFlags(m, at, v, run);
    IndicesNow(m, at, v, run);
    DataNow(m, at, v, run);
    FirstAlone(m, v);
    FinishCalls(m, v);
  }

  lemma FirstAlone(m: InstallData, v: View)
    requires |m.bitmap| == 0x2000 && m.cindex <= MAX_INDEX && IndexInv(m, v) && BatchInv(m, v) && m.importingContent
    ensures m.cindex < MAX_INDEX && (m.isDlc && m.numImported != 0 ==> v.commits != [])
  {
    hide Enabled, EnabledBelow, EnabledFrom, AllBegun, CommitsWhole;
  }

  lemma FinishCalls(m: InstallData, v: View)
    requires FlagsAgree(m, v) && !v.failed && m.importingContent
    ensures FlagsAgree(AfterContent(m), Apply(v, ContentFinish(true))) && FlagsAgree(m, Apply(v, ContentFinish(false)))
  {
  }

  lemma ContentFinished(m: InstallData, at: nat, v: View, run: Run)
    requires m.state == Contents && Inv(m, at, v, run) && m.importingContent && m.conStart <= at == m.conEnd
    ensures FlagsAgree(m, Apply(v, ContentFinish(false)))
    ensures Inv(AfterContent(m), at, Apply(v, ContentFinish(true)), LeadLeft(m, run))
  {
    hide Inv, StateInv, Enabled, EnabledBelow, EnabledFrom, Align64, Le32, AllBegun, CommitsWhole, DataInv, BatchInv;
    hide FlagsAgree;
    hide ExactInv, Fitting, Clean, OpenContent, ContentsEnd, CiaFormat.Contents;
    var v1 := Apply(v, ContentFinish(true));
    IndexNow(m, at, v, run);
    FinishedIndex(m, v, v1);
    FinishedBatch(m, v, v1);
    DataNow(m, at, v, run);
    OpenNow(m, at, v, run);
    FinishedData(m, at, v, run, v1);
    if Clean(m.bitmap, run) {
      FinishedExact(m, at, v, run, v1);
    }
    Assemble(m, at, v, run, AfterContent(m), at, v1, LeadLeft(m, run));
  }

  lemma MetaSkipped(m: InstallData, at: nat, v: View, run: Run, to: nat)
    requires m.state == Finalize && Inv(m, at, v, run) && at <= to <= |run.file|
    ensures Inv(m, to, v, run) && |m.header| == HEADER_SIZE
  {
    hide Enabled, EnabledBelow, EnabledFrom, Align64, Le32, AllBegun, CommitsWhole;
  }

  // A new chunk arrives.

  /** The bytes not yet consumed do not matter. */
  lemma RegionsKept(m: InstallData, file: seq<byte>, at: nat, more: seq<byte>, v: View, run: Run)
    requires HeadRead(m, file, at)
    ensures HeadRead(m, file[..at] + more, at)
    ensures TicketDone(m, file, at, v) ==> TicketDone(m, file[..at] + more, at, v)
    ensures TmdDone(m, at, v, run.(file := file)) ==> TmdDone(m, at, v, run.(file := file[..at] + more))
  {
    hide Align64, Le32;
    Kept(file, at, more, 0, HEADER_SIZE);
    Kept(file, at, more, HEADER_SIZE, INDEX_END);
    var t0, t1, m0, m1 := TicketStart(m.header), TicketEnd(m.header), TmdStart(m.header), TmdEnd(m.header);
    if t1 <= at {
      Kept(file, at, more, t0, t1);
    }
    if m1 <= at {
      Kept(file, at, more, m0, m1);
    }
  }

  lemma Kept(file: seq<byte>, at: nat, more: seq<byte>, a: nat, b: nat)
    requires a <= b <= at <= |file|
    ensures (file[..at] + more)[a..b] == file[a..b]
  {
  }

  lemma CollectingKept(buf: Option<seq<byte>>, size: nat, file: seq<byte>, at: nat, start: nat, more: seq<byte>)
    requires at <= |file|
    ensures Collecting(buf, size, file, at, start) ==> Collecting(buf, size, file[..at] + more, at, start)
    ensures Collected(buf, size, file, at, start) ==> Collected(buf, size, file[..at] + more, at, start)
  {
    if start <= at {
      Kept(file, at, more, start, at);
    }
  }

  lemma DataKept(m: InstallData, at: nat, v: View, run: Run, more: seq<byte>)
    requires GoodHeader(m.header) && IndexInv(m, v) && at <= |run.file| && DataInv(m, at, v, run)
    ensures DataInv(m, at, v, run.(file := run.file[..at] + more))
  {
    hide Enabled, EnabledBelow, Align64, Le32, ContentsEnd, CiaFormat.Contents;
    var base, done := TmdEnd(m.header), EnabledBelow(m.bitmap, m.cindex);
    ContentsMonotone(run.file[..at], run.file[at..], base, done, run.sizeOf);
    assert run.file[..at] + run.file[at..] == run.file;
    ContentsMonotone(run.file[..at], more, base, done, run.sizeOf);
    if m.importingContent && m.conStart <= at {
      Kept(run.file, at, more, m.conStart, at);
    }
  }

  lemma TmdKept(m: InstallData, at: nat, v: View, run: Run, more: seq<byte>)
    requires GoodHeader(m.header) && at <= |run.file| && TmdInv(m, at, v, run)
    ensures TmdInv(m, at, v, run.(file := run.file[..at] + more))
  {
    hide Align64, Le32;
    CollectingKept(m.buf, TMD_HEADER_COPY, run.file, at, TmdStart(m.header), more);
    if TmdStart(m.header) <= at {
      Kept(run.file, at, more, TmdStart(m.header), at);
    }
  }

  lemma TicketKept(m: InstallData, file: seq<byte>, at: nat, v: View, more: seq<byte>)
    requires GoodHeader(m.header) && at <= |file| && TicketInv(m, file, at, v)
    ensures TicketInv(m, file[..at] + more, at, v)
  {
    hide Align64, Le32;
    CollectingKept(m.buf, TICKET_HEADER_SIZE, file, at, TicketStart(m.header), more);
    if TicketStart(m.header) <= at {
      Kept(file, at, more, TicketStart(m.header), at);
    }
  }

  lemma EarlyChunk(m: InstallData, at: nat, v: View, run: Run, more: seq<byte>)
    requires Inv(m, at, v, run) && GoodInput(run.file[..at] + more) && at <= |run.file|
    requires Rank(m.state) < Rank(Contents)
    ensures Inv(m, at, v, run.(file := run.file[..at] + more))
  {
    hide GoodHeader, TicketInv, TmdInv, Collecting, Collected, TicketDone, TmdDone, NoContentsYet, BeforeTmd;
    hide BeforeTicket;
    hide CertSize, TicketStart, TmdStart, FlagsAgree;
    var file := run.file;
    if HEADER_SIZE <= at {
      Kept(file, at, more, 0, HEADER_SIZE);
      Kept(file, at, more, HEADER_SIZE, at);
    }
    Kept(file, at, more, 0, at);
    if Rank(CertChainCopy) <= Rank(m.state) {
      RegionsKept(m, file, at, more, v, run);
      CollectingKept(m.buf, CertSize(m.header), file, at, CERT_START, more);
      CollectingKept(m.buf, TICKET_HEADER_SIZE, file, at, TicketStart(m.header), more);
      CollectingKept(m.buf, TMD_HEADER_COPY, file, at, TmdStart(m.header), more);
    }
    if m.state == Ticket {
      TicketKept(m, file, at, v, more);
    }
    if m.state == Tmd {
      TmdKept(m, at, v, run, more);
    }
  }

  lemma EndKept(m: InstallData, at: nat, v: View, run: Run, more: seq<byte>)
    requires GoodHeader(m.header) && IndexInv(m, v) && at <= |run.file| && DataInv(m, at, v, run) && more != []
    requires m.cindex == MAX_INDEX && EndReached(m, at, run)
    ensures EndReached(m, at, run.(file := run.file[..at] + more)) == true
  {
    hide Enabled, EnabledBelow, Align64, Le32, ContentsEnd, CiaFormat.Contents, Chained;
  }

  lemma LateChunk(m: InstallData, at: nat, v: View, run: Run, more: seq<byte>)
    requires Inv(m, at, v, run) && GoodInput(run.file[..at] + more) && at <= |run.file| && more != []
    requires m.state == Contents || m.state == Finalize
    ensures Inv(m, at, v, run.(file := run.file[..at] + more))
  {
    hide Enabled, EnabledBelow, EnabledFrom, Align64, Le32, GoodHeader, DataInv, BatchInv, EndReached;
    RegionsKept(m, run.file, at, more, v, run);
    DataKept(m, at, v, run, more);
    if m.state == Finalize {
      EndKept(m, at, v, run, more);
    }
  }

  lemma NextChunk(m: InstallData, at: nat, v: View, run: Run, more: seq<byte>)
    requires Inv(m, at, v, run) && at <= |run.file| && GoodInput(run.file[..at] + more) && more != []
    ensures Inv(m, at, v, run.(file := run.file[..at] + more))
  {
    hide Inv, StateInv;
    if m.state == Contents || m.state == Finalize {
      LateChunk(m, at, v, run, more);
    } else {
      EarlyChunk(m, at, v, run, more);
    }
  }
}
