/** What the installer's invariant means for a whole install, and how AM9's log reads. */
module CiaTheorems {
  import opened Bytes
  import opened Am9
  import opened CiaFormat
  import opened CiaInvariant
  import opened CiaSteps
  import opened CiaContentSteps

  // The log of AM9 calls.

  lemma ReplayStep(log: seq<Call>, c: Call)
    ensures Replay(log + [c]) == Apply(Replay(log), c)
  {
    hide Apply;
    assert (log + [c])[..|log + [c]| - 1] == log;
  }

  lemma ApplyFacts(v: View, c: Call)
    ensures Apply(v, c).legal == (v.legal && !v.failed && Allowed(v, c))
    ensures Apply(v, c).failed == (v.failed || !Succeeds(c))
  {
    hide Effect, Allowed, Succeeds;
  }

  /** A legal log has no call after a failed one, and so has each of its prefixes. */
  lemma {:induction false} NothingAfterFailure(log: seq<Call>, i: nat)
    requires Replay(log).legal && i < |log|
    ensures Replay(log[..i]).legal && !Replay(log[..i]).failed && Allowed(Replay(log[..i]), log[i])
    ensures i + 1 < |log| ==> Succeeds(log[i])
  {
    hide Apply, Allowed, Succeeds;
    var init := log[..|log| - 1];
    ApplyFacts(Replay(init), log[|log| - 1]);
    if i < |log| - 1 {
      NothingAfterFailure(init, i);
      assert init[..i] == log[..i] && init[i] == log[i];
      if !Succeeds(log[i]) {
        FailureSticks(init, i);
      }
    }
  }

  lemma {:induction false} FailureSticks(log: seq<Call>, i: nat)
    requires i < |log| && !Succeeds(log[i])
    ensures Replay(log).failed
  {
    hide Apply, Allowed, Succeeds;
    var init := log[..|log| - 1];
    ApplyFacts(Replay(init), log[|log| - 1]);
    if i < |log| - 1 {
      FailureSticks(init, i);
    }
  }

  /** In a legal log a failure is that of the last call. */
  lemma FailedAtEnd(log: seq<Call>)
    requires Replay(log).legal && Replay(log).failed
    ensures log != [] && !Succeeds(log[|log| - 1])
  {
    hide Apply, Allowed, Succeeds;
    if log != [] {
      ApplyFacts(Replay(log[..|log| - 1]), log[|log| - 1]);
    }
  }

  // Which installs a log leaves open, read off the calls themselves.

  datatype Install = TicketInstall | TitleInstall | TmdInstall | ContentInstall

  predicate Begins(c: Call, x: Install) {
    match x
    case TicketInstall => c == TicketBegin(true)
    case TitleInstall => c.TitleBegin? && c.ok
    case TmdInstall => c == TmdBegin(true)
    case ContentInstall => c.ContentBegin? && c.ok
  }

  predicate Ends(c: Call, x: Install) {
    match x
    case TicketInstall => c.TicketFinish? && c.result != NotFinished
    case TitleInstall => c == TitleFinish(true)
    case TmdInstall => c == TmdFinish(true)
    case ContentInstall => c == ContentFinish(true)
  }

  /** A begin has succeeded behind which no end has. */
  predicate Open(log: seq<Call>, x: Install) {
    exists b :: 0 <= b < |log| && Begins(log[b], x) && forall e :: b < e < |log| ==> !Ends(log[e], x)
  }

  function Flag(v: View, x: Install): bool {
    match x
    case TicketInstall => v.ticket
    case TitleInstall => v.title
    case TmdInstall => v.tmd
    case ContentInstall => v.content
  }

  lemma FlagAfter(v: View, c: Call, x: Install)
    ensures Flag(Apply(v, c), x) <==> Begins(c, x) || (Flag(v, x) && !Ends(c, x))
  {
    ApplyFlags(v, c);
    hide Apply;
    SucceedsToMatter(c, x);
    hide Succeeds, Begins, Ends;
  }

  lemma ApplyFlags(v: View, c: Call)
    ensures var ok, v1 := Succeeds(c), Apply(v, c);
            && v1.ticket == ((ok && c.TicketBegin?) || (v.ticket && !(ok && c.TicketFinish?)))
            && v1.title == ((ok && c.TitleBegin?) || (v.title && !(ok && c.TitleFinish?)))
            && v1.tmd == ((ok && c.TmdBegin?) || (v.tmd && !(ok && c.TmdFinish?)))
            && v1.content == ((ok && c.ContentBegin?) || (v.content && !(ok && c.ContentFinish?)))
  {
    hide Allowed, Succeeds, Effect;
    EffectFlags(v.(log := v.log + [c], legal := v.legal && !v.failed && Allowed(v, c)), c);
  }

  lemma EffectFlags(v: View, c: Call)
    ensures Effect(v, c).ticket == (c.TicketBegin? || (v.ticket && !c.TicketFinish?))
    ensures Effect(v, c).title == (c.TitleBegin? || (v.title && !c.TitleFinish?))
    ensures Effect(v, c).tmd == (c.TmdBegin? || (v.tmd && !c.TmdFinish?))
    ensures Effect(v, c).content == (c.ContentBegin? || (v.content && !c.ContentFinish?))
  {
    TicketAndTitle(v, c);
    TmdAndContent(v, c);
    hide Effect;
  }

  lemma TicketAndTitle(v: View, c: Call)
    ensures Effect(v, c).ticket == (c.TicketBegin? || (v.ticket && !c.TicketFinish?))
    ensures Effect(v, c).title == (c.TitleBegin? || (v.title && !c.TitleFinish?))
  {
  }

  lemma TmdAndContent(v: View, c: Call)
    ensures Effect(v, c).tmd == (c.TmdBegin? || (v.tmd && !c.TmdFinish?))
    ensures Effect(v, c).content == (c.ContentBegin? || (v.content && !c.ContentFinish?))
  {
  }

  lemma SucceedsToMatter(c: Call, x: Install)
    ensures Begins(c, x) <==> Succeeds(c) && match x
                                             case TicketInstall => c.TicketBegin?
                                             case TitleInstall => c.TitleBegin?
                                             case TmdInstall => c.TmdBegin?
                                             case ContentInstall => c.ContentBegin?
    ensures Ends(c, x) <==> Succeeds(c) && match x
                                           case TicketInstall => c.TicketFinish?
                                           case TitleInstall => c.TitleFinish?
                                           case TmdInstall => c.TmdFinish?
                                           case ContentInstall => c.ContentFinish?
  {
  }

  lemma OpenAfter(log: seq<Call>, c: Call, x: Install)
    ensures Open(log + [c], x) <==> Begins(c, x) || (Open(log, x) && !Ends(c, x))
  {
    hide Begins, Ends;
    var longer := log + [c];
    if Begins(c, x) {
      assert longer[|log|] == c;
    } else if Open(log, x) && !Ends(c, x) {
      var b :| 0 <= b < |log| && Begins(log[b], x) && forall e :: b < e < |log| ==> !Ends(log[e], x);
      assert longer[b] == log[b] && longer[|log|] == c;
      assert forall e :: b < e < |longer| ==> !Ends(longer[e], x);
    }
    if Open(longer, x) && !Begins(c, x) {
      var b :| 0 <= b < |longer| && Begins(longer[b], x) && forall e :: b < e < |longer| ==> !Ends(longer[e], x);
      assert longer[|log|] == c && b < |log| && log[b] == longer[b];
      assert forall e :: b < e < |log| ==> log[e] == longer[e];
    }
  }

  /** What reading the log back says is open is open. */
  lemma {:induction false} FlagIsOpen(log: seq<Call>, x: Install)
    ensures Flag(Replay(log), x) <==> Open(log, x)
  {
    hide Apply, Begins, Ends, Flag, Open;
    if log == [] {
      NothingOpen(x);
    } else {
      var init, last := log[..|log| - 1], log[|log| - 1];
      FlagIsOpen(init, x);
      FlagAfter(Replay(init), last, x);
      OpenAfter(init, last, x);
      assert init + [last] == log;
    }
  }

  lemma NothingOpen(x: Install)
    ensures !Flag(FRESH, x) && !Open([], x)
  {
  }

  /** The transaction rules, on the log: what has to be open and what must not be for each call. */
  predicate InTurn(log: seq<Call>, c: Call) {
    match c
    case TicketWrite(_, _) => Open(log, TicketInstall)
    case TicketFinish(_) => Open(log, TicketInstall)
    case TmdWrite(_, _) => Open(log, TmdInstall)
    case TmdFinish(_) => Open(log, TmdInstall)
    case ContentWrite(_, _) => Open(log, ContentInstall)
    case ContentFinish(_) => Open(log, ContentInstall)
    case GetContext(_, _) => Open(log, ContentInstall)
    case TmdBegin(_) => Open(log, TitleInstall) && !Open(log, TmdInstall) && !Open(log, ContentInstall)
    case CreateContexts(_, _) => Open(log, TitleInstall) && !Open(log, TmdInstall) && !Open(log, ContentInstall)
    case ContentBegin(_, _) => Open(log, TitleInstall) && !Open(log, TmdInstall) && !Open(log, ContentInstall)
    case TitleFinish(_) => Open(log, TitleInstall) && !Open(log, TmdInstall) && !Open(log, ContentInstall)
    case _ => !Open(log, TicketInstall) && !Open(log, TitleInstall)
  }

  lemma AllowedInTurn(log: seq<Call>, c: Call)
    requires Allowed(Replay(log), c)
    ensures InTurn(log, c)
  {
    hide Replay, Open;
    FlagIsOpen(log, TicketInstall);
    FlagIsOpen(log, TitleInstall);
    FlagIsOpen(log, TmdInstall);
    FlagIsOpen(log, ContentInstall);
  }

  function Written(calls: seq<Call>): seq<byte> {
    if calls == [] then []
    else Written(calls[..|calls| - 1]) + if calls[|calls| - 1].ContentWrite? then calls[|calls| - 1].data else []
  }

  /** The calls that can stand between the begin and the finish of a content. */
  predicate Between(calls: seq<Call>) {
    forall c :: c in calls ==> Succeeds(c) && (c.ContentWrite? || c.GetContext?)
  }

  lemma ContentEffects(v: View, c: Call)
    requires Succeeds(c)
    ensures c.ContentWrite? ==> Apply(v, c).current == Content(v.current.index, v.current.data + c.data)
    ensures c.ContentBegin? ==> Apply(v, c).current == Content(c.index, [])
    ensures c.GetContext? ==> Apply(v, c).current == v.current
    ensures c.ContentWrite? || c.GetContext? || c.ContentBegin? ==> Apply(v, c).installed == v.installed
    ensures c.ContentFinish? ==> Apply(v, c).installed == v.installed + [v.current]
  {
    hide Allowed;
  }

  lemma {:induction false} OpenContentReads(pre: seq<Call>, i: nat, mid: seq<Call>)
    requires Between(mid)
    ensures Replay(pre + [ContentBegin(i, true)] + mid).current == Content(i, Written(mid))
    ensures Replay(pre + [ContentBegin(i, true)] + mid).installed == Replay(pre).installed
  {
    hide Apply, Replay;
    var begun := pre + [ContentBegin(i, true)];
    if mid == [] {
      assert begun + mid == begun;
      ReplayStep(pre, ContentBegin(i, true));
      ContentEffects(Replay(pre), ContentBegin(i, true));
    } else {
      var init, last := mid[..|mid| - 1], mid[|mid| - 1];
      OpenContentReads(pre, i, init);
      assert begun + mid == begun + init + [last];
      ReplayStep(begun + init, last);
      ContentEffects(Replay(begun + init), last);
      assert Written(init) + [] == Written(init);
    }
  }

  /** What AM9 installs for a content is what was written between its begin and its finish. */
  lemma InstalledIsWritten(pre: seq<Call>, i: nat, mid: seq<Call>)
    requires Between(mid)
    ensures Replay(pre + [ContentBegin(i, true)] + mid + [ContentFinish(true)]).installed
         == Replay(pre).installed + [Content(i, Written(mid))]
  {
    hide Apply, Replay, Written, Between;
    var log := pre + [ContentBegin(i, true)] + mid;
    OpenContentReads(pre, i, mid);
    ReplayStep(log, ContentFinish(true));
    ContentEffects(Replay(log), ContentFinish(true));
  }

  // The parts of the file.

  /** The ticket installed is the file's ticket. */
  lemma TicketExact(m: InstallData, at: nat, v: View, run: Run)
    requires Inv(m, at, v, run) && Rank(m.state) >= Rank(TmdHeader)
    ensures INDEX_END <= at <= |run.file| && |m.header| == HEADER_SIZE && m.header == run.file[..HEADER_SIZE]
    ensures TicketStart(m.header) <= TicketEnd(m.header) <= at
    ensures v.ticketData == run.file[TicketStart(m.header)..TicketEnd(m.header)] && !v.ticket
  {
    hide Align64, Le32, Enabled, EnabledBelow, EnabledFrom;
  }

  /** The TMD installed is the file's TMD if and only if every call that began in the middle of
      a TMD block could complete it inside the TMD. */
  lemma TmdExact(m: InstallData, at: nat, v: View, run: Run)
    requires Inv(m, at, v, run) && ContentState(m)
    ensures at <= |run.file| && |m.header| == HEADER_SIZE && TmdStart(m.header) <= TmdEnd(m.header) <= at
    ensures run.intact <==> v.tmdData == run.file[TmdStart(m.header)..TmdEnd(m.header)]
  {
    hide Align64, Le32, Enabled, EnabledBelow, EnabledFrom;
  }

  /** What AM9 has been given of the open content, with the bytes held back, is what was held back when
      it began and then the file's bytes from the content's start to the offset. So the offset accounts
      for every byte exactly when nothing was held back as the content began - for the first content,
      when no TMD byte was held back at the TMD's end. */
  lemma OffsetAccounts(m: InstallData, at: nat, v: View, run: Run)
    requires Inv(m, at, v, run) && m.state == Contents && m.importingContent && m.conStart <= at
    ensures run.leads != [] && at <= |run.file| && v.current.index == m.cindex
    ensures v.current.data + m.misalign == Lead(run) + run.file[m.conStart..at]
    ensures at == m.conStart + |v.current.data| + |m.misalign| <==> Lead(run) == []
    ensures v.installed == [] ==> Lead(run) == run.leads[0]
    ensures |m.bitmap| == 0x2000
    ensures Clean(m.bitmap, run) ==> Lead(run) == [] && at <= m.conEnd && |m.misalign| == (at - m.conStart) % 16
  {
    hide Inv, Align64, Le32, Enabled, EnabledBelow, EnabledFrom, BatchInv, ContentsEnd, CiaFormat.Contents, BlockSizes;
    DataNow(m, at, v, run);
    assert |v.current.data + m.misalign| == |Lead(run) + run.file[m.conStart..at]|;
  }

  /** The indices begun are the enabled ones, ascending and each once, at every moment. */
  lemma BegunAscending(m: InstallData, at: nat, v: View, run: Run)
    requires Inv(m, at, v, run) && ContentState(m)
    ensures |m.bitmap| == 0x2000 && Ascending(v.everBegun)
    ensures forall i :: i in v.everBegun ==> i < MAX_INDEX && Enabled(m.bitmap, i)
    ensures forall i: nat :: i < m.cindex && i < MAX_INDEX && Enabled(m.bitmap, i) ==> i in v.everBegun
  {
    hide Align64, Le32, Enabled, EnabledBelow, EnabledFrom, DataInv, BatchInv;
    EnabledBelowExact(m.bitmap, m.cindex);
    var done := EnabledBelow(m.bitmap, m.cindex);
    var last := if m.importingContent then [m.cindex] else [];
    forall i, j | 0 <= i < j < |done + last| ensures (done + last)[i] < (done + last)[j] {
      assert (done + last)[i] in done;
    }
  }

  /** No enabled index is missing from s. */
  ghost predicate AllEnabledIn(bitmap: seq<byte>, s: seq<nat>)
    requires |bitmap| == 0x2000
  {
    forall c: nat :: c < MAX_INDEX && Enabled(bitmap, c) ==> c in s
  }

  /** What is not among the indices from `at` on has been passed. */
  lemma AllPassed(bitmap: seq<byte>, at: nat, s: seq<nat>)
    requires |bitmap| == 0x2000 && at <= MAX_INDEX
    requires forall c :: c in EnabledBelow(bitmap, at) || c in EnabledFrom(bitmap, at) ==> c in s
    ensures AllEnabledIn(bitmap, s)
  {
    hide Enabled;
    EnabledSplit(bitmap, at);
    EnabledBelowExact(bitmap, MAX_INDEX);
  }

  /** Downloadable content is committed after the first content and then after whole batches: of 64, unless
      nothing is left behind them. The contents begun since are the start of the batch announced last, which
      is one of 64 or has all that is left. */
  lemma CommitsAreBatches(m: InstallData, at: nat, v: View, run: Run)
    requires Inv(m, at, v, run) && ContentState(m)
    ensures CommitsWhole(v.commits) && AllBegun(v.commits) + v.begun == v.everBegun
    ensures if m.isDlc then |v.everBegun| <= 1 || v.commits != [] else v.commits == []
    ensures v.commits != [] ==> v.begun <= v.batch && |v.batch| <= 64
    ensures |m.bitmap| == 0x2000
    ensures v.commits != [] ==> |v.batch| == 64 || AllEnabledIn(m.bitmap, v.everBegun + v.batch)
    ensures forall k :: 1 <= k < |v.commits| ==>
              |v.commits[k].batch| == 64 || (k == |v.commits| - 1 && AllEnabledIn(m.bitmap, v.everBegun))
  {
    hide Align64, Le32, Enabled, EnabledBelow, AllBegun, CommitsWhole, DataInv, AllEnabledIn;
    if v.commits != [] && m.importingContent {
      SplitHead(v.batch, m.numBatch, m.cindex, EnabledFrom(m.bitmap, m.cindex + 1));
      DisabledSkipped(m.bitmap, m.cindex);
    }
    if v.commits != [] && |v.batch| != 64 {
      AllPassed(m.bitmap, m.cindex, v.everBegun + v.batch);
    }
    if v.batch == [] && EnabledFrom(m.bitmap, m.cindex) == [] {
      AllPassed(m.bitmap, m.cindex, v.everBegun);
    }
  }

  lemma SplitHead(batch: seq<nat>, k: nat, i: nat, rest: seq<nat>)
    requires k < |batch|
    ensures batch[k..] <= [i] + rest ==> batch[..k] + [i] <= batch
  {
    if batch[k..] <= [i] + rest {
      assert batch[k..][0] == i;
      assert batch[..k] + [i] == batch[..k + 1];
    }
  }

  // Independence of the caller's chunks.

  lemma {:induction false} LaterEnd(bitmap: seq<byte>, base: nat, sizeOf: nat -> nat, c1: nat, c2: nat)
    requires |bitmap| == 0x2000 && c1 <= c2 <= MAX_INDEX
    ensures ContentsEnd(base, EnabledBelow(bitmap, c1), sizeOf) <= ContentsEnd(base, EnabledBelow(bitmap, c2), sizeOf)
    decreases c2
  {
    hide Enabled, ContentsEnd, Align64;
    if c1 < c2 {
      LaterEnd(bitmap, base, sizeOf, c1, c2 - 1);
      var e := EnabledBelow(bitmap, c2 - 1);
      DisabledSkipped(bitmap, c2 - 1);
      ContentsEndSnoc(base, e, c2 - 1, sizeOf);
      assert e + [] == e;
    }
  }

  lemma AlignMonotone(a: nat, b: nat)
    requires a <= b
    ensures Align64(a) <= Align64(b)
  {
  }

  /** The second list of contents is the first and then contents without data. */
  predicate SameButEmpty(s1: seq<Content>, s2: seq<Content>) {
    s1 <= s2 && forall k :: |s1| <= k < |s2| ==> s2[k].data == []
  }

  /** Contents that end no later than the next one starts have no data. */
  lemma {:induction false} EmptyBeyond(file: seq<byte>, bitmap: seq<byte>, base: nat, sizeOf: nat -> nat,
                                       c1: nat, c2: nat)
    requires |bitmap| == 0x2000 && c1 <= c2 <= MAX_INDEX
    requires ContentsEnd(base, EnabledBelow(bitmap, c2), sizeOf) <= |file|
    requires ContentsEnd(base, EnabledBelow(bitmap, c2), sizeOf)
             <= Align64(ContentsEnd(base, EnabledBelow(bitmap, c1), sizeOf))
    ensures ContentsEnd(base, EnabledBelow(bitmap, c1), sizeOf) <= |file|
    ensures SameButEmpty(CiaFormat.Contents(file, base, EnabledBelow(bitmap, c1), sizeOf),
                         CiaFormat.Contents(file, base, EnabledBelow(bitmap, c2), sizeOf))
    decreases c2
  {
    hide Enabled, ContentsEnd, Align64, CiaFormat.Contents, EnabledBelow;
    LaterEnd(bitmap, base, sizeOf, c1, c2);
    if c1 < c2 {
      var e := EnabledBelow(bitmap, c2 - 1);
      LaterEnd(bitmap, base, sizeOf, c1, c2 - 1);
      LaterEnd(bitmap, base, sizeOf, c2 - 1, c2);
      EmptyBeyond(file, bitmap, base, sizeOf, c1, c2 - 1);
      DisabledSkipped(bitmap, c2 - 1);
      if Enabled(bitmap, c2 - 1) {
        ContentsSnoc(file, base, e, c2 - 1, sizeOf);
        AlignMonotone(ContentsEnd(base, EnabledBelow(bitmap, c1), sizeOf), ContentsEnd(base, e, sizeOf));
      } else {
        assert e + [] == e;
      }
    }
  }

  /** What a clean run has installed, and how far it has got with the next content. */
  lemma CleanNow(m: InstallData, at: nat, v: View, run: Run)
    requires Inv(m, at, v, run) && ContentState(m) && Settled(m, at) && |m.bitmap| == 0x2000 && Clean(m.bitmap, run)
    ensures |m.header| == HEADER_SIZE && m.cindex <= MAX_INDEX && at <= |run.file| && v.content == m.importingContent
    ensures m.header == run.file[..HEADER_SIZE] && m.bitmap == run.file[HEADER_SIZE..INDEX_END]
    ensures var done := EnabledBelow(m.bitmap, m.cindex);
            var end := ContentsEnd(TmdEnd(m.header), done, run.sizeOf);
            && end <= at && v.installed == CiaFormat.Contents(run.file, TmdEnd(m.header), done, run.sizeOf)
            && (m.state == Contents && !m.importingContent ==> at == end || (done == [] && at <= Align64(end)))
            && (m.state == Finalize ==> m.cindex == MAX_INDEX && !m.importingContent)
            && (m.importingContent ==>
                  && m.cindex < MAX_INDEX && Enabled(m.bitmap, m.cindex)
                  && (at <= Align64(end) || at < Align64(end) + run.sizeOf(m.cindex) % U32_LIMIT)
                  && v.current.data + m.misalign == if at <= Align64(end) then [] else run.file[Align64(end)..at])
  {
    hide Align64, Le32, Enabled, EnabledBelow, EnabledFrom, BatchInv, ContentsEnd, CiaFormat.Contents, BlockSizes;
    var done := EnabledBelow(m.bitmap, m.cindex);
    ChainedExact(v.installed, run.leads, CiaFormat.Contents(run.file, TmdEnd(m.header), done, run.sizeOf));
    ContentsEndNone(TmdEnd(m.header), run.sizeOf);
    assert m.importingContent && m.conStart <= at ==> [] + run.file[m.conStart..at] == run.file[m.conStart..at];
  }

  /** However two callers cut the same file into writes, after the same number of bytes AM9 has
      installed the same contents, except that one of them may already have got to contents without
      data, and it holds or will be given the same bytes of the next one. */
  lemma ChunkingIndependent(m1: InstallData, v1: View, run1: Run, m2: InstallData, v2: View, run2: Run, at: nat)
    requires Inv(m1, at, v1, run1) && Inv(m2, at, v2, run2) && ContentState(m1) && ContentState(m2)
    requires Settled(m1, at) && Settled(m2, at) && |m1.bitmap| == |m2.bitmap| == 0x2000
    requires Clean(m1.bitmap, run1) && Clean(m2.bitmap, run2)
    requires run1.file == run2.file && run1.sizeOf == run2.sizeOf
    ensures SameButEmpty(v1.installed, v2.installed) || SameButEmpty(v2.installed, v1.installed)
    ensures v1.content && v2.content ==> v1.current.data + m1.misalign == v2.current.data + m2.misalign
  {
    hide Inv, Settled, Align64, Enabled, EnabledBelow, ContentsEnd, CiaFormat.Contents, Clean, TmdEnd;
    CleanNow(m1, at, v1, run1);
    CleanNow(m2, at, v2, run2);
    if m1.cindex <= m2.cindex {
      FurtherAlike(m1, v1, run1, m2, v2, run2, at);
    } else {
      FurtherAlike(m2, v2, run2, m1, v1, run1, at);
    }
  }

  /** The run that has got further has installed the same, and then contents without data. */
  lemma FurtherAlike(m1: InstallData, v1: View, run1: Run, m2: InstallData, v2: View, run2: Run, at: nat)
    requires Inv(m1, at, v1, run1) && Inv(m2, at, v2, run2) && ContentState(m1) && ContentState(m2)
    requires Settled(m1, at) && Settled(m2, at) && |m1.bitmap| == |m2.bitmap| == 0x2000
    requires Clean(m1.bitmap, run1) && Clean(m2.bitmap, run2)
    requires run1.file == run2.file && run1.sizeOf == run2.sizeOf && m1.cindex <= m2.cindex
    ensures SameButEmpty(v1.installed, v2.installed)
    ensures v1.content && v2.content ==> v1.current.data + m1.misalign == v2.current.data + m2.misalign
  {
    hide Inv, Settled, Align64, Enabled, EnabledBelow, ContentsEnd, CiaFormat.Contents, Clean, TmdEnd;
    CleanNow(m1, at, v1, run1);
    CleanNow(m2, at, v2, run2);
    if m1.cindex < m2.cindex {
      var base, c := TmdEnd(m1.header), m1.cindex;
      var e := EnabledBelow(m1.bitmap, c);
      LaterEnd(m1.bitmap, base, run1.sizeOf, c, m2.cindex);
      AlignMonotone(ContentsEnd(base, e, run1.sizeOf),
                    ContentsEnd(base, EnabledBelow(m1.bitmap, m2.cindex), run1.sizeOf));
      if m1.importingContent {
        DisabledSkipped(m1.bitmap, c);
        ContentsEndSnoc(base, e, c, run1.sizeOf);
        LaterEnd(m1.bitmap, base, run1.sizeOf, c + 1, m2.cindex);
      }
      EmptyBeyond(run1.file, m1.bitmap, base, run1.sizeOf, c, m2.cindex);
    }
  }
}
