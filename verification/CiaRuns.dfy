/** Whole installs: a file is cut into pieces and handed to a new installer one piece after another. */
module CiaRuns {
  import opened Bytes
  import opened Am9
  import opened CiaFormat
  import opened CiaInvariant
  import opened CiaNames
  import opened CiaSteps
  import opened CiaContentSteps
  import opened CiaInstaller
  import opened CiaTheorems
  import opened CiaWalk
  import opened CiaPieces

  /** Whatever has happened, AM9 has only been called in turn: every call was allowed by the installs
      then open, none was made after a failed call, the last one alone can have failed and only if the
      installer is invalidated, and the installer's flags name the installs that are open now. */
  lemma TransactionsLegal(i: Installer)
    requires i.Valid()
    ensures var log := i.am9.view.log;
            && i.am9.view == Replay(log)
            && (i.m.importingTicket <==> Open(log, TicketInstall)) && (i.m.importingTitle <==> Open(log, TitleInstall))
            && (i.m.importingTmd <==> Open(log, TmdInstall)) && (i.m.importingContent <==> Open(log, ContentInstall))
            && (!i.invalidated ==> forall k :: 0 <= k < |log| ==> Succeeds(log[k]))
            && forall k :: 0 <= k < |log| ==>
                 && InTurn(log[..k], log[k]) && (k + 1 < |log| ==> Succeeds(log[k]))
                 && !Replay(log[..k]).failed && Allowed(Replay(log[..k]), log[k])
  {
    hide Inv, StateInv, Replay, Allowed, Succeeds, Open, InTurn;
    var v := i.am9.view;
    if !i.invalidated {
      InvFlags(i.m, i.offset, v, i.run);
    }
    FlagIsOpen(v.log, TicketInstall);
    FlagIsOpen(v.log, TitleInstall);
    FlagIsOpen(v.log, TmdInstall);
    FlagIsOpen(v.log, ContentInstall);
    forall k | 0 <= k < |v.log|
      ensures InTurn(v.log[..k], v.log[k])
      ensures !Replay(v.log[..k]).failed && Allowed(Replay(v.log[..k]), v.log[k])
      ensures k + 1 < |v.log| || !i.invalidated ==> Succeeds(v.log[k])
    {
      NothingAfterFailure(v.log, k);
      AllowedInTurn(v.log[..k], v.log[k]);
      if !i.invalidated && !Succeeds(v.log[k]) {
        FailureSticks(v.log, k);
      }
    }
  }

  /** An install fails for a reason: AM9 has refused the last call, there was no memory left, or the file is
      for a title that this import may not install. */
  lemma FailureExplained(i: Installer)
    requires i.Valid() && i.invalidated
    ensures var log := i.am9.view.log;
            || (log != [] && !Succeeds(log[|log| - 1]))
            || i.starved || i.TicketRefused(i.run.file) || i.TmdRefused(i.run.file)
  {
    hide Replay, Succeeds, Installer.TicketRefused, Installer.TmdRefused;
    if i.am9.view.failed {
      FailedAtEnd(i.am9.view.log);
    }
  }

  lemma RefusedAnyway(i: Installer, file: seq<byte>)
    requires i.run.file <= file
    ensures i.TicketRefused(i.run.file) ==> i.TicketRefused(file)
    ensures i.TmdRefused(i.run.file) ==> i.TmdRefused(file)
  {
    hide Installer.Refused, Le32, Align64;
    if HEADER_SIZE <= |i.run.file| {
      assert file[..HEADER_SIZE] == i.run.file[..HEADER_SIZE];
    }
  }

  /** Whatever has happened, AM9 has been asked to install the title of the file's TMD and no other: every
      begin and commit carries its id, and the first begin alone overwrites, if any is to. */
  lemma TitlesFinal(i: Installer)
    requires i.Valid()
    ensures TitlesOf(i.am9.view.log, i.overwrite, i.run.file)
    ensures !i.invalidated ==>
              (i.m.tmdHeaderImported <==> exists k :: 0 <= k < |i.am9.view.log| && i.am9.view.log[k].TitleBegin?)
    ensures !i.invalidated && ContentState(i.m) ==> i.m.tmdHeaderImported
    ensures !i.invalidated && i.m.tmdHeaderImported ==>
              |TitleBytes(i.run.file)| == 8 && (i.m.isDlc <==> TitleBytes(i.run.file)[..4] == [0x00, 0x04, 0x00, 0x8C])
  {
    hide Inv, Replay, FlagsAgree, TitlesOf, ChainsOf, TmdTitle, IsDlc, IsChain, TitleBytes, Noted, NamesIn, HasChain;
    ToldLog(i.am9.view.log, i.overwrite, i.tmdTid, i.m.isDlc, i.run.file);
    TitleBegun(i.am9.view.log, i.overwrite, i.tmdTid, i.m.isDlc, i.run.file);
    if i.am9.names.titles != [] {
      TitleIdBytes(i.run.file, i.tmdTid);
    }
  }

  /** The certificate chain of the file has been handed over once, and no other has been; a file without one
      hands over none. */
  lemma ChainFinal(i: Installer)
    requires i.Valid()
    ensures ChainsOf(i.am9.view.log, i.run.file)
    ensures !i.invalidated ==>
              ((exists k :: 0 <= k < |i.am9.view.log| && i.am9.view.log[k].ImportCertificate?) <==>
               Rank(i.m.state) >= Rank(TicketHeader) && HasChain(i.run.file))
  {
    hide Inv, Replay, FlagsAgree, TitlesOf, ChainsOf, TmdTitle, IsDlc, IsChain, TitleBytes, Noted, NamesIn, HasChain;
    var log := i.am9.view.log;
    ToldLog(log, i.overwrite, i.tmdTid, i.m.isDlc, i.run.file);
    if i.am9.names.chains != [] {
      var k := ChainInLog(log);
    } else {
      forall k | 0 <= k < |log| ensures !log[k].ImportCertificate? {
        NamedAt(log, k);
      }
    }
  }

  /** The ticket that AM9 has finished is the file's ticket. */
  lemma TicketFinal(i: Installer)
    requires i.Valid() && !i.invalidated && Rank(i.m.state) >= Rank(TmdHeader)
    ensures TicketInstalled(i.am9.view, i.run.file)
  {
    hide TicketStart, TicketEnd, Inv;
    TicketExact(i.m, i.offset, i.am9.view, i.run);
  }

  /** At any time in the content states, failed installs aside: downloadable content has been committed
      after its first content and then after whole batches, in the order announced, and nothing else has ever
      been committed. A batch has 64 contents unless nothing is left behind it. */
  lemma CommitsFinal(i: Installer)
    requires i.Valid() && !i.invalidated && ContentState(i.m)
    ensures var v := i.am9.view;
            && CommitsWhole(v.commits) && AllBegun(v.commits) + v.begun == v.everBegun
            && (if i.m.isDlc then |v.everBegun| <= 1 || v.commits != [] else v.commits == [])
            && (v.commits != [] ==> v.begun <= v.batch && |v.batch| <= 64)
            && |i.m.bitmap| == 0x2000
            && (v.commits != [] ==> |v.batch| == 64 || AllEnabledIn(i.m.bitmap, v.everBegun + v.batch))
            && (forall k :: 1 <= k < |v.commits| ==>
                  |v.commits[k].batch| == 64 || (k == |v.commits| - 1 && AllEnabledIn(i.m.bitmap, v.everBegun)))
            && Ascending(v.everBegun)
            && forall c :: c in v.everBegun ==> c < MAX_INDEX && Enabled(i.m.bitmap, c)
  {
    hide Inv, CommitsWhole, AllBegun, Enabled, AllEnabledIn;
    CommitsAreBatches(i.m, i.offset, i.am9.view, i.run);
    BegunAscending(i.m, i.offset, i.am9.view, i.run);
  }

  // One piece.
  method WritePiece(i: Installer, piece: seq<byte>) returns (ok: bool, ended: bool)
    requires i.Valid() && !i.invalidated && Settled(i.m, i.offset)
    requires i.offset == |i.run.file| && GoodInput(i.run.file + piece)
    modifies i, i.am9
    ensures i.Valid() && (ok <==> !i.invalidated) && i.run.sizeOf == old(i.run).sizeOf
    ensures i.run.file == old(i.run).file + piece && (ok ==> Settled(i.m, i.offset))
    ensures ok ==> if ended then i.m.state == Finalize else i.offset == |i.run.file|
    ensures ok ==> (i.run.intact <==> old(i.run).intact && PieceSafe(i.run.file, old(i.offset), |piece|))
    ensures ok ==> i.Leftover([]) == old(i.Leftover(piece))
    ensures ok ==> WalkOf(i.m, i.offset, i.run) == old(WalkOn(i.m, i.offset, i.run, i.run.file + piece, |piece|))
    ensures ok && i.m.state == Finalize ==> i.AllInstalled()
  {
    hide Inv, StateInv, FlagsAgree, Replay, GoodInput, TmdSafe, Settled, Align64, Le32;
    hide Installer.AllInstalled, Installer.Leftover, InTmdBlock, WalkOf;
    HeaderKnown(i.m, i.offset, i.am9.view, i.run);
    OutsideTmd(i.m, i.offset, i.am9.view, i.run);
    ghost var file, header, at := i.run.file, i.m.header, i.offset;
    assert file[..at] == file && file + [] == file;
    SafeHere(file + piece, header, at, |piece|, i.m.state);
    var r := i.Write(piece);
    ok := r.Done?;
    ended := r.Done? && r.written.None?;
  }

  lemma SafeHere(file: seq<byte>, header: seq<byte>, at: nat, size: nat, state: State)
    requires |header| == HEADER_SIZE && at + size <= |file|
    requires HEADER_SIZE <= at ==> header == file[..HEADER_SIZE]
    requires at < HEADER_SIZE ==> !InTmdBlock(header, at)
    ensures size > 0 ==> PieceSafe(file, at, size) == TmdSafe(header, at, size)
  {
    if at < HEADER_SIZE <= |file| {
      SafeOutside(file[..HEADER_SIZE], at, size);
    }
  }

  lemma StartSettled(i: Installer)
    requires i.m.state == HeaderCopy
    ensures Settled(i.m, i.offset)
  {
  }

  /** The pieces so far: the installer's file is what they come to, and so is where it stands in the TMD. */
  ghost predicate UpTo(i: Installer, pieces: seq<seq<byte>>, k: nat)
    requires k <= |pieces|
    reads i
  {
    && Settled(i.m, i.offset) && i.run.file == Concat(pieces[..k])
    && i.run.intact == SafeUpTo(Concat(pieces), pieces, k)
    && WalkOf(i.m, i.offset, i.run) == WalkIn(Concat(pieces), pieces[..k])
  }

  lemma AtStart(i: Installer, pieces: seq<seq<byte>>)
    requires i.m.state == HeaderCopy && i.run.file == [] && i.run.intact
    ensures UpTo(i, pieces, 0)
  {
    hide PieceSafe;
    EmptyConcat(pieces);
    StartSettled(i);
  }

  /** One more piece. */
  method WriteNext(i: Installer, pieces: seq<seq<byte>>, k: nat) returns (ok: bool, ended: bool)
    requires k < |pieces| && GoodInput(Concat(pieces))
    requires i.Valid() && !i.invalidated && UpTo(i, pieces, k) && i.offset == |i.run.file|
    modifies i, i.am9
    ensures i.Valid() && (ok <==> !i.invalidated) && i.run.sizeOf == old(i.run).sizeOf
    ensures i.run.file == Concat(pieces[..k + 1]) && (ok ==> UpTo(i, pieces, k + 1))
    ensures ok ==> if ended then i.m.state == Finalize else i.offset == |i.run.file|
  {
    hide Inv, StateInv, FlagsAgree, Replay, GoodInput, Settled, PieceSafe, Concat, WalkOf, Next, WalkAfter;
    hide Installer.AllInstalled, Installer.Leftover;
    ghost var file := Concat(pieces);
    ConcatNext(pieces, k);
    ConcatGrows(pieces, k, k + 1);
    GoodPrefix(file, Concat(pieces[..k + 1]));
    PieceSafeKept(Concat(pieces[..k + 1]), file, i.offset, |pieces[k]|);
    WalkGoesOn(i.m, i.offset, i.am9.view, i.run, pieces, k);
    ok, ended := WritePiece(i, pieces[k]);
  }

  lemma WalkGoesOn(m: InstallData, at: nat, v: View, run: Run, pieces: seq<seq<byte>>, k: nat)
    requires Inv(m, at, v, run) && k < |pieces| && run.file == Concat(pieces[..k]) && at == |run.file|
    requires WalkOf(m, at, run) == WalkIn(Concat(pieces), pieces[..k])
    ensures WalkOn(m, at, run, run.file + pieces[k], |pieces[k]|) == WalkIn(Concat(pieces), pieces[..k + 1])
  {
    hide Inv, Concat, WalkOf, Next, WalkAfter;
    var file, prefix := Concat(pieces), run.file + pieces[k];
    ConcatNext(pieces, k);
    ConcatGrows(pieces, k, k + 1);
    WalkNext(file, pieces, k);
    if HEADER_SIZE <= |prefix| {
      assert prefix[..HEADER_SIZE] == file[..HEADER_SIZE];
    } else {
      HeaderKnown(m, at, v, run);
      EarlyPlace(m, at, v, run);
      if HEADER_SIZE <= |file| {
        WalkInHeader(file[..HEADER_SIZE], at, |pieces[k]|);
      }
    }
  }

  /** When the final state ends the run, the pieces still to come change nothing of all this. */
  lemma RestUnread(i: Installer, pieces: seq<seq<byte>>, k: nat)
    requires i.Valid() && !i.invalidated && k <= |pieces| && UpTo(i, pieces, k) && GoodInput(Concat(pieces))
    requires i.m.state == Finalize || (k == |pieces| && i.offset == |i.run.file|)
    ensures HandedOver(i.m, i.offset, i.am9.view, i.run.(file := Concat(pieces)), pieces)
  {
    hide Inv, Settled, Concat, WalkAfter, TmdEnd, BodyStart, GoodInput, PieceSafe;
    var file := Concat(pieces);
    ConcatGrows(pieces, k, |pieces|);
    assert pieces[..|pieces|] == pieces;
    if i.run.file == file {
      assert i.run.(file := file) == i.run;
    }
    if i.m.state == Finalize {
      LateHeader(i.m, i.offset, i.am9.view, i.run);
      assert i.m.header == file[..HEADER_SIZE];
      WalkBehind(i.m.header, pieces, k);
      RestSafe(i.m.header, pieces, k);
      FileGrown(i.m, i.offset, i.am9.view, i.run, file);
    }
  }

  lemma FileGrown(m: InstallData, at: nat, v: View, run: Run, file: seq<byte>)
    requires Inv(m, at, v, run) && at <= |run.file| && run.file <= file && GoodInput(file)
    ensures Inv(m, at, v, run.(file := file))
  {
    hide Inv, GoodInput;
    if at < |file| {
      assert run.file[..at] + file[at..] == file;
      NextChunk(m, at, v, run, file[at..]);
    } else {
      assert run.(file := file) == run;
    }
  }

  lemma RestSafe(header: seq<byte>, pieces: seq<seq<byte>>, k: nat)
    requires k <= |pieces| && HEADER_SIZE <= |Concat(pieces)| && header == Concat(pieces)[..HEADER_SIZE]
    requires TmdEnd(header) <= |Concat(pieces[..k])|
    ensures PiecesSafe(pieces) == SafeUpTo(Concat(pieces), pieces, k)
  {
    hide Concat, TmdSafe, TmdEnd;
    var file := Concat(pieces);
    forall l | k <= l < |pieces| ensures PieceSafe(file, |Concat(pieces[..l])|, |pieces[l]|) {
      ConcatGrows(pieces, k, l);
      SafeOutside(header, |Concat(pieces[..l])|, |pieces[l]|);
    }
  }

  /** A file cut into pieces in any way goes to a new installer until one call fails or the final
      state is reached. If none fails, all is decided by how it was cut:
      - the contents are reached exactly if there is a byte behind the TMD and no block is completed
        from beyond its end; otherwise the install stays in the TMD, with no content begun;
      - the TMD that AM9 gets is the file's exactly if the pieces are safe;
      - as many TMD bytes go into the first content as the pieces leave held back at the TMD's end;
      - if these are none, and the file goes as far as its last content, AM9 has installed every enabled
        content with exactly its bytes, but for contents without data at the end. */
  method InstallPieces(am9: Server, system: bool, tempDb: bool, overwrite: bool, pieces: seq<seq<byte>>)
      returns (i: Installer, ok: bool)
    requires am9.Valid() && am9.view == FRESH && GoodInput(Concat(pieces))
    modifies am9
    ensures fresh(i) && i.am9 == am9 && i.Valid() && i.run.sizeOf == am9.sizeOf && (ok <==> !i.invalidated)
    ensures !ok ==>
              || (am9.view.log != [] && !Succeeds(am9.view.log[|am9.view.log| - 1]))
              || i.starved || i.TicketRefused(Concat(pieces)) || i.TmdRefused(Concat(pieces))
    ensures i.system == system && i.tempDb == tempDb
    ensures TitlesOf(am9.view.log, overwrite, Concat(pieces)) && ChainsOf(am9.view.log, Concat(pieces))
    ensures ok && PastTmd(Concat(pieces)) ==>
              && |TitleBytes(Concat(pieces))| == 8
              && (i.m.isDlc <==> TitleBytes(Concat(pieces))[..4] == [0x00, 0x04, 0x00, 0x8C])
              && (exists k :: 0 <= k < |am9.view.log| && am9.view.log[k].TitleBegin?)
              && ((exists k :: 0 <= k < |am9.view.log| && am9.view.log[k].ImportCertificate?) <==>
                  HasChain(Concat(pieces)))
    ensures ok ==> HandedOver(i.m, i.offset, am9.view, i.run.(file := Concat(pieces)), pieces)
    ensures ok ==> (ContentState(i.m) <==> PastTmd(Concat(pieces)) && !TmdWalk(pieces).overrun)
    ensures ok && TmdWalk(pieces).overrun ==>
              i.m.state == Tmd && am9.view.everBegun == [] && am9.view.installed == []
    ensures ok && PastTmd(Concat(pieces)) ==> TicketInstalled(am9.view, Concat(pieces))
    ensures ok && PastTmd(Concat(pieces)) ==> (TmdInstalled(am9.view, Concat(pieces)) <==> PiecesSafe(pieces))
    ensures ok && ContentState(i.m) ==> i.run.leads != [] && |i.run.leads[0]| == TmdWalk(pieces).held
    ensures ok && Exact(pieces, am9.sizeOf) && HasContents(Concat(pieces), am9.sizeOf) ==>
              SameButEmpty(am9.view.installed, ContentsOf(Concat(pieces), am9.sizeOf)) && am9.view.blocksOnly
  {
    hide Inv, StateInv, FlagsAgree, Replay, GoodInput, UpTo, HandedOver, TmdInstalled, TicketInstalled, PiecesSafe;
    hide TmdWalk, Exact, TitlesOf, ChainsOf, HasChain, TitleBytes;
    hide Installer.AllInstalled, Installer.Leftover, PastTmd, HasContents, ContentsOf, SameButEmpty;
    hide Succeeds, Installer.TicketRefused, Installer.TmdRefused;
    i := new Installer(am9, system, tempDb, overwrite);
    ok := true;
    var k, ended := 0, false;
    AtStart(i, pieces);
    while k < |pieces| && ok && !ended
      invariant 0 <= k <= |pieces| && fresh(i) && i.am9 == am9 && i.Valid() && i.run.sizeOf == am9.sizeOf
      invariant (ok <==> !i.invalidated) && i.overwrite == overwrite && i.system == system && i.tempDb == tempDb
      invariant i.run.file == Concat(pieces[..k])
      invariant ok ==> UpTo(i, pieces, k)
      invariant ok ==> if ended then i.m.state == Finalize else i.offset == |i.run.file|
      modifies i, am9
    {
      ok, ended := WriteNext(i, pieces, k);
      k := k + 1;
    }
    NamesSoFar(i, pieces, k);
    RefusedAnyway(i, Concat(pieces));
    if !ok {
      FailureExplained(i);
    } else {
      RestUnread(i, pieces, k);
      if PastTmd(Concat(pieces)) {
        NamesOutcome(i, pieces);
      }
      Outcome(i.m, i.offset, am9.view, i.run.(file := Concat(pieces)), pieces);
    }
  }

  lemma NamesSoFar(i: Installer, pieces: seq<seq<byte>>, k: nat)
    requires i.Valid() && k <= |pieces| && i.run.file == Concat(pieces[..k])
    ensures TitlesOf(i.am9.view.log, i.overwrite, Concat(pieces)) && ChainsOf(i.am9.view.log, Concat(pieces))
    ensures i.run.file <= Concat(pieces)
  {
    hide *;
    TitlesFinal(i);
    ChainFinal(i);
    ConcatGrows(pieces, k, |pieces|);
    assert pieces[..|pieces|] == pieces;
    NamesOfLonger(i.am9.view.log, i.overwrite, i.run.file, Concat(pieces));
  }

  lemma NamesOutcome(i: Installer, pieces: seq<seq<byte>>)
    requires i.Valid() && !i.invalidated && i.run.file <= Concat(pieces)
    requires HandedOver(i.m, i.offset, i.am9.view, i.run.(file := Concat(pieces)), pieces) && PastTmd(Concat(pieces))
    ensures var file, log := Concat(pieces), i.am9.view.log;
            && |TitleBytes(file)| == 8 && (i.m.isDlc <==> TitleBytes(file)[..4] == [0x00, 0x04, 0x00, 0x8C])
            && (exists k :: 0 <= k < |log| && log[k].TitleBegin?)
            && ((exists k :: 0 <= k < |log| && log[k].ImportCertificate?) <==> HasChain(file))
  {
    hide Inv, HandedOver, TitlesOf, ChainsOf, TitleBytes, HasChain, Concat, PastTmd;
    TitlesFinal(i);
    ChainFinal(i);
    NamesOfLonger(i.am9.view.log, i.overwrite, i.run.file, Concat(pieces));
    TitleImported(i.m, i.offset, i.am9.view, i.run.(file := Concat(pieces)), pieces);
    HeaderKnown(i.m, i.offset, i.am9.view, i.run);
  }

  lemma TitleImported(m: InstallData, at: nat, v: View, run: Run, pieces: seq<seq<byte>>)
    requires HandedOver(m, at, v, run, pieces) && PastTmd(Concat(pieces))
    ensures Inv(m, at, v, run) && Rank(m.state) >= Rank(Tmd) && at >= HEADER_SIZE
    ensures ContentState(m) || m.tmdHeaderImported
  {
    hide Inv, Concat, TmdEnd, PiecesSafe, TmdWalk, Le32, Align64;
    if ContentState(m) {
      WalkLate(m, at, v, run);
      LateHeader(m, at, v, run);
    } else if m.state == Tmd {
      TmdNow(m, at, v, run);
    } else {
      EarlyPlace(m, at, v, run);
      assert false;
    }
  }

  /** What the end of such a run means. */
  lemma Outcome(m: InstallData, at: nat, v: View, run: Run, pieces: seq<seq<byte>>)
    requires HandedOver(m, at, v, run, pieces)
    ensures ContentState(m) <==> PastTmd(Concat(pieces)) && !TmdWalk(pieces).overrun
    ensures TmdWalk(pieces).overrun ==> m.state == Tmd && v.everBegun == [] && v.installed == []
    ensures PastTmd(Concat(pieces)) ==> TicketInstalled(v, Concat(pieces))
    ensures PastTmd(Concat(pieces)) ==> (TmdInstalled(v, Concat(pieces)) <==> PiecesSafe(pieces))
    ensures ContentState(m) ==> run.leads != [] && |run.leads[0]| == TmdWalk(pieces).held
    ensures Exact(pieces, run.sizeOf) && HasContents(Concat(pieces), run.sizeOf) ==>
              SameButEmpty(v.installed, ContentsOf(Concat(pieces), run.sizeOf)) && v.blocksOnly
  {
    hide HandedOver, TmdInstalled, TicketInstalled, PiecesSafe, TmdWalk, Exact, PastTmd, HasContents, ContentsOf;
    hide SameButEmpty;
    ContentsReachedExactly(m, at, v, run, pieces);
    if PastTmd(Concat(pieces)) {
      TmdInstalledExactly(m, at, v, run, pieces);
      TicketGiven(m, at, v, run, pieces);
    }
    if Exact(pieces, run.sizeOf) && HasContents(Concat(pieces), run.sizeOf) {
      ContentsInstalled(m, at, v, run, pieces);
    }
  }

  /** Safe pieces leave nothing held back: of a file whose contents are whole blocks, AM9 gets the TMD and
      every content with data, in whichever way it is cut into safe pieces. */
  lemma SafePiecesInstall(m: InstallData, at: nat, v: View, run: Run, pieces: seq<seq<byte>>)
    requires HandedOver(m, at, v, run, pieces) && PiecesSafe(pieces) && PastTmd(Concat(pieces))
    requires GoodInput(Concat(pieces)) && HasContents(Concat(pieces), run.sizeOf)
    requires BlockSizes(Concat(pieces)[HEADER_SIZE..INDEX_END], run.sizeOf)
    ensures TmdInstalled(v, Concat(pieces)) && SameButEmpty(v.installed, ContentsOf(Concat(pieces), run.sizeOf))
  {
    hide HandedOver, TmdInstalled, TicketInstalled, PiecesSafe, PastTmd, ContentsOf, SameButEmpty, GoodInput;
    hide BlockSizes, TmdWalk;
    SafeWalk(pieces);
    Outcome(m, at, v, run, pieces);
  }

  /** Two whole installs of one file, cut in two ways, through two AM9s that report the same sizes. */
  method InstallTwice(am9: Server, other: Server, system: bool, tempDb: bool, overwrite: bool,
                      pieces: seq<seq<byte>>, otherPieces: seq<seq<byte>>)
      returns (i: Installer, j: Installer, ok: bool)
    requires am9.Valid() && am9.view == FRESH && other.Valid() && other.view == FRESH && am9 != other
    requires GoodInput(Concat(pieces)) && Concat(otherPieces) == Concat(pieces) && other.sizeOf == am9.sizeOf
    modifies am9, other
    ensures i.am9 == am9 && j.am9 == other && i.Valid() && j.Valid()
    ensures ok <==> !i.invalidated && !j.invalidated
    ensures ok && Exact(pieces, am9.sizeOf) && Exact(otherPieces, am9.sizeOf) ==>
              || SameButEmpty(am9.view.installed, other.view.installed)
              || SameButEmpty(other.view.installed, am9.view.installed)
    ensures ok && Exact(pieces, am9.sizeOf) && Exact(otherPieces, am9.sizeOf) ==>
              am9.view.content && other.view.content ==>
                am9.view.current.data + i.m.misalign == other.view.current.data + j.m.misalign
  {
    hide Inv, StateInv, FlagsAgree, Replay, GoodInput, HandedOver, TmdInstalled, PiecesSafe, TmdWalk, Exact;
    hide PastTmd, HasContents, ContentsOf, SameButEmpty, Concat;
    var ok1, ok2;
    i, ok1 := InstallPieces(am9, system, tempDb, overwrite, pieces);
    j, ok2 := InstallPieces(other, system, tempDb, overwrite, otherPieces);
    ok := ok1 && ok2;
    if ok && Exact(pieces, am9.sizeOf) && Exact(otherPieces, am9.sizeOf) {
      SameInstall(i.m, i.offset, am9.view, i.run.(file := Concat(pieces)), pieces,
                  j.m, j.offset, other.view, j.run.(file := Concat(pieces)), otherPieces);
    }
  }

  /** A whole install byte by byte: the TMD that AM9 gets is the file's only if the TMD is its header
      part and at most one byte more. */
  method InstallByteWise(am9: Server, system: bool, tempDb: bool, overwrite: bool, file: seq<byte>)
      returns (i: Installer, ok: bool)
    requires am9.Valid() && am9.view == FRESH && GoodInput(file) && PastTmd(file)
    modifies am9
    ensures i.am9 == am9 && i.Valid() && (ok <==> !i.invalidated)
    ensures ok ==> (TmdInstalled(am9.view, file) <==>
                    TmdEnd(file[..HEADER_SIZE]) <= TmdStart(file[..HEADER_SIZE]) + TMD_HEADER_COPY + 1)
  {
    hide Inv, StateInv, FlagsAgree, Replay, GoodInput, Concat, PiecesSafe, Singles, HandedOver, Exact, HasContents;
    SinglesConcat(file);
    ByteWiseSafe(Singles(file));
    i, ok := InstallPieces(am9, system, tempDb, overwrite, Singles(file));
  }

  // TMD bytes that reach the first content.

  lemma HeldBytes(m: InstallData, at: nat, v: View, run: Run)
    requires Inv(m, at, v, run) && run.intact && |m.header| == HEADER_SIZE && InTmdBlock(m.header, at)
    ensures m.state == Tmd && at <= |run.file| && at < TmdEnd(m.header) && 0 < HeldAt(m.header, at) <= at
    ensures m.misalign == run.file[at - HeldAt(m.header, at)..at]
  {
    hide Inv, Le32, Align64, Enabled, EnabledBelow, EnabledFrom;
    OutsideTmd(m, at, v, run);
    TmdNow(m, at, v, run);
    TmdImported(m, at, v, run);
    TmdBodyNow(m, at, v, run);
    TailOf(v.tmdData, m.misalign, run.file, TmdStart(m.header), at);
  }

  lemma TmdImported(m: InstallData, at: nat, v: View, run: Run)
    requires Inv(m, at, v, run) && m.state == Tmd && |m.header| == HEADER_SIZE && InTmdBlock(m.header, at)
    ensures m.tmdHeaderImported
  {
    hide Le32, Align64, TmdBody;
  }

  lemma TailOf(data: seq<byte>, held: seq<byte>, file: seq<byte>, start: nat, at: nat)
    requires start <= at <= |file| && data + held == file[start..at]
    ensures |held| <= at - start && held == file[at - |held|..at]
  {
    assert held == (data + held)[|data|..];
    assert |data + held| == at - start;
  }

  lemma InBlock(i: Installer, a: seq<byte>, b: seq<byte>)
    requires i.Valid() && !i.invalidated && i.run.file == a && (i.m.state == Finalize || i.offset == |a|)
    requires (i.run.intact <==> PieceSafe(a, 0, |a|)) && CutsLastBlock(a, b)
    ensures i.offset == |a| && i.Leftover(b) == CutOff(a, b) && !PieceSafe(a + b, |a|, |b|)
  {
    hide Inv, Le32, Align64;
    HeaderKnown(i.m, i.offset, i.am9.view, i.run);
    SafeOutside(a[..HEADER_SIZE], 0, |a|);
    HeldBytes(i.m, i.offset, i.am9.view, i.run);
    assert (a + b)[..HEADER_SIZE] == a[..HEADER_SIZE];
    assert i.m.misalign + b == CutOff(a, b);
  }

  lemma AtTmdEnd(i: Installer, file: seq<byte>, more: seq<byte>)
    requires i.Valid() && !i.invalidated && i.run.file == file && (i.m.state == Finalize || i.offset == |file|)
    requires HEADER_SIZE <= |file| == TmdEnd(file[..HEADER_SIZE])
    requires i.Leftover([]) != []
    ensures i.offset == |file| && i.Leftover(more) == i.Leftover([])
  {
    hide Inv, Le32, Align64;
    HeaderKnown(i.m, i.offset, i.am9.view, i.run);
  }

  lemma PastTmdEnd(i: Installer, file: seq<byte>)
    requires i.Valid() && !i.invalidated && i.run.file == file && (i.m.state == Finalize || i.offset == |file|)
    requires HEADER_SIZE <= |file| && TmdEnd(file[..HEADER_SIZE]) < |file|
    requires i.Leftover([]) != []
    ensures ContentState(i.m) && i.run.leads != [] && i.run.leads[0] == i.Leftover([])
  {
    hide Inv, Le32, Align64;
    HeaderKnown(i.m, i.offset, i.am9.view, i.run);
  }

  /** With bytes held back as the first content began, the offset is not where the content's start and
      its bytes would put it. */
  lemma FirstMisplaced(i: Installer)
    requires i.Valid() && !i.invalidated && i.m.state == Contents && i.m.importingContent && i.m.conStart <= i.offset
    requires i.am9.view.installed == [] && i.run.leads != [] && i.run.leads[0] != []
    ensures i.offset <= |i.run.file|
    ensures i.am9.view.current.data + i.m.misalign == i.run.leads[0] + i.run.file[i.m.conStart..i.offset]
    ensures i.offset != i.m.conStart + |i.am9.view.current.data| + |i.m.misalign|
  {
    hide Inv, Lead;
    OffsetAccounts(i.m, i.offset, i.am9.view, i.run);
  }

  /** The first piece ends inside the last TMD block, the second ends where the TMD ends but is too short
      for a whole block, the third is not empty. If no call fails, the TMD is not the file's, and the bytes
      that were in the block have gone to the start of the first content. */
  method LeftoverRun(am9: Server, system: bool, tempDb: bool, overwrite: bool, a: seq<byte>, b: seq<byte>, c: seq<byte>)
      returns (i: Installer, ok: bool)
    requires am9.Valid() && am9.view == FRESH && GoodInput(a + b + c) && CutsLastBlock(a, b) && c != []
    modifies am9
    ensures i.am9 == am9 && i.Valid() && (ok <==> !i.invalidated)
    ensures ok ==> ContentState(i.m) && !i.run.intact && i.run.leads != [] && i.run.leads[0] == CutOff(a, b)
    ensures ok && i.m.state == Contents && i.m.importingContent && am9.view.installed == [] ==>
              i.m.conStart <= i.offset ==>
              && i.offset <= |i.run.file|
              && am9.view.current.data + i.m.misalign == CutOff(a, b) + i.run.file[i.m.conStart..i.offset]
              && i.offset != i.m.conStart + |am9.view.current.data| + |i.m.misalign|
  {
    hide Inv, StateInv, FlagsAgree, Replay, GoodInput, Settled, PieceSafe, CutOff, InTmdBlock, HeldAt, TmdEnd;
    hide Installer.AllInstalled, Installer.Leftover;
    ghost var file := a + b + c;
    i := new Installer(am9, system, tempDb, overwrite);
    StartSettled(i);
    GoodPrefix(file, a);
    GoodPrefix(file, a + b);
    assert [] + a == a;
    assert (a + b)[..HEADER_SIZE] == a[..HEADER_SIZE] == file[..HEADER_SIZE];
    var ended;
    ok, ended := WritePiece(i, a);
    if ok {
      InBlock(i, a, b);
      ok, ended := WritePiece(i, b);
    }
    if ok {
      AtTmdEnd(i, a + b, c);
      ok, ended := WritePiece(i, c);
    }
    if ok {
      PastTmdEnd(i, file);
      if i.m.state == Contents && i.m.importingContent && i.m.conStart <= i.offset && am9.view.installed == [] {
        FirstMisplaced(i);
      }
    }
  }
}
