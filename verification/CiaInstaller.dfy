/** AM_Pipe_CIA_Write: a CIA file arrives in arbitrary pieces and is installed through AM9. */
module CiaInstaller {
  import opened Bytes
  import opened Am9
  import opened CiaFormat
  import opened CiaInvariant
  import opened CiaNames
  import opened CiaSteps
  import opened CiaContentSteps
  import opened CiaWalk

  datatype Error = Invalidated | OutOfMemory | UnexpectedTicketTitle | UnexpectedTmdTitle | Am9Failed

  /** The outcome of a write; the final state returns without setting `written`. */
  datatype WriteResult = Done(written: Option<nat>) | Failed(error: Error)

  /** The locals of the write loop: where the chunk pointer stands, what is left, what is done. */
  datatype Cursor = Cursor(chunk: nat, size: nat, written: nat)

  class Installer {
    const am9: Server
    const system: bool
    const tempDb: bool
    const overwrite: bool
    var m: InstallData
    var offset: nat
    var tmdTid: nat
    var invalidated: bool
    ghost var run: Run
    ghost var starved: bool

    ghost predicate Valid()
      reads this, am9
    {
      && am9.Valid()
      && run.sizeOf == am9.sizeOf
      && Named()
      && (!invalidated ==> NamedNow())
      && (invalidated ==> am9.view.failed || starved || TicketRefused(run.file) || TmdRefused(run.file))
      && if invalidated then FlagsAgree(m, am9.view) else Inv(m, offset, am9.view, run)
    }

    /** What AM9 has been told by name is what the file says. */
    ghost predicate Named()
      reads this, am9
    {
      Told(am9.names, overwrite, tmdTid, m.isDlc, run.file)
    }

    ghost predicate NamedNow()
      reads this, am9
    {
      ToldNow(am9.names, m.tmdHeaderImported, ContentState(m), Rank(m.state) > Rank(CertChainInstall), run.file)
    }

    /** What a handler that meets an error leaves behind. */
    ghost predicate Broken(e: Error)
      reads this, am9
    {
      am9.Valid() && !invalidated && FlagsAgree(m, am9.view) && Named() && Blamed(e)
    }

    /** The reason for an error: a call that AM9 has refused, no memory, or a title id in the file. */
    ghost predicate Blamed(e: Error)
      reads this, am9
    {
      match e
      case Am9Failed => am9.view.failed
      case OutOfMemory => starved
      case UnexpectedTicketTitle => TicketRefused(run.file)
      case UnexpectedTmdTitle => TmdRefused(run.file)
      case Invalidated => false
    }

    constructor (am9: Server, system: bool, tempDb: bool, overwrite: bool)
      requires am9.Valid() && am9.view == FRESH
      ensures Valid() && !invalidated && offset == 0 && m.state == HeaderCopy
      ensures run == Run([], am9.sizeOf, true, []) && this.am9 == am9
      ensures this.system == system && this.tempDb == tempDb && this.overwrite == overwrite
    {
      this.am9, this.system, this.tempDb, this.overwrite := am9, system, tempDb, overwrite;
      m := InstallData(HeaderCopy, seq(0x20, _ => 0), seq(0x2000, _ => 0), None, [], 0, 0, 0, 0, 0, 0,
                       false, false, false, false, false, false, false);
      offset, tmdTid, invalidated := 0, 0, false;
      run := Run([], am9.sizeOf, true, []);
      starved := false;
    }

    /** The rest of the chunk is the rest of the file. */
    ghost predicate CursorOk(c: Cursor, data: seq<byte>)
      reads this`offset, this`run
    {
      && offset + c.size == |run.file|
      && c.written + c.size == |data| <= |run.file|
      && (if c.size > 0 then c.chunk == c.written else c.chunk <= c.written)
      && IsTail(data, run.file)
    }

    ghost predicate Ready(data: seq<byte>, cur: Cursor, s: State)
      reads this, am9
    {
      Valid() && !invalidated && m.state == s && CursorOk(cur, data) && cur.size > 0
    }

    // The rest of BASIC_COPY into dst; the caller has checked that the region is not complete.
    method CopyPart(dst: seq<byte>, offBase: nat, data: seq<byte>, cur: Cursor)
        returns (next: Cursor, filled: seq<byte>)
      requires CursorOk(cur, data) && offBase <= offset < offBase + |dst|
      modifies this`offset
      ensures CursorOk(next, data) && old(offset) <= offset <= offBase + |dst|
      ensures filled == Splice(dst, old(offset) - offBase, run.file[old(offset)..offset])
      ensures if cur.size > 0 then next.size < cur.size else next == cur
    {
      var write := Min(offBase + |dst| - offset, cur.size);
      filled := dst;
      if write > 0 {
        TailSlice(data, run.file, cur.chunk, write);
        filled := Splice(dst, offset - offBase, data[cur.chunk..cur.chunk + write]);
      }
      offset := offset + write;
      next := Cursor(cur.chunk + write, cur.size - write, cur.written + write);
    }

    // SKIP_PADDING: stop means that the chunk ended inside the padding.
    method SkipPadding(newOff: nat, data: seq<byte>, cur: Cursor) returns (next: Cursor, stop: bool)
      requires CursorOk(cur, data) && cur.size > 0
      modifies this`offset
      ensures CursorOk(next, data) && old(offset) <= offset
      ensures if old(offset) < newOff then next.size < cur.size && offset <= newOff else next == cur
      ensures stop ==> next.size == 0 && offset < newOff
      ensures !stop ==> newOff <= offset
    {
      next, stop := cur, false;
      if offset < newOff {
        var diff := newOff - offset;
        if cur.size < diff {
          offset := offset + cur.size;
          next, stop := Cursor(cur.chunk, 0, cur.written + cur.size), true;
        } else {
          offset := offset + diff;
          next := Cursor(cur.chunk + diff, cur.size - diff, cur.written + diff);
        }
      }
    }

    /** System installs take system titles only, and installs to the temporary database children only. */
    predicate Refused(tid: nat) {
      (system && !IsSystemCtr(tid)) || (tempDb && !IsDlpChild(tid))
    }

    /** A header whose title id is refused ends the install, and no other does for that reason. */
    predicate TitleChecked(header: Option<seq<byte>>, at: nat, error: Option<Error>, refusal: Error) {
      header.Some? && at + 8 <= |header.value| ==> (error == Some(refusal) <==> Refused(Be64(header.value, at)))
    }

    /** The same on the bytes of the id. */
    lemma RefusedBytes(b: seq<byte>, at: nat)
      requires at + 8 <= |b|
      ensures Refused(Be64(b, at)) <==>
                || (system && !(b[at + 2] < 0x40 && b[at + 3] / 0x10 % 2 == 1))
                || (tempDb && b[at..at + 4] != [0x00, 0x04, 0x00, 0x01])
    {
      hide Be64, IsSystemCtr, IsDlpChild, IsDlc;
      IdBytes(b, at);
    }

    /** The ticket in the file is for a title that is refused. */
    ghost predicate TicketRefused(file: seq<byte>) {
      && HEADER_SIZE <= |file| && TicketStart(file[..HEADER_SIZE]) + TICKET_HEADER_SIZE <= |file|
      && Refused(Be64(file, TicketStart(file[..HEADER_SIZE]) + 0x1DC))
    }

    ghost predicate TmdRefused(file: seq<byte>) {
      && HEADER_SIZE <= |file| && TmdStart(file[..HEADER_SIZE]) + TMD_HEADER_COPY <= |file|
      && Refused(Be64(file, TmdStart(file[..HEADER_SIZE]) + 0x18C))
    }

    // There may be no memory left, which `starved` remembers.
    method Malloc(n: nat) returns (p: Option<seq<byte>>)
      modifies this`starved
      ensures p.Some? ==> |p.value| == n
      ensures starved == (old(starved) || p.None?)
    {
      p := *;
      if p.Some? && |p.value| != n {
        p := None;
      }
      starved := starved || p.None?;
    }

    method StepHeader(data: seq<byte>, cur: Cursor) returns (next: Cursor)
      requires Ready(data, cur, HeaderCopy)
      modifies this`m, this`offset
      ensures Valid() && !invalidated && CursorOk(next, data)
      ensures next.size < cur.size || (next == cur && Rank(m.state) > Rank(old(m.state)))
      ensures Rank(m.state) < Rank(Tmd)
    {
      hide Told, ToldNow, NamesIn, Noted, TicketRefused, TmdRefused;
      hide Align64, Le32, Inv, StateInv, FlagsAgree, Replay, Apply, IsTail;
      if offset == 0 + 0x20 {
        HeaderComplete(m, offset, am9.view, run);
        m := m.(state := ContentIndexCopy);
        return cur;
      }
      HeaderNow(m, offset, am9.view, run);
      var filled: seq<byte>;
      next, filled := CopyPart(m.header, 0, data, cur);
      m := m.(header := filled);
      HeaderCopied(old(m), old(offset), am9.view, run, offset - old(offset));
    }

    method StepContentIndex(data: seq<byte>, cur: Cursor) returns (next: Cursor)
      requires Ready(data, cur, ContentIndexCopy)
      modifies this`m, this`offset
      ensures Valid() && !invalidated && CursorOk(next, data)
      ensures next.size < cur.size || (next == cur && Rank(m.state) > Rank(old(m.state)))
      ensures Rank(m.state) < Rank(Tmd)
    {
      hide Told, ToldNow, NamesIn, Noted, TicketRefused, TmdRefused;
      hide Align64, Le32, Inv, StateInv, FlagsAgree, Replay, Apply, IsTail;
      if offset == 0x20 + 0x2000 {
        BitmapComplete(m, offset, am9.view, run);
        m := m.(state := CertChainCopy);
        return cur;
      }
      BitmapNow(m, offset, am9.view, run);
      var filled: seq<byte>;
      next, filled := CopyPart(m.bitmap, 0x20, data, cur);
      m := m.(bitmap := filled);
      BitmapCopied(old(m), old(offset), am9.view, run, offset - old(offset));
    }

    // SKIP_PADDING to a region, the allocation of its buffer, then BASIC_COPY into it.
    method Collect(buf: Option<seq<byte>>, size: nat, start: nat, data: seq<byte>, cur: Cursor)
        returns (next: Cursor, filled: Option<seq<byte>>, complete: bool, error: Option<Error>)
      requires CursorOk(cur, data) && cur.size > 0 && 0 < size
      requires Collecting(buf, size, run.file, offset, start)
      modifies this`starved, this`offset
      ensures CursorOk(next, data) && old(offset) <= offset
      ensures if error.None? then Collecting(filled, size, run.file, offset, start) else filled.None?
      ensures error.None? && complete ==>
                Collected(filled, size, run.file, offset, start) && (next == cur || next.size < cur.size)
      ensures error.Some? ==> starved && error.value == OutOfMemory
      ensures error.None? && !complete ==> next.size < cur.size
    {
      hide Splice, IsTail;
      var stop: bool;
      filled, complete, error := buf, false, None;
      next, stop := SkipPadding(start, data, cur);
      if stop {
        return;
      }
      if filled.None? {
        filled := Malloc(size);
        if filled.None? {
          error := Some(OutOfMemory);
          return;
        }
      }
      if offset == start + size {
        assert filled.value[..size] == filled.value;
        complete := true;
        return;
      }
      ghost var from, before := offset, filled.value;
      var b: seq<byte>;
      next, b := CopyPart(filled.value, start, data, next);
      filled := Some(b);
      CollectGrown(before, run.file, start, from, offset);
    }

    // What the three collecting states do once they know their region, up to the update of the install data.
    method Gather(data: seq<byte>, cur: Cursor, size: nat, start: nat)
        returns (next: Cursor, filled: Option<seq<byte>>, complete: bool, error: Option<Error>)
      requires Ready(data, cur, m.state) && Collects(m.state) && size == Region(m).0 && start == Region(m).1 && 0 < size
      modifies this`starved, this`offset
      ensures error.None? ==> CursorOk(next, data) && Inv(m.(buf := filled), offset, am9.view, run)
      ensures error.None? ==> if complete then next == cur || next.size < cur.size else next.size < cur.size
      ensures error.None? && complete ==> Inv(m.(buf := filled, state := AfterRegion(m.state)), offset, am9.view, run)
      ensures error.Some? ==> FlagsAgree(m.(buf := filled), am9.view) && !am9.view.failed
      ensures error.Some? ==> starved && error.value == OutOfMemory
    {
      hide Told, ToldNow, NamesIn, Noted, TicketRefused, TmdRefused;
      hide Align64, Le32, Inv, StateInv, FlagsAgree, Replay, Apply, IsTail, Region, AfterRegion;
      hide Collects, Collecting, Collected;
      CollectingNow(m, offset, am9.view, run);
      InvBasics(m, offset, am9.view, run);
      next, filled, complete, error := Collect(m.buf, size, start, data, cur);
      if error.None? {
        RegionGrown(m, old(offset), am9.view, run, offset, filled);
      }
    }

    method CollectRegion(data: seq<byte>, cur: Cursor, size: nat, start: nat)
        returns (next: Cursor, error: Option<Error>)
      requires Ready(data, cur, m.state) && Collects(m.state) && size == Region(m).0 && start == Region(m).1 && 0 < size
      modifies this`starved, this`m, this`offset
      ensures error.None? ==> Valid() && CursorOk(next, data)
      ensures error.None? ==> next.size < cur.size || (next == cur && m.state == AfterRegion(old(m).state))
      ensures m == old(m).(buf := m.buf, state := m.state)
      ensures m.state == old(m).state || m.state == AfterRegion(old(m).state)
      ensures error.Some? ==> Broken(error.value) && !am9.view.failed
    {
      hide Told, ToldNow, NamesIn, Noted, TicketRefused, TmdRefused;
      hide Align64, Le32, Inv, StateInv, FlagsAgree, Replay, Apply, IsTail, Region, CursorOk, AfterRegion, Collects;
      hide ContentState, Rank, TitleChecked, Refused;
      var complete: bool;
      var filled: Option<seq<byte>>;
      next, filled, complete, error := Gather(data, cur, size, start);
      m := if error.None? && complete then m.(buf := filled, state := AfterRegion(m.state)) else m.(buf := filled);
      SameSide(old(m), m);
    }

    method StepCertChainCopy(data: seq<byte>, cur: Cursor) returns (next: Cursor, error: Option<Error>)
      requires Ready(data, cur, CertChainCopy)
      modifies this`starved, this`m, this`offset
      ensures error.None? ==> Valid() && CursorOk(next, data)
      ensures error.None? ==> next.size < cur.size || (next == cur && Rank(m.state) > Rank(old(m.state)))
      ensures error.Some? ==> Broken(error.value)
      ensures Rank(m.state) < Rank(Tmd)
    {
      hide Told, ToldNow, NamesIn, Noted, TicketRefused, TmdRefused;
      hide Align64, Le32, Inv, StateInv, FlagsAgree, Replay, Apply, IsTail;
      CollectingNow(m, offset, am9.view, run);
      if CertSize(m.header) == 0 {
        NoCertChain(m, offset, am9.view, run);
        ChainSkipped(m, offset, am9.view, run, am9.names);
        m := m.(state := TicketHeader);
        assert Rank(m.state) > Rank(CertChainInstall);
        return cur, None;
      }
      next, error := CollectRegion(data, cur, CertSize(m.header), CERT_START);
    }

    method StepCertChainInstall(data: seq<byte>, cur: Cursor) returns (error: Option<Error>)
      requires Ready(data, cur, CertChainInstall)
      modifies this`m, am9
      ensures error.None? ==> Valid() && CursorOk(cur, data) && Rank(m.state) > Rank(old(m.state))
      ensures error.Some? ==> Broken(error.value)
      ensures Rank(m.state) < Rank(Tmd)
    {
      hide Told, ToldNow, NamesIn, Noted, TicketRefused, TmdRefused;
      hide Align64, Le32, Inv, StateInv, FlagsAgree, Replay, Apply, IsTail;
      CertChainNow(m, offset, am9.view, run);
      CertChainImported(m, offset, am9.view, run, m.buf.value);
      ChainTold(m, offset, am9.view, run, am9.names, overwrite, tmdTid, true);
      ChainTold(m, offset, am9.view, run, am9.names, overwrite, tmdTid, false);
      var ok := am9.ImportCertificateChain(m.buf.value);
      if !ok {
        return Some(Am9Failed);
      }
      m := m.(buf := None, state := TicketHeader);
      error := None;
    }

    method StepTicketHeader(data: seq<byte>, cur: Cursor) returns (next: Cursor, error: Option<Error>)
      requires Ready(data, cur, TicketHeader)
      modifies this`starved, this`m, this`offset
      ensures error.None? ==> Valid() && CursorOk(next, data)
      ensures error.None? ==> next.size < cur.size || (next == cur && Rank(m.state) > Rank(old(m.state)))
      ensures error.Some? ==> Broken(error.value)
      ensures Rank(m.state) < Rank(Tmd)
    {
      hide Told, ToldNow, NamesIn, Noted, TicketRefused, TmdRefused;
      hide Align64, Le32, Inv, StateInv, FlagsAgree, Replay, Apply, IsTail;
      CollectingNow(m, offset, am9.view, run);
      next, error := CollectRegion(data, cur, TICKET_HEADER_SIZE, TicketStart(m.header));
    }

    // The first part of the ticket state: check the title id, begin the install, write the header.
    method ImportTicketHeader() returns (error: Option<Error>)
      requires Valid() && !invalidated && m.state == Ticket && !m.ticketHeaderImported
      modifies this`starved, this`m, am9
      ensures m.state == Ticket && (error.None? ==> Valid() && m.ticketHeaderImported)
      ensures TitleChecked(old(m).buf, 0x1DC, error, UnexpectedTicketTitle)
      ensures error.Some? ==> Broken(error.value)
    {
      hide Be64, Refused;
      hide Told, ToldNow, NamesIn, Noted, TmdRefused;
      hide Align64, Le32, Inv, StateInv, FlagsAgree, Replay, Apply;
      TicketNow(m, offset, am9.view, run);
      InvBasics(m, offset, am9.view, run);
      var tid := Be64(m.buf.value, 0x1DC);
      TicketRead(m, offset, am9.view, run);
      if Refused(tid) {
        return Some(UnexpectedTicketTitle);
      }
      ghost var m0, v0 := m, am9.view;
      TicketHeaderInstalled(m0, offset, v0, run, None);
      var ok := am9.InstallTicketBegin();
      if !ok {
        return Some(Am9Failed);
      }
      m := m.(importingTicket := true);
      ok := am9.InstallTicketWrite(m.buf.value);
      if !ok {
        return Some(Am9Failed);
      }
      var p := Malloc(0x3000);
      TicketHeaderInstalled(m0, offset, v0, run, p);
      m := m.(buf := p);
      if p.None? {
        return Some(OutOfMemory);
      }
      m := m.(ticketHeaderImported := true);
      error := None;
    }

    // The whole ticket has been written. AM9 refuses to finish an outdated ticket, which is no error here.
    method FinishTicket() returns (ghost r: FinishResult, error: Option<Error>)
      requires Valid() && !invalidated && m.state == Ticket && m.ticketHeaderImported
      requires |m.header| == HEADER_SIZE && offset == TicketEnd(m.header)
      modifies this`m, am9
      ensures am9.view == Apply(old(am9.view), TicketFinish(r)) && (error.None? <==> r == Finished || r == Outdated)
      ensures error.None? ==> Valid() && m.state == TmdHeader
      ensures error.Some? ==> Broken(error.value) && m == old(m)
    {
      hide Told, ToldNow, NamesIn, Noted, TicketRefused, TmdRefused;
      hide Align64, Le32, Inv, StateInv, FlagsAgree, Replay, Apply;
      ghost var v := am9.view;
      var res := am9.InstallTicketFinish();
      r := res;
      TicketFinished(m, offset, v, run, r);
      if res == NotFinished {
        error := Some(Am9Failed);
        return;
      }
      m := m.(buf := None, state := TmdHeader, importingTicket := false);
      error := None;
    }

    // The next bytes of the ticket.
    method WriteTicket(data: seq<byte>, cur: Cursor) returns (next: Cursor, error: Option<Error>)
      requires Ready(data, cur, Ticket) && m.ticketHeaderImported && |m.header| == HEADER_SIZE
      requires offset < TicketEnd(m.header)
      modifies this`offset, am9
      ensures error.None? ==> Valid() && CursorOk(next, data) && next.size < cur.size
      ensures error.Some? ==> Broken(error.value)
    {
      hide Told, ToldNow, NamesIn, Noted, TicketRefused, TmdRefused;
      hide Align64, Le32, Inv, StateInv, FlagsAgree, Replay, Apply, IsTail;
      next, error := cur, None;
      var write := Min(Min(TicketEnd(m.header) - offset, cur.size), 0x3000);
      TailSlice(data, run.file, cur.chunk, write);
      TicketWritten(m, offset, am9.view, run, write);
      var ok := am9.InstallTicketWrite(data[cur.chunk..cur.chunk + write]);
      if !ok {
        error := Some(Am9Failed);
        return;
      }
      offset := offset + write;
      next := Cursor(cur.chunk + write, cur.size - write, cur.written + write);
    }

    method StepTicket(data: seq<byte>, cur: Cursor) returns (next: Cursor, error: Option<Error>)
      requires Ready(data, cur, Ticket)
      modifies this`starved, this`m, this`offset, am9
      ensures error.None? ==> Valid() && CursorOk(next, data)
      ensures error.None? ==> next.size < cur.size || (next == cur && Rank(m.state) > Rank(old(m.state)))
      ensures |old(m).header| == HEADER_SIZE
      ensures old(m).ticketHeaderImported && old(offset) == TicketEnd(old(m).header) ==>
                exists r :: am9.view == Apply(old(am9.view), TicketFinish(r)) && (error.None? <==> r != NotFinished)
      ensures error.Some? ==> Broken(error.value)
      ensures Rank(m.state) < Rank(Tmd)
    {
      hide Told, ToldNow, NamesIn, Noted, TicketRefused, TmdRefused;
      hide Align64, Le32, Inv, StateInv, FlagsAgree, Replay, Apply, IsTail;
      TicketNow(m, offset, am9.view, run);
      next, error := cur, None;
      if !m.ticketHeaderImported {
        error := ImportTicketHeader();
        if error.Some? {
          return;
        }
      }
      TicketNow(m, offset, am9.view, run);
      if offset == TicketEnd(m.header) {
        ghost var r;
        r, error := FinishTicket();
        return;
      }
      next, error := WriteTicket(data, cur);
    }

    method StepTmdHeader(data: seq<byte>, cur: Cursor) returns (next: Cursor, error: Option<Error>)
      requires Ready(data, cur, TmdHeader)
      modifies this`starved, this`m, this`offset
      ensures error.None? ==> Valid() && CursorOk(next, data)
      ensures error.None? ==> next.size < cur.size || (next == cur && Rank(m.state) > Rank(old(m.state)))
      ensures m.misalign == [] && !m.tmdHeaderImported && Rank(m.state) <= Rank(Tmd)
      ensures error.Some? ==> Broken(error.value)
    {
      hide Told, ToldNow, NamesIn, Noted, TicketRefused, TmdRefused;
      hide Align64, Le32, Inv, StateInv, FlagsAgree, Replay, Apply, IsTail;
      TmdHeaderNow(m, offset, am9.view, run);
      CollectingNow(m, offset, am9.view, run);
      next, error := CollectRegion(data, cur, TMD_HEADER_COPY, TmdStart(m.header));
    }
 
    // The title id of the TMD header decides whether the title may be installed.
    method ReadTitle() returns (refused: bool)
      requires Valid() && !invalidated && m.state == Tmd && !m.tmdHeaderImported
      modifies this`m, this`tmdTid
      ensures m == old(m).(isDlc := IsDlc(tmdTid))
      ensures old(m).buf.Some? && 0x194 <= |old(m).buf.value| && tmdTid == Be64(old(m).buf.value, 0x18C)
      ensures refused == Refused(tmdTid)
    {
      hide Be64, IsDlc, Refused;
      hide Told, ToldNow, NamesIn, Noted, TicketRefused;
      hide Align64, Le32, Inv, StateInv, FlagsAgree, Replay, Apply;
      TmdNow(m, offset, am9.view, run);
      tmdTid := Be64(m.buf.value, 0x18C);
      m := m.(isDlc := IsDlc(tmdTid));
      refused := Refused(tmdTid);
    }

    // Then the title and its TMD are begun.
    method BeginTmd() returns (error: Option<Error>)
      requires Valid() && !invalidated && m.state == Tmd && !m.tmdHeaderImported
      modifies this`m, this`tmdTid, am9
      ensures am9.Valid() && (error.None? ==> m == TmdBegun(old(m), IsDlc(tmdTid)))
      ensures Named() && (error.None? ==> ToldNow(am9.names, true, false, true, run.file))
      ensures error.None? ==>
                am9.view == Apply(Apply(old(am9.view), TitleBegin(overwrite, tmdTid, true)), TmdBegin(true))
      ensures TitleChecked(old(m).buf, 0x18C, error, UnexpectedTmdTitle)
      ensures error.Some? ==> Broken(error.value)
    {
      hide Be64, IsDlc, Refused;
      hide Told, ToldNow, NamesIn, Noted, TicketRefused;
      hide Align64, Le32, Inv, StateInv, FlagsAgree, Replay, Apply;
      ghost var m0, tid0 := m, tmdTid;
      var refused := ReadTitle();
      TitleTold(m0, offset, am9.view, run, am9.names, overwrite, tid0, tmdTid);
      TmdBegunFlags(m0, offset, am9.view, run, IsDlc(tmdTid), overwrite, tmdTid);
      if refused {
        return Some(UnexpectedTmdTitle);
      }
      error := BeginTitleAndTmd(m0);
    }

    method BeginTitleAndTmd(ghost m0: InstallData) returns (error: Option<Error>)
      requires am9.Valid() && !invalidated && m == m0.(isDlc := IsDlc(tmdTid))
      requires forall ok ::
                 Told(Noted(am9.names, TitleBegin(overwrite, tmdTid, ok)), overwrite, tmdTid, m.isDlc, run.file)
      requires FlagsAgree(m, Apply(am9.view, TitleBegin(overwrite, tmdTid, false)))
      requires FlagsAgree(m.(importingTitle := true),
                          Apply(Apply(am9.view, TitleBegin(overwrite, tmdTid, true)), TmdBegin(false)))
      modifies this`m, am9
      ensures am9.Valid() && Named() && (error.None? ==> m == TmdBegun(m0, IsDlc(tmdTid)))
      ensures error.None? ==> am9.names == Noted(old(am9.names), TitleBegin(overwrite, tmdTid, true))
      ensures error.None? ==>
                am9.view == Apply(Apply(old(am9.view), TitleBegin(overwrite, tmdTid, true)), TmdBegin(true))
      ensures error.None? || error == Some(Am9Failed)
      ensures error.Some? ==> Broken(error.value)
    {
      hide IsDlc, Told, ToldNow, NamesIn, Noted, FlagsAgree, Replay, Apply;
      var ok := am9.InstallTitleBegin(overwrite, tmdTid);
      if !ok {
        return Some(Am9Failed);
      }
      m := m.(importingTitle := true);
      ok := am9.InstallTmdBegin();
      if !ok {
        return Some(Am9Failed);
      }
      m := m.(importingTmd := true);
      error := None;
    }

    // The first part of the TMD state: begin the installs, write the header.
    method ImportTmdHeader() returns (error: Option<Error>)
      requires Valid() && !invalidated && m.state == Tmd && !m.tmdHeaderImported
      modifies this`starved, this`m, this`tmdTid, am9
      ensures error.None? ==> Valid() && m.state == Tmd && m.tmdHeaderImported && m.misalign == []
      ensures TitleChecked(old(m).buf, 0x18C, error, UnexpectedTmdTitle)
      ensures error.Some? ==> Broken(error.value)
    {
      hide Told, ToldNow, NamesIn, Noted, TicketRefused, TmdRefused;
      hide Align64, Le32, Inv, StateInv, FlagsAgree, Replay, Apply;
      TmdNow(m, offset, am9.view, run);
      error := BeginTmd();
      if error.Some? {
        return;
      }
      var ok := am9.InstallTmdWrite(m.buf.value);
      var p := Malloc(0x3000);
      TmdHeaderInstalled(old(m), offset, old(am9.view), run, m.isDlc, overwrite, tmdTid, ok, p);
      if !ok {
        return Some(Am9Failed);
      }
      m := m.(buf := p);
      if p.None? {
        return Some(OutOfMemory);
      }
      m := m.(tmdHeaderImported := true);
    }

    /** The chunk is used up inside the TMD state; what the state does next keeps the invariant. */
    ghost predicate TmdClosing()
      reads this, am9
    {
      (&& |m.header| == HEADER_SIZE && m.state == Tmd
       && am9.Valid() && run.sizeOf == am9.sizeOf && !invalidated && Named() && NamedNow()
       && FlagsAgree(m, Apply(am9.view, TmdWrite([], false)))
       && if offset == TmdEnd(m.header) then Inv(m, offset, Apply(am9.view, TmdWrite([], true)), run)
          else Inv(m.(misalign := []), offset, am9.view, run)) == true
    }

    lemma NothingLeft()
      requires Valid() && !invalidated && m.state == Tmd && m.tmdHeaderImported && m.misalign == []
      ensures TmdClosing()
    {
      hide Told, ToldNow, NamesIn, Noted, TicketRefused, TmdRefused;
      hide Align64, Le32, Inv, StateInv, FlagsAgree, Replay, Apply;
      TmdNow(m, offset, am9.view, run);
      TmdWriteNothing(m, offset, am9.view, run);
      assert m.(misalign := []) == m;
    }

    // The block held back is completed and written.
    method CompleteTmdBlock(data: seq<byte>, cur: Cursor) returns (next: Cursor, error: Option<Error>)
      requires Ready(data, cur, Tmd) && m.tmdHeaderImported && |m.header| == HEADER_SIZE
      requires offset != TmdEnd(m.header) && m.misalign != [] && |m.misalign| < 16 <= |m.misalign| + cur.size
      modifies this`m, this`offset, this`run, am9
      ensures error.None? ==> Valid() && CursorOk(next, data) && next.size < cur.size
      ensures error.None? ==> m.state == Tmd && m.tmdHeaderImported && m.misalign == []
      ensures error.None? ==> offset == BlockStart(old(offset), |old(m).misalign|)
      ensures m.header == old(m).header
      ensures error.None? ==>
                run == old(run).(intact := old(run.intact) && TmdSafe(old(m).header, old(offset), cur.size))
      ensures error.Some? ==> Broken(error.value) && run == old(run)
    {
      hide Told, ToldNow, NamesIn, Noted, TicketRefused, TmdRefused;
      hide Align64, Le32, Inv, StateInv, FlagsAgree, Replay, Apply, IsTail;
      hide Rank, Refused, TitleChecked;
      error := None;
      var diff := 16 - |m.misalign|;
      var d := data[cur.chunk..cur.chunk + diff];
      TailSlice(data, run.file, cur.chunk, diff);
      TmdNow(m, offset, am9.view, run);
      TmdBlockCompleted(m, offset, am9.view, run, d);
      var ok := am9.InstallTmdWrite(m.misalign + d);
      if !ok {
        return cur, Some(Am9Failed);
      }
      m := m.(misalign := []);
      offset := offset + diff;
      next := Cursor(cur.chunk + diff, cur.size - diff, cur.written + diff);
      run := run.(intact := run.intact && offset <= TmdEnd(m.header));
    }
 
    // Too little data for the block held back: it grows by the whole chunk.
    method AppendTmdBlock(data: seq<byte>, cur: Cursor) returns (next: Cursor)
      requires Ready(data, cur, Tmd) && m.tmdHeaderImported && |m.header| == HEADER_SIZE
      requires offset != TmdEnd(m.header) && m.misalign != [] && |m.misalign| + cur.size < 16
      modifies this`m, this`offset, this`run
      ensures TmdClosing() && CursorOk(next, data) && next.size == 0
      ensures m.header == old(m).header && old(offset) <= |run.file|
      ensures m.misalign == old(m).misalign + run.file[old(offset)..]
      ensures run == old(run).(intact := old(run.intact) && TmdSafe(old(m).header, old(offset), cur.size))
    {
      hide Told, ToldNow, NamesIn, Noted, TicketRefused, TmdRefused;
      hide Align64, Le32, Inv, StateInv, FlagsAgree, Replay, Apply, IsTail;
      ghost var m0 := m;
      TmdNow(m, offset, am9.view, run);
      var held := m.misalign + data[cur.chunk..cur.chunk + cur.size];
      TailSlice(data, run.file, cur.chunk, cur.size);
      assert run.file[offset..offset + cur.size] == run.file[offset..];
      TmdBlockLost(m, offset, am9.view, run, cur.size, held);
      m := m.(misalign := held);
      offset := offset + cur.size;
      next := Cursor(cur.chunk, 0, cur.written + cur.size);
      run := run.(intact := false);
      assert m.(misalign := []) == m0.(misalign := []);
    }

    // Write `write` bytes of the chunk, none of them beyond the TMD.
    method FlushTmd(data: seq<byte>, cur: Cursor, write: nat) returns (next: Cursor, error: Option<Error>)
      requires if cur.size == 0 then TmdClosing() && offset == TmdEnd(m.header) && CursorOk(cur, data)
               else Ready(data, cur, Tmd) && m.tmdHeaderImported && m.misalign == [] && |m.header| == HEADER_SIZE
      requires write <= cur.size
      requires offset <= TmdEnd(m.header) ==>
                 offset + write == TmdEnd(m.header) || (write % 16 == 0 && offset + write <= TmdEnd(m.header))
      modifies this`offset, am9
      ensures error.None? ==> Valid() && CursorOk(next, data) && next.size == cur.size - write
      ensures error.None? ==> offset == old(offset) + write
      ensures error.Some? ==> Broken(error.value)
    {
      hide Told, ToldNow, NamesIn, Noted, TicketRefused, TmdRefused;
      hide Align64, Le32, Inv, StateInv, FlagsAgree, Replay, Apply, IsTail;
      var d := data[cur.chunk..cur.chunk + write];
      if cur.size == 0 {
        assert d == [];
      } else {
        TailSlice(data, run.file, cur.chunk, write);
        TmdWritten(m, offset, am9.view, run, write);
      }
      var ok := am9.InstallTmdWrite(d);
      if !ok {
        return cur, Some(Am9Failed);
      }
      offset := offset + write;
      next, error := Cursor(cur.chunk + write, cur.size - write, cur.written + write), None;
    }

    // Keep the last bytes of the chunk for the next block.
    method HoldBackTmd(data: seq<byte>, cur: Cursor, diff: nat) returns (next: Cursor)
      requires if cur.size == 0 then TmdClosing() && CursorOk(cur, data)
               else Ready(data, cur, Tmd) && m.tmdHeaderImported && m.misalign == [] && |m.header| == HEADER_SIZE
      requires cur.size == diff < 16 && (offset < TmdEnd(m.header) ==> offset + diff < TmdEnd(m.header))
      requires offset != TmdEnd(m.header)
      modifies this`m, this`offset
      ensures Valid() && CursorOk(next, data) && next.size == 0 && m.state == Tmd
      ensures m.header == old(m).header && offset == old(offset) + diff != TmdEnd(m.header) && |m.misalign| == diff
    {
      hide Told, ToldNow, NamesIn, Noted, TicketRefused, TmdRefused;
      hide Align64, Le32, Inv, StateInv, FlagsAgree, Replay, Apply, IsTail;
      if diff == 0 {
        assert data[cur.chunk..cur.chunk + diff] == [];
      } else {
        TailSlice(data, run.file, cur.chunk, diff);
        TmdHeldBack(m, offset, am9.view, run, diff);
      }
      m := m.(misalign := data[cur.chunk..cur.chunk + diff]);
      offset := offset + diff;
      next := Cursor(cur.chunk, cur.size - diff, cur.written + diff);
    }

    // The end of the TMD state: write whole blocks, hold back the rest of the chunk.
    method WriteTmdRest(data: seq<byte>, cur: Cursor) returns (next: Cursor, error: Option<Error>)
      requires if cur.size == 0 then TmdClosing() && CursorOk(cur, data)
               else Ready(data, cur, Tmd) && m.tmdHeaderImported && m.misalign == [] && |m.header| == HEADER_SIZE
      requires TmdEnd(m.header) < U32_LIMIT && |run.file| < U32_LIMIT
      modifies this`m, this`offset, am9
      ensures error.None? ==> Valid() && CursorOk(next, data) && next.size <= cur.size && m.state == Tmd
      ensures error.None? && cur.size > 0 && old(offset) != TmdEnd(old(m).header) ==> next.size < cur.size
      ensures error.None? && next.size > 0 ==> m.misalign == []
      ensures m.header == old(m).header && (error.None? && offset == TmdEnd(m.header) ==> m == old(m))
      ensures error.None? ==> old(offset) <= offset && (old(offset) <= TmdEnd(m.header) ==> offset <= TmdEnd(m.header))
      ensures error.None? && offset < TmdEnd(m.header) ==> |m.misalign| == (offset - old(offset)) % 16
      ensures error.Some? ==> Broken(error.value)
    {
      hide Told, ToldNow, NamesIn, Noted, TicketRefused, TmdRefused;
      hide Align64, Le32, Inv, StateInv, FlagsAgree, Replay, Apply, IsTail;
      var remaining := Sub32(TmdEnd(m.header), offset);
      var lastWrite := cur.size >= remaining;
      var write := if lastWrite then remaining else Min(Min(remaining, cur.size), 0x3000);
      if !lastWrite {
        var diff := write % 16;
        write := write - diff;
        if write == 0 {
          next := HoldBackTmd(data, cur, diff);
          return next, None;
        }
      }
      next, error := FlushTmd(data, cur, write);
    }

    // All of the TMD has arrived: finish it and turn to the contents.
    method FinishTmd() returns (error: Option<Error>)
      requires Valid() && !invalidated && m.state == Tmd && m.tmdHeaderImported
      requires |m.header| == HEADER_SIZE && offset == TmdEnd(m.header) && offset < |run.file|
      modifies this`m, this`run, am9
      ensures error.None? ==> Valid() && m.state == Contents && m.importingContent == old(m).importingContent
      ensures run == if error.None? then old(run).(leads := [old(m).misalign]) else old(run)
      ensures error.Some? ==> Broken(error.value)
    {
      hide Told, ToldNow, NamesIn, Noted, TicketRefused, TmdRefused;
      hide Align64, Le32, Inv, StateInv, FlagsAgree, Replay, Apply;
      TmdFinished(m, offset, am9.view, run);
      ContentsAfterHeader(am9.names, run.file);
      var ok := am9.InstallTmdFinish();
      if !ok {
        return Some(Am9Failed);
      }
      run := run.(leads := [m.misalign]);
      m := m.(buf := None, state := Contents, conStart := Align64(TmdEnd(m.header)), importingTmd := false);
      error := None;
    }

    // Bytes of an unfinished block were held back: complete the block or add to it.
    method DepleteTmd(data: seq<byte>, cur: Cursor) returns (next: Cursor, error: Option<Error>)
      requires Ready(data, cur, Tmd) && m.tmdHeaderImported && |m.header| == HEADER_SIZE
      requires offset != TmdEnd(m.header) && m.misalign != [] && |m.misalign| < 16
      modifies this`m, this`offset, this`run, am9
      ensures m.header == old(m).header && run == old(run).(intact := run.intact)
      ensures error.None? ==> CursorOk(next, data) && next.size < cur.size
      ensures error.None? && next.size == 0 ==> TmdClosing()
      ensures error.None? && Appends(|old(m).misalign|, cur.size) ==>
                next.size == 0 && m.misalign == old(m).misalign + run.file[old(offset)..]
      ensures error.None? && !Appends(|old(m).misalign|, cur.size) ==>
                m.misalign == [] && offset == BlockStart(old(offset), |old(m).misalign|)
      ensures error.None? && next.size > 0 ==> Valid() && !invalidated
      ensures error.None? && next.size > 0 ==> m.state == Tmd && m.tmdHeaderImported && m.misalign == []
      ensures error.None? ==> run.intact == (old(run).intact && TmdSafe(old(m).header, old(offset), cur.size))
      ensures error.Some? ==> Broken(error.value)
    {
      hide Told, ToldNow, NamesIn, Noted, TicketRefused, TmdRefused;
      hide Align64, Le32, Inv, StateInv, FlagsAgree, Replay, Apply, IsTail, TmdClosing;
      if |m.misalign| + cur.size >= 16 {
        next, error := CompleteTmdBlock(data, cur);
        if error.None? {
          NothingLeft();
        }
      } else {
        next := AppendTmdBlock(data, cur);
        error := None;
      }
    }

    // The next bytes of the TMD.
    method WriteTmd(data: seq<byte>, cur: Cursor) returns (next: Cursor, error: Option<Error>)
      requires Ready(data, cur, Tmd) && m.tmdHeaderImported
      requires |m.header| == HEADER_SIZE && offset != TmdEnd(m.header)
      modifies this`m, this`offset, this`run, am9
      ensures error.None? ==> Valid() && CursorOk(next, data) && next.size < cur.size && m.state == Tmd
      ensures error.None? && next.size > 0 ==> m.misalign == []
      ensures run == old(run).(intact := run.intact) && m.header == old(m).header
      ensures error.None? ==> run.intact == (old(run).intact && TmdSafe(old(m).header, old(offset), cur.size))
      ensures error.None? && Appends(|old(m).misalign|, cur.size) ==> next.size == 0
      ensures error.None? && offset == TmdEnd(m.header) ==>
                m.misalign == if Appends(|old(m).misalign|, cur.size) then old(m).misalign + run.file[old(offset)..]
                              else []
      ensures |old(m).misalign| < 16
      ensures error.None? && old(offset) < TmdEnd(m.header) ==>
                Moved(TmdEnd(m.header), old(offset), |old(m).misalign|, offset, |m.misalign|, cur.size)
      ensures error.Some? ==> Broken(error.value)
    {
      hide Told, ToldNow, NamesIn, Noted, TicketRefused, TmdRefused;
      hide Align64, Le32, Inv, StateInv, FlagsAgree, Replay, Apply, IsTail, TmdClosing, TmdEnd;
      TmdNow(m, offset, am9.view, run);
      next, error := cur, None;
      if m.misalign != [] {
        next, error := DepleteTmd(data, cur);
        if error.Some? {
          return;
        }
      }
      next, error := WriteTmdRest(data, next);
    }

    method StepTmd(data: seq<byte>, cur: Cursor) returns (next: Cursor, error: Option<Error>)
      requires Ready(data, cur, Tmd)
      modifies this`starved, this`m, this`offset, this`tmdTid, this`run, am9
      ensures error.None? ==> Valid() && CursorOk(next, data)
      ensures error.None? ==> next.size < cur.size || (next == cur && Rank(m.state) > Rank(old(m.state)))
      ensures error.None? && next.size > 0 && m.state == Tmd ==> m.misalign == []
      ensures |old(m).header| == HEADER_SIZE && run == old(run).(intact := run.intact, leads := run.leads)
      ensures error.None? ==> run.intact == (old(run).intact && TmdSafe(old(m).header, old(offset), cur.size))
      ensures error.None? && m.state == Contents ==> !m.importingContent
      ensures error.None? ==> LeftoverNow() == old(LeftoverNow())
      ensures error.None? ==> WalkRest(m, offset, run) == old(WalkRest(m, offset, run))
      ensures error.Some? ==> Broken(error.value)
    {
      hide Told, ToldNow, NamesIn, Noted, TicketRefused, TmdRefused;
      hide Align64, Le32, Inv, StateInv, FlagsAgree, Replay, Apply, IsTail, WalkRest, Moved;
      TmdNow(m, offset, am9.view, run);
      next, error := cur, None;
      ghost var safe := TmdSafe(m.header, offset, cur.size);
      if !m.tmdHeaderImported {
        error := ImportTmdHeader();
        if error.Some? {
          return;
        }
        TmdNow(m, offset, am9.view, run);
      }
      assert safe == TmdSafe(m.header, offset, cur.size);
      if offset == TmdEnd(m.header) {
        error := FinishTmd();
        if error.None? {
          WalkFinished(old(m), old(offset), old(am9.view), old(run), m, am9.view, run);
        }
        return;
      }
      next, error := WriteTmd(data, cur);
      if error.None? {
        WalkTmd(old(m), old(offset), old(am9.view), old(run), m, offset, am9.view, run);
      }
    }
 
    // Downloadable content: finish the title, commit it, begin it again.
    method CommitTitle() returns (error: Option<Error>)
      requires Valid() && !invalidated && m.state == Contents && CommitNeeded(m)
      modifies this`m, am9
      ensures am9.Valid()
      ensures error.None? ==> Committed(m, offset, am9.view, run) && m == old(m).(numBatch := 0, batchSize := 0)
      ensures error.None? ==> Named() && NamedNow()
      ensures error.None? ==>
        am9.view == Apply(Apply(Apply(old(am9.view), TitleFinish(true)), TitlesCommit(tmdTid, true)),
                          TitleBegin(false, tmdTid, true))
      ensures error.Some? ==> Broken(error.value)
    {
      hide Told, ToldNow, NamesIn, Noted, TicketRefused, TmdRefused;
      hide Align64, Le32, Inv, StateInv, FlagsAgree, Replay, Apply, Committed, CommitNeeded;
      CommitFlags(m, offset, am9.view, run, tmdTid);
      CommitDone(m, offset, am9.view, run, tmdTid);
      CommitTold(am9.names, overwrite, tmdTid, m.isDlc, m.tmdHeaderImported, run.file);
      var ok := am9.InstallTitleFinish();
      if !ok {
        return Some(Am9Failed);
      }
      m := m.(importingTitle := false);
      ok := am9.InstallTitlesCommit(tmdTid);
      if !ok {
        return Some(Am9Failed);
      }
      ok := am9.InstallTitleBegin(false, tmdTid);
      if !ok {
        return Some(Am9Failed);
      }
      m := m.(importingTitle := true, numBatch := 0, batchSize := 0);
      error := None;
    }

    // Announce the next 64 enabled contents at most; cindex stays where it is.
    method SetUpBatch() returns (error: Option<Error>)
      requires am9.Valid() && run.sizeOf == am9.sizeOf && Named() && NamedNow()
      requires !invalidated && Committed(m, offset, am9.view, run)
      modifies this`m, am9
      ensures am9.Valid() && m == old(m).(batchSize := m.batchSize) && Named() && NamedNow()
      ensures error.None? ==> Searching(m, offset, am9.view, run)
      ensures error.Some? ==> Broken(error.value)
    {
      hide Told, ToldNow, NamesIn, Noted, TicketRefused, TmdRefused;
      hide Align64, Le32, Inv, StateInv, FlagsAgree, Replay, Apply, Committed, Enabled, EnabledFrom;
      CommittedNow(m, offset, am9.view, run);
      var batch := new nat[64];
      var batchSize, i := 0, m.cindex;
      assert [] + EnabledFrom(m.bitmap, i) == EnabledFrom(m.bitmap, i);
      while i < MAX_INDEX && batchSize < 64
        invariant m.cindex <= i <= MAX_INDEX && batchSize <= 64
        invariant BatchUpTo(m.bitmap, m.cindex, i, batch[..batchSize])
        modifies batch
      {
        BatchGrown(m.bitmap, m.cindex, i, batch[..batchSize]);
        if Enabled(m.bitmap, i) {
          ghost var before := batch[..batchSize];
          batch[batchSize] := i;
          batchSize := batchSize + 1;
          assert batch[..batchSize] == before + [i];
        }
        i := i + 1;
      }
      error := None;
      if batchSize == 0 {
        assert batch[..batchSize] == [];
        BatchEmpty(m, offset, am9.view, run, i);
        assert m.(batchSize := 0) == m;
        return;
      }
      BatchAnnounced(m, offset, am9.view, run, i, batch[..batchSize]);
      BatchSearches(m, offset, am9.view, run, i, batch[..batchSize]);
      m := m.(batchSize := batchSize);
      var ok := am9.CreateImportContentContexts(batch[..batchSize]);
      if !ok {
        error := Some(Am9Failed);
      }
    }

    // An enabled content was found: begin it and learn where it lies.
    method BeginContent() returns (error: Option<Error>)
      requires am9.Valid() && run.sizeOf == am9.sizeOf && Named() && NamedNow()
      requires !invalidated && Searching(m, offset, am9.view, run)
      requires |m.bitmap| == 0x2000 && m.cindex < MAX_INDEX && Enabled(m.bitmap, m.cindex) && m.conStart <= offset
      modifies this`m, am9
      ensures error.None? ==> Valid() && m.state == Contents && m.importingContent && m.cindex == old(m).cindex
      ensures error.None? ==> m.conStart == Align64(offset) && m.conEnd == m.conStart + run.sizeOf(m.cindex) % U32_LIMIT
      ensures error.None? ==> Settled(m, offset)
      ensures error.Some? ==> Broken(error.value)
    {
      hide Told, ToldNow, NamesIn, Noted, TicketRefused, TmdRefused;
      hide Align64, Le32, Inv, StateInv, FlagsAgree, Replay, Apply, Enabled, Searching, CommitNeeded;
      SearchingNow(m, offset, am9.view, run);
      SearchFound(m, offset, am9.view, run);
      ContentBegun(m, offset, am9.view, run);
      var ok := am9.InstallContentBegin(m.cindex);
      if !ok {
        return Some(Am9Failed);
      }
      m := m.(importingContent := true);
      var size;
      ok, size := am9.GetCurrentImportContentContext(m.cindex);
      if !ok {
        return Some(Am9Failed);
      }
      m := m.(conStart := Align64(offset), conEnd := Align64(offset) + size);
      error := None;
    }

    // Begin the next enabled content, or turn to the final state if there is none.
    method FindContent() returns (error: Option<Error>)
      requires am9.Valid() && run.sizeOf == am9.sizeOf && Named() && NamedNow()
      requires !invalidated && Searching(m, offset, am9.view, run)
      requires m.conStart <= offset && (offset < |run.file| || NoneDone(m))
      modifies this`m, am9
      ensures error.None? ==> Valid() && m.cindex >= old(m).cindex
      ensures error.None? ==> m.state == Finalize || (m.state == Contents && m.importingContent)
      ensures error.None? ==> Settled(m, offset)
      ensures error.Some? ==> Broken(error.value)
    {
      hide Told, ToldNow, NamesIn, Noted, TicketRefused, TmdRefused;
      hide Align64, Le32, Inv, StateInv, FlagsAgree, Replay, Apply, Enabled, EnabledBelow, Searching;
      SearchEnabled();
      SearchingNow(m, offset, am9.view, run);
      if m.cindex < MAX_INDEX {
        error := BeginContent();
      } else {
        if NoneDone(m) { NoneDoneAtAll(m); }
        SearchedAll(m, offset, am9.view, run);
        m := m.(state := Finalize);
        error := None;
      }
    }

    // Move the content index to the next enabled one, or to the end.
    method SearchEnabled()
      requires Searching(m, offset, am9.view, run)
      modifies this`m
      ensures Searching(m, offset, am9.view, run)
      ensures m == old(m).(cindex := m.cindex) && old(m).cindex <= m.cindex && NoneDone(m) == NoneDone(old(m))
      ensures |m.bitmap| == 0x2000 && (m.cindex < MAX_INDEX ==> Enabled(m.bitmap, m.cindex))
    {
      hide Searching, Enabled, NoneDone;
      var c := m.cindex;
      SearchingNow(m, offset, am9.view, run);
      while c < MAX_INDEX && !Enabled(m.bitmap, c)
        invariant m == old(m) && |m.bitmap| == 0x2000
        invariant m.cindex <= c <= MAX_INDEX && Searching(m.(cindex := c), offset, am9.view, run)
        invariant NoneDone(m.(cindex := c)) == NoneDone(m)
      {
        SearchNext(m.(cindex := c), offset, am9.view, run);
        NoneDoneNext(m.(cindex := c));
        c := c + 1;
      }
      m := m.(cindex := c);
    }
 
    // The bytes held back are completed to a block and written.
    method CompleteContentBlock(data: seq<byte>, cur: Cursor) returns (next: Cursor, error: Option<Error>)
      requires Valid() && !invalidated && m.state == Contents && m.importingContent && CursorOk(cur, data)
      requires m.conStart <= offset && m.misalign != [] && |m.misalign| < 16 <= |m.misalign| + cur.size
      modifies this`m, this`offset, am9
      ensures error.None? ==> Valid() && SameContent(old(m), m) && m.misalign == [] && offset > old(offset)
      ensures error.None? ==> CursorOk(next, data) && next.size < cur.size
      ensures error.Some? ==> Broken(error.value)
    {
      hide Told, ToldNow, NamesIn, Noted, TicketRefused, TmdRefused;
      hide Align64, Le32, Inv, StateInv, FlagsAgree, Replay, Apply, IsTail;
      var diff := 16 - |m.misalign|;
      var d := data[cur.chunk..cur.chunk + diff];
      TailSlice(data, run.file, cur.chunk, diff);
      ContentBlockCompleted(m, offset, am9.view, run, d);
      var ok := am9.InstallContentWrite(m.misalign + d);
      if !ok {
        return cur, Some(Am9Failed);
      }
      m := m.(misalign := []);
      offset := offset + diff;
      next, error := Cursor(cur.chunk + diff, cur.size - diff, cur.written + diff), None;
    }

    // The first `n` bytes left of the chunk join the bytes held back.
    method HoldBackContent(data: seq<byte>, cur: Cursor, n: nat) returns (next: Cursor)
      requires Valid() && !invalidated && m.state == Contents && m.importingContent && CursorOk(cur, data)
      requires m.conStart <= offset && n == cur.size && |m.misalign| + n < 16
      requires m.misalign == [] && offset <= m.conEnd ==> offset + n <= m.conEnd
      modifies this`m, this`offset
      ensures Valid() && SameContent(old(m), m) && offset == old(offset) + n
      ensures CursorOk(next, data) && next.size == 0
    {
      hide Told, ToldNow, NamesIn, Noted, TicketRefused, TmdRefused;
      hide Align64, Le32, Inv, StateInv, FlagsAgree, Replay, Apply, IsTail;
      var d := data[cur.chunk..cur.chunk + n];
      ContentsNow(m, offset, am9.view, run);
      if n == 0 {
        assert d == run.file[offset..offset + n];
      } else {
        TailSlice(data, run.file, cur.chunk, n);
      }
      ContentHeldBack(m, offset, am9.view, run, d);
      m := m.(misalign := m.misalign + d);
      offset := offset + n;
      next := Cursor(cur.chunk, cur.size - n, cur.written + n);
    }

    method FlushContent(data: seq<byte>, cur: Cursor, write: nat) returns (next: Cursor, error: Option<Error>)
      requires Valid() && !invalidated && m.state == Contents && m.importingContent && CursorOk(cur, data)
      requires m.conStart <= offset && m.misalign == [] && 0 < write <= cur.size
      requires offset <= m.conEnd ==> offset + write == m.conEnd || (write % 16 == 0 && offset + write <= m.conEnd)
      modifies this`offset, am9
      ensures error.None? ==> Valid() && offset > old(offset) && CursorOk(next, data) && next.size < cur.size
      ensures error.Some? ==> Broken(error.value)
    {
      hide Told, ToldNow, NamesIn, Noted, TicketRefused, TmdRefused;
      hide Align64, Le32, Inv, StateInv, FlagsAgree, Replay, Apply, IsTail;
      TailSlice(data, run.file, cur.chunk, write);
      ContentWritten(m, offset, am9.view, run, write);
      var ok := am9.InstallContentWrite(data[cur.chunk..cur.chunk + write]);
      if !ok {
        return cur, Some(Am9Failed);
      }
      offset := offset + write;
      next, error := Cursor(cur.chunk + write, cur.size - write, cur.written + write), None;
    }

    // Write whole blocks up to the end of the content; hold back less than a block.
    method WriteContentRest(data: seq<byte>, cur: Cursor) returns (next: Cursor, error: Option<Error>)
      requires Valid() && !invalidated && m.state == Contents && m.importingContent && CursorOk(cur, data)
      requires m.conStart <= offset && m.misalign == [] && cur.size > 0
      modifies this`m, this`offset, am9
      ensures error.None? ==> Valid() && SameContent(old(m), m) && offset >= old(offset)
      ensures error.None? ==> CursorOk(next, data) && next.size <= cur.size
      ensures error.None? ==> next.size < cur.size || offset == m.conEnd
      ensures error.Some? ==> Broken(error.value)
    {
      hide Told, ToldNow, NamesIn, Noted, TicketRefused, TmdRefused;
      hide Align64, Le32, Inv, StateInv, FlagsAgree, Replay, Apply, IsTail;
      ContentsNow(m, offset, am9.view, run);
      next, error := cur, None;
      var remaining := Sub32(m.conEnd, offset);
      var lastWrite := cur.size >= remaining;
      var write := if lastWrite then remaining else Min(remaining, cur.size);
      if !lastWrite {
        var diff := write % 16;
        write := write - diff;
        if write == 0 {
          next := HoldBackContent(data, cur, diff);
          return;
        }
      }
      if write == 0 {
        return;
      }
      next, error := FlushContent(data, cur, write);
    }

    method FinishContent() returns (error: Option<Error>)
      requires Valid() && !invalidated && m.state == Contents && m.importingContent
      requires m.conStart <= offset == m.conEnd
      modifies this`m, this`run, am9
      ensures error.None? ==> Valid() && m == AfterContent(old(m)) && Settled(m, offset)
      ensures run == if error.None? then LeadLeft(old(m), old(run)) else old(run)
      ensures error.Some? ==> Broken(error.value)
    {
      hide Told, ToldNow, NamesIn, Noted, TicketRefused, TmdRefused;
      hide Align64, Le32, Inv, StateInv, FlagsAgree, Replay, Apply;
      ContentFinished(m, offset, am9.view, run);
      var ok := am9.InstallContentFinish();
      if !ok {
        return Some(Am9Failed);
      }
      run := LeadLeft(m, run);
      m := AfterContent(m);
      error := None;
    }

    // The next bytes of the content being imported: first the block held back, then the rest.
    method MoveContent(data: seq<byte>, cur: Cursor) returns (next: Cursor, error: Option<Error>)
      requires Valid() && !invalidated && m.state == Contents && m.importingContent && CursorOk(cur, data)
      requires m.conStart <= offset && |m.misalign| < 16
      modifies this`m, this`offset, am9
      ensures error.None? ==> Valid() && CursorOk(next, data) && next.size <= cur.size && SameContent(old(m), m)
      ensures error.None? ==> old(offset) <= offset && (cur.size > 0 ==> next.size < cur.size || offset == m.conEnd)
      ensures error.Some? ==> Broken(error.value)
    {
      hide Told, ToldNow, NamesIn, Noted, TicketRefused, TmdRefused;
      hide Align64, Le32, Inv, StateInv, FlagsAgree, Replay, Apply, IsTail;
      next, error := cur, None;
      if m.misalign != [] {
        if |m.misalign| + next.size >= 16 {
          next, error := CompleteContentBlock(data, next);
          if error.Some? {
            return;
          }
        } else {
          next := HoldBackContent(data, next, next.size);
        }
      }
      if next.size > 0 {
        next, error := WriteContentRest(data, next);
      }
    }

    // The next bytes of the content being imported, and its end if it is reached.
    method WriteContent(data: seq<byte>, cur: Cursor) returns (next: Cursor, error: Option<Error>)
      requires Valid() && !invalidated && m.state == Contents && m.importingContent && CursorOk(cur, data)
      requires m.conStart <= offset
      modifies this`m, this`offset, this`run, am9
      ensures run == old(run).(leads := run.leads) && old(run).leads <= run.leads
      ensures error.None? ==> Valid() && CursorOk(next, data) && next.size <= cur.size && m.state == Contents
      ensures error.None? && cur.size > 0 ==> next.size < cur.size || m.cindex > old(m).cindex
      ensures error.None? ==> Settled(m, offset)
      ensures error.Some? ==> Broken(error.value)
    {
      hide Told, ToldNow, NamesIn, Noted, TicketRefused, TmdRefused;
      hide Align64, Le32, Inv, StateInv, FlagsAgree, Replay, Apply, IsTail;
      ContentsNow(m, offset, am9.view, run);
      next, error := MoveContent(data, cur);
      if error.None? && offset == m.conEnd {
        error := FinishContent();
      }
    }

    // Nothing is being imported: set up the batch that is due, then look for a content.
    method NextContent(ghost committed: bool) returns (error: Option<Error>)
      requires am9.Valid() && run.sizeOf == am9.sizeOf && Named() && NamedNow()
      requires !invalidated && m.state == Contents && m.conStart <= offset
      requires if committed then Committed(m, offset, am9.view, run)
               else Inv(m, offset, am9.view, run) && !CommitNeeded(m) && !m.importingContent
      requires offset < |run.file| || NoneDone(m)
      modifies this`m, am9
      ensures error.None? ==> Valid() && m.cindex >= old(m).cindex
      ensures error.None? ==> m.state == Finalize || (m.state == Contents && m.importingContent)
      ensures error.None? ==> Settled(m, offset)
      ensures error.Some? ==> Broken(error.value)
    {
      hide Told, ToldNow, NamesIn, Noted, TicketRefused, TmdRefused;
      hide Align64, Le32, Inv, StateInv, FlagsAgree, Replay, Apply, Searching, Committed, CommitNeeded, EnabledBelow;
      if committed {
        CommittedNow(m, offset, am9.view, run);
      } else {
        SearchStarts(m, offset, am9.view, run);
      }
      if m.isDlc && m.numImported >= 1 && m.batchSize == 0 {
        error := SetUpBatch();
        if error.Some? {
          return;
        }
      }
      error := FindContent();
    }

    // A commit, if one is due.
    method CommitIfDue() returns (ghost committed: bool, error: Option<Error>)
      requires Valid() && !invalidated && m.state == Contents
      modifies this`m, am9
      ensures am9.Valid() && committed == CommitNeeded(old(m)) && (committed ==> !old(m).importingContent)
      ensures error.None? ==> m == if committed then old(m).(numBatch := 0, batchSize := 0) else old(m)
      ensures error.None? ==> if committed then Committed(m, offset, am9.view, run) else Inv(m, offset, am9.view, run)
      ensures error.None? ==> Named() && NamedNow()
      ensures error.Some? ==> Broken(error.value)
    {
      hide Told, ToldNow, NamesIn, Noted, TicketRefused, TmdRefused;
      hide Align64, Le32, Inv, StateInv, FlagsAgree, Replay, Apply, Searching, Committed;
      committed, error := CommitNeeded(m), None;
      if CommitNeeded(m) {
        CommitFlags(m, offset, am9.view, run, tmdTid);
        error := CommitTitle();
      }
    }

    // What follows the padding: a commit if one is due, then the next content or more of the open one.
    method TurnContents(data: seq<byte>, cur: Cursor) returns (next: Cursor, error: Option<Error>)
      requires Valid() && !invalidated && m.state == Contents && m.conStart <= offset && CursorOk(cur, data)
      requires m.importingContent || offset < |run.file| || NoneDone(m)
      modifies this`m, this`offset, this`run, am9
      ensures run == old(run).(leads := run.leads) && old(run).leads <= run.leads
      ensures error.None? ==> Valid() && CursorOk(next, data) && next.size <= cur.size
      ensures error.None? ==> (m.state == Finalize || m.state == Contents) && Settled(m, offset)
      ensures error.None? && cur.size > 0 ==>
                next.size < cur.size || m.state == Finalize || m.cindex > old(m).cindex
                || (m.cindex == old(m).cindex && m.importingContent && !old(m).importingContent)
      ensures error.Some? ==> Broken(error.value)
    {
      hide Told, ToldNow, NamesIn, Noted, TicketRefused, TmdRefused;
      hide Align64, Le32, Inv, StateInv, FlagsAgree, Replay, Apply, IsTail, Searching, Committed, CommitNeeded;
      hide CursorOk, Settled, EnabledBelow;
      ghost var committed;
      committed, error := CommitIfDue();
      next := cur;
      if error.None? {
        next, error := NextOrWrite(committed, data, cur);
      }
    }

    // The next content, or more of the open one.
    method NextOrWrite(ghost committed: bool, data: seq<byte>, cur: Cursor) returns (next: Cursor, error: Option<Error>)
      requires am9.Valid() && run.sizeOf == am9.sizeOf && Named() && NamedNow()
      requires !invalidated && m.state == Contents && m.conStart <= offset
      requires if committed then Committed(m, offset, am9.view, run) && !m.importingContent
               else Inv(m, offset, am9.view, run) && !CommitNeeded(m)
      requires CursorOk(cur, data) && (m.importingContent || offset < |run.file| || NoneDone(m))
      modifies this`m, this`offset, this`run, am9
      ensures run == old(run).(leads := run.leads) && old(run).leads <= run.leads
      ensures error.None? ==> Valid() && CursorOk(next, data) && next.size <= cur.size
      ensures error.None? ==> (m.state == Finalize || m.state == Contents) && Settled(m, offset)
      ensures error.None? && cur.size > 0 ==>
                next.size < cur.size || m.state == Finalize || m.cindex > old(m).cindex
                || (m.cindex == old(m).cindex && m.importingContent && !old(m).importingContent)
      ensures error.Some? ==> Broken(error.value)
    {
      hide Told, ToldNow, NamesIn, Noted, TicketRefused, TmdRefused;
      hide Align64, Le32, Inv, StateInv, FlagsAgree, Replay, Apply, IsTail, Searching, Committed, CommitNeeded;
      hide CursorOk, Settled, EnabledBelow;
      next := cur;
      if !m.importingContent {
        error := NextContent(committed);
      } else {
        next, error := WriteContent(data, next);
      }
    }

    method StepContents(data: seq<byte>, cur: Cursor) returns (next: Cursor, error: Option<Error>)
      requires Ready(data, cur, Contents)
      modifies this`m, this`offset, this`run, am9
      ensures run == old(run).(leads := run.leads) && old(run).leads <= run.leads
      ensures error.None? ==> Valid() && CursorOk(next, data) && next.size <= cur.size
      ensures error.None? ==> (m.state == Finalize || m.state == Contents) && Settled(m, offset)
      ensures error.None? ==> next.size < cur.size || m.state == Finalize || m.cindex > old(m).cindex
                              || (m.cindex == old(m).cindex && m.importingContent && !old(m).importingContent)
      ensures error.Some? ==> Broken(error.value)
    {
      hide Told, ToldNow, NamesIn, Noted, TicketRefused, TmdRefused;
      hide Align64, Le32, Inv, StateInv, FlagsAgree, Replay, Apply, IsTail;
      var stop: bool;
      next, stop := SkipPadding(m.conStart, data, cur);
      PaddingSkipped(m, old(offset), am9.view, run, offset);
      PaddingNow(m, old(offset), am9.view, run);
      error := None;
      if !stop {
        next, error := TurnContents(data, next);
      }
    }

    /** How much of the padding and of the meta region lies behind the offset; a file without one
        has nothing left. */
    static function MetaLeft(header: seq<byte>, at: nat): nat
      requires |header| == HEADER_SIZE
    {
      if MetaSize(header) != 0 && at < MetaEnd(header) then Sub32(MetaEnd(header), at) else 0
    }

    // The final state ends the call after skipping the meta region, if there is one.
    method StepFinalize(data: seq<byte>, cur: Cursor) returns (next: Cursor, finished: bool)
      requires Ready(data, cur, Finalize)
      modifies this`offset
      ensures Valid() && CursorOk(next, data) && (!finished ==> next.size < cur.size)
      ensures |m.header| == HEADER_SIZE && (finished <==> MetaLeft(m.header, old(offset)) <= cur.size)
      ensures offset == old(offset) + Min(MetaLeft(m.header, old(offset)), cur.size)
    {
      hide Told, ToldNow, NamesIn, Noted, TicketRefused, TmdRefused;
      hide Align64, Le32, Inv, StateInv, FlagsAgree, Replay, IsTail;
      InvBasics(m, offset, am9.view, run);
      next, finished := cur, true;
      if MetaSize(m.header) != 0 && offset < MetaEnd(m.header) {
        var diff := Sub32(MetaEnd(m.header), offset);
        if cur.size < diff {
          MetaSkipped(m, offset, am9.view, run, offset + cur.size);
          offset := offset + cur.size;
          next, finished := Cursor(cur.chunk, 0, cur.written + cur.size), false;
        } else {
          MetaSkipped(m, offset, am9.view, run, offset + diff);
          offset := offset + diff;
          next := Cursor(cur.chunk + diff, cur.size - diff, cur.written + diff);
        }
      }
    }

    /** What a step has to make smaller for the write loop to end. */
    ghost predicate Closer(m0: InstallData, cur: Cursor, next: Cursor)
      reads this
    {
      || next.size < cur.size
      || (next.size == cur.size &&
          (|| Rank(m.state) > Rank(m0.state)
           || (m.state == m0.state && m0.cindex < m.cindex <= MAX_INDEX)
           || (m.state == m0.state && m.cindex == m0.cindex && m.importingContent && !m0.importingContent)))
    }

    /** No TMD byte has been lost, and the rest of this call will not lose any. */
    ghost predicate Safe(size: nat)
      reads this
    {
      run.intact && (m.state == Tmd && |m.header| == HEADER_SIZE && size > 0 ==> TmdSafe(m.header, offset, size))
    }

    /** The TMD bytes that go to AM9 as the start of the first content, if `more` arrives next: those
        still held back at the TMD's end, which a call leaves there that ends exactly there without
        completing the block held back. */
    ghost function Leftover(more: seq<byte>): seq<byte>
      reads this
    {
      if ContentState(m) then (if run.leads == [] then [] else run.leads[0])
      else if m.state != Tmd || |m.header| != HEADER_SIZE then []
      else if offset == TmdEnd(m.header) then m.misalign
      else if Appends(|m.misalign|, |more|) && offset + |more| == TmdEnd(m.header) then m.misalign + more
      else []
    }

    /** The same for the rest of the piece being consumed. */
    ghost function LeftoverNow(): seq<byte>
      reads this
    {
      if offset <= |run.file| then Leftover(run.file[offset..]) else []
    }

    // One turn of the switch, up to the TMD header.
    method StepEarly(data: seq<byte>, cur: Cursor) returns (next: Cursor, error: Option<Error>)
      requires Ready(data, cur, m.state) && Rank(m.state) < Rank(Tmd)
      modifies this`starved, this`m, this`offset, am9
      ensures error.None? ==> Valid() && CursorOk(next, data) && Closer(old(m), cur, next)
      ensures error.None? && m.state == Tmd ==> m.misalign == [] && !m.tmdHeaderImported
      ensures Rank(m.state) <= Rank(Tmd)
      ensures error.Some? ==> Broken(error.value)
    {
      hide Told, ToldNow, NamesIn, Noted, TicketRefused, TmdRefused;
      hide Align64, Le32, Inv, StateInv, FlagsAgree, Replay, IsTail;
      error := None;
      match m.state
      case HeaderCopy =>
        next := StepHeader(data, cur);
      case ContentIndexCopy =>
        next := StepContentIndex(data, cur);
      case CertChainCopy =>
        next, error := StepCertChainCopy(data, cur);
      case CertChainInstall =>
        error := StepCertChainInstall(data, cur);
        next := cur;
      case TicketHeader =>
        next, error := StepTicketHeader(data, cur);
      case Ticket =>
        next, error := StepTicket(data, cur);
      case TmdHeader =>
        next, error := StepTmdHeader(data, cur);
    }

    // One turn of the switch behind the TMD.
    method StepLate(data: seq<byte>, cur: Cursor) returns (next: Cursor, finished: bool, error: Option<Error>)
      requires Ready(data, cur, m.state) && ContentState(m)
      modifies this`m, this`offset, this`run, am9
      ensures error.None? ==> Valid() && CursorOk(next, data) && ContentState(m) && (finished ==> m.state == Finalize)
      ensures error.None? ==> Settled(m, offset) && (!finished ==> Closer(old(m), cur, next))
      ensures run == old(run).(leads := run.leads) && old(run).leads != [] && old(run).leads <= run.leads
      ensures error.None? ==> WalkRest(m, offset, run) == old(WalkRest(m, offset, run))
      ensures error.Some? ==> Broken(error.value)
    {
      hide Told, ToldNow, NamesIn, Noted, TicketRefused, TmdRefused;
      hide Align64, Le32, Inv, StateInv, FlagsAgree, Replay, IsTail, WalkRest;
      finished, error := false, None;
      WalkLate(m, offset, am9.view, run);
      if m.state == Finalize {
        next, finished := StepFinalize(data, cur);
      } else {
        next, error := StepContents(data, cur);
        if error.None? && m.state == Contents {
          ContentsNow(m, offset, am9.view, run);
        }
      }
      if error.None? {
        WalkLate(m, offset, am9.view, run);
      }
    }

    // One turn of the switch.
    method Step(data: seq<byte>, cur: Cursor) returns (next: Cursor, finished: bool, error: Option<Error>)
      requires Ready(data, cur, m.state)
      modifies this`starved, this`m, this`offset, this`tmdTid, this`run, am9
      ensures error.None? ==> Valid() && CursorOk(next, data) && (finished ==> m.state == Finalize)
      ensures error.None? ==> Settled(m, offset) && (!finished ==> Closer(old(m), cur, next))
      ensures run.file == old(run).file && run.sizeOf == old(run).sizeOf
      ensures error.None? ==> Safe(next.size) == old(Safe(cur.size))
      ensures error.None? ==> LeftoverNow() == old(LeftoverNow())
      ensures error.None? ==> WalkRest(m, offset, run) == old(WalkRest(m, offset, run))
      ensures error.Some? ==> Broken(error.value)
    {
      hide Told, ToldNow, NamesIn, Noted, TicketRefused, TmdRefused;
      hide Align64, Le32, Inv, StateInv, FlagsAgree, Replay, IsTail, WalkRest;
      finished, error := false, None;
      InvBasics(m, offset, am9.view, run);
      if ContentState(m) {
        next, finished, error := StepLate(data, cur);
      } else {
        if m.state == Tmd {
          next, error := StepTmd(data, cur);
        } else {
          next, error := StepEarly(data, cur);
          if error.None? {
            WalkEarly(old(m), old(offset), old(am9.view), run, m, offset, am9.view);
          }
        }
        if error.None? && m.state == Tmd {
          TmdNow(m, offset, am9.view, run);
        }
      }
    }
 
    /** AM9 has installed the enabled contents of the file, in order. Each has the bytes held back when
        it began, then its region, without the bytes held back when it was finished; unless something
        was lost these are none, so each has exactly its region. */
    ghost predicate AllInstalled()
      reads this, am9
    {
      && |m.header| == HEADER_SIZE && |m.bitmap| == 0x2000 && INDEX_END <= |run.file|
      && m.bitmap == run.file[HEADER_SIZE..INDEX_END]
      && (var enabled := EnabledBelow(m.bitmap, MAX_INDEX);
          && ContentsEnd(TmdEnd(m.header), enabled, run.sizeOf) <= |run.file|
          && Chained(am9.view.installed, run.leads, CiaFormat.Contents(run.file, TmdEnd(m.header), enabled, run.sizeOf))
          && (NothingLost() ==>
                && am9.view.installed == CiaFormat.Contents(run.file, TmdEnd(m.header), enabled, run.sizeOf)
                && am9.view.blocksOnly))
    }

    /** No TMD byte was lost, or at least none was held back when the contents began; and the contents
        are whole AES blocks. */
    ghost predicate NothingLost()
      reads this
    {
      (run.intact || Leftover([]) == []) && |m.bitmap| == 0x2000 && BlockSizes(m.bitmap, run.sizeOf)
    }

    /** In the final state the install is complete. */
    lemma FinalMeansInstalled()
      requires Valid() && !invalidated && m.state == Finalize
      ensures AllInstalled()
    {
      hide Align64, Le32, Enabled, EnabledBelow, EnabledFrom, BatchInv, BlockSizes;
      if NothingLost() {
        ChainedExact(am9.view.installed, run.leads,
                     CiaFormat.Contents(run.file, TmdEnd(m.header), EnabledBelow(m.bitmap, MAX_INDEX), run.sizeOf));
      }
    }

    // The piece becomes the rest of the file.
    ghost method Accept(data: seq<byte>)
      requires Valid() && !invalidated && offset <= |run.file| && GoodInput(run.file[..offset] + data) && data != []
      modifies this`run
      ensures Valid() && run == old(run).(file := old(run.file[..offset]) + data)
      ensures CursorOk(Cursor(0, |data|, 0), data) && run.file[offset..] == data
      ensures |m.header| == HEADER_SIZE && (m.state != Tmd ==> !InTmdBlock(m.header, offset))
    {
      hide Told, ToldNow, NamesIn, Noted, TicketRefused, TmdRefused;
      hide Align64, Le32, Inv, StateInv, FlagsAgree, Replay, IsTail, InTmdBlock;
      OutsideTmd(m, offset, am9.view, run);
      NextChunk(m, offset, am9.view, run, data);
      FileContinued(m, offset, am9.view, run, am9.names, overwrite, tmdTid, data);
      run := run.(file := run.file[..offset] + data);
      WholeTail(data, run.file, offset);
    }

    /** Nothing of the piece is left, or the final state has ended the call. */
    lemma PieceEnds()
      requires Valid() && !invalidated && offset <= |run.file| && (offset == |run.file| || m.state == Finalize)
      ensures Safe(|run.file| - offset) == run.intact && LeftoverNow() == Leftover([])
      ensures WalkRest(m, offset, run) == WalkOf(m, offset, run)
      ensures m.state == Finalize ==> AllInstalled()
    {
      hide Inv, StateInv, AllInstalled, NothingLost, WalkRest, WalkOf;
      if m.state == Finalize {
        FinalMeansInstalled();
        WalkLate(m, offset, am9.view, run);
      } else {
        WalkEnd(m, offset, run);
      }
    }

    // The write loop.
    method Consume(data: seq<byte>) returns (r: WriteResult)
      requires Valid() && !invalidated && Settled(m, offset) && CursorOk(Cursor(0, |data|, 0), data)
      modifies this`starved, this`m, this`offset, this`tmdTid, this`invalidated, this`run, am9
      ensures Valid() && run.sizeOf == old(run).sizeOf && run.file == old(run).file
      ensures !invalidated ==> Settled(m, offset)
      ensures r.Failed? <==> invalidated
      ensures r.Failed? ==> Blamed(r.error)
      ensures r.Done? ==>
                if r.written.Some? then r.written.value == |data| && offset == |run.file| else m.state == Finalize
      ensures r.Done? && m.state == Finalize ==> AllInstalled()
      ensures r.Done? ==> run.intact == old(Safe(|data|)) && Leftover([]) == old(LeftoverNow())
      ensures r.Done? ==> WalkOf(m, offset, run) == old(WalkRest(m, offset, run))
    {
      hide Told, ToldNow, NamesIn, Noted, TicketRefused, TmdRefused;
      hide Align64, Le32, Inv, StateInv, FlagsAgree, Replay, IsTail, AllInstalled, WalkRest, WalkOf;
      hide Safe, Leftover, LeftoverNow;
      var cur := Cursor(0, |data|, 0);
      while true
        invariant Valid() && !invalidated && CursorOk(cur, data) && Settled(m, offset)
        invariant run.sizeOf == old(run).sizeOf && run.file == old(run).file
        invariant Safe(cur.size) == old(Safe(|data|)) && LeftoverNow() == old(LeftoverNow())
        invariant WalkRest(m, offset, run) == old(WalkRest(m, offset, run))
        decreases cur.size, Rank(Finalize) - Rank(m.state), MAX_INDEX - m.cindex, if m.importingContent then 0 else 1
      {
        if cur.size == 0 {
          PieceEnds();
          return Done(Some(cur.written));
        }
        var next, finished, error := Step(data, cur);
        if error.Some? {
          BrokenFlags();
          m := m.(buf := None);
          invalidated := true;
          return Failed(error.value);
        }
        if finished {
          PieceEnds();
          return Done(None);
        }
        cur := next;
      }
    }

    /** Take the next piece of the file. A call that succeeds has consumed the piece and says so,
        except that the final state may end it early without setting `written`; a call that
        fails, and every later one, leaves AM9 alone. Whether the TMD stays intact, and which of its
        bytes go into the first content, is settled by where the piece begins and how long it is. */
    method Write(data: seq<byte>) returns (r: WriteResult)
      requires Valid() && (!invalidated ==> Settled(m, offset))
      requires !invalidated ==> offset <= |run.file| && GoodInput(run.file[..offset] + data)
      modifies this`starved, this`m, this`offset, this`tmdTid, this`invalidated, this`run, am9
      ensures Valid() && run.sizeOf == old(run).sizeOf && (!invalidated ==> Settled(m, offset))
      ensures old(invalidated) ==> r == Failed(Invalidated) && unchanged(this, am9)
      ensures !old(invalidated) && data == [] ==> r == Done(Some(0)) && unchanged(this, am9)
      ensures !old(invalidated) && data != [] ==> run.file == old(run.file[..offset]) + data
      ensures r.Failed? <==> invalidated
      ensures !old(invalidated) && r.Failed? ==> Blamed(r.error)
      ensures !old(invalidated) && data != [] && r.Done? ==>
                if r.written.Some? then r.written.value == |data| && offset == |run.file| else m.state == Finalize
      ensures r.Done? && m.state == Finalize ==> AllInstalled()
      ensures !old(invalidated) && data != [] && r.Done? ==>
                run.intact == old(run.intact && |m.header| == HEADER_SIZE && TmdSafe(m.header, offset, |data|))
      ensures r.Done? ==> Leftover([]) == old(Leftover(data))
      ensures !old(invalidated) && data != [] && r.Done? ==>
                WalkOf(m, offset, run) == old(WalkOn(m, offset, run, run.file[..offset] + data, |data|))
    {
      hide Told, ToldNow, NamesIn, Noted, TicketRefused, TmdRefused;
      hide Align64, Le32, Inv, StateInv, FlagsAgree, Replay, IsTail, AllInstalled, NothingLost, CursorOk, InTmdBlock;
      hide Settled;
      hide Next;
      if invalidated {
        return Failed(Invalidated);
      }
      if |data| == 0 {
        if m.state == Finalize { FinalMeansInstalled(); }
        return Done(Some(0));
      }
      Accept(data);
      r := Consume(data);
    }

    lemma BrokenFlags()
      requires am9.Valid() && FlagsAgree(m, am9.view)
      ensures FlagsAgree(m.(buf := None), am9.view)
    {
    }
  }
}
