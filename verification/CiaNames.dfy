/** What AM9 is told by name: the title to install and the certificate chain. */
module CiaNames {
  import opened Bytes
  import opened Am9
  import opened CiaFormat
  import opened CiaInvariant
  import opened CiaSteps

  /** tid is the title id in the file's TMD. */
  predicate TmdTitle(file: seq<byte>, tid: nat) {
    && HEADER_SIZE <= |file| && TmdStart(file[..HEADER_SIZE]) + TMD_HEADER_COPY <= |file|
    && tid == Be64(file, TmdStart(file[..HEADER_SIZE]) + 0x18C)
  }

  predicate HasChain(file: seq<byte>) {
    HEADER_SIZE <= |file| && CertSize(file[..HEADER_SIZE]) != 0
  }

  predicate IsChain(file: seq<byte>, chain: seq<byte>) {
    && HasChain(file) && CERT_START + CertSize(file[..HEADER_SIZE]) <= |file|
    && chain == file[CERT_START..CERT_START + CertSize(file[..HEADER_SIZE])]
  }

  /** A begin or a commit of the title; a begin overwrites or not. */
  predicate ForTitle(c: Call, tid: nat, overwrite: bool) {
    match c
    case TitleBegin(over, id, _) => id == tid && over == overwrite
    case TitlesCommit(id, _) => id == tid
    case _ => false
  }

  /** Every begin and commit is for the title of the TMD, the first of them is a begin and the only one
      that may overwrite; the certificate chain has been handed over once at most. */
  ghost predicate Told(n: Names, overwrite: bool, tid: nat, isDlc: bool, file: seq<byte>) {
    && (n.titles != [] ==> TmdTitle(file, tid) && (isDlc <==> IsDlc(tid)) && n.titles[0].TitleBegin?)
    && (forall k :: 0 <= k < |n.titles| ==> ForTitle(n.titles[k], tid, overwrite && k == 0))
    && (n.chains == [] || (|n.chains| == 1 && IsChain(file, n.chains[0])))
  }

  /** As long as no call has failed: the title has been begun with the TMD's header, and the chain has been
      handed over as its state was left. */
  predicate ToldNow(n: Names, imported: bool, contents: bool, behindChain: bool, file: seq<byte>) {
    && (n.titles != [] <==> imported) && (contents ==> imported)
    && (n.chains != [] <==> behindChain && HasChain(file))
  }

  // The certificate chain.

  lemma SameSide(m: InstallData, m1: InstallData)
    requires Collects(m.state) && (m1.state == m.state || m1.state == AfterRegion(m.state))
    ensures ContentState(m1) == ContentState(m)
    ensures (Rank(m1.state) > Rank(CertChainInstall)) == (Rank(m.state) > Rank(CertChainInstall))
  {
  }

  lemma NoChain(m: InstallData, at: nat, v: View, run: Run)
    requires Inv(m, at, v, run) && m.state == CertChainCopy && |m.header| == HEADER_SIZE && CertSize(m.header) == 0
    ensures !HasChain(run.file)
  {
    hide Align64, Le32;
  }

  lemma ChainSkipped(m: InstallData, at: nat, v: View, run: Run, n: Names)
    requires Inv(m, at, v, run) && m.state == CertChainCopy && |m.header| == HEADER_SIZE && CertSize(m.header) == 0
    requires ToldNow(n, m.tmdHeaderImported, false, false, run.file)
    ensures ToldNow(n, m.tmdHeaderImported, false, true, run.file)
  {
    hide Inv, HasChain;
    NoChain(m, at, v, run);
  }

  lemma ChainRead(m: InstallData, at: nat, v: View, run: Run)
    requires Inv(m, at, v, run) && m.state == CertChainInstall
    ensures m.buf.Some? && HasChain(run.file) && IsChain(run.file, m.buf.value)
  {
    hide Align64, Le32;
  }

  lemma ChainTold(m: InstallData, at: nat, v: View, run: Run, n: Names, overwrite: bool, tid: nat, ok: bool)
    requires Inv(m, at, v, run) && m.state == CertChainInstall && m.buf.Some?
    requires Told(n, overwrite, tid, m.isDlc, run.file) && ToldNow(n, m.tmdHeaderImported, false, false, run.file)
    ensures var n1 := Noted(n, ImportCertificate(m.buf.value, ok));
            Told(n1, overwrite, tid, m.isDlc, run.file) && ToldNow(n1, m.tmdHeaderImported, false, true, run.file)
  {
    hide Inv, HasChain, IsChain, TmdTitle, IsDlc, ForTitle;
    ChainRead(m, at, v, run);
  }

  // The title.

  lemma TitleRead(m: InstallData, at: nat, v: View, run: Run)
    requires Inv(m, at, v, run) && m.state == Tmd && !m.tmdHeaderImported
    ensures m.buf.Some? && 0x194 <= |m.buf.value| && TmdTitle(run.file, Be64(m.buf.value, 0x18C))
  {
    hide Align64, Le32;
  }

  lemma TicketRead(m: InstallData, at: nat, v: View, run: Run)
    requires Inv(m, at, v, run) && m.state == Ticket && !m.ticketHeaderImported
    ensures m.buf.Some? && |m.buf.value| == TICKET_HEADER_SIZE && HEADER_SIZE <= |run.file|
    ensures var start := TicketStart(run.file[..HEADER_SIZE]);
            start + TICKET_HEADER_SIZE <= |run.file| && Be64(m.buf.value, 0x1DC) == Be64(run.file, start + 0x1DC)
  {
    hide Align64, Le32;
  }

  /** Reading the title id and beginning the title, however it ends. */
  lemma TitleTold(m: InstallData, at: nat, v: View, run: Run, n: Names, overwrite: bool, tid: nat, newTid: nat)
    requires Inv(m, at, v, run) && m.state == Tmd && !m.tmdHeaderImported && m.buf.Some? && 0x194 <= |m.buf.value|
    requires Told(n, overwrite, tid, m.isDlc, run.file) && newTid == Be64(m.buf.value, 0x18C)
    requires ToldNow(n, false, false, true, run.file)
    ensures Told(n, overwrite, newTid, IsDlc(newTid), run.file) && TmdTitle(run.file, newTid)
    ensures forall ok :: Told(Noted(n, TitleBegin(overwrite, newTid, ok)), overwrite, newTid, IsDlc(newTid), run.file)
    ensures forall ok :: ToldNow(Noted(n, TitleBegin(overwrite, newTid, ok)), true, false, true, run.file)
  {
    hide Inv, Be64, TmdTitle, IsDlc, HasChain, IsChain;
    TitleRead(m, at, v, run);
  }

  lemma ContentsAfterHeader(n: Names, file: seq<byte>)
    requires ToldNow(n, true, false, true, file)
    ensures ToldNow(n, true, true, true, file)
  {
    hide HasChain;
  }

  lemma CallTold(n: Names, overwrite: bool, tid: nat, isDlc: bool, file: seq<byte>, c: Call)
    requires Told(n, overwrite, tid, isDlc, file) && n.titles != [] && ForTitle(c, tid, false)
    ensures Told(Noted(n, c), overwrite, tid, isDlc, file) && Noted(n, c).titles != []
  {
    hide TmdTitle, IsDlc, HasChain, IsChain;
  }

  /** The two calls of a commit that name the title, however they end. */
  lemma CommitTold(n: Names, overwrite: bool, tid: nat, isDlc: bool, imported: bool, file: seq<byte>)
    requires Told(n, overwrite, tid, isDlc, file) && ToldNow(n, imported, true, true, file)
    ensures forall ok :: Told(Noted(n, TitlesCommit(tid, ok)), overwrite, tid, isDlc, file)
    ensures forall ok ::
              Told(Noted(Noted(n, TitlesCommit(tid, true)), TitleBegin(false, tid, ok)), overwrite, tid, isDlc, file)
    ensures ToldNow(Noted(Noted(n, TitlesCommit(tid, true)), TitleBegin(false, tid, true)), imported, true, true, file)
  {
    hide Told, HasChain;
    var n1 := Noted(n, TitlesCommit(tid, true));
    CallTold(n, overwrite, tid, isDlc, file, TitlesCommit(tid, true));
    forall ok ensures Told(Noted(n, TitlesCommit(tid, ok)), overwrite, tid, isDlc, file) {
      CallTold(n, overwrite, tid, isDlc, file, TitlesCommit(tid, ok));
    }
    forall ok ensures Told(Noted(n1, TitleBegin(false, tid, ok)), overwrite, tid, isDlc, file) {
      CallTold(n1, overwrite, tid, isDlc, file, TitleBegin(false, tid, ok));
    }
  }

  // The next piece of the file.

  /** What has been told lies before the offset. */
  lemma ToldBehind(m: InstallData, at: nat, v: View, run: Run)
    requires Inv(m, at, v, run) && at <= |run.file|
    ensures m.tmdHeaderImported ==>
              HEADER_SIZE <= |run.file| && TmdStart(run.file[..HEADER_SIZE]) + TMD_HEADER_COPY <= at
    ensures Rank(m.state) > Rank(CertChainInstall) ==> HEADER_SIZE <= at
    ensures Rank(m.state) > Rank(CertChainInstall) && HasChain(run.file) ==>
              CERT_START + CertSize(run.file[..HEADER_SIZE]) <= at
  {
    hide Le32;
  }

  /** The file goes on differently behind the offset. */
  lemma FileContinued(m: InstallData, at: nat, v: View, run: Run, n: Names, overwrite: bool, tid: nat, data: seq<byte>)
    requires Inv(m, at, v, run) && at <= |run.file| && Told(n, overwrite, tid, m.isDlc, run.file)
    requires ToldNow(n, m.tmdHeaderImported, ContentState(m), Rank(m.state) > Rank(CertChainInstall), run.file)
    ensures Told(n, overwrite, tid, m.isDlc, run.file[..at] + data)
    ensures ToldNow(n, m.tmdHeaderImported, ContentState(m), Rank(m.state) > Rank(CertChainInstall),
                    run.file[..at] + data)
  {
    hide Inv, IsDlc, ForTitle, Le32, Align64;
    ToldBehind(m, at, v, run);
    var file, longer := run.file, run.file[..at] + data;
    if HEADER_SIZE <= at {
      assert longer[..HEADER_SIZE] == file[..HEADER_SIZE];
      if m.tmdHeaderImported {
        SameTitle(file, longer, TmdStart(file[..HEADER_SIZE]) + 0x18C);
      }
      if n.chains != [] {
        var end := CERT_START + CertSize(file[..HEADER_SIZE]);
        assert longer[CERT_START..end] == file[CERT_START..end];
      }
    }
  }

  lemma SameTitle(file: seq<byte>, longer: seq<byte>, at: nat)
    requires at + 8 <= |file| && at + 8 <= |longer| && file[at..at + 8] == longer[at..at + 8]
    ensures Be64(file, at) == Be64(longer, at)
  {
    var here, there := file[at..at + 8], longer[at..at + 8];
    assert forall k :: 0 <= k < 8 ==> here[k] == file[at + k] && there[k] == longer[at + k];
  }

  // The log itself.

  predicate NamesTitle(c: Call) {
    c.TitleBegin? || c.TitlesCommit?
  }

  /** The bytes of the title id in the file's TMD. */
  function TitleBytes(file: seq<byte>): seq<byte> {
    if HEADER_SIZE <= |file| && TmdStart(file[..HEADER_SIZE]) + 0x194 <= |file| then
      file[TmdStart(file[..HEADER_SIZE]) + 0x18C..TmdStart(file[..HEADER_SIZE]) + 0x194]
    else []
  }

  /** Every begin and every commit in the log carries the title id of the file's TMD; the first begin
      overwrites if it is to, and no later one does. */
  ghost predicate TitlesOf(log: seq<Call>, overwrite: bool, file: seq<byte>) {
    forall k :: 0 <= k < |log| && NamesTitle(log[k]) ==>
      && BeBytes(log[k].titleId, 8) == TitleBytes(file) && log[k].titleId < U32_LIMIT * U32_LIMIT
      && (log[k].TitleBegin? ==>
            (log[k].overwrite <==> overwrite && forall j :: 0 <= j < k ==> !log[j].TitleBegin?))
  }

  /** The certificate chain of the file has been handed over once at most, and no other has been. */
  ghost predicate ChainsOf(log: seq<Call>, file: seq<byte>) {
    forall k :: 0 <= k < |log| && log[k].ImportCertificate? ==>
      && IsChain(file, log[k].chain)
      && forall j :: 0 <= j < |log| && log[j].ImportCertificate? ==> j == k
  }

  lemma {:induction false} NamesGrow(log: seq<Call>, k: nat)
    requires k <= |log|
    ensures NamesIn(log[..k]).titles <= NamesIn(log).titles && NamesIn(log[..k]).chains <= NamesIn(log).chains
  {
    if k < |log| {
      var init := log[..|log| - 1];
      NamesGrow(init, k);
      assert init[..k] == log[..k];
    } else {
      assert log[..k] == log;
    }
  }

  /** Where a call stands among those that name something. */
  lemma NamedAt(log: seq<Call>, k: nat)
    requires k < |log|
    ensures var n, before := NamesIn(log), NamesIn(log[..k]);
            && (NamesTitle(log[k]) ==> |before.titles| < |n.titles| && n.titles[|before.titles|] == log[k])
            && (log[k].ImportCertificate? ==>
                  |before.chains| < |n.chains| && n.chains[|before.chains|] == log[k].chain)
  {
    assert log[..k + 1][..k] == log[..k];
    assert NamesIn(log[..k + 1]) == Noted(NamesIn(log[..k]), log[k]);
    NamesGrow(log, k + 1);
  }

  lemma {:induction false} TitlesInLog(log: seq<Call>, j: nat) returns (k: nat)
    requires j < |NamesIn(log).titles|
    ensures k < |log| && log[k] == NamesIn(log).titles[j]
  {
    var init := log[..|log| - 1];
    if j < |NamesIn(init).titles| {
      k := TitlesInLog(init, j);
    } else {
      k := |log| - 1;
    }
  }

  lemma {:induction false} ChainInLog(log: seq<Call>) returns (k: nat)
    requires NamesIn(log).chains != []
    ensures k < |log| && log[k].ImportCertificate?
  {
    var init := log[..|log| - 1];
    if NamesIn(init).chains != [] {
      k := ChainInLog(init);
    } else {
      k := |log| - 1;
    }
  }

  lemma TitleIdBytes(file: seq<byte>, tid: nat)
    requires TmdTitle(file, tid)
    ensures BeBytes(tid, 8) == TitleBytes(file) && tid < U32_LIMIT * U32_LIMIT
    ensures IsDlc(tid) <==> TitleBytes(file)[..4] == [0x00, 0x04, 0x00, 0x8C]
  {
    var at := TmdStart(file[..HEADER_SIZE]) + 0x18C;
    hide TmdStart, Be64, BeBytes, IsDlc;
    Be64Bytes(file, at);
    IdBytes(file, at);
    assert file[at..at + 8][..4] == file[at..at + 4];
  }

  lemma ToldLog(log: seq<Call>, overwrite: bool, tid: nat, isDlc: bool, file: seq<byte>)
    requires Told(NamesIn(log), overwrite, tid, isDlc, file)
    ensures TitlesOf(log, overwrite, file) && ChainsOf(log, file)
  {
    var n := NamesIn(log);
    forall k | 0 <= k < |log| && NamesTitle(log[k])
      ensures BeBytes(log[k].titleId, 8) == TitleBytes(file) && log[k].titleId < U32_LIMIT * U32_LIMIT
      ensures log[k].TitleBegin? ==>
                (log[k].overwrite <==> overwrite && forall j :: 0 <= j < k ==> !log[j].TitleBegin?)
    {
      TitleLogged(log, overwrite, tid, isDlc, file, k);
    }
    forall k, j | 0 <= k < |log| && log[k].ImportCertificate? && 0 <= j < |log| && log[j].ImportCertificate?
      ensures IsChain(file, log[k].chain) && j == k
    {
      NamedAt(log, k);
      if j < k {
        TwoChains(log, j, k);
      } else if k < j {
        TwoChains(log, k, j);
      }
    }
  }

  lemma TwoChains(log: seq<Call>, j: nat, k: nat)
    requires j < k < |log| && log[j].ImportCertificate? && log[k].ImportCertificate?
    ensures |NamesIn(log).chains| >= 2
  {
    NamedAt(log, k);
    NamedAt(log[..k], j);
  }

  lemma TitleLogged(log: seq<Call>, overwrite: bool, tid: nat, isDlc: bool, file: seq<byte>, k: nat)
    requires Told(NamesIn(log), overwrite, tid, isDlc, file) && k < |log| && NamesTitle(log[k])
    ensures BeBytes(log[k].titleId, 8) == TitleBytes(file) && log[k].titleId < U32_LIMIT * U32_LIMIT
    ensures log[k].TitleBegin? ==>
              (log[k].overwrite <==> overwrite && forall j :: 0 <= j < k ==> !log[j].TitleBegin?)
  {
    hide BeBytes, TitleBytes, IsDlc, TmdTitle, IsChain;
    NamedAt(log, k);
    TitleIdBytes(file, tid);
    var before := NamesIn(log[..k]);
    if before.titles == [] {
      forall j | 0 <= j < k ensures !log[j].TitleBegin? {
        NamedAt(log[..k], j);
      }
    } else {
      NamesGrow(log, k);
      var j := TitlesInLog(log[..k], 0);
      assert log[j].TitleBegin?;
    }
  }

  lemma TitleBegun(log: seq<Call>, overwrite: bool, tid: nat, isDlc: bool, file: seq<byte>)
    requires Told(NamesIn(log), overwrite, tid, isDlc, file)
    ensures NamesIn(log).titles != [] <==> exists k :: 0 <= k < |log| && log[k].TitleBegin?
  {
    hide IsDlc, TmdTitle, IsChain, Noted, NamesIn;
    if NamesIn(log).titles != [] {
      var k := TitlesInLog(log, 0);
    } else {
      forall k | 0 <= k < |log| ensures !log[k].TitleBegin? {
        NamedAt(log, k);
      }
    }
  }

  /** What holds of the beginning of a file holds of the file. */
  lemma NamesOfLonger(log: seq<Call>, overwrite: bool, file: seq<byte>, longer: seq<byte>)
    requires TitlesOf(log, overwrite, file) && ChainsOf(log, file) && file <= longer
    ensures TitlesOf(log, overwrite, longer) && ChainsOf(log, longer)
    ensures TitleBytes(file) != [] ==> TitleBytes(longer) == TitleBytes(file)
    ensures HEADER_SIZE <= |file| ==> HasChain(longer) == HasChain(file)
  {
    hide CertSize, TmdStart, BeBytes;
    if HEADER_SIZE <= |file| {
      assert longer[..HEADER_SIZE] == file[..HEADER_SIZE];
    }
  }
}
