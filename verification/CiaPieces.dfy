/** A file cut into pieces: which ways of cutting it lose TMD bytes, and what an install has come to when
    all pieces have been handed over. */
module CiaPieces {
  import opened Bytes
  import opened Am9
  import opened CiaFormat
  import opened CiaInvariant
  import opened CiaWalk
  import opened CiaSteps
  import opened CiaContentSteps
  import opened CiaTheorems

  function Concat(pieces: seq<seq<byte>>): seq<byte> {
    if pieces == [] then [] else Concat(pieces[..|pieces| - 1]) + pieces[|pieces| - 1]
  }

  /** A piece that begins at this offset of the file loses no TMD byte. */
  predicate PieceSafe(file: seq<byte>, at: nat, size: nat) {
    size > 0 && HEADER_SIZE <= |file| ==> TmdSafe(file[..HEADER_SIZE], at, size)
  }

  predicate SafeUpTo(file: seq<byte>, pieces: seq<seq<byte>>, n: nat)
    requires n <= |pieces|
  {
    forall k :: 0 <= k < n ==> PieceSafe(file, |Concat(pieces[..k])|, |pieces[k]|)
  }

  /** No piece begins in the middle of a TMD block that it does not complete inside the TMD. */
  predicate PiecesSafe(pieces: seq<seq<byte>>) {
    SafeUpTo(Concat(pieces), pieces, |pieces|)
  }

  lemma {:induction false} ConcatPrefix(pieces: seq<seq<byte>>, k: nat)
    requires k <= |pieces|
    ensures Concat(pieces[..k]) <= Concat(pieces)
  {
    if k == |pieces| {
      assert pieces[..k] == pieces;
    } else {
      ConcatPrefix(pieces[..|pieces| - 1], k);
      assert pieces[..|pieces| - 1][..k] == pieces[..k];
    }
  }

  lemma ConcatNext(pieces: seq<seq<byte>>, k: nat)
    requires k < |pieces|
    ensures Concat(pieces[..k + 1]) == Concat(pieces[..k]) + pieces[k]
  {
    assert pieces[..k + 1][..k] == pieces[..k];
  }

  lemma ConcatGrows(pieces: seq<seq<byte>>, j: nat, k: nat)
    requires j <= k <= |pieces|
    ensures Concat(pieces[..j]) <= Concat(pieces[..k]) <= Concat(pieces)
  {
    ConcatPrefix(pieces[..k], j);
    assert pieces[..k][..j] == pieces[..j];
    ConcatPrefix(pieces, k);
  }

  /** Neither before the TMD's blocks nor behind them a piece can lose TMD bytes. */
  lemma SafeOutside(header: seq<byte>, at: nat, size: nat)
    requires |header| == HEADER_SIZE && (at < HEADER_SIZE || TmdEnd(header) <= at)
    ensures TmdSafe(header, at, size)
  {
    hide Le32;
  }

  lemma PieceSafeKept(prefix: seq<byte>, file: seq<byte>, at: nat, size: nat)
    requires prefix <= file && at <= |prefix| && (at + size <= |prefix| || HEADER_SIZE <= |prefix|)
    ensures PieceSafe(prefix, at, size) == PieceSafe(file, at, size)
  {
    if HEADER_SIZE <= |prefix| {
      assert prefix[..HEADER_SIZE] == file[..HEADER_SIZE];
    } else if HEADER_SIZE <= |file| {
      SafeOutside(file[..HEADER_SIZE], at, size);
    }
  }

  lemma GoodPrefix(file: seq<byte>, prefix: seq<byte>)
    requires GoodInput(file) && prefix <= file
    ensures GoodInput(prefix)
  {
    if HEADER_SIZE <= |prefix| {
      assert prefix[..HEADER_SIZE] == file[..HEADER_SIZE];
    }
  }

  lemma PieceBehind(file: seq<byte>, prefix: seq<byte>, header: seq<byte>, at: nat, size: nat)
    requires prefix <= file && HEADER_SIZE <= |prefix| && header == prefix[..HEADER_SIZE]
    requires TmdEnd(header) <= |prefix| <= at
    ensures PieceSafe(file, at, size)
  {
    assert header == file[..HEADER_SIZE];
    SafeOutside(header, at, size);
  }

  lemma EmptyConcat(pieces: seq<seq<byte>>)
    ensures Concat(pieces[..0]) == []
  {
  }

  lemma {:induction false} WholeBlocksBefore(pieces: seq<seq<byte>>)
    requires forall k :: 0 <= k < |pieces| ==> |pieces[k]| % 16 == 0
    ensures |Concat(pieces)| % 16 == 0
  {
    if pieces != [] {
      var before, last := pieces[..|pieces| - 1], pieces[|pieces| - 1];
      WholeBlocksBefore(before);
      WholeSum(|Concat(before)|, |last|);
    }
  }

  lemma WholeSum(a: nat, b: nat)
    requires a % 16 == 0
    ensures (a + b) % 16 == b % 16
  {
  }

  /** Pieces of whole AES blocks, but for the last one, lose nothing. */
  lemma BlockPiecesSafe(pieces: seq<seq<byte>>)
    requires forall k :: 0 <= k < |pieces| - 1 ==> |pieces[k]| % 16 == 0
    ensures PiecesSafe(pieces)
  {
    hide Concat, PieceSafe;
    var file := Concat(pieces);
    forall k | 0 <= k < |pieces| ensures PieceSafe(file, |Concat(pieces[..k])|, |pieces[k]|) {
      WholeBlocksBefore(pieces[..k]);
      BlockStartSafe(file, |Concat(pieces[..k])|, |pieces[k]|);
    }
  }

  lemma BlockStartSafe(file: seq<byte>, at: nat, size: nat)
    requires at % 16 == 0
    ensures PieceSafe(file, at, size)
  {
    hide TmdEnd, Le32;
  }

  lemma {:induction false} BytesBefore(pieces: seq<seq<byte>>)
    requires forall k :: 0 <= k < |pieces| ==> |pieces[k]| == 1
    ensures |Concat(pieces)| == |pieces|
  {
    if pieces != [] {
      BytesBefore(pieces[..|pieces| - 1]);
    }
  }

  /** A file handed over byte by byte loses TMD bytes if and only if it gets beyond the first byte
      behind the TMD's header part while still inside the TMD. */
  lemma ByteWiseSafe(pieces: seq<seq<byte>>)
    requires (forall k :: 0 <= k < |pieces| ==> |pieces[k]| == 1) && HEADER_SIZE <= |pieces|
    ensures |Concat(pieces)| == |pieces|
    ensures var header := Concat(pieces)[..HEADER_SIZE];
            PiecesSafe(pieces) <==> Min(|pieces|, TmdEnd(header)) <= TmdStart(header) + TMD_HEADER_COPY + 1
  {
    hide Concat, Le32, Align64;
    BytesBefore(pieces);
    var file := Concat(pieces);
    var header := file[..HEADER_SIZE];
    var second := TmdStart(header) + TMD_HEADER_COPY + 1;
    forall k | 0 <= k < |pieces|
      ensures |Concat(pieces[..k])| == k
      ensures PieceSafe(file, k, 1) || second < Min(|pieces|, TmdEnd(header))
    {
      BytesBefore(pieces[..k]);
    }
    if second < Min(|pieces|, TmdEnd(header)) {
      assert !PieceSafe(file, |Concat(pieces[..second])|, |pieces[second]|);
    }
  }

  function Singles(file: seq<byte>): (r: seq<seq<byte>>)
    ensures |r| == |file| && forall k :: 0 <= k < |r| ==> |r[k]| == 1
  {
    if file == [] then [] else Singles(file[..|file| - 1]) + [[file[|file| - 1]]]
  }

  lemma {:induction false} SinglesConcat(file: seq<byte>)
    ensures Concat(Singles(file)) == file
  {
    if file != [] {
      SinglesConcat(file[..|file| - 1]);
      assert Singles(file)[..|file| - 1] == Singles(file[..|file| - 1]);
    }
  }

  /** The second piece is too short for the block held back, and the TMD ends with it. */
  predicate CutsLastBlock(a: seq<byte>, b: seq<byte>) {
    && HEADER_SIZE <= |a| && b != []
    && InTmdBlock(a[..HEADER_SIZE], |a|) && HeldAt(a[..HEADER_SIZE], |a|) + |b| < 16
    && |a| + |b| == TmdEnd(a[..HEADER_SIZE])
  }

  /** What is then held back at the TMD's end. */
  function CutOff(a: seq<byte>, b: seq<byte>): (r: seq<byte>)
    requires CutsLastBlock(a, b)
    ensures r != [] && |r| < 16 && r == (a + b)[|a + b| - |r|..]
  {
    (a + b)[|a| - HeldAt(a[..HEADER_SIZE], |a|)..]
  }

  /** The header of a file without certificates, with the smallest ticket and a TMD of 0x212 bytes. */
  const SMALL_HEADER: seq<byte> := [0x20, 0x20, 0, 0, 0, 0, 0, 0, 0, 0, 0, 0, 0xA4, 2, 0, 0,
                                    0x12, 2, 0, 0, 0, 0, 0, 0, 0, 0, 0, 0, 0, 0, 0, 0]

  /** Such pieces exist: the first byte of a TMD block, the TMD's last byte, and any byte behind it. */
  lemma SmallFileLeaks()
    ensures var a := SMALL_HEADER + Zeros(0x24F1);
            GoodInput(a + [1] + [2]) && CutsLastBlock(a, [1])
  {
    hide GoodHeader, TmdStart, TmdEnd;
    var a := SMALL_HEADER + Zeros(0x24F1);
    SmallHeader();
    assert a[..HEADER_SIZE] == SMALL_HEADER == (a + [1] + [2])[..HEADER_SIZE];
  }

  lemma SmallHeader()
    ensures GoodHeader(SMALL_HEADER) && TmdStart(SMALL_HEADER) == 0x2300 && TmdEnd(SMALL_HEADER) == 0x2512
  {
    assert TicketEnd(SMALL_HEADER) == 0x22E4;
  }

  // The walk through the TMD, piece by piece.

  /** Where the walk stands after these pieces of a file with this header. */
  function WalkAfter(header: seq<byte>, pieces: seq<seq<byte>>): (w: Walk)
    requires |header| == HEADER_SIZE
    ensures w.held < 16
  {
    if pieces == [] then AT_START
    else
      var before := pieces[..|pieces| - 1];
      Next(header, |Concat(before)|, WalkAfter(header, before), |pieces[|pieces| - 1]|)
  }

  function WalkIn(file: seq<byte>, pieces: seq<seq<byte>>): (w: Walk)
    ensures w.held < 16
  {
    if HEADER_SIZE <= |file| then WalkAfter(file[..HEADER_SIZE], pieces) else AT_START
  }

  /** A function of the file's header and the lengths of its pieces only. */
  function TmdWalk(pieces: seq<seq<byte>>): Walk {
    WalkIn(Concat(pieces), pieces)
  }

  lemma WalkNext(file: seq<byte>, pieces: seq<seq<byte>>, k: nat)
    requires k < |pieces|
    ensures HEADER_SIZE <= |file| ==>
              WalkIn(file, pieces[..k + 1])
              == Next(file[..HEADER_SIZE], |Concat(pieces[..k])|, WalkIn(file, pieces[..k]), |pieces[k]|)
  {
    hide Next, Concat;
    assert pieces[..k + 1][..k] == pieces[..k];
  }

  /** Within the header the walk has not begun. */
  lemma WalkInHeader(header: seq<byte>, at: nat, n: nat)
    requires |header| == HEADER_SIZE && at + n < HEADER_SIZE
    ensures Next(header, at, AT_START, n) == AT_START
  {
    hide Le32;
  }

  /** Behind the TMD's end the walk stands still. */
  lemma {:induction false} WalkBehind(header: seq<byte>, pieces: seq<seq<byte>>, k: nat)
    requires |header| == HEADER_SIZE && k <= |pieces|
    requires BodyStart(header) <= TmdEnd(header) <= |Concat(pieces[..k])|
    ensures WalkAfter(header, pieces) == WalkAfter(header, pieces[..k])
  {
    hide Next, Concat, TmdEnd, BodyStart;
    if k == |pieces| {
      assert pieces[..k] == pieces;
    } else {
      var before := pieces[..|pieces| - 1];
      assert before[..k] == pieces[..k];
      WalkBehind(header, before, k);
      ConcatPrefix(before, k);
      Behind(header, |Concat(before)|, WalkAfter(header, before), |pieces[|pieces| - 1]|);
    }
  }

  /** Where a walk that has lost nothing stands. */
  predicate OnTrack(header: seq<byte>, at: nat, w: Walk)
    requires |header| == HEADER_SIZE
  {
    w == Walk(if BodyStart(header) <= at < TmdEnd(header) then HeldAt(header, at) else 0, false)
  }

  lemma StaysOnTrack(header: seq<byte>, at: nat, w: Walk, n: nat)
    requires |header| == HEADER_SIZE && BodyStart(header) <= TmdEnd(header) && w.held < 16 && OnTrack(header, at, w)
    requires n > 0 ==> TmdSafe(header, at, n)
    ensures OnTrack(header, at + n, Next(header, at, w, n))
  {
    hide TmdEnd, TmdStart, HeldAt;
    var start, end, body := TmdStart(header), TmdEnd(header), BodyStart(header);
    if n > 0 && at < body < at + n {
      HeldFrom(header, body, at + n - body);
    } else if n > 0 && body <= at < end {
      if w.held == 0 {
        HeldFrom(header, at, n);
      } else {
        HeldRounds(header, at);
        HeldFrom(header, at + 16 - w.held, w.held + n - 16);
      }
    } else if at + n == body {
      HeldFrom(header, body, 0);
    }
  }

  /** From the start of a block on, as much is held back as has arrived modulo 16. */
  lemma HeldFrom(header: seq<byte>, at: nat, n: nat)
    requires |header| == HEADER_SIZE && TmdStart(header) <= at
    requires at == BodyStart(header) || HeldAt(header, at) == 0
    ensures HeldAt(header, at + n) == n % 16
  {
    hide TmdStart;
    WholeSum(at - TmdStart(header), n);
  }

  lemma HeldRounds(header: seq<byte>, at: nat)
    requires |header| == HEADER_SIZE && TmdStart(header) <= at
    ensures HeldAt(header, at + 16 - HeldAt(header, at)) == 0
  {
    hide TmdStart;
    Rounded(at - TmdStart(header));
  }

  lemma Rounded(a: nat)
    ensures (a + 16 - a % 16) % 16 == 0
  {
    assert a + 16 - a % 16 == (a / 16 + 1) * 16;
  }

  lemma {:induction false} SafeOnTrack(file: seq<byte>, pieces: seq<seq<byte>>, k: nat)
    requires k <= |pieces| && HEADER_SIZE <= |file| && SafeUpTo(file, pieces, k)
    requires BodyStart(file[..HEADER_SIZE]) <= TmdEnd(file[..HEADER_SIZE])
    ensures OnTrack(file[..HEADER_SIZE], |Concat(pieces[..k])|, WalkIn(file, pieces[..k]))
  {
    hide Next, Concat, TmdEnd, TmdStart, BodyStart, TmdSafe, OnTrack;
    if k == 0 {
      EmptyConcat(pieces);
      StartsOnTrack(file[..HEADER_SIZE]);
    } else {
      SafeOnTrack(file, pieces, k - 1);
      WalkNext(file, pieces, k - 1);
      ConcatNext(pieces, k - 1);
      StaysOnTrack(file[..HEADER_SIZE], |Concat(pieces[..k - 1])|, WalkIn(file, pieces[..k - 1]), |pieces[k - 1]|);
    }
  }

  lemma StartsOnTrack(header: seq<byte>)
    requires |header| == HEADER_SIZE
    ensures OnTrack(header, 0, AT_START)
  {
    hide Le32;
  }

  /** The file has bytes behind its TMD. */
  predicate PastTmd(file: seq<byte>) {
    HEADER_SIZE <= |file| && TmdEnd(file[..HEADER_SIZE]) < |file|
  }

  /** Pieces that lose no TMD byte reach the TMD's end with nothing held back. */
  lemma SafeWalk(pieces: seq<seq<byte>>)
    requires PiecesSafe(pieces) && GoodInput(Concat(pieces)) && PastTmd(Concat(pieces))
    ensures TmdWalk(pieces) == AT_START
  {
    hide Next, Concat, TmdSafe, PieceSafe;
    var file := Concat(pieces);
    GoodBody(file[..HEADER_SIZE]);
    SafeOnTrack(file, pieces, |pieces|);
    assert pieces[..|pieces|] == pieces;
  }

  lemma GoodBody(header: seq<byte>)
    requires GoodHeader(header)
    ensures BodyStart(header) <= TmdEnd(header)
  {
    hide Le32, Align64;
  }

  // What an install comes to.

  /** All pieces have been handed over without a failure - or as many as the final state lets through. */
  ghost predicate HandedOver(m: InstallData, at: nat, v: View, run: Run, pieces: seq<seq<byte>>) {
    && Inv(m, at, v, run) && Settled(m, at)
    && run.file == Concat(pieces) && (m.state == Finalize || at == |run.file|)
    && run.intact == PiecesSafe(pieces)
    && WalkOf(m, at, run) == TmdWalk(pieces)
  }

  /** The contents are reached exactly if there is a byte behind the TMD and the offset has not passed the
      TMD's end inside a block. If it has, the install stays in the TMD for good, with no content begun.
      How many TMD bytes go into the first content is what the walk has held back. */
  lemma ContentsReachedExactly(m: InstallData, at: nat, v: View, run: Run, pieces: seq<seq<byte>>)
    requires HandedOver(m, at, v, run, pieces)
    ensures ContentState(m) <==> PastTmd(Concat(pieces)) && !TmdWalk(pieces).overrun
    ensures ContentState(m) ==> run.leads != [] && |run.leads[0]| == TmdWalk(pieces).held
    ensures TmdWalk(pieces).overrun ==> m.state == Tmd && v.installed == [] && v.everBegun == []
  {
    hide Inv, Concat, PiecesSafe, TmdWalk, TmdEnd, BodyStart;
    if ContentState(m) {
      WalkLate(m, at, v, run);
    } else if m.state == Tmd {
      TmdNow(m, at, v, run);
      NothingBegun(m, at, v, run);
    } else {
      EarlyPlace(m, at, v, run);
    }
  }

  lemma NothingBegun(m: InstallData, at: nat, v: View, run: Run)
    requires Inv(m, at, v, run) && !ContentState(m)
    ensures v.installed == [] && v.everBegun == [] && v.blocksOnly && !v.content
  {
    hide Le32, Align64, TicketInv, TmdInv, HeadRead, Collecting, Collected, TicketDone, TmdDone;
  }

  /** The file's header, bitmap and TMD. */
  predicate HasTmd(file: seq<byte>) {
    INDEX_END <= |file| && TmdStart(file[..HEADER_SIZE]) <= TmdEnd(file[..HEADER_SIZE]) <= |file|
  }

  /** AM9 has been given the file's TMD, and it is finished. */
  ghost predicate TmdInstalled(v: View, file: seq<byte>) {
    && HasTmd(file) && !v.tmd
    && v.tmdData == file[TmdStart(file[..HEADER_SIZE])..TmdEnd(file[..HEADER_SIZE])]
  }

  lemma TmdOfFile(m: InstallData, at: nat, v: View, run: Run)
    requires Inv(m, at, v, run) && ContentState(m)
    ensures HasTmd(run.file) && (run.intact <==> TmdInstalled(v, run.file))
  {
    hide Inv, TmdStart, TmdEnd;
    LateHeader(m, at, v, run);
    LateFlags(m, at, v, run);
    TmdExact(m, at, v, run);
  }

  lemma LateFlags(m: InstallData, at: nat, v: View, run: Run)
    requires Inv(m, at, v, run) && ContentState(m)
    ensures INDEX_END <= at <= |run.file| && !v.tmd && v.title && !v.ticket
  {
    hide Le32, Align64, Enabled, EnabledBelow, EnabledFrom, IndexInv, DataInv, ExactInv, BatchInv, Clean;
  }

  lemma OpenTmd(m: InstallData, at: nat, v: View, run: Run)
    requires Inv(m, at, v, run) && m.state == Tmd && PastTmd(run.file) && at == |run.file|
    ensures v.tmd && !run.intact
  {
    hide Le32, Align64, Enabled, EnabledBelow, EnabledFrom;
  }

  /** The TMD of a file with bytes behind it is installed exactly if the pieces are safe. */
  lemma TmdInstalledExactly(m: InstallData, at: nat, v: View, run: Run, pieces: seq<seq<byte>>)
    requires HandedOver(m, at, v, run, pieces) && PastTmd(Concat(pieces))
    ensures TmdInstalled(v, Concat(pieces)) <==> PiecesSafe(pieces)
  {
    hide Inv, Concat, PiecesSafe, TmdWalk, TmdEnd, BodyStart, WalkOf;
    if ContentState(m) {
      TmdOfFile(m, at, v, run);
    } else if m.state == Tmd {
      OpenTmd(m, at, v, run);
    } else {
      EarlyPlace(m, at, v, run);
      assert false;
    }
  }

  /** AM9 has been given the file's ticket, and it is finished. */
  ghost predicate TicketInstalled(v: View, file: seq<byte>) {
    && HEADER_SIZE <= |file| && !v.ticket
    && TicketStart(file[..HEADER_SIZE]) <= TicketEnd(file[..HEADER_SIZE]) <= |file|
    && v.ticketData == file[TicketStart(file[..HEADER_SIZE])..TicketEnd(file[..HEADER_SIZE])]
  }

  lemma TicketGiven(m: InstallData, at: nat, v: View, run: Run, pieces: seq<seq<byte>>)
    requires HandedOver(m, at, v, run, pieces) && PastTmd(Concat(pieces))
    ensures TicketInstalled(v, Concat(pieces))
  {
    hide Inv, Concat, PiecesSafe, TmdWalk, TmdEnd, BodyStart, WalkOf, TicketStart, TicketEnd;
    if !ContentState(m) && m.state != Tmd {
      EarlyPlace(m, at, v, run);
      assert false;
    }
    TicketExact(m, at, v, run);
  }

  /** The indices that the file's bitmap enables. */
  function EnabledIn(file: seq<byte>): seq<nat>
    requires INDEX_END <= |file|
  {
    EnabledBelow(file[HEADER_SIZE..INDEX_END], MAX_INDEX)
  }

  /** Where the last of these contents ends. */
  function LastEnd(file: seq<byte>, sizeOf: nat -> nat): nat
    requires INDEX_END <= |file|
  {
    ContentsEnd(TmdEnd(file[..HEADER_SIZE]), EnabledIn(file), sizeOf)
  }

  predicate HasContents(file: seq<byte>, sizeOf: nat -> nat) {
    INDEX_END <= |file| && LastEnd(file, sizeOf) <= |file|
  }

  /** The enabled contents, cut out of the file. */
  function ContentsOf(file: seq<byte>, sizeOf: nat -> nat): seq<Content>
    requires HasContents(file, sizeOf)
  {
    CiaFormat.Contents(file, TmdEnd(file[..HEADER_SIZE]), EnabledIn(file), sizeOf)
  }

  /** Nothing was held back at the TMD's end, if the file gets there, and the contents are whole blocks. */
  ghost predicate Exact(pieces: seq<seq<byte>>, sizeOf: nat -> nat) {
    var file := Concat(pieces);
    && (PastTmd(file) ==> TmdWalk(pieces) == AT_START)
    && INDEX_END <= |file| && BlockSizes(file[HEADER_SIZE..INDEX_END], sizeOf)
  }

  lemma CleanOf(m: InstallData, at: nat, v: View, run: Run, pieces: seq<seq<byte>>)
    requires HandedOver(m, at, v, run, pieces) && Exact(pieces, run.sizeOf) && ContentState(m)
    ensures |m.bitmap| == 0x2000 && Clean(m.bitmap, run)
    ensures INDEX_END <= |run.file|
    ensures m.header == run.file[..HEADER_SIZE] && m.bitmap == run.file[HEADER_SIZE..INDEX_END]
  {
    hide Inv, Concat, PiecesSafe, TmdWalk, TmdEnd, BodyStart, WalkOf, BlockSizes;
    ContentsReachedExactly(m, at, v, run, pieces);
    LateBitmap(m, at, v, run);
  }

  lemma LateBitmap(m: InstallData, at: nat, v: View, run: Run)
    requires Inv(m, at, v, run) && ContentState(m)
    ensures INDEX_END <= |run.file|
    ensures m.header == run.file[..HEADER_SIZE] && m.bitmap == run.file[HEADER_SIZE..INDEX_END]
    ensures |m.bitmap| == 0x2000 && m.cindex <= MAX_INDEX && (m.state == Finalize ==> m.cindex == MAX_INDEX)
    ensures m.state == Finalize ==> |m.header| == HEADER_SIZE && EndReached(m, at, run) && TmdEnd(m.header) < |run.file|
  {
    hide Le32, Align64, Enabled, EnabledBelow, EnabledFrom, DataInv, ExactInv, BatchInv, Clean, EndReached;
  }

  /** When the offset is behind the last content, every content with data has been installed. */
  lemma AllByThen(m: InstallData, at: nat, v: View, run: Run)
    requires Inv(m, at, v, run) && ContentState(m) && Settled(m, at)
    requires |m.bitmap| == 0x2000 && Clean(m.bitmap, run)
    requires HasContents(run.file, run.sizeOf) && m.header == run.file[..HEADER_SIZE]
    requires m.bitmap == run.file[HEADER_SIZE..INDEX_END]
    requires m.state == Finalize || LastEnd(run.file, run.sizeOf) <= at
    ensures SameButEmpty(v.installed, ContentsOf(run.file, run.sizeOf))
    ensures m.state == Finalize ==> v.installed == ContentsOf(run.file, run.sizeOf)
  {
    hide Inv, Settled, Align64, Enabled, EnabledBelow, ContentsEnd, CiaFormat.Contents, Clean, TmdEnd, Le32;
    LateBitmap(m, at, v, run);
    CleanNow(m, at, v, run);
    if m.cindex < MAX_INDEX {
      var base, c := TmdEnd(m.header), m.cindex;
      var e := EnabledBelow(m.bitmap, c);
      LaterEnd(m.bitmap, base, run.sizeOf, c, MAX_INDEX);
      if m.importingContent {
        DisabledSkipped(m.bitmap, c);
        ContentsEndSnoc(base, e, c, run.sizeOf);
        LaterEnd(m.bitmap, base, run.sizeOf, c + 1, MAX_INDEX);
      }
      EmptyBeyond(run.file, m.bitmap, base, run.sizeOf, c, MAX_INDEX);
    }
  }

  lemma WholeBlocksOnly(m: InstallData, at: nat, v: View, run: Run)
    requires Inv(m, at, v, run) && ContentState(m) && |m.bitmap| == 0x2000 && Clean(m.bitmap, run)
    ensures v.blocksOnly
  {
    hide Le32, Align64, Enabled, EnabledBelow, EnabledFrom, IndexInv, DataInv, BatchInv, BlockSizes;
  }

  /** A file handed over as far as its last content: AM9 has installed every enabled content with exactly
      its bytes, in whole blocks, but for contents without data at the end of the list. */
  lemma ContentsInstalled(m: InstallData, at: nat, v: View, run: Run, pieces: seq<seq<byte>>)
    requires HandedOver(m, at, v, run, pieces) && Exact(pieces, run.sizeOf) && HasContents(Concat(pieces), run.sizeOf)
    ensures SameButEmpty(v.installed, ContentsOf(Concat(pieces), run.sizeOf)) && v.blocksOnly
    ensures m.state == Finalize ==> v.installed == ContentsOf(Concat(pieces), run.sizeOf)
  {
    hide Inv, Settled, Concat, PiecesSafe, TmdWalk, TmdEnd, WalkOf, Enabled, EnabledBelow, ContentsEnd;
    hide CiaFormat.Contents;
    hide Align64, BlockSizes, Clean;
    var file := run.file;
    ContentsReachedExactly(m, at, v, run, pieces);
    if ContentState(m) {
      CleanOf(m, at, v, run, pieces);
      AllByThen(m, at, v, run);
      WholeBlocksOnly(m, at, v, run);
    } else {
      NothingBegun(m, at, v, run);
      NoneWithData(file, run.sizeOf);
    }
  }

  /** A file that ends with its TMD has no content with data. */
  lemma NoneWithData(file: seq<byte>, sizeOf: nat -> nat)
    requires HasContents(file, sizeOf) && !PastTmd(file)
    ensures SameButEmpty([], ContentsOf(file, sizeOf))
  {
    hide Enabled, CiaFormat.Contents, TmdEnd;
    var bitmap, base := file[HEADER_SIZE..INDEX_END], TmdEnd(file[..HEADER_SIZE]);
    ContentsEndNone(base, sizeOf);
    assert EnabledBelow(bitmap, 0) == [];
    EmptyBeyond(file, bitmap, base, sizeOf, 0, MAX_INDEX);
    NoContents(file, base, sizeOf);
  }

  lemma NoContents(file: seq<byte>, base: nat, sizeOf: nat -> nat)
    requires base <= |file|
    ensures CiaFormat.Contents(file, base, [], sizeOf) == []
  {
  }

  /** Of a file with contents, the final state takes a byte behind the last of them. */
  lemma FinalTakesMore(m: InstallData, at: nat, v: View, run: Run)
    requires Inv(m, at, v, run) && m.state == Finalize
    ensures HasContents(run.file, run.sizeOf)
    ensures EnabledIn(run.file) != [] ==> LastEnd(run.file, run.sizeOf) < |run.file|
  {
    hide Inv, EnabledBelow, ContentsEnd, TmdEnd, Align64;
    LateBitmap(m, at, v, run);
    ContentsEndNone(TmdEnd(m.header), run.sizeOf);
  }

  lemma SomeEnabled(bitmap: seq<byte>, c: nat)
    requires |bitmap| == 0x2000 && c <= MAX_INDEX && EnabledBelow(bitmap, c) != []
    ensures EnabledBelow(bitmap, MAX_INDEX) != []
  {
    hide EnabledBelow;
    EnabledSplit(bitmap, c);
  }

  /** And a file that has one gets there. */
  lemma MoreIsFinal(m: InstallData, at: nat, v: View, run: Run)
    requires Inv(m, at, v, run) && m.state == Contents && Settled(m, at) && at == |run.file|
    requires |m.bitmap| == 0x2000 && Clean(m.bitmap, run) && |m.header| == HEADER_SIZE
    requires EnabledBelow(m.bitmap, MAX_INDEX) != []
    ensures at <= ContentsEnd(TmdEnd(m.header), EnabledBelow(m.bitmap, MAX_INDEX), run.sizeOf)
  {
    hide Inv, Settled, Align64, Enabled, EnabledBelow, ContentsEnd, CiaFormat.Contents, Clean, TmdEnd, Le32;
    CleanNow(m, at, v, run);
    var base, c := TmdEnd(m.header), m.cindex;
    LaterEnd(m.bitmap, base, run.sizeOf, c, MAX_INDEX);
    if m.importingContent {
      DisabledSkipped(m.bitmap, c);
      ContentsEndSnoc(base, EnabledBelow(m.bitmap, c), c, run.sizeOf);
      LaterEnd(m.bitmap, base, run.sizeOf, c + 1, MAX_INDEX);
    } else if EnabledBelow(m.bitmap, c) == [] {
      ContentsEndNone(base, run.sizeOf);
      FirstStarts(m.bitmap, base, run.sizeOf, c, MAX_INDEX);
    }
  }

  /** The first content starts behind the padding. */
  lemma {:induction false} FirstStarts(bitmap: seq<byte>, base: nat, sizeOf: nat -> nat, c: nat, d: nat)
    requires |bitmap| == 0x2000 && c <= d <= MAX_INDEX && EnabledBelow(bitmap, c) == [] && EnabledBelow(bitmap, d) != []
    ensures Align64(base) <= ContentsEnd(base, EnabledBelow(bitmap, d), sizeOf)
    decreases d
  {
    hide Enabled, Align64, ContentsEnd, EnabledBelow;
    var e := EnabledBelow(bitmap, d - 1);
    DisabledSkipped(bitmap, d - 1);
    assert e + [] == e;
    if e != [] {
      FirstStarts(bitmap, base, sizeOf, c, d - 1);
      LaterEnd(bitmap, base, sizeOf, d - 1, d);
    } else {
      ContentsEndSnoc(base, e, d - 1, sizeOf);
      ContentsEndNone(base, sizeOf);
    }
  }

  /** The final state of an install of a file with contents is reached exactly if the file has a byte
      behind the last of them. */
  lemma FinalExactly(m: InstallData, at: nat, v: View, run: Run, pieces: seq<seq<byte>>)
    requires HandedOver(m, at, v, run, pieces) && Exact(pieces, run.sizeOf)
    requires EnabledIn(Concat(pieces)) != []
    ensures m.state == Finalize <==> LastEnd(Concat(pieces), run.sizeOf) < |Concat(pieces)|
  {
    hide Inv, Settled, Concat, PiecesSafe, TmdWalk, TmdEnd, WalkOf, Enabled, EnabledBelow, ContentsEnd, Clean;
    ContentsReachedExactly(m, at, v, run, pieces);
    if m.state == Finalize {
      FinalTakesMore(m, at, v, run);
    } else if m.state == Contents {
      CleanOf(m, at, v, run, pieces);
      MoreIsFinal(m, at, v, run);
    }
  }

  /** Two whole installs of the same file, cut in different ways, install the same, but for contents
      without data at the end, and hold or will be given the same bytes of a content still open. */
  lemma SameInstall(m1: InstallData, at1: nat, v1: View, run1: Run, pieces1: seq<seq<byte>>,
                    m2: InstallData, at2: nat, v2: View, run2: Run, pieces2: seq<seq<byte>>)
    requires HandedOver(m1, at1, v1, run1, pieces1) && HandedOver(m2, at2, v2, run2, pieces2)
    requires Concat(pieces1) == Concat(pieces2) && run1.sizeOf == run2.sizeOf
    requires Exact(pieces1, run1.sizeOf) && Exact(pieces2, run2.sizeOf)
    ensures SameButEmpty(v1.installed, v2.installed) || SameButEmpty(v2.installed, v1.installed)
    ensures v1.content && v2.content ==> v1.current.data + m1.misalign == v2.current.data + m2.misalign
  {
    hide Inv, Settled, Concat, PiecesSafe, TmdWalk, TmdEnd, WalkOf, Clean, BlockSizes;
    ContentsReachedExactly(m1, at1, v1, run1, pieces1);
    ContentsReachedExactly(m2, at2, v2, run2, pieces2);
    if !ContentState(m1) {
      NothingBegun(m1, at1, v1, run1);
      NothingBegun(m2, at2, v2, run2);
    } else if m1.state == Finalize || m2.state == Finalize {
      OneFinal(m1, at1, v1, run1, pieces1, m2, at2, v2, run2, pieces2);
    } else {
      CleanOf(m1, at1, v1, run1, pieces1);
      CleanOf(m2, at2, v2, run2, pieces2);
      ChunkingIndependent(m1, v1, run1, m2, v2, run2, at1);
    }
  }

  lemma OneFinal(m1: InstallData, at1: nat, v1: View, run1: Run, pieces1: seq<seq<byte>>,
                 m2: InstallData, at2: nat, v2: View, run2: Run, pieces2: seq<seq<byte>>)
    requires HandedOver(m1, at1, v1, run1, pieces1) && HandedOver(m2, at2, v2, run2, pieces2)
    requires Concat(pieces1) == Concat(pieces2) && run1.sizeOf == run2.sizeOf
    requires Exact(pieces1, run1.sizeOf) && Exact(pieces2, run2.sizeOf)
    requires m1.state == Finalize || m2.state == Finalize
    ensures SameButEmpty(v1.installed, v2.installed) || SameButEmpty(v2.installed, v1.installed)
    ensures !(v1.content && v2.content)
  {
    hide Settled, Concat, PiecesSafe, TmdWalk, WalkOf, Exact, HasContents, ContentsOf, Inv;
    if m1.state == Finalize {
      FinalTakesMore(m1, at1, v1, run1);
      NoneOpenInFinal(m1, at1, v1, run1);
    } else {
      FinalTakesMore(m2, at2, v2, run2);
      NoneOpenInFinal(m2, at2, v2, run2);
    }
    ContentsInstalled(m1, at1, v1, run1, pieces1);
    ContentsInstalled(m2, at2, v2, run2, pieces2);
  }

  lemma NoneOpenInFinal(m: InstallData, at: nat, v: View, run: Run)
    requires Inv(m, at, v, run) && m.state == Finalize
    ensures !v.content
  {
    hide Le32, Align64, Enabled, EnabledBelow, EnabledFrom, IndexInv, DataInv, ExactInv, BatchInv, Clean, EndReached;
  }
}
