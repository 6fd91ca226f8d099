/** One section of a TWL export, processed in chunks: processSection of twlexport.c. */
module TwlSection {
  import opened Bytes
  import opened Cbc
  import Sha256Spec
  import Sha256

  const META_SIZE: nat := 0x20
  const LARGEST_SIZE: nat := 0xffff_fff0

  /** AM_TWLExportSectionIndex. */
  datatype Section = Banner | Header | Footer | Tmd | Content | PublicSave | BannerSave | PrivateSave

  /** Sections that AM9 installs between a begin and a finish. */
  predicate Installed(s: Section) {
    s == Tmd || s == Content
  }

  /** Sections that can be written. */
  predicate Writable(s: Section) {
    Installed(s) || s == PublicSave || s == BannerSave || s == PrivateSave
  }

  /** What AM9 is asked to do; ok says whether it did. */
  datatype Event =
    | Begin(section: Section, ok: bool)
    | Write(section: Section, data: seq<byte>, at: nat, ok: bool)
    | Finish(section: Section, ok: bool)
    | Cancel(section: Section)
    | CheckMac(section: Section, cmac: seq<byte>, hash: seq<byte>, ok: bool)

  datatype Result = Done | BeginFailed | MetaUnread | StepFailed | Rejected

  /** AM9, as far as a section is concerned: a record of the calls, each of which may fail. */
  class Am9Log {
    ghost var log: seq<Event>
    ghost var undecrypted: nat

    constructor ()
      ensures log == [] && undecrypted == 0
    {
      log, undecrypted := [], 0;
    }

    /** processBegin. */
    method ProcessBegin(s: Section) returns (failed: bool)
      modifies this`log
      ensures log == old(log) + if Installed(s) then [Begin(s, !failed)] else []
      ensures !Installed(s) ==> failed == !Writable(s)
    {
      if Installed(s) {
        failed := *;
        log := log + [Begin(s, !failed)];
      } else {
        failed := !Writable(s);
      }
    }

    /** processWrite. */
    method ProcessWrite(s: Section, data: seq<byte>, at: nat) returns (failed: bool)
      modifies this`log
      ensures log == old(log) + if Writable(s) then [Write(s, data, at, !failed)] else []
      ensures !Writable(s) ==> failed
    {
      failed := true;
      if Writable(s) {
        failed := *;
        log := log + [Write(s, data, at, !failed)];
      }
    }

    /** processFinish. */
    method ProcessFinish(s: Section) returns (failed: bool)
      modifies this`log
      ensures log == old(log) + if Installed(s) then [Finish(s, !failed)] else []
      ensures !Installed(s) ==> failed == !Writable(s)
    {
      if Installed(s) {
        failed := *;
        log := log + [Finish(s, !failed)];
      } else {
        failed := !Writable(s);
      }
    }

    /** processCancel; nobody looks at its result. */
    method ProcessCancel(s: Section)
      modifies this`log
      ensures log == old(log) + if Installed(s) then [Cancel(s)] else []
    {
      if Installed(s) {
        log := log + [Cancel(s)];
      }
    }

    /** AM9_DSiWareExportValidateSectionMAC. */
    method ValidateSectionMac(s: Section, cmac: seq<byte>, hash: seq<byte>) returns (failed: bool)
      modifies this`log
      ensures log == old(log) + [CheckMac(s, cmac, hash, !failed)]
    {
      failed := *;
      log := log + [CheckMac(s, cmac, hash, !failed)];
    }

    /** AM9_DSiWareExportDecryptData in place, chaining value included. */
    method DecryptData(dec: Cipher, n: nat, buf: array<byte>, iv: AesBlock) returns (failed: bool, newIv: AesBlock)
      requires n <= buf.Length && n % BLOCK == 0
      modifies buf, this`undecrypted
      ensures undecrypted == old(undecrypted) + if failed then 1 else 0
      ensures !failed ==> buf[..] == Splice(old(buf[..]), 0, Decrypt(dec, iv, old(buf[..n])))
      ensures !failed ==> newIv == Chained(iv, old(buf[..n]))
    {
      hide Decrypt, Chained, Splice;
      failed, newIv := *, iv;
      if failed {
        undecrypted := undecrypted + 1;
      } else {
        newIv := Chained(iv, buf[..n]);
        MemCopy(buf, 0, Decrypt(dec, iv, buf[..n]));
      }
    }
  }

  // Sizes.

  /** ALIGN(size, 0x10) in u32 arithmetic. */
  function AlignBlock(size: nat): nat {
    (size + 15) % U32_LIMIT / BLOCK * BLOCK
  }

  /** alignMeta, in u32 arithmetic. */
  function AlignMeta(size: nat): nat {
    if AlignBlock(size) != 0 then (AlignBlock(size) + META_SIZE) % U32_LIMIT else 0
  }

  // Writes.

  /** The bytes that a run of writes has delivered. */
  ghost function Delivered(ws: seq<Event>): seq<byte> {
    if ws == [] then []
    else Delivered(ws[..|ws| - 1]) +
         var w := ws[|ws| - 1]; if w.Write? && w.ok then w.data else []
  }

  /** Successful writes to one section, each at the offset where the one before ended. */
  ghost predicate InOrder(ws: seq<Event>, s: Section) {
    forall i :: 0 <= i < |ws| ==>
      ws[i].Write? && ws[i].ok && ws[i].section == s && ws[i].at == |Delivered(ws[..i])|
  }

  lemma DeliveredNext(ws: seq<Event>, s: Section, data: seq<byte>)
    requires InOrder(ws, s)
    ensures var w := Write(s, data, |Delivered(ws)|, true);
            InOrder(ws + [w], s) && Delivered(ws + [w]) == Delivered(ws) + data
  {
    var w := Write(s, data, |Delivered(ws)|, true);
    var ws1 := ws + [w];
    assert ws1[..|ws|] == ws;
    forall i | 0 <= i < |ws1|
      ensures ws1[i].Write? && ws1[i].ok && ws1[i].section == s && ws1[i].at == |Delivered(ws1[..i])|
    {
      if i < |ws| { assert ws1[..i] == ws[..i]; }
    }
  }

  /** The file system: it counts the reads that have failed. */
  class FileSystem {
    ghost var unread: nat

    constructor ()
      ensures unread == 0
    {
      unread := 0;
    }

    /** FSFile_Read: it may fail, and at the end of the file it reads less than asked. */
    method FileRead(file: seq<byte>, off: nat, n: nat, buf: array<byte>) returns (failed: bool, read: nat)
      requires n <= buf.Length
      modifies buf, this
      ensures unread == old(unread) + if failed then 1 else 0
      ensures read <= n && read == if off + n <= |file| then n else if off <= |file| then |file| - off else 0
      ensures !failed && off + n <= |file| ==> buf[..] == Splice(old(buf[..]), 0, file[off..off + n])
    {
      failed, read := *, if off + n <= |file| then n else if off <= |file| then |file| - off else 0;
      if failed {
        unread := unread + 1;
      } else if read > 0 {
        MemCopy(buf, 0, file[off..off + read]);
      } else if n == 0 {
        assert buf[..] == Splice(buf[..], 0, []);
      }
    }
  }

  /** The calls were all successful. */
  predicate AllOk(es: seq<Event>) {
    forall i :: 0 <= i < |es| ==> es[i].Cancel? || es[i].ok
  }

  /** A step of a section may fail only if a read or a decryption fails, AM9 refuses a call, or the section
      cannot be written. */
  predicate Excused(unread: nat, unread0: nat, undecrypted: nat, undecrypted0: nat, calls: seq<Event>,
                    s: Section, onlyVerify: bool) {
    unread0 < unread || undecrypted0 < undecrypted || !AllOk(calls) || (!onlyVerify && !Writable(s))
  }

  /** At most one write, which AM9 refused. */
  ghost predicate NothingWritten(tried: seq<Event>) {
    |tried| <= 1 && forall i :: 0 <= i < |tried| ==> tried[i].Write? && !tried[i].ok
  }

  /** One turn: read, decrypt in place and, unless only verifying, write the first len bytes. */
  method ProcessChunk(fs: FileSystem, am9: Am9Log, dec: Cipher, file: seq<byte>, off: nat, n: nat, len: nat,
                      buf: array<byte>, iv: AesBlock, onlyVerify: bool, s: Section, at: nat)
      returns (failed: bool, newIv: AesBlock, ghost tried: seq<Event>)
    requires n % BLOCK == 0 && len <= n <= buf.Length
    modifies fs, am9, buf
    ensures fs.unread >= old(fs.unread) && am9.undecrypted >= old(am9.undecrypted)
    ensures failed ==>
      Excused(fs.unread, old(fs.unread), am9.undecrypted, old(am9.undecrypted), tried, s, onlyVerify)
    ensures !failed && off + n <= |file| ==>
      buf[..n] == Decrypt(dec, iv, file[off..off + n]) && newIv == Chained(iv, file[off..off + n])
    ensures am9.log == old(am9.log) + tried
    ensures !failed ==> tried == if onlyVerify then [] else [Write(s, buf[..len], at, true)]
    ensures failed ==> NothingWritten(tried)
  {
    hide Decrypt, Chained;
    newIv, tried := iv, [];
    var read;
    failed, read := fs.FileRead(file, off, n, buf);
    if failed {
      return;
    }
    ghost var read0 := buf[..n];
    assert off + n <= |file| ==> read0 == file[off..off + n];
    failed, newIv := am9.DecryptData(dec, n, buf, iv);
    if failed {
      return;
    }
    assert buf[..n] == Decrypt(dec, iv, read0);
    if !onlyVerify {
      failed := am9.ProcessWrite(s, buf[..len], at);
      tried := if Writable(s) then [Write(s, buf[..len], at, !failed)] else [];
      assert failed && Writable(s) ==> !tried[0].ok;
    }
  }

  /** The bytes of the section at start that have been processed when the offset is at off. */
  function Plain(dec: Cipher, iv: AesBlock, file: seq<byte>, start: nat, off: nat): (p: seq<byte>)
    requires start <= off <= |file| && (off - start) % BLOCK == 0
    ensures |p| == off - start
  {
    Decrypt(dec, iv, file[start..off])
  }

  lemma PlainNext(dec: Cipher, iv: AesBlock, file: seq<byte>, start: nat, off: nat, n: nat)
    requires start <= off && off + n <= |file| && (off - start) % BLOCK == 0 && n % BLOCK == 0
    ensures Plain(dec, iv, file, start, off + n) ==
            Plain(dec, iv, file, start, off) + Decrypt(dec, Chained(iv, file[start..off]), file[off..off + n])
    ensures Chained(iv, file[start..off + n]) == Chained(Chained(iv, file[start..off]), file[off..off + n])
  {
    hide Decrypt, Chained;
    assert file[start..off] + file[off..off + n] == file[start..off + n];
    InPieces(dec, iv, file[start..off], file[off..off + n]);
  }

  /** At offset off: what has been hashed and, unless only verifying, written is the plaintext so far,
      as far as the file reaches. */
  ghost predicate Progress(dec: Cipher, iv0: AesBlock, file: seq<byte>, start: nat, off: nat, iv: AesBlock,
                           message: seq<byte>, ws: seq<Event>, s: Section, onlyVerify: bool) {
    && start <= off && (off - start) % BLOCK == 0 && |message| == off - start
    && InOrder(ws, s) && Delivered(ws) == (if onlyVerify then [] else message)
    && (off <= |file| ==> message == Plain(dec, iv0, file, start, off) && iv == Chained(iv0, file[start..off]))
  }

  lemma ProgressStart(dec: Cipher, iv: AesBlock, file: seq<byte>, start: nat, s: Section, onlyVerify: bool)
    ensures Progress(dec, iv, file, start, start, iv, [], [], s, onlyVerify)
  {
    if start <= |file| { assert file[start..start] == []; }
  }

  lemma ProgressNext(dec: Cipher, iv0: AesBlock, file: seq<byte>, start: nat, off: nat, iv: AesBlock,
                     message: seq<byte>, ws: seq<Event>, s: Section, onlyVerify: bool,
                     data: seq<byte>, newIv: AesBlock, tried: seq<Event>)
    requires Progress(dec, iv0, file, start, off, iv, message, ws, s, onlyVerify) && Whole(data)
    requires off + |data| <= |file| ==>
      data == Decrypt(dec, iv, file[off..off + |data|]) && newIv == Chained(iv, file[off..off + |data|])
    requires tried == if onlyVerify then [] else [Write(s, data, off - start, true)]
    ensures Progress(dec, iv0, file, start, off + |data|, newIv, message + data, ws + tried, s, onlyVerify)
  {
    hide Decrypt, Chained, InOrder, Delivered, Plain;
    if off + |data| <= |file| { PlainNext(dec, iv0, file, start, off, |data|); }
    if onlyVerify {
      assert ws + tried == ws;
    } else {
      DeliveredNext(ws, s, data);
    }
  }

  /** The loop over whole blocks, whatever the size of the working buffer. */
  method Stream(fs: FileSystem, am9: Am9Log, dec: Cipher, file: seq<byte>, start: nat, total: nat,
                buf: array<byte>, bufsize: nat, iv0: AesBlock, onlyVerify: bool, s: Section, sha: Sha256.Context)
      returns (failed: bool, off: nat, iv: AesBlock, ghost ws: seq<Event>, ghost tried: seq<Event>)
    requires total % BLOCK == 0 && bufsize % BLOCK == 0 && 0 < bufsize <= buf.Length && total < U32_LIMIT
    requires sha.Valid() && sha.message == [] && buf != sha.chunk
    modifies fs, am9, buf, sha, sha.chunk, sha.h
    ensures fs.unread >= old(fs.unread) && am9.undecrypted >= old(am9.undecrypted)
    ensures failed ==>
      Excused(fs.unread, old(fs.unread), am9.undecrypted, old(am9.undecrypted), tried, s, onlyVerify)
    ensures sha.Valid() && am9.log == old(am9.log) + ws + tried && NothingWritten(tried)
    ensures Progress(dec, iv0, file, start, off, iv, sha.message, ws, s, onlyVerify)
    ensures off <= start + total && (!failed ==> off == start + total && tried == [])
  {
    hide Progress, Sha256.Holds, Decrypt, Chained;
    failed, off, iv, ws, tried := false, start, iv0, [], [];
    var remaining: nat := total;
    ProgressStart(dec, iv0, file, start, s, onlyVerify);
    while remaining > 0
      invariant remaining <= total && remaining % BLOCK == 0 && off == start + total - remaining
      invariant sha.Valid() && am9.log == old(am9.log) + ws && tried == [] && !failed
      invariant fs.unread >= old(fs.unread) && am9.undecrypted >= old(am9.undecrypted)
      invariant Progress(dec, iv0, file, start, off, iv, sha.message, ws, s, onlyVerify)
    {
      var toProcess := if bufsize < remaining then bufsize else remaining;
      if bufsize < remaining { Aligned(remaining, bufsize); }
      var newIv;
      failed, newIv, tried := ProcessChunk(fs, am9, dec, file, off, toProcess, toProcess, buf, iv,
                                           onlyVerify, s, off - start);
      if failed {
        return;
      }
      ghost var data := buf[..toProcess];
      ProgressNext(dec, iv0, file, start, off, iv, sha.message, ws, s, onlyVerify, data, newIv, tried);
      ws, tried := ws + tried, [];
      sha.Write(buf[..toProcess]);
      off, iv := off + toProcess, newIv;
      remaining := remaining - toProcess;
    }
  }

  lemma Aligned(remaining: nat, bufsize: nat)
    requires remaining % BLOCK == 0 && bufsize % BLOCK == 0 && bufsize < remaining
    ensures (remaining - bufsize) % BLOCK == 0
  {
  }

  // The whole section.

  /** The bytes that a section of this size takes up in the file, metadata aside. */
  function Padded(size: nat): (n: nat)
    ensures n % BLOCK == 0 && size <= n < size + BLOCK
    ensures size <= LARGEST_SIZE ==> n == AlignBlock(size)
  {
    (size + BLOCK - 1) / BLOCK * BLOCK
  }

  /** The offset moves on by what alignMeta says exactly for sizes from 1 to 0xffffffd0: a section of
      size 0 still has its metadata, and alignMeta wraps for larger ones. */
  lemma AdvanceExact(size: nat)
    requires size < U32_LIMIT
    ensures Padded(size) + META_SIZE == AlignMeta(size) <==> 1 <= size <= 0xffff_ffd0
    ensures size <= LARGEST_SIZE ==> AlignBlock(size) % BLOCK == 0 && size <= AlignBlock(size) < size + BLOCK
  {
  }

  lemma PaddedCases(size: nat, bufsize: nat)
    ensures Padded(size) == size - size % BLOCK + if size % BLOCK == 0 then 0 else BLOCK
    ensures (size - size % BLOCK) % BLOCK == 0 && (bufsize - bufsize % BLOCK) % BLOCK == 0
    ensures bufsize >= BLOCK ==> bufsize - bufsize % BLOCK > 0
  {
  }

  /** Everything is hashed, the padding too, and the first size bytes are written. */
  ghost predicate Complete(dec: Cipher, iv: AesBlock, file: seq<byte>, start: nat, size: nat,
                           message: seq<byte>, ws: seq<Event>, s: Section, onlyVerify: bool) {
    && |message| == Padded(size)
    && InOrder(ws, s) && Delivered(ws) == (if onlyVerify then [] else message[..size])
    && (start + Padded(size) <= |file| ==> message == Plain(dec, iv, file, start, start + Padded(size)))
  }

  lemma AlignedComplete(dec: Cipher, iv0: AesBlock, file: seq<byte>, start: nat, size: nat, iv: AesBlock,
                        message: seq<byte>, ws: seq<Event>, s: Section, onlyVerify: bool)
    requires size % BLOCK == 0 && Progress(dec, iv0, file, start, start + size, iv, message, ws, s, onlyVerify)
    ensures Complete(dec, iv0, file, start, size, message, ws, s, onlyVerify)
  {
    hide Plain, InOrder, Delivered;
    assert Padded(size) == size;
    assert message[..size] == message;
  }

  /** The last block read is decrypted, as far as the file has it. */
  ghost predicate TailRead(dec: Cipher, iv: AesBlock, file: seq<byte>, off: nat, data: seq<byte>) {
    off + BLOCK <= |file| ==> data == Decrypt(dec, iv, file[off..off + BLOCK])
  }

  lemma TailComplete(dec: Cipher, iv0: AesBlock, file: seq<byte>, start: nat, size: nat, iv: AesBlock,
                     message: seq<byte>, ws: seq<Event>, s: Section, onlyVerify: bool,
                     data: seq<byte>, tried: seq<Event>, off: nat, rest: nat)
    requires 0 < rest == size % BLOCK && |data| == BLOCK && off + rest == start + size
    requires Progress(dec, iv0, file, start, off, iv, message, ws, s, onlyVerify)
    requires TailRead(dec, iv, file, off, data)
    requires tried == if onlyVerify then [] else [Write(s, data[..rest], off - start, true)]
    ensures Complete(dec, iv0, file, start, size, message + data, ws + tried, s, onlyVerify)
  {
    hide Decrypt, Chained, InOrder, Delivered, Plain, Padded, TailRead;
    PaddedCases(size, 0);
    TailPlain(dec, iv0, file, start, off, iv, message, data);
    TailWritten(message, ws, s, onlyVerify, data, rest, tried);
  }

  lemma TailWritten(message: seq<byte>, ws: seq<Event>, s: Section, onlyVerify: bool,
                    data: seq<byte>, rest: nat, tried: seq<Event>)
    requires rest <= |data| && InOrder(ws, s) && Delivered(ws) == if onlyVerify then [] else message
    requires tried == if onlyVerify then [] else [Write(s, data[..rest], |message|, true)]
    ensures InOrder(ws + tried, s)
    ensures Delivered(ws + tried) == if onlyVerify then [] else (message + data)[..|message| + rest]
  {
    hide InOrder, Delivered;
    if onlyVerify {
      assert ws + tried == ws;
    } else {
      DeliveredNext(ws, s, data[..rest]);
      assert (message + data)[..|message| + rest] == message + data[..rest];
    }
  }

  lemma TailPlain(dec: Cipher, iv0: AesBlock, file: seq<byte>, start: nat, off: nat, iv: AesBlock,
                  message: seq<byte>, data: seq<byte>)
    requires start <= off && (off - start) % BLOCK == 0
    requires off <= |file| ==> message == Plain(dec, iv0, file, start, off) && iv == Chained(iv0, file[start..off])
    requires TailRead(dec, iv, file, off, data)
    ensures off + BLOCK <= |file| ==> message + data == Plain(dec, iv0, file, start, off + BLOCK)
  {
    hide Decrypt, Chained, Plain;
    if off + BLOCK <= |file| { PlainNext(dec, iv0, file, start, off, BLOCK); }
  }

  /** What has been written when a step fails is the beginning of what was to be written. */
  lemma PartialWrites(dec: Cipher, iv0: AesBlock, file: seq<byte>, start: nat, size: nat, off: nat, iv: AesBlock,
                      message: seq<byte>, ws: seq<Event>, s: Section, onlyVerify: bool)
    requires Progress(dec, iv0, file, start, off, iv, message, ws, s, onlyVerify)
    requires off <= start + size && start + Padded(size) <= |file|
    ensures InOrder(ws, s) && Delivered(ws) <= Plain(dec, iv0, file, start, start + Padded(size))[..size]
  {
    hide Decrypt, Chained, InOrder, Delivered, Plain;
    RestWhole(start, size, off);
    PlainNext(dec, iv0, file, start, off, start + Padded(size) - off);
  }

  lemma RestWhole(start: nat, size: nat, off: nat)
    requires start <= off <= start + size && (off - start) % BLOCK == 0
    ensures (start + Padded(size) - off) % BLOCK == 0
  {
  }

  /** AES blocks, then the ragged tail, of which a whole block is read and hashed but only the rest of
      the size written. */
  method ProcessBlocks(fs: FileSystem, am9: Am9Log, dec: Cipher, file: seq<byte>, start: nat, size: nat,
                       buf: array<byte>, bufsize: nat, iv0: AesBlock, onlyVerify: bool, s: Section, sha: Sha256.Context)
      returns (failed: bool, off: nat, ghost ws: seq<Event>, ghost tried: seq<Event>)
    requires size < U32_LIMIT && BLOCK <= bufsize <= buf.Length
    requires sha.Valid() && sha.message == [] && buf != sha.chunk
    modifies fs, am9, buf, sha, sha.chunk, sha.h
    ensures fs.unread >= old(fs.unread) && am9.undecrypted >= old(am9.undecrypted)
    ensures failed ==>
      Excused(fs.unread, old(fs.unread), am9.undecrypted, old(am9.undecrypted), tried, s, onlyVerify)
    ensures sha.Valid() && am9.log == old(am9.log) + ws + tried && NothingWritten(tried)
    ensures !failed ==> tried == [] && off == start + Padded(size)
    ensures !failed ==> Complete(dec, iv0, file, start, size, sha.message, ws, s, onlyVerify)
    ensures InOrder(ws, s)
    ensures failed && start + Padded(size) <= |file| ==>
      Delivered(ws) <= Plain(dec, iv0, file, start, start + Padded(size))[..size]
  {
    hide Progress, Complete, Sha256.Holds, Decrypt, Chained, InOrder, Delivered, Plain, Padded;
    PaddedCases(size, bufsize);
    var misalign := size % BLOCK;
    var iv;
    failed, off, iv, ws, tried := Stream(fs, am9, dec, file, start, size - misalign, buf, bufsize - bufsize % BLOCK,
                                         iv0, onlyVerify, s, sha);
    if start + Padded(size) <= |file| {
      PartialWrites(dec, iv0, file, start, size, off, iv, sha.message, ws, s, onlyVerify);
    }
    ProgressOrder(dec, iv0, file, start, off, iv, sha.message, ws, s, onlyVerify);
    if failed {
      return;
    }
    if misalign > 0 {
      var newIv;
      failed, newIv, tried := ProcessChunk(fs, am9, dec, file, off, BLOCK, misalign, buf, iv, onlyVerify, s,
                                           off - start);
      if failed {
        return;
      }
      ghost var data := buf[..BLOCK];
      assert data[..misalign] == buf[..misalign];
      TailComplete(dec, iv0, file, start, size, iv, sha.message, ws, s, onlyVerify, data, tried, off, misalign);
      ws, tried := ws + tried, [];
      off := off + BLOCK;
      sha.Write(buf[..BLOCK]);
      CompleteOrder(dec, iv0, file, start, size, sha.message, ws, s, onlyVerify);
    } else {
      AlignedComplete(dec, iv0, file, start, size, iv, sha.message, ws, s, onlyVerify);
    }
  }

  lemma ProgressOrder(dec: Cipher, iv0: AesBlock, file: seq<byte>, start: nat, off: nat, iv: AesBlock,
                      message: seq<byte>, ws: seq<Event>, s: Section, onlyVerify: bool)
    requires Progress(dec, iv0, file, start, off, iv, message, ws, s, onlyVerify)
    ensures InOrder(ws, s)
  {
  }

  lemma CompleteOrder(dec: Cipher, iv: AesBlock, file: seq<byte>, start: nat, size: nat,
                      message: seq<byte>, ws: seq<Event>, s: Section, onlyVerify: bool)
    requires Complete(dec, iv, file, start, size, message, ws, s, onlyVerify)
    ensures InOrder(ws, s)
  {
  }

  // Opening and closing.

  /** Some begin has been answered by neither a finish nor a cancel. */
  ghost predicate Open(log: seq<Event>) {
    if log == [] then false
    else
      var e := log[|log| - 1];
      if e.Begin? && e.ok then true
      else if e.Cancel? || (e.Finish? && e.ok) then false
      else Open(log[..|log| - 1])
  }

  ghost predicate Quiet(e: Event) {
    e.Write? || e.CheckMac? || (e.Finish? && !e.ok) || (e.Begin? && !e.ok)
  }

  lemma {:induction false} QuietOpen(log: seq<Event>, es: seq<Event>)
    requires forall i :: 0 <= i < |es| ==> Quiet(es[i])
    ensures Open(log + es) == Open(log)
    decreases |es|
  {
    if es == [] {
      assert log + es == log;
    } else {
      var front := es[..|es| - 1];
      assert (log + es)[..|log + es| - 1] == log + front;
      QuietOpen(log, front);
    }
  }

  /** The checks of a section that passed, and its finish. */
  ghost function Passed(s: Section, onlyVerify: bool, cmac: seq<byte>, hash: seq<byte>): seq<Event> {
    [CheckMac(s, cmac, hash, true)] + if Installed(s) && !onlyVerify then [Finish(s, true)] else []
  }

  /** A MAC that AM9 refuses rejects the section, and a finish comes only behind a MAC over the expected hash
      that AM9 has accepted. */
  predicate MacFirst(checks: seq<Event>, s: Section, cmac: seq<byte>, hash: seq<byte>, rejected: bool) {
    forall i :: 0 <= i < |checks| ==>
      && (checks[i].CheckMac? && !checks[i].ok ==> rejected)
      && (checks[i].Finish? ==> i == 1 && checks[0] == CheckMac(s, cmac, hash, true))
  }

  /** The checks at the end of a section: its MAC over the hash, the hash itself, and the finish. */
  method Check(am9: Am9Log, s: Section, onlyVerify: bool, cmac: seq<byte>, hash: array<byte>, inhash: seq<byte>)
      returns (failed: bool, ghost checks: seq<Event>)
    modifies am9`log
    ensures am9.log == old(am9.log) + checks
    ensures !failed ==> hash[..] == inhash && (!onlyVerify ==> Writable(s))
    ensures !failed ==> checks == Passed(s, onlyVerify, cmac, inhash)
    ensures !failed ==>
      checks == [CheckMac(s, cmac, inhash, true)] +
                if (s == Tmd || s == Content) && !onlyVerify then [Finish(s, true)] else []
    ensures MacFirst(checks, s, cmac, inhash, failed)
    ensures failed ==> hash[..] != inhash || !AllOk(checks) || (!onlyVerify && !Writable(s))
    ensures failed ==> forall i :: 0 <= i < |checks| ==> Quiet(checks[i])
  {
    checks := [];
    failed := am9.ValidateSectionMac(s, cmac, hash[..]);
    checks := [CheckMac(s, cmac, hash[..], !failed)];
    if failed {
      assert !checks[0].ok;
      return;
    }
    failed := hash[..] != inhash;
    if failed {
      return;
    }
    if !onlyVerify {
      failed := am9.ProcessFinish(s);
      checks := checks + if Installed(s) then [Finish(s, !failed)] else [];
      assert failed && Installed(s) ==> !checks[1].ok;
    }
  }

  /** The metadata that follows a section. */
  function Cmac(file: seq<byte>, start: nat, n: nat): seq<byte>
    requires start + n + META_SIZE <= |file|
  {
    file[start + n..start + n + 16]
  }

  function Iv(file: seq<byte>, start: nat, n: nat): AesBlock
    requires start + n + META_SIZE <= |file|
  {
    file[start + n + 16..start + n + META_SIZE]
  }

  /** The metadata is read behind the section exactly up to the largest size that can be aligned; for the
      15 sizes beyond, the alignment wraps to 0 and the section's first bytes are taken for its metadata. */
  lemma MetaBehindSection(size: nat)
    requires size < U32_LIMIT
    ensures AlignBlock(size) == Padded(size) <==> size <= LARGEST_SIZE
    ensures size > LARGEST_SIZE ==> AlignBlock(size) == 0 && Padded(size) == U32_LIMIT
    ensures Padded(size) % 16 == 0 && size <= Padded(size) < size + 16
  {
  }

  /** The plaintext of a whole section, decrypted from the chaining value in its metadata. */
  function SectionPlain(dec: Cipher, file: seq<byte>, start: nat, size: nat): (p: seq<byte>)
    requires start + AlignBlock(size) + META_SIZE <= |file| && start + Padded(size) <= |file|
    ensures |p| == Padded(size)
  {
    Decrypt(dec, Iv(file, start, AlignBlock(size)), file[start..start + Padded(size)])
  }

  lemma CompleteMeans(dec: Cipher, iv: AesBlock, file: seq<byte>, start: nat, size: nat,
                      message: seq<byte>, ws: seq<Event>, s: Section, onlyVerify: bool)
    requires Complete(dec, iv, file, start, size, message, ws, s, onlyVerify)
    ensures InOrder(ws, s) && size <= |message| == Padded(size)
    ensures Delivered(ws) == if onlyVerify then [] else message[..size]
    ensures start + Padded(size) <= |file| ==> message == Plain(dec, iv, file, start, start + Padded(size))
  {
  }

  /** From the first block to the finish. */
  method ProcessPayload(fs: FileSystem, am9: Am9Log, dec: Cipher, size: nat, inhash: seq<byte>, buf: array<byte>,
                        bufsize: nat, file: seq<byte>, start: nat, cmac: seq<byte>, iv: AesBlock, onlyVerify: bool,
                        s: Section)
      returns (result: Result, off: nat, ghost ws: seq<Event>, ghost checks: seq<Event>)
    requires size < U32_LIMIT && BLOCK <= bufsize <= buf.Length
    modifies fs, am9, buf
    ensures fs.unread >= old(fs.unread) && am9.undecrypted >= old(am9.undecrypted)
    ensures result == StepFailed ==>
      Excused(fs.unread, old(fs.unread), am9.undecrypted, old(am9.undecrypted), checks, s, onlyVerify)
    ensures result == Rejected && start + Padded(size) <= |file| ==>
      || Sha256.Digest(Plain(dec, iv, file, start, start + Padded(size))) != inhash
      || !AllOk(checks) || (!onlyVerify && !Writable(s))
    ensures am9.log == old(am9.log) + ws + checks && InOrder(ws, s)
    ensures result == Done || result == StepFailed || result == Rejected
    ensures result == Done ==>
      && off == start + Padded(size)
      && checks == Passed(s, onlyVerify, cmac, inhash)
      && checks == [CheckMac(s, cmac, inhash, true)] +
                   (if (s == Tmd || s == Content) && !onlyVerify then [Finish(s, true)] else [])
      && (onlyVerify || Writable(s))
    ensures MacFirst(checks, s, cmac, inhash, result == Rejected)
    ensures result != Done ==> forall i :: 0 <= i < |checks| ==> Quiet(checks[i])
    ensures start + Padded(size) <= |file| ==>
      var plain := Plain(dec, iv, file, start, start + Padded(size));
      && size <= |plain| && Delivered(ws) <= plain[..size]
      && (result == Done ==> Delivered(ws) == if onlyVerify then [] else plain[..size])
      && (result == Done ==> Sha256.Digest(plain) == inhash)
      && (result == Done && size <= LARGEST_SIZE ==> Sha256Spec.Sha256(plain) == inhash)
  {
    hide Complete, Sha256.Holds, Decrypt, InOrder, Delivered, Plain, Padded;
    hide Sha256.Digest, Sha256Spec.Sha256, Sha256.PadWith, Sha256Spec.HashBlocks, Sha256Spec.DigestBytes;
    hide Sha256Spec.Pad;
    PaddedCases(size, bufsize);
    var hash := new byte[32];
    var sha := new Sha256.Context(hash);
    var failed;
    failed, off, ws, checks := ProcessBlocks(fs, am9, dec, file, start, size, buf, bufsize, iv, onlyVerify, s, sha);
    if failed {
      return StepFailed, off, ws, checks;
    }
    ghost var message := sha.message;
    CompleteMeans(dec, iv, file, start, size, message, ws, s, onlyVerify);
    var _ := sha.Close();
    failed, checks := Check(am9, s, onlyVerify, cmac, hash, inhash);
    result := if failed then Rejected else Done;
  }

  /** The calls that open and close a section around the work on it. */
  ghost function Opening(s: Section, onlyVerify: bool, result: Result): seq<Event> {
    if Installed(s) && !onlyVerify then [Begin(s, result != BeginFailed)] else []
  }

  ghost function Closing(s: Section, onlyVerify: bool, result: Result): seq<Event> {
    if !Installed(s) || onlyVerify then []
    else if result == StepFailed || result == Rejected then [Cancel(s)]
    else []
  }

  /** Whatever was begun is finished or cancelled, but for the way out on unreadable metadata. */
  lemma Settled(log: seq<Event>, s: Section, onlyVerify: bool, result: Result, ws: seq<Event>, checks: seq<Event>)
    requires !Open(log) && InOrder(ws, s)
    requires result == BeginFailed || result == MetaUnread ==> ws == checks == []
    requires result == StepFailed || result == Rejected ==> forall i :: 0 <= i < |checks| ==> Quiet(checks[i])
    requires result == Done ==> exists cmac, hash :: checks == Passed(s, onlyVerify, cmac, hash)
    ensures Open(log + Opening(s, onlyVerify, result) + ws + checks + Closing(s, onlyVerify, result))
            <==> result == MetaUnread && Installed(s) && !onlyVerify
  {
    hide InOrder, Delivered, Open;
    var begun := log + Opening(s, onlyVerify, result);
    var worked := begun + ws;
    Tried(ws, s);
    QuietOpen(begun, ws);
    if !Installed(s) || onlyVerify || result == BeginFailed {
      QuietOpen(log, Opening(s, onlyVerify, result));
      QuietOpen(worked, checks);
      assert worked + checks + [] == worked + checks;
    } else if result == MetaUnread {
      LastDecides(log, Begin(s, true));
      assert worked + checks + [] == begun;
    } else if result == Done {
      var cmac, hash :| checks == Passed(s, onlyVerify, cmac, hash);
      LastDecides(worked + [CheckMac(s, cmac, hash, true)], Finish(s, true));
      assert worked + checks + [] == worked + [CheckMac(s, cmac, hash, true)] + [Finish(s, true)];
    } else {
      LastDecides(worked + checks, Cancel(s));
    }
  }

  lemma LastDecides(log: seq<Event>, e: Event)
    requires (e.Begin? && e.ok) || e.Cancel? || (e.Finish? && e.ok)
    ensures Open(log + [e]) == e.Begin?
  {
  }

  lemma Tried(ws: seq<Event>, s: Section)
    requires InOrder(ws, s)
    ensures forall i :: 0 <= i < |ws| ==> Quiet(ws[i])
  {
  }

  lemma MetaIs(file: seq<byte>, start: nat, n: nat, meta: seq<byte>)
    requires start + n + META_SIZE <= |file|
    requires |meta| == META_SIZE && meta == file[start + n..start + n + META_SIZE]
    ensures meta[..16] == Cmac(file, start, n) && meta[16..] == Iv(file, start, n)
    ensures meta[..16] == file[start + n..start + n + 16]
  {
  }

  /** The file has no room for the section's metadata. */
  predicate MetaMissing(file: seq<byte>, start: nat, size: nat) {
    |file| < start + AlignBlock(size) + META_SIZE
  }

  /** A section that has been begun, once its metadata has been read. */
  method ProcessOpened(fs: FileSystem, am9: Am9Log, dec: Cipher, size: nat, inhash: seq<byte>, buf: array<byte>,
                       bufsize: nat, file: seq<byte>, start: nat, meta: seq<byte>, onlyVerify: bool, s: Section)
      returns (result: Result, off: nat, ghost ws: seq<Event>, ghost checks: seq<Event>)
    requires size < U32_LIMIT && BLOCK <= bufsize <= buf.Length && !MetaMissing(file, start, size)
    requires meta == file[start + AlignBlock(size)..start + AlignBlock(size) + META_SIZE]
    modifies fs, am9, buf
    ensures result == Done || result == StepFailed || result == Rejected
    ensures am9.log == old(am9.log) + ws + checks + Closing(s, onlyVerify, result)
    ensures fs.unread >= old(fs.unread) && am9.undecrypted >= old(am9.undecrypted)
    ensures InOrder(ws, s) && (forall e :: e in ws ==> e.Write?)
    ensures forall i :: 0 <= i < |ws| ==> ws[i] == Write(s, ws[i].data, |Delivered(ws[..i])|, true)
    ensures result == Done ==>
      && off == start + Padded(size) + META_SIZE && (onlyVerify || Writable(s))
      && checks == Passed(s, onlyVerify, Cmac(file, start, AlignBlock(size)), inhash)
    ensures result == Done ==>
      var n := AlignBlock(size);
      checks == [CheckMac(s, file[start + n..start + n + 16], inhash, true)] +
                if (s == Tmd || s == Content) && !onlyVerify then [Finish(s, true)] else []
    ensures var n := AlignBlock(size); MacFirst(checks, s, file[start + n..start + n + 16], inhash, result == Rejected)
    ensures start + Padded(size) <= |file| ==>
      var plain := SectionPlain(dec, file, start, size);
      && Delivered(ws) <= plain[..size]
      && (result == Done ==> Delivered(ws) == if onlyVerify then [] else plain[..size])
      && (result == Done ==> Sha256.Digest(plain) == inhash)
      && (result == Done && size <= LARGEST_SIZE ==> Sha256Spec.Sha256(plain) == inhash)
      && (result == Rejected ==>
            !AllOk(checks) || (!onlyVerify && !Writable(s)) || Sha256.Digest(plain) != inhash)
    ensures result != Done ==> forall i :: 0 <= i < |checks| ==> Quiet(checks[i])
    ensures result == StepFailed ==>
      Excused(fs.unread, old(fs.unread), am9.undecrypted, old(am9.undecrypted), checks, s, onlyVerify)
  {
    hide Decrypt, InOrder, Delivered, Padded, Passed, Closing, AlignBlock, Cmac, Iv, MacFirst, AllOk, Excused;
    MetaIs(file, start, AlignBlock(size), meta);
    result, off, ws, checks := ProcessPayload(fs, am9, dec, size, inhash, buf, bufsize, file, start, meta[..16],
                                              meta[16..], onlyVerify, s);
    InOrderMeans(ws, s);
    OpeningIs(s, onlyVerify, result);
    if result != Done {
      if !onlyVerify {
        am9.ProcessCancel(s);
      }
    } else {
      off := off + META_SIZE;
    }
    NoMore(old(am9.log) + ws + checks);
  }

  /** processSection.  A working buffer of less than one AES block would make it loop for ever.
      readFailed says whether the file system failed to read the metadata. */
  method ProcessSection(fs: FileSystem, am9: Am9Log, dec: Cipher, size: nat, inhash: seq<byte>, buf: array<byte>,
                        bufsize: nat, file: seq<byte>, start: nat, onlyVerify: bool, s: Section)
      returns (result: Result, off: nat, ghost ws: seq<Event>, ghost checks: seq<Event>, ghost readFailed: bool)
    requires size < U32_LIMIT && BLOCK <= bufsize <= buf.Length
    modifies fs, am9, buf
    ensures am9.log == old(am9.log) + Opening(s, onlyVerify, result) + ws + checks + Closing(s, onlyVerify, result)
    ensures InOrder(ws, s)
    ensures forall i :: 0 <= i < |ws| ==> ws[i] == Write(s, ws[i].data, |Delivered(ws[..i])|, true)
    // Success: all of the section's plaintext has the expected hash, whose MAC AM9 has accepted, and
    // exactly the first size bytes of it were written.
    ensures result == Done ==>
      && !MetaMissing(file, start, size) && off == start + Padded(size) + 0x20
      && checks == Passed(s, onlyVerify, Cmac(file, start, AlignBlock(size)), inhash)
    ensures result == Done ==>
      var n := AlignBlock(size);
      && checks == [CheckMac(s, file[start + n..start + n + 16], inhash, true)] +
                   (if (s == Tmd || s == Content) && !onlyVerify then [Finish(s, true)] else [])
      && (onlyVerify || s in {Tmd, Content, PublicSave, BannerSave, PrivateSave})
    // Without an accepted MAC nothing is done or finished.
    ensures (forall e :: e in ws ==> e.Write?) && forall i :: 0 <= i < |checks| ==>
      && (checks[i].CheckMac? && !checks[i].ok ==> result == Rejected)
      && (checks[i].Finish? ==>
            var n := AlignBlock(size);
            && i == 1 && start + n + META_SIZE <= |file|
            && checks[0] == CheckMac(s, file[start + n..start + n + 16], inhash, true))
    ensures result == Done && start + Padded(size) <= |file| ==>
      var plain := SectionPlain(dec, file, start, size);
      && Delivered(ws) == (if onlyVerify then [] else plain[..size])
      && Sha256.Digest(plain) == inhash && (size <= LARGEST_SIZE ==> Sha256Spec.Sha256(plain) == inhash)
    // Failure: what was written is a beginning of that plaintext.
    ensures result != Done && ws != [] ==>
      && !MetaMissing(file, start, size)
      && (start + Padded(size) <= |file| ==> Delivered(ws) <= SectionPlain(dec, file, start, size)[..size])
    ensures result != Done ==> forall i :: 0 <= i < |checks| ==> Quiet(checks[i])
    ensures result == BeginFailed || result == MetaUnread ==> ws == checks == []
    // Nothing fails without a reason: if the file has the whole section, with the expected hash, and no
    // read, decryption or call fails, the section is done.
    ensures result == BeginFailed ==> !onlyVerify && (Installed(s) || !Writable(s))
    ensures readFailed ==> old(fs.unread) < fs.unread
    ensures result == StepFailed ==>
      Excused(fs.unread, old(fs.unread), am9.undecrypted, old(am9.undecrypted), checks, s, onlyVerify)
    ensures result == Rejected && start + Padded(size) <= |file| ==>
      || !AllOk(checks) || (!onlyVerify && !Writable(s))
      || MetaMissing(file, start, size) || Sha256.Digest(SectionPlain(dec, file, start, size)) != inhash
    // The section stays begun exactly when its metadata cannot be read.
    ensures result != BeginFailed ==> (result == MetaUnread <==> readFailed || MetaMissing(file, start, size))
    ensures !Open(old(am9.log)) ==>
      (Open(am9.log) <==>
        Installed(s) && !onlyVerify && result != BeginFailed && (readFailed || MetaMissing(file, start, size)))
  {
    hide Decrypt, InOrder, Delivered, Padded, Open, Passed, Opening, Closing, AlignBlock, Cmac, Iv;
    off, ws, checks, readFailed := start, [], [], false;
    ghost var log0 := am9.log;
    OrderNothing(s);
    if !onlyVerify {
      var failed := am9.ProcessBegin(s);
      if failed {
        result := BeginFailed;
        NothingDone(log0, s, onlyVerify, result);
        return;
      }
    }
    NothingDone(log0, s, onlyVerify, MetaUnread);
    ghost var log1 := am9.log;
    assert log1 == log0 + Opening(s, onlyVerify, MetaUnread);
    var meta := new byte[META_SIZE](_ => 0);
    var failed, read := fs.FileRead(file, off + AlignBlock(size), META_SIZE, meta);
    readFailed := failed;
    if failed || read != META_SIZE {
      result := MetaUnread;
      return;
    }
    result, off, ws, checks := ProcessOpened(fs, am9, dec, size, inhash, buf, bufsize, file, start, meta[..],
                                             onlyVerify, s);
    OpeningIs(s, onlyVerify, result);
    if !Open(log0) { Settled(log0, s, onlyVerify, result, ws, checks); }
  }

  /** The failing input: a file that ends before the section's metadata does. Whenever AM9 begins such a
      section, it is left begun. */
  method ProcessTruncated(fs: FileSystem, am9: Am9Log, dec: Cipher, size: nat, inhash: seq<byte>, buf: array<byte>,
                          bufsize: nat, file: seq<byte>, start: nat, s: Section)
      returns (result: Result)
    requires size < U32_LIMIT && BLOCK <= bufsize <= buf.Length && !Open(am9.log)
    requires Installed(s) && MetaMissing(file, start, size)
    modifies fs, am9, buf
    ensures result == BeginFailed || result == MetaUnread
    ensures am9.log == old(am9.log) + [Begin(s, result == MetaUnread)]
    ensures Open(am9.log) <==> result == MetaUnread
  {
    hide Decrypt, InOrder, Delivered, Padded, Open, Passed, AlignBlock;
    var off;
    ghost var ws, checks, readFailed;
    result, off, ws, checks, readFailed := ProcessSection(fs, am9, dec, size, inhash, buf, bufsize, file, start,
                                                         false, s);
    ghost var begun := old(am9.log) + [Begin(s, result == MetaUnread)];
    assert begun + [] + [] + [] == begun;
  }

  lemma InOrderMeans(ws: seq<Event>, s: Section)
    requires InOrder(ws, s)
    ensures forall i :: 0 <= i < |ws| ==> ws[i] == Write(s, ws[i].data, |Delivered(ws[..i])|, true)
    ensures forall e :: e in ws ==> e.Write?
  {
  }

  lemma NoMore(log: seq<Event>)
    ensures log + [] == log
  {
  }

  lemma OrderNothing(s: Section)
    ensures InOrder([], s) && Delivered([]) == []
  {
  }

  lemma NothingDone(log: seq<Event>, s: Section, onlyVerify: bool, result: Result)
    requires result == BeginFailed || result == MetaUnread
    ensures var log1 := log + if Installed(s) && !onlyVerify then [Begin(s, result != BeginFailed)] else [];
            && log1 == log + Opening(s, onlyVerify, result)
            && log1 == log + Opening(s, onlyVerify, result) + [] + [] + Closing(s, onlyVerify, result)
            && (!Open(log) ==> (Open(log1) <==> result == MetaUnread && Installed(s) && !onlyVerify))
  {
    OrderNothing(s);
    if !Open(log) { Settled(log, s, onlyVerify, result, [], []); }
  }

  lemma OpeningIs(s: Section, onlyVerify: bool, result: Result)
    requires result == Done || result == StepFailed || result == Rejected
    ensures Opening(s, onlyVerify, result) == Opening(s, onlyVerify, MetaUnread)
    ensures Closing(s, onlyVerify, result) == if result != Done && !onlyVerify && Installed(s) then [Cancel(s)] else []
    ensures Closing(s, onlyVerify, MetaUnread) == []
  {
  }
}
