/** The demo play-count database of demodb.c: a ring of title ids and play counts in a file, of which
    128 title ids at a time are read into a buffer. */
module DemoDatabase {
  import opened Bytes
  import opened DemoQueue

  const SIZEOF_TID: nat := 8
  const HEADER_SIZE: nat := 8
  const TID_BUF_COUNT: nat := 128
  const SAVE_FILE_SIZE: nat := 0x1_0008

  /** DemoLaunchInfo. */
  datatype LaunchInfo = LaunchInfo(flags: byte, playcount: byte)

  // The ring as a queue.

  /** The slot of the k-th oldest entry. */
  function Slot(next: nat, count: nat, k: nat): nat {
    if count < MAX_ENTRIES then k else if next + k < MAX_ENTRIES then next + k else next + k - MAX_ENTRIES
  }

  ghost predicate RingShape(tids: seq<u64>, plays: seq<byte>, next: nat, count: nat) {
    && |tids| == |plays| == MAX_ENTRIES && next < MAX_ENTRIES && count <= MAX_ENTRIES
    && (count < MAX_ENTRIES ==> next == count)
  }

  function Ring(tids: seq<u64>, plays: seq<byte>, next: nat, count: nat): (q: Queue)
    requires RingShape(tids, plays, next, count)
    ensures |q| == count
  {
    seq(count, k requires 0 <= k < count => Entry(tids[Slot(next, count, k)], plays[Slot(next, count, k)]))
  }

  /** The place in the queue of the entry in a slot. */
  function Place(next: nat, count: nat, slot: nat): (k: nat)
    requires slot < count <= MAX_ENTRIES && next < MAX_ENTRIES
    ensures k < count && Slot(next, count, k) == slot
  {
    if count < MAX_ENTRIES then slot else if slot >= next then slot - next else slot + MAX_ENTRIES - next
  }

  /** A slot that holds tid holds the entry of tid. */
  lemma SlotFound(tids: seq<u64>, plays: seq<byte>, next: nat, count: nat, tid: u64, slot: nat)
    requires RingShape(tids, plays, next, count) && Bounded(Ring(tids, plays, next, count))
    requires slot < count && tids[slot] == tid
    ensures var q := Ring(tids, plays, next, count);
            Find(q, tid) == Place(next, count, slot) && Plays(q, tid) == plays[slot]
  {
    FindUnique(Ring(tids, plays, next, count), tid, Place(next, count, slot));
  }

  lemma SlotMissing(tids: seq<u64>, plays: seq<byte>, next: nat, count: nat, tid: u64)
    requires RingShape(tids, plays, next, count)
    requires forall i :: 0 <= i < count ==> tids[i] != tid
    ensures var q := Ring(tids, plays, next, count);
            Find(q, tid) == count && Plays(q, tid) == -1 && Launched(q, tid) == Inserted(q, tid)
  {
    Absent(Ring(tids, plays, next, count), tid);
  }

  lemma RingCounted(tids: seq<u64>, plays: seq<byte>, next: nat, count: nat, slot: nat)
    requires RingShape(tids, plays, next, count) && Bounded(Ring(tids, plays, next, count)) && slot < count
    ensures var q := Ring(tids, plays, next, count);
            Ring(tids, plays[slot := (plays[slot] as int + 1) % 0x100], next, count) == Launched(q, tids[slot])
  {
    var q := Ring(tids, plays, next, count);
    SlotFound(tids, plays, next, count, tids[slot], slot);
    assert Ring(tids, plays[slot := (plays[slot] as int + 1) % 0x100], next, count) == Launched(q, tids[slot]);
  }

  lemma RingInserted(tids: seq<u64>, plays: seq<byte>, next: nat, count: nat, tid: u64)
    requires RingShape(tids, plays, next, count)
    ensures var next1 := if next == MAX_ENTRIES - 1 then 0 else next + 1;
            var count1 := if count < MAX_ENTRIES then count + 1 else count;
            RingShape(tids, plays, next1, count1) &&
            Ring(tids[next := tid], plays[next := 1], next1, count1) == Inserted(Ring(tids, plays, next, count), tid)
  {
  }

  /** What the scan of the first n slots reports for tid. */
  ghost predicate Reported(tids: seq<u64>, plays: seq<byte>, n: nat, tid: u64, info: LaunchInfo)
    requires n <= |tids| && n <= |plays|
  {
    || (info == LaunchInfo(0, 0) && forall k :: 0 <= k < n ==> tids[k] != tid)
    || exists k :: 0 <= k < n && tids[k] == tid && info == LaunchInfo(8, plays[k])
  }

  /** The launch info of a title: bit 3 of the flags and the play count if the title is there. */
  function InfoOf(q: Queue, tid: u64): LaunchInfo {
    if Plays(q, tid) < 0 then LaunchInfo(0, 0) else LaunchInfo(8, Plays(q, tid))
  }

  /** The batched scan agrees with looking the title up in the queue. */
  lemma ScanIsLookup(tids: seq<u64>, plays: seq<byte>, next: nat, count: nat, tid: u64, info: LaunchInfo)
    requires RingShape(tids, plays, next, count) && Bounded(Ring(tids, plays, next, count))
    requires Reported(tids, plays, count, tid, info)
    ensures info == InfoOf(Ring(tids, plays, next, count), tid)
  {
    if info == LaunchInfo(0, 0) && forall k :: 0 <= k < count ==> tids[k] != tid {
      SlotMissing(tids, plays, next, count, tid);
    } else {
      var k :| 0 <= k < count && tids[k] == tid && info == LaunchInfo(8, plays[k]);
      SlotFound(tids, plays, next, count, tid, k);
    }
  }

  /** The launch right, on the slots. */
  lemma RightOnSlots(tids: seq<u64>, plays: seq<byte>, next: nat, count: nat, tid: u64, limit: TicketLimit)
    requires RingShape(tids, plays, next, count) && Bounded(Ring(tids, plays, next, count))
    ensures HasRight(Ring(tids, plays, next, count), tid, limit) <==>
              && limit.Limit?
              && (limit.flags != 0 ==> forall k :: 0 <= k < count && tids[k] == tid ==> plays[k] < limit.playcount)
  {
    hide Plays, Find, Bounded, Ring;
    if k :| 0 <= k < count && tids[k] == tid {
      SlotFound(tids, plays, next, count, tid, k);
      forall l | 0 <= l < count && tids[l] == tid ensures plays[l] == plays[k] {
        SlotFound(tids, plays, next, count, tid, l);
      }
    } else {
      SlotMissing(tids, plays, next, count, tid);
    }
  }

  /** The answer for a title id, on the slots: bit 3 and the play count of the slot that holds it. */
  ghost predicate InfoFromSlots(tids: seq<u64>, plays: seq<byte>, count: nat, id: u64, info: LaunchInfo)
    requires count <= |tids| && count <= |plays|
  {
    var tid := id % 0x1_0000_0000_0000;
    if exists k :: 0 <= k < count && tids[k] == tid then
      exists k :: 0 <= k < count && tids[k] == tid && info == LaunchInfo(8, plays[k])
    else info == LaunchInfo(0, 0)
  }

  lemma ReportedIsInfo(tids: seq<u64>, plays: seq<byte>, count: nat, id: u64, info: LaunchInfo)
    requires count <= |tids| && count <= |plays| && Reported(tids, plays, count, Masked(id), info)
    ensures InfoFromSlots(tids, plays, count, id, info)
  {
  }

  /** A launch of a title, on the slots: the play count of the slot that holds it goes up, or the title takes
      the slot that is next in the ring, with a play count of 1. */
  ghost predicate LaunchOnSlots(tids: seq<u64>, plays: seq<byte>, next: nat, count: nat, id: u64,
                                tids1: seq<u64>, plays1: seq<byte>, next1: nat, count1: nat)
    requires |tids| == |plays| == MAX_ENTRIES && next < MAX_ENTRIES && count <= MAX_ENTRIES
  {
    var tid := id % 0x1_0000_0000_0000;
    if exists k :: 0 <= k < count && tids[k] == tid then
      && tids1 == tids && next1 == next && count1 == count
      && exists k :: 0 <= k < count && tids[k] == tid && plays1 == plays[k := (plays[k] as int + 1) % 0x100]
    else
      && tids1 == tids[next := tid] && plays1 == plays[next := 1]
      && next1 == (if next == 4095 then 0 else next + 1) && count1 == Min(count + 1, 4096)
  }

  /** x | 8. */
  function Or8(x: byte): byte {
    if x / 8 % 2 == 1 then x else x + 8
  }

  class Database {
    const titleIds: array<u64>
    const playCounts: array<byte>
    var fileNext: nat
    var fileCount: nat
    const tidBuf: array<u64>
    var nextEntryIndex: nat
    var entryCount: nat

    ghost predicate Shape()
      reads this, titleIds, playCounts
    {
      && tidBuf.Length == TID_BUF_COUNT && titleIds != tidBuf
      && RingShape(titleIds[..], playCounts[..], nextEntryIndex, entryCount)
    }

    ghost function Contents(): Queue
      requires Shape()
      reads this, titleIds, playCounts
    {
      Ring(titleIds[..], playCounts[..], nextEntryIndex, entryCount)
    }

    /** The header in the file is the one in memory. */
    ghost predicate Valid()
      reads this, titleIds, playCounts
    {
      Shape() && Bounded(Contents()) && fileNext == nextEntryIndex && fileCount == entryCount
    }

    /** AM_DemoDatabase_Initialize with a file just created. The header becomes zero; the loop that is to
        fill the rest with zeros counts bytes where it should count buffers, so that it writes one buffer:
        the first 128 title ids. All other slots keep what the new file held. */
    constructor (titleIds: array<u64>, playCounts: array<byte>)
      requires titleIds.Length == playCounts.Length == MAX_ENTRIES
      modifies titleIds
      ensures Valid() && Contents() == [] && this.titleIds == titleIds && this.playCounts == playCounts
      ensures forall k :: 0 <= k < MAX_ENTRIES ==> titleIds[k] == if k < TID_BUF_COUNT then 0 else old(titleIds[k])
    {
      this.titleIds := titleIds;
      this.playCounts := playCounts;
      tidBuf := new u64[TID_BUF_COUNT](_ => 0);
      fileNext, fileCount, nextEntryIndex, entryCount := 0, 0, 0, 0;
      new;
      var i := 0;
      while i < (SAVE_FILE_SIZE - HEADER_SIZE) / (SIZEOF_TID * TID_BUF_COUNT)
        invariant i == 0 || i == SIZEOF_TID * TID_BUF_COUNT
        invariant tidBuf[..] == seq(TID_BUF_COUNT, _ => 0)
        invariant forall k :: 0 <= k < MAX_ENTRIES ==> titleIds[k] == if k < i / SIZEOF_TID then 0 else old(titleIds[k])
        modifies titleIds
      {
        WriteTids(i + HEADER_SIZE);
        i := i + SIZEOF_TID * TID_BUF_COUNT;
      }
    }

    /** FSFile_Write of the whole buffer to title ids at offset. */
    method WriteTids(offset: nat)
      requires tidBuf.Length == TID_BUF_COUNT && titleIds != tidBuf && titleIds.Length == MAX_ENTRIES
      requires offset >= HEADER_SIZE && (offset - HEADER_SIZE) % SIZEOF_TID == 0
      requires offset - HEADER_SIZE + SIZEOF_TID * TID_BUF_COUNT <= SIZEOF_TID * MAX_ENTRIES
      modifies titleIds
      ensures var first := (offset - HEADER_SIZE) / SIZEOF_TID;
              forall k :: 0 <= k < MAX_ENTRIES ==>
                titleIds[k] == if first <= k < first + TID_BUF_COUNT then tidBuf[k - first] else old(titleIds[k])
    {
      var first := (offset - HEADER_SIZE) / SIZEOF_TID;
      for i := 0 to TID_BUF_COUNT
        invariant forall k :: 0 <= k < MAX_ENTRIES ==>
                    titleIds[k] == if first <= k < first + i then tidBuf[k - first] else old(titleIds[k])
      {
        titleIds[first + i] := tidBuf[i];
      }
    }

    /** FSFile_Read of batch bytes of title ids at offset. */
    method ReadTids(offset: nat, batch: nat)
      requires Shape() && offset >= HEADER_SIZE && (offset - HEADER_SIZE) % SIZEOF_TID == 0 && batch % SIZEOF_TID == 0
      requires batch <= SIZEOF_TID * TID_BUF_COUNT && offset - HEADER_SIZE + batch <= SIZEOF_TID * MAX_ENTRIES
      modifies tidBuf
      ensures forall i :: 0 <= i < batch / SIZEOF_TID ==> tidBuf[i] == titleIds[(offset - HEADER_SIZE) / SIZEOF_TID + i]
    {
      var first := (offset - HEADER_SIZE) / SIZEOF_TID;
      for i := 0 to batch / SIZEOF_TID
        invariant forall k :: 0 <= k < i ==> tidBuf[k] == titleIds[first + k]
      {
        tidBuf[i] := titleIds[first + i];
      }
    }

    /** findIndex. */
    method FindIndex(titleId: u64) returns (found: bool, index: nat)
      requires Shape()
      modifies tidBuf
      ensures found ==> index < entryCount && titleIds[index] == Masked(titleId)
      ensures !found ==> forall i :: 0 <= i < entryCount ==> titleIds[i] != Masked(titleId)
    {
      var tid := Masked(titleId);
      found, index := false, 0;
      if entryCount == 0 {
        return;
      }
      var remain, offset, tidIndex := SIZEOF_TID * entryCount, HEADER_SIZE, 0;
      while remain > 0
        invariant tidIndex <= entryCount && remain == SIZEOF_TID * (entryCount - tidIndex)
        invariant offset == HEADER_SIZE + SIZEOF_TID * tidIndex
        invariant forall k :: 0 <= k < tidIndex ==> titleIds[k] != tid
      {
        var batch := if SIZEOF_TID * TID_BUF_COUNT < remain then SIZEOF_TID * TID_BUF_COUNT else remain;
        ReadTids(offset, batch);
        ghost var first := tidIndex;
        for i := 0 to batch / SIZEOF_TID
          invariant tidIndex == first + i
          invariant forall k :: 0 <= k < tidIndex ==> titleIds[k] != tid
        {
          if tidBuf[i] == tid {
            return true, tidIndex;
          }
          tidIndex := tidIndex + 1;
        }
        offset := offset + batch;
        remain := remain - batch;
      }
    }
  
    /** AM_DemoDatabase_GetLaunchInfos. */
    method GetLaunchInfos(ids: seq<u64>, infos: array<LaunchInfo>)
      requires Valid() && infos.Length == |ids|
      modifies tidBuf, infos
      ensures Valid() && Contents() == old(Contents())
      ensures forall j :: 0 <= j < |ids| ==> infos[j] == InfoOf(Contents(), Masked(ids[j]))
      ensures forall j :: 0 <= j < |ids| ==> InfoFromSlots(titleIds[..], playCounts[..], entryCount, ids[j], infos[j])
    {
      hide Reported, InfoFromSlots;
      ghost var tids, plays := titleIds[..], playCounts[..];
      for j := 0 to |ids|
        modifies infos
        invariant forall k :: 0 <= k < j ==> infos[k] == LaunchInfo(0, 0)
      {
        infos[j] := LaunchInfo(0, 0);
      }
      forall j | 0 <= j < |ids|
        ensures Reported(tids, plays, 0, Masked(ids[j]), infos[j])
      {
        ReportedNothing(tids, plays, Masked(ids[j]));
      }
      var remain, offset, processed: nat := SIZEOF_TID * entryCount, HEADER_SIZE, 0;
      while remain > 0
        modifies tidBuf, infos
        invariant processed <= entryCount && remain == SIZEOF_TID * (entryCount - processed)
        invariant offset == HEADER_SIZE + SIZEOF_TID * processed
        invariant forall j :: 0 <= j < |ids| ==> Reported(tids, plays, processed, Masked(ids[j]), infos[j])
      {
        var batch := if SIZEOF_TID * TID_BUF_COUNT < remain then SIZEOF_TID * TID_BUF_COUNT else remain;
        var batchTids := batch / SIZEOF_TID;
        ReadTids(offset, batch);
        for i := 0 to batchTids
          modifies infos
          invariant forall j :: 0 <= j < |ids| ==> Reported(tids, plays, processed + i, Masked(ids[j]), infos[j])
        {
          CompareAll(ids, infos, i, processed + i);
        }
        processed := processed + batchTids;
        offset := offset + batch;
        remain := remain - batch;
      }
      assert titleIds[..] == tids && playCounts[..] == plays;
      forall j | 0 <= j < |ids|
        ensures infos[j] == InfoOf(Contents(), Masked(ids[j]))
        ensures InfoFromSlots(tids, plays, entryCount, ids[j], infos[j])
      {
        ReportedIsInfo(tids, plays, entryCount, ids[j], infos[j]);
        ScanIsLookup(tids, plays, nextEntryIndex, entryCount, Masked(ids[j]), infos[j]);
      }
    }

    /** The inner loop: one buffered title id against all that are asked for. */
    method CompareAll(ids: seq<u64>, infos: array<LaunchInfo>, i: nat, slot: nat)
      requires Shape() && infos.Length == |ids| && i < TID_BUF_COUNT && slot < entryCount && tidBuf[i] == titleIds[slot]
      requires forall j :: 0 <= j < |ids| ==> Reported(titleIds[..], playCounts[..], slot, Masked(ids[j]), infos[j])
      modifies infos
      ensures forall j :: 0 <= j < |ids| ==> Reported(titleIds[..], playCounts[..], slot + 1, Masked(ids[j]), infos[j])
    {
      ghost var tids, plays := titleIds[..], playCounts[..];
      for j := 0 to |ids|
        modifies infos
        invariant forall k :: 0 <= k < |ids| ==>
          Reported(tids, plays, if k < j then slot + 1 else slot, Masked(ids[k]), infos[k])
      {
        if tidBuf[i] == Masked(ids[j]) {
          infos[j] := LaunchInfo(Or8(infos[j].flags), infos[j].playcount);
          infos[j] := LaunchInfo(infos[j].flags, playCounts[slot]);
        }
      }
    }

    /** AM_DemoDatabase_HasDemoLaunchRight; limit is the answer of AM9_GetTicketLimitInfos. */
    method HasDemoLaunchRight(titleId: u64, limit: TicketLimit) returns (right: bool)
      requires Valid()
      modifies this`fileNext, this`fileCount, this`nextEntryIndex, this`entryCount, titleIds, playCounts, tidBuf
      ensures Valid()
      ensures right <==>
                && limit.Limit?
                && (limit.flags != 0 ==>
                      forall k :: 0 <= k < old(entryCount) && old(titleIds[k]) == titleId % 0x1_0000_0000_0000 ==>
                        old(playCounts[k]) < limit.playcount)
      ensures if right then
                LaunchOnSlots(old(titleIds[..]), old(playCounts[..]), old(nextEntryIndex), old(entryCount), titleId,
                              titleIds[..], playCounts[..], nextEntryIndex, entryCount)
              else unchanged(this, titleIds, playCounts)
      ensures right == HasRight(old(Contents()), Masked(titleId), limit)
      ensures Contents() == Served(old(Contents()), Check(titleId, limit))
    {
      hide Ring, Launched, Find, Bounded, Plays, InfoFromSlots, LaunchOnSlots;
      ghost var q := Contents();
      RightOnSlots(titleIds[..], playCounts[..], nextEntryIndex, entryCount, Masked(titleId), limit);
      if limit.NoTicket? {
        return false;
      }
      if limit.flags != 0 {
        PresenceBit(q, titleId);
        var infos := new LaunchInfo[1](_ => LaunchInfo(0, 0));
        GetLaunchInfos([titleId], infos);
        assert infos[0] == InfoOf(Contents(), Masked([titleId][0]));
        if infos[0].flags / 8 % 2 == 1 && infos[0].playcount >= limit.playcount {
          return false;
        }
      }
      CountGranted(titleId);
      return true;
    }

    /** A launch that has been granted is counted. */
    method CountGranted(titleId: u64)
      requires Valid()
      modifies this`fileNext, this`fileCount, this`nextEntryIndex, this`entryCount, titleIds, playCounts, tidBuf
      ensures Valid() && Contents() == Launched(old(Contents()), Masked(titleId))
      ensures LaunchOnSlots(old(titleIds[..]), old(playCounts[..]), old(nextEntryIndex), old(entryCount), titleId,
                            titleIds[..], playCounts[..], nextEntryIndex, entryCount)
    {
      hide Ring, Launched, Find, Bounded, Plays;
      var found, index := FindIndex(titleId);
      if !found {
        EnterTitle(titleId);
      } else {
        CountLaunch(index);
      }
    }

    /** A title that is not there yet: written over the slot at nextEntryIndex, with the header. */
    method EnterTitle(titleId: u64)
      requires Valid() && forall i :: 0 <= i < entryCount ==> titleIds[i] != Masked(titleId)
      modifies this`fileNext, this`fileCount, this`nextEntryIndex, this`entryCount, titleIds, playCounts
      ensures Valid() && Contents() == Launched(old(Contents()), Masked(titleId))
      ensures titleIds[..] == old(titleIds[..])[old(nextEntryIndex) := Masked(titleId)]
      ensures playCounts[..] == old(playCounts[..])[old(nextEntryIndex) := 1]
      ensures nextEntryIndex == if old(nextEntryIndex) == MAX_ENTRIES - 1 then 0 else old(nextEntryIndex) + 1
      ensures entryCount == Min(old(entryCount) + 1, MAX_ENTRIES)
    {
      hide Ring, Launched, Inserted, Find, Bounded, Plays, Masked;
      ghost var tids, plays, tid := titleIds[..], playCounts[..], Masked(titleId);
      MaskedTwice(titleId);
      SlotMissing(tids, plays, nextEntryIndex, entryCount, tid);
      RingInserted(tids, plays, nextEntryIndex, entryCount, tid);
      LaunchedBounded(Contents(), tid);
      titleIds[nextEntryIndex] := Masked(titleId);
      playCounts[nextEntryIndex] := 1;
      assert titleIds[..] == tids[nextEntryIndex := tid] && playCounts[..] == plays[nextEntryIndex := 1];
      if entryCount < MAX_ENTRIES {
        entryCount := entryCount + 1;
      }
      nextEntryIndex := if nextEntryIndex == MAX_ENTRIES - 1 then 0 else nextEntryIndex + 1;
      WriteHeader();
    }

    /** A title that is there: its play count, a u8, goes up. */
    method CountLaunch(index: nat)
      requires Valid() && index < entryCount
      modifies playCounts
      ensures Valid() && Contents() == Launched(old(Contents()), old(titleIds[index]))
      ensures playCounts[..] == old(playCounts[..])[index := (old(playCounts[index]) as int + 1) % 0x100]
    {
      ghost var tids, plays := titleIds[..], playCounts[..];
      RingCounted(tids, plays, nextEntryIndex, entryCount, index);
      assert tids[index] == Ring(tids, plays, nextEntryIndex, entryCount)[Place(nextEntryIndex, entryCount, index)].tid;
      LaunchedBounded(Contents(), tids[index]);
      var playcount := playCounts[index];
      playCounts[index] := (playcount as int + 1) % 0x100;
      assert titleIds[..] == tids && playCounts[..] == plays[index := (plays[index] as int + 1) % 0x100];
    }

    /** AM_DemoDatabase_WriteHeader. */
    method WriteHeader()
      modifies this`fileNext, this`fileCount
      ensures fileNext == nextEntryIndex && fileCount == entryCount
    {
      fileNext, fileCount := nextEntryIndex, entryCount;
    }

    /** AM_DemoDatabase_InitializeHeader. */
    method InitializeHeader()
      requires Valid()
      modifies this`fileNext, this`fileCount, this`nextEntryIndex, this`entryCount
      ensures Valid() && Contents() == Served(old(Contents()), Reset) == []
    {
      nextEntryIndex, entryCount := 0, 0;
      WriteHeader();
    }
  }

  /** Bit 3 of the reported flags says whether the title is there. */
  lemma PresenceBit(q: Queue, tid: u64)
    ensures InfoOf(q, tid).flags / 8 % 2 == 1 <==> Plays(q, tid) >= 0
  {
  }

  lemma MaskedTwice(tid: u64)
    ensures Masked(Masked(tid)) == Masked(tid)
  {
  }

  lemma ReportedNothing(tids: seq<u64>, plays: seq<byte>, tid: u64)
    ensures Reported(tids, plays, 0, tid, LaunchInfo(0, 0))
  {
  }
}
