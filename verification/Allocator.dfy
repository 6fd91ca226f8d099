/** The first-fit allocator of allocator.c, on the word array it is given. */
module Allocator {
  import opened Bytes
  import opened HeapModel

  /** void *: the index of the word it points at. */
  datatype Pointer = Null | To(word: nat)

  const SIZEOF_MEMTYPE: nat := 4

  /** The words a request for size bytes needs. */
  function WordsFor(size: nat): (num: nat)
    ensures SIZEOF_MEMTYPE * num >= size && (num > 0 ==> SIZEOF_MEMTYPE * (num - 1) < size)
  {
    (size + SIZEOF_MEMTYPE - 1) / SIZEOF_MEMTYPE
  }

  ghost predicate Fits(bs: Blocks, x: nat, num: nat) {
    x in FreeStarts(bs) && bs[x].size >= num
  }

  /** The block at x is the lowest free one that holds num words. */
  ghost predicate FirstFit(bs: Blocks, x: nat, num: nat)
    ensures FirstFit(bs, x, num) ==> x in bs && num <= bs[x].size
  {
    Fits(bs, x, num) && forall z: nat :: z < x ==> !Fits(bs, z, num)
  }

  ghost predicate NoFit(bs: Blocks, num: nat) {
    forall x :: x in FreeStarts(bs) ==> bs[x].size < num
  }

  lemma FirstFitMeans(bs: Blocks, x: nat, num: nat)
    requires FirstFit(bs, x, num)
    ensures x in bs && bs[x].free && bs[x].size >= num
    ensures forall z: nat :: z in bs && z < x && bs[z].free ==> bs[z].size < num
  {
    forall z: nat | z in bs && z < x && bs[z].free ensures bs[z].size < num {
      assert z in FreeStarts(bs) && !Fits(bs, z, num);
    }
  }

  lemma NoFitMeans(bs: Blocks, num: nat)
    ensures NoFit(bs, num) <==> forall z: nat :: z in bs && bs[z].free ==> bs[z].size < num
  {
    forall z: nat | z in bs && bs[z].free && NoFit(bs, num) ensures bs[z].size < num {
      assert z in FreeStarts(bs);
    }
  }

  /** w is a word of the block at x. */
  ghost predicate Inside(bs: Blocks, x: nat, w: nat) {
    x in bs && x <= w <= Last(bs, x)
  }

  /** No word, header or payload, of a live block outside except has changed. */
  ghost predicate LiveKept(bs: Blocks, except: set<nat>, mem: seq<u32>, m: seq<u32>) {
    && |m| == |mem|
    && forall x: nat, w: nat :: Inside(bs, x, w) && !bs[x].free && x !in except && w < |mem| ==> m[w] == mem[w]
  }

  lemma Kept(bs: Blocks, except: set<nat>, mem: seq<u32>, m: seq<u32>, ws: set<nat>)
    requires Tiling(bs, |mem|) && Changed(mem, m, ws)
    requires forall w :: w in ws ==> exists y :: Inside(bs, y, w) && (bs[y].free || y in except)
    ensures LiveKept(bs, except, mem, m)
  {
    forall x: nat, w: nat | Inside(bs, x, w) && !bs[x].free && x !in except
      ensures w < |mem| && m[w] == mem[w]
    {
      Within(bs, |mem|, x);
      if w in ws {
        var y :| Inside(bs, y, w) && (bs[y].free || y in except);
        Apart(bs, |mem|, x, y);
      }
    }
  }

  /** The search passes over a free block that is too small. */
  lemma PassedOver(mem: seq<u32>, avail: nat, bs: Blocks, cur: nat, num: nat)
    requires Represents(mem, avail, bs) && cur in FreeStarts(bs) && bs[cur].size < num
    requires forall x: nat :: x < cur ==> !Fits(bs, x, num)
    ensures Last(bs, cur) < |mem| && mem[cur] == bs[cur].size
    ensures var next := mem[Last(bs, cur)];
            && cur < next <= |mem| && IsNext(FreeStarts(bs), |mem|, cur + 1, next)
            && (next < |mem| ==> next in FreeStarts(bs))
            && (forall x: nat :: x < next ==> !Fits(bs, x, num))
            && (next == |mem| ==> NoFit(bs, num))
  {
    hide Represents, Tiling;
    Parts(mem, avail, bs, cur);
    forall x | x in FreeStarts(bs)
      ensures x < |mem| && (x < mem[Last(bs, cur)] ==> bs[x].size < num)
    {
      Parts(mem, avail, bs, x);
      assert x < cur ==> !Fits(bs, x, num);
    }
  }

  lemma StartOfSearch(mem: seq<u32>, avail: nat, bs: Blocks)
    requires Represents(mem, avail, bs)
    ensures avail <= |mem| && (avail < |mem| <==> avail in FreeStarts(bs))
    ensures forall x :: x in FreeStarts(bs) ==> avail <= x < |mem| && mem[x] == bs[x].size
  {
    hide Tiling;
    forall x | x in FreeStarts(bs)
      ensures avail <= x < |mem|
    {
      Parts(mem, avail, bs, x);
    }
  }

  class Heap {
    const mem: array<u32>
    const memSize: nat
    var avail: nat
    ghost var blocks: Blocks

    ghost predicate Valid()
      reads this, mem
    {
      memSize == mem.Length && Represents(mem[..], avail, blocks)
    }

    /** meminit: needs room for one header and one word. */
    constructor (mem: array<u32>)
      requires 2 <= mem.Length < U32_LIMIT
      modifies mem
      ensures Valid() && this.mem == mem && memSize == mem.Length
      ensures blocks == map[0 := Block(memSize - 1, true)]
    {
      this.mem := mem;
      memSize := mem.Length;
      mem[0] := mem.Length - 1;
      mem[mem.Length - 1] := mem.Length;
      avail := 0;
      blocks := map[0 := Block(mem.Length - 1, true)];
      new;
      assert Sound(blocks, memSize, 0);
      Assembled(mem[..], avail, blocks);
    }

    /** linkToNext. */
    function LinkToNext(x: nat): nat
      requires x < mem.Length
      reads mem
    {
      x + mem[x]
    }

    function Next(x: nat): nat
      requires x < mem.Length && LinkToNext(x) < mem.Length
      reads mem
    {
      mem[LinkToNext(x)]
    }

    /** The search loop of malloc. */
    method Search(num: nat) returns (found: bool, cur: nat, prev: nat, first: bool)
      requires Valid()
      ensures if found then FirstFit(blocks, cur, num) else NoFit(blocks, num)
      ensures found ==> Pointed(mem[..], avail, blocks, cur, first, prev)
    {
      hide Represents, IsNext;
      StartOfSearch(mem[..], avail, blocks);
      found, cur, prev, first := false, avail, avail, true;
      if avail == memSize {
        return;
      }
      while mem[cur] < num
        invariant cur < memSize && cur in FreeStarts(blocks)
        invariant forall x: nat :: x < cur ==> !Fits(blocks, x, num)
        invariant Pointed(mem[..], avail, blocks, cur, first, prev)
        decreases memSize - cur
      {
        PassedOver(mem[..], avail, blocks, cur, num);
        first := false;
        prev := cur;
        if Next(cur) == memSize {
          return;
        }
        cur := Next(cur);
      }
      found := true;
    }
  
    /** malloc. */
    method Malloc(size: u32) returns (p: Pointer)
      requires Valid()
      modifies this`avail, this`blocks, mem
      ensures Valid()
      ensures p == Null <==> size == 0 || NoFit(old(blocks), WordsFor(size))
      ensures p == Null <==>
                size == 0 || forall x :: x in old(blocks) && old(blocks)[x].free ==> 4 * old(blocks)[x].size < size
      ensures p.To? ==>
        && p.word >= 1 && p.word - 1 in old(blocks) && old(blocks)[p.word - 1].free
        && 4 * old(blocks)[p.word - 1].size >= size
        && forall x :: x in old(blocks) && x < p.word - 1 && old(blocks)[x].free ==> 4 * old(blocks)[x].size < size
      ensures p == Null ==> blocks == old(blocks) && mem[..] == old(mem[..]) && avail == old(avail)
      ensures p.To? ==>
        && p.word >= 1 && FirstFit(old(blocks), p.word - 1, WordsFor(size))
        && blocks == Allocated(old(blocks), p.word - 1, WordsFor(size))
      ensures LiveKept(old(blocks), {}, old(mem[..]), mem[..])
    {
      hide Represents, Pointed, Changed, LiveKept, Tiling, Allocated;
      AllKept(blocks, mem[..]);
      if size == 0 {
        return Null;
      }
      var num := size / SIZEOF_MEMTYPE;
      if size % SIZEOF_MEMTYPE > 0 {
        num := num + 1;
      }
      assert num == WordsFor(size) && num >= 1;
      var found, cur, prev, first := Search(num);
      if found { FirstFitMeans(blocks, cur, num); } else { NoFitMeans(blocks, num); }
      if !found {
        return Null;
      }
      assert !NoFit(blocks, num);
      Take(num, cur, prev, first);
      return To(cur + 1);
    }

    /** What malloc does to the block it has found. */
    method Take(num: nat, cur: nat, prev: nat, first: bool)
      requires Valid() && num >= 1 && Fits(blocks, cur, num) && Pointed(mem[..], avail, blocks, cur, first, prev)
      modifies this`avail, this`blocks, mem
      ensures Valid() && blocks == Allocated(old(blocks), cur, num)
      ensures LiveKept(old(blocks), {}, old(mem[..]), mem[..])
    {
      hide Represents, Pointed, LiveKept, Tiling;
      ghost var m0, a0 := mem[..], avail;
      Parts(m0, avail, blocks, cur);
      Pointers(m0, avail, blocks, cur, first, prev, cur);
      if !first {
        Parts(m0, avail, blocks, prev);
        Apart(blocks, memSize, prev, cur);
      }
      if mem[cur] == num {
        if first {
          avail := Next(cur);
        } else {
          mem[LinkToNext(prev)] := Next(cur);
        }
        Took(m0, a0, blocks, cur, first, prev, mem[..], avail);
      } else {
        if first {
          if mem[cur] - num == 1 {
            avail := Next(cur);
          } else {
            avail := cur + num + 1;
          }
        } else {
          if mem[cur] - num == 1 {
            mem[LinkToNext(prev)] := Next(cur);
          } else {
            mem[LinkToNext(prev)] := cur + num + 1;
          }
        }
        if mem[cur] - num == 1 {
          mem[cur] := num + 1;
          Took(m0, a0, blocks, cur, first, prev, mem[..], avail);
        } else {
          mem[cur + num + 1] := mem[cur] - num - 1;
          mem[cur] := num;
          SplitOff(m0, a0, blocks, cur, num, first, prev, mem[..], avail);
        }
      }
      TakenKept(m0, a0, blocks, cur, num, first, prev, mem[..]);
      blocks := Allocated(blocks, cur, num);
    }

    /** free of a pointer that malloc returned and that is still live. */
    method Free(p: nat)
      requires Valid() && p >= 1 && LiveAt(blocks, p - 1)
      modifies this`avail, this`blocks, mem
      ensures Valid() && blocks == Freed(old(blocks), p - 1)
      ensures LiveKept(old(blocks), {p - 1}, old(mem[..]), mem[..])
    {
      hide Represents, Tiling, LiveKept, Freed, IsNext;
      var toFree := p - 1;
      ghost var m0 := mem[..];
      AvailNotLive(m0, avail, blocks, toFree);
      if toFree < avail {
        FreeFirst(toFree);
      } else {
        var prev, cur := avail, avail;
        while cur < toFree
          modifies {}
          invariant mem[..] == m0
          invariant cur <= memSize
          invariant cur <= toFree ==> cur in FreeStarts(blocks)
          invariant cur == avail || (prev in FreeStarts(blocks) && prev < toFree && prev < cur
                                     && Last(blocks, prev) < memSize && cur == mem[Last(blocks, prev)])
          decreases memSize - cur
        {
          prev := cur;
          FollowLink(m0, avail, blocks, cur, toFree);
          cur := Next(cur);
        }
        FreeBehind(toFree, prev, cur);
      }
    }

    /** The block is before the first free block. */
    method FreeFirst(toFree: nat)
      requires Valid() && Between(mem[..], avail, blocks, toFree, true, 0, avail)
      modifies this`avail, this`blocks, mem
      ensures Valid() && blocks == Freed(old(blocks), toFree)
      ensures LiveKept(old(blocks), {toFree}, old(mem[..]), mem[..])
    {
      hide Represents, Tiling, LiveKept, Freed, IsNext, Between;
      ghost var m0 := mem[..];
      Around(m0, avail, blocks, toFree, true, 0, avail);
      Parts(m0, avail, blocks, toFree);
      FreedFirst(blocks, memSize, toFree, avail);
      if LinkToNext(toFree) + 1 == avail && avail < memSize {
        Parts(m0, avail, blocks, avail);
        mem[toFree] := mem[toFree] + (mem[avail] + 1);
        FreedBeforeFirst(m0, avail, blocks, toFree, mem[..]);
      } else {
        mem[LinkToNext(toFree)] := avail;
        FreedAlone(m0, avail, blocks, toFree, true, 0, avail, mem[..], toFree);
      }
      FreedKept(m0, avail, blocks, toFree, {}, mem[..]);
      avail := toFree;
      blocks := Freed(blocks, toFree);
    }

    /** Some free block is before it, the last of these at prev. */
    method FreeBehind(toFree: nat, prev: nat, cur: nat)
      requires Valid() && Between(mem[..], avail, blocks, toFree, false, prev, cur)
      modifies this`avail, this`blocks, mem
      ensures Valid() && blocks == Freed(old(blocks), toFree)
      ensures LiveKept(old(blocks), {toFree}, old(mem[..]), mem[..])
    {
      hide Represents, Tiling, LiveKept, Freed, IsNext, Between;
      ghost var m0 := mem[..];
      Around(m0, avail, blocks, toFree, false, prev, cur);
      Parts(m0, avail, blocks, toFree);
      Parts(m0, avail, blocks, prev);
      FreedBehind(blocks, memSize, toFree, prev, cur);
      if LinkToNext(prev) + 1 == toFree {
        mem[prev] := mem[prev] + (mem[toFree] + 1);
        if LinkToNext(toFree) + 1 == cur && cur < memSize {
          Parts(m0, avail, blocks, cur);
          mem[prev] := mem[prev] + (mem[cur] + 1);
          FreedInGap(m0, avail, blocks, toFree, prev, cur, mem[..]);
        } else {
          mem[LinkToNext(toFree)] := cur;
          FreedAfterPrev(m0, avail, blocks, toFree, prev, cur, mem[..]);
        }
      } else {
        mem[LinkToNext(prev)] := toFree;
        mem[LinkToNext(toFree)] := cur;
        FreedAlone(m0, avail, blocks, toFree, false, prev, cur, mem[..], avail);
      }
      FreedKept(m0, avail, blocks, toFree, {prev, Last(blocks, prev)}, mem[..]);
      blocks := Freed(blocks, toFree);
    }
  }

  /** The words that malloc writes are words of free blocks. */
  lemma TakenKept(mem: seq<u32>, avail: nat, bs: Blocks, x: nat, num: nat, first: bool, prev: nat, m: seq<u32>)
    requires Represents(mem, avail, bs) && x in FreeStarts(bs) && Pointed(mem, avail, bs, x, first, prev)
    requires first || prev in bs
    requires Changed(mem, m, LinkWord(bs, first, prev) + if num < bs[x].size then {x, x + num + 1} else {})
    ensures LiveKept(bs, {}, mem, m)
  {
    hide Represents, LiveKept, Tiling;
    Parts(mem, avail, bs, x);
    var ws := LinkWord(bs, first, prev) + if num < bs[x].size then {x, x + num + 1} else {};
    forall w | w in ws
      ensures exists y :: Inside(bs, y, w) && (bs[y].free || y in {})
    {
      var y := if num < bs[x].size && (w == x || w == x + num + 1) then x else prev;
      if y == prev && !first { Parts(mem, avail, bs, prev); }
      assert Inside(bs, y, w);
    }
    Kept(bs, {}, mem, m, ws);
  }

  lemma AllKept(bs: Blocks, mem: seq<u32>)
    ensures LiveKept(bs, {}, mem, mem)
  {
  }

  lemma AvailNotLive(mem: seq<u32>, avail: nat, bs: Blocks, x: nat)
    requires Represents(mem, avail, bs) && LiveAt(bs, x)
    ensures avail != x && avail <= |mem| && (avail <= x ==> avail in FreeStarts(bs))
    ensures x < avail ==> Between(mem, avail, bs, x, true, 0, avail)
  {
    Parts(mem, avail, bs, x);
  }

  lemma FollowLink(mem: seq<u32>, avail: nat, bs: Blocks, cur: nat, x: nat)
    requires Represents(mem, avail, bs) && cur in FreeStarts(bs) && LiveAt(bs, x) && cur < x
    ensures Last(bs, cur) < |mem| && mem[cur] == bs[cur].size
    ensures var next := mem[Last(bs, cur)];
            && cur < next <= |mem| && (next <= x ==> next in FreeStarts(bs))
            && (x < next ==> Between(mem, avail, bs, x, false, cur, next))
  {
    Parts(mem, avail, bs, cur);
    Parts(mem, avail, bs, x);
  }

  /** The cases of Freed, from the free blocks around x. */
  lemma FreedFirst(bs: Blocks, n: nat, x: nat, cur: nat)
    requires LiveAt(bs, x) && x < cur <= n && IsNext(FreeStarts(bs), n, 0, cur) && End(bs, x) <= cur
    requires Tiling(bs, n)
    ensures Freed(bs, x) == if End(bs, x) == cur && cur < n then Joined(bs[x := Block(bs[x].size, true)], x, cur)
                            else bs[x := Block(bs[x].size, true)]
  {
    hide Tiling;
    var p, e := PrevFree(bs, x), End(bs, x);
    assert p < 0;
    if e in FreeStarts(bs) { Within(bs, n, e); }
  }

  lemma FreedBehind(bs: Blocks, n: nat, x: nat, prev: nat, cur: nat)
    requires LiveAt(bs, x) && prev in FreeStarts(bs) && prev < x < cur <= n && End(bs, x) <= cur
    requires IsNext(FreeStarts(bs), n, prev + 1, cur) && Tiling(bs, n)
    ensures var b := bs[x := Block(bs[x].size, true)];
            && (cur < n ==> cur in bs)
            && Freed(bs, x) ==
               if End(bs, prev) != x then b
               else if End(bs, x) == cur && cur < n then Joined(Joined(b, prev, x), prev, cur)
               else Joined(b, prev, x)
  {
    hide Tiling;
    var p, e := PrevFree(bs, x), End(bs, x);
    assert p == prev;
    if e in FreeStarts(bs) { Within(bs, n, e); }
  }

  /** The words that free writes are words of the freed block and of free blocks. */
  lemma FreedKept(mem: seq<u32>, avail: nat, bs: Blocks, x: nat, ws: set<nat>, m: seq<u32>)
    requires Represents(mem, avail, bs) && LiveAt(bs, x) && Changed(mem, m, ws + {x, Last(bs, x)})
    requires ws == {} || exists y :: y in FreeStarts(bs) && ws == {y, Last(bs, y)}
    ensures LiveKept(bs, {x}, mem, m)
  {
    hide Represents, LiveKept, Tiling;
    Parts(mem, avail, bs, x);
    forall w | w in ws + {x, Last(bs, x)}
      ensures exists y :: Inside(bs, y, w) && (bs[y].free || y in {x})
    {
      if w == x || w == Last(bs, x) {
        assert Inside(bs, x, w);
      } else {
        var y :| y in FreeStarts(bs) && ws == {y, Last(bs, y)};
        assert Inside(bs, y, w);
      }
    }
    Kept(bs, {x}, mem, m, ws + {x, Last(bs, x)});
  }
}
