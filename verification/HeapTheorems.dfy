/** What the allocator conserves: the free list, the words, and what freeing restores. */
module HeapTheorems {
  import opened Bytes
  import opened HeapModel
  import opened Allocator

  // The list.

  /** The indices visited from x by following links upwards. */
  function FreeList(mem: seq<u32>, x: nat): seq<nat>
    decreases |mem| - x
  {
    if x >= |mem| || x + mem[x] >= |mem| || mem[x + mem[x]] <= x then []
    else [x] + FreeList(mem, mem[x + mem[x]])
  }

  /** What stands where a list from x ends: the link of its last block, or x itself. */
  function LastLink(mem: seq<u32>, x: nat, list: seq<nat>): nat {
    if list == [] then x
    else
      var z := list[|list| - 1];
      if z < |mem| && z + mem[z] < |mem| then mem[z + mem[z]] else 0
  }

  /** The list from avail visits exactly the free blocks, in ascending order, and its last link is the
      memory's size. */
  lemma {:induction false} ListFrom(mem: seq<u32>, avail: nat, bs: Blocks, a: nat, x: nat)
    requires Represents(mem, avail, bs) && IsNext(FreeStarts(bs), |mem|, a, x)
    ensures Ascending(FreeList(mem, x))
    ensures forall z :: z in FreeList(mem, x) <==> z in FreeStarts(bs) && a <= z
    ensures LastLink(mem, x, FreeList(mem, x)) == |mem|
    decreases |mem| - x
  {
    hide Represents, Tiling;
    if x < |mem| {
      Parts(mem, avail, bs, x);
      var next := mem[Last(bs, x)];
      ListFrom(mem, avail, bs, x + 1, next);
      var rest := FreeList(mem, next);
      assert FreeList(mem, x) == [x] + rest;
      assert forall i :: 0 <= i < |rest| ==> rest[i] in rest;
    } else {
      forall z | z in FreeStarts(bs)
        ensures z < |mem|
      {
        Parts(mem, avail, bs, z);
      }
    }
  }

  lemma ListVisitsFreeBlocks(mem: seq<u32>, avail: nat, bs: Blocks)
    requires Represents(mem, avail, bs)
    ensures Ascending(FreeList(mem, avail))
    ensures forall z :: z in FreeList(mem, avail) <==> z in FreeStarts(bs)
    ensures LastLink(mem, avail, FreeList(mem, avail)) == |mem|
  {
    ListFrom(mem, avail, bs, 0, avail);
  }

  /** What owners write into the payload of their blocks cannot disturb the allocator. */
  lemma PayloadWritesHarmless(mem: seq<u32>, avail: nat, bs: Blocks, m: seq<u32>)
    requires Represents(mem, avail, bs) && |m| == |mem|
    requires forall w :: 0 <= w < |mem| && m[w] != mem[w] ==> exists x :: LiveAt(bs, x) && Inside(bs, x, w) && w != x
    ensures Represents(m, avail, bs)
  {
    hide Represents, Tiling, IsNext;
    var n, f := |mem|, FreeStarts(bs);
    assert Tiling(bs, n) && n < U32_LIMIT && IsNext(f, n, 0, avail) by { Whole(mem, avail, bs); }
    forall z | z in bs
      ensures z < n && m[z] == bs[z].size
      ensures z in f ==> Last(bs, z) < n && IsNext(f, n, z + 1, m[Last(bs, z)])
    {
      Parts(mem, avail, bs, z);
      forall x | LiveAt(bs, x) && x != z
        ensures Last(bs, x) < z || Last(bs, z) < x
      {
        Apart(bs, n, x, z);
      }
    }
    Assembled(m, avail, bs);
  }

  lemma Whole(mem: seq<u32>, avail: nat, bs: Blocks)
    requires Represents(mem, avail, bs)
    ensures |mem| < U32_LIMIT && Tiling(bs, |mem|) && IsNext(FreeStarts(bs), |mem|, 0, avail)
  {
  }

  // Words.

  ghost function UpTo(n: nat): (s: set<nat>)
    ensures |s| == n && forall w: nat :: w in s <==> w < n
  {
    if n == 0 then {} else UpTo(n - 1) + {n - 1}
  }

  /** The words of the free blocks, or of the live ones, headers included. */
  ghost function Words(bs: Blocks, n: nat, free: bool): set<nat> {
    set w | w in UpTo(n) && exists x :: Inside(bs, x, w) && bs[x].free == free
  }

  ghost function WordsOf(bs: Blocks, n: nat, x: nat): set<nat> {
    set w | w in UpTo(n) && Inside(bs, x, w)
  }

  /** Every word of memory is in some block. */
  lemma {:induction false} Covered(bs: Blocks, n: nat, w: nat) returns (x: nat)
    requires Tiling(bs, n) && w < n
    ensures Inside(bs, x, w)
  {
    if w == 0 {
      x := 0;
    } else {
      x := Covered(bs, n, w - 1);
      assert Sound(bs, n, x);
      if w > Last(bs, x) {
        x := End(bs, x);
      }
    }
  }

  /** No word is in two blocks. */
  lemma OneOwner(bs: Blocks, n: nat, x: nat, w: nat)
    requires Tiling(bs, n) && Inside(bs, x, w)
    ensures w in UpTo(n) && (w in Words(bs, n, true) <==> bs[x].free) && (w in Words(bs, n, false) <==> !bs[x].free)
    ensures forall y :: Inside(bs, y, w) ==> y == x
  {
    Within(bs, n, x);
    forall y | Inside(bs, y, w)
      ensures y == x
    {
      if x != y { Apart(bs, n, x, y); }
    }
  }

  /** No word is lost: those of free blocks and those of live ones add up to the memory. */
  lemma WordsConserved(bs: Blocks, n: nat)
    requires Tiling(bs, n)
    ensures Words(bs, n, true) + Words(bs, n, false) == UpTo(n) && Words(bs, n, true) !! Words(bs, n, false)
    ensures |Words(bs, n, true)| + |Words(bs, n, false)| == n
  {
    forall w | w in UpTo(n)
      ensures w in Words(bs, n, true) + Words(bs, n, false)
      ensures w !in Words(bs, n, true) * Words(bs, n, false)
    {
      var x := Covered(bs, n, w);
      OneOwner(bs, n, x, w);
    }
    assert Words(bs, n, true) + Words(bs, n, false) == UpTo(n);
    assert Words(bs, n, true) * Words(bs, n, false) == {};
  }

  ghost function LiveStarts(bs: Blocks): set<nat> {
    set x | x in bs && !bs[x].free
  }

  /** Which block holds w after the allocation. */
  lemma AllocatedOwner(bs: Blocks, n: nat, x: nat, num: nat, z: nat, w: nat)
    requires Tiling(bs, n) && x in FreeStarts(bs) && 1 <= num <= bs[x].size && Inside(bs, z, w)
    ensures var b, y := Allocated(bs, x, num), x + num + 1;
            var u := if z == x && y <= w && num + 1 < bs[x].size then y else z;
            Inside(b, u, w) && b[u].free == (bs[z].free && (z != x || u != z))
  {
    hide Tiling;
    if num + 1 < bs[x].size {
      NoBlockInside(bs, n, x, x + num + 1);
    }
  }

  lemma AllocatedTiling(bs: Blocks, n: nat, x: nat, num: nat)
    requires Tiling(bs, n) && x in FreeStarts(bs) && 1 <= num <= bs[x].size
    ensures var b := Allocated(bs, x, num); Tiling(b, n) && LiveStarts(b) == LiveStarts(bs) + {x}
  {
    hide Tiling;
    if num + 1 < bs[x].size {
      TilingSplit(bs, n, x, num);
      NoBlockInside(bs, n, x, x + num + 1);
    } else {
      TilingAlike(bs, n, Allocated(bs, x, num));
    }
  }

  /** Allocating takes exactly the words of the new block out of the free ones. */
  lemma AllocatedWords(bs: Blocks, n: nat, x: nat, num: nat)
    requires Tiling(bs, n) && x in FreeStarts(bs) && 1 <= num <= bs[x].size
    ensures var b := Allocated(bs, x, num);
            Words(b, n, true) == Words(bs, n, true) - WordsOf(b, n, x)
  {
    hide Tiling, Words, Inside, Allocated;
    var b, y := Allocated(bs, x, num), x + num + 1;
    AllocatedTiling(bs, n, x, num);
    forall w | w in UpTo(n)
      ensures w in Words(b, n, true) <==> w in Words(bs, n, true) && w !in WordsOf(b, n, x)
    {
      var z := Covered(bs, n, w);
      OneOwner(bs, n, z, w);
      AllocatedOwner(bs, n, x, num, z, w);
      OneOwner(b, n, if z == x && num + 1 < bs[x].size && y <= w then y else z, w);
    }
    WordsBelow(bs, n);
    WordsBelow(b, n);
  }

  lemma WordsBelow(bs: Blocks, n: nat)
    ensures Words(bs, n, true) <= UpTo(n)
  {
  }

  lemma SetFreeWords(bs: Blocks, n: nat, x: nat)
    requires Tiling(bs, n) && x in bs
    ensures var b := bs[x := Block(bs[x].size, true)];
            Tiling(b, n) && Words(b, n, true) == Words(bs, n, true) + WordsOf(bs, n, x)
  {
    hide Tiling, Words;
    var b := bs[x := Block(bs[x].size, true)];
    TilingAlike(bs, n, b);
    forall w | w in UpTo(n)
      ensures w in Words(b, n, true) <==> w in Words(bs, n, true) || w in WordsOf(bs, n, x)
    {
      var z := Covered(bs, n, w);
      OneOwner(bs, n, z, w);
      OneOwner(b, n, z, w);
    }
    WordsBelow(bs, n);
    WordsBelow(b, n);
  }

  lemma JoinedWords(bs: Blocks, n: nat, x: nat, y: nat)
    requires Tiling(bs, n) && x in FreeStarts(bs) && y in FreeStarts(bs) && y == End(bs, x)
    ensures Tiling(Joined(bs, x, y), n) && Words(Joined(bs, x, y), n, true) == Words(bs, n, true)
  {
    hide Tiling, Words;
    var b := Joined(bs, x, y);
    TilingJoined(bs, n, x);
    forall w | w in UpTo(n)
      ensures w in Words(b, n, true) <==> w in Words(bs, n, true)
    {
      var z := Covered(bs, n, w);
      OneOwner(bs, n, z, w);
      OneOwner(b, n, if z == y then x else z, w);
    }
    WordsBelow(bs, n);
    WordsBelow(b, n);
  }

  /** Freeing adds exactly the words of the block to the free ones, merged or not. */
  lemma FreedWords(bs: Blocks, n: nat, x: nat)
    requires Tiling(bs, n) && LiveAt(bs, x)
    ensures Tiling(Freed(bs, x), n) && Words(Freed(bs, x), n, true) == Words(bs, n, true) + WordsOf(bs, n, x)
    ensures LiveStarts(Freed(bs, x)) == LiveStarts(bs) - {x}
  {
    hide Tiling, Words;
    var p, e, b := PrevFree(bs, x), End(bs, x), bs[x := Block(bs[x].size, true)];
    SetFreeWords(bs, n, x);
    if p < 0 {
      if e in FreeStarts(bs) { JoinedWords(b, n, x, e); }
    } else if End(bs, p) == x {
      JoinedWords(b, n, p, x);
      if e in FreeStarts(bs) { JoinedWords(Joined(b, p, x), n, p, e); }
    }
  }

  /** malloc then free of the result: the same words are free as before. */
  lemma MallocFreeRestores(bs: Blocks, n: nat, x: nat, num: nat)
    requires Tiling(bs, n) && x in FreeStarts(bs) && 1 <= num <= bs[x].size
    ensures Words(Freed(Allocated(bs, x, num), x), n, true) == Words(bs, n, true)
    ensures LiveStarts(Freed(Allocated(bs, x, num), x)) == LiveStarts(bs)
  {
    hide Tiling, Words, Freed;
    var b := Allocated(bs, x, num);
    AllocatedWords(bs, n, x, num);
    AllocatedTiling(bs, n, x, num);
    FreedWords(b, n, x);
    forall w | w in WordsOf(b, n, x)
      ensures w in Words(bs, n, true)
    {
      assert Inside(bs, x, w);
      OneOwner(bs, n, x, w);
    }
  }

  /** xs lists live blocks, none twice. */
  ghost predicate LiveList(bs: Blocks, xs: seq<nat>) {
    && (forall i :: 0 <= i < |xs| ==> xs[i] in LiveStarts(bs))
    && forall i, j :: 0 <= i < j < |xs| ==> xs[i] != xs[j]
  }

  lemma OthersLive(bs: Blocks, n: nat, xs: seq<nat>)
    requires Tiling(bs, n) && LiveList(bs, xs) && xs != []
    ensures LiveAt(bs, xs[0]) && Tiling(Freed(bs, xs[0]), n) && LiveList(Freed(bs, xs[0]), xs[1..])
    ensures LiveStarts(Freed(bs, xs[0])) == LiveStarts(bs) - {xs[0]}
  {
    hide Tiling, Freed, Words;
    FreedWords(bs, n, xs[0]);
    var b := Freed(bs, xs[0]);
    forall i | 0 <= i < |xs[1..]|
      ensures xs[1..][i] in LiveStarts(b)
    {
      assert xs[1..][i] == xs[i + 1] && xs[i + 1] != xs[0];
    }
  }

  /** The blocks after freeing those at xs in turn. */
  ghost function AllFreed(bs: Blocks, n: nat, xs: seq<nat>): Blocks
    requires Tiling(bs, n) && LiveList(bs, xs)
    decreases |xs|
  {
    if xs == [] then bs
    else
      OthersLive(bs, n, xs);
      AllFreed(Freed(bs, xs[0]), n, xs[1..])
  }

  /** Freeing every live block, in any order, makes every word free. */
  lemma {:induction false} FreeingAllRestoresAll(bs: Blocks, n: nat, xs: seq<nat>)
    requires Tiling(bs, n) && LiveList(bs, xs) && forall x :: x in LiveStarts(bs) ==> x in xs
    ensures Words(AllFreed(bs, n, xs), n, true) == UpTo(n)
    decreases |xs|
  {
    hide Tiling, Words, Freed, LiveList;
    if xs == [] {
      forall w | w in UpTo(n)
        ensures w in Words(bs, n, true)
      {
        var x := Covered(bs, n, w);
        OneOwner(bs, n, x, w);
        assert x !in LiveStarts(bs);
      }
      WordsBelow(bs, n);
    } else {
      OthersLive(bs, n, xs);
      FreeingAllRestoresAll(Freed(bs, xs[0]), n, xs[1..]);
    }
  }

  // Fragmentation.

  /** Two free blocks meet. */
  ghost predicate Adjacent(bs: Blocks, x: nat) {
    x in FreeStarts(bs) && End(bs, x) in FreeStarts(bs)
  }

  /** free leaves two free blocks side by side exactly when the block is behind some free block, does
      not meet the last of these, and meets the next one. */
  lemma CoalescingExact(bs: Blocks, n: nat, x: nat)
    requires Tiling(bs, n) && LiveAt(bs, x) && forall z :: !Adjacent(bs, z)
    ensures (exists z :: Adjacent(Freed(bs, x), z)) <==>
            (var p := PrevFree(bs, x); p >= 0 && End(bs, p) != x && End(bs, x) in FreeStarts(bs))
  {
    hide Tiling;
    var b, p, e := Freed(bs, x), PrevFree(bs, x), End(bs, x);
    if p >= 0 && End(bs, p) != x && e in FreeStarts(bs) {
      assert Adjacent(b, x);
    } else {
      forall z | z in FreeStarts(b)
        ensures End(b, z) !in FreeStarts(b)
      {
        Meeting(bs, n, x, z);
        assert z != x ==> !Adjacent(bs, z);
        assert e in FreeStarts(bs) ==> !Adjacent(bs, e);
      }
    }
  }

  /** Only the last free block before x can meet it. */
  lemma Meeting(bs: Blocks, n: nat, x: nat, z: nat)
    requires Tiling(bs, n) && x in bs
    ensures z in FreeStarts(bs) && End(bs, z) == x ==> z == PrevFree(bs, x)
    ensures x < End(bs, x)
  {
    Within(bs, n, x);
    var p := PrevFree(bs, x);
    if z in FreeStarts(bs) && End(bs, z) == x && p >= 0 && p != z {
      Within(bs, n, p);
      Apart(bs, n, z, p);
    }
  }

  // A heap of eight words, of which malloc has given out three blocks of two.
  const FULL_HEAP: Blocks :=
    map[0 := Block(1, false), 2 := Block(1, false), 4 := Block(1, false), 6 := Block(1, true)]

  lemma FullHeapReached()
    ensures Allocated(Allocated(Allocated(map[0 := Block(7, true)], 0, 1), 2, 1), 4, 1) == FULL_HEAP
  {
    var one := Allocated(map[0 := Block(7, true)], 0, 1);
    assert one == map[0 := Block(1, false), 2 := Block(5, true)];
    var two := Allocated(one, 2, 1);
    assert two == map[0 := Block(1, false), 2 := Block(1, false), 4 := Block(3, true)];
  }

  /** Of three blocks allocated in eight words and freed in the order first, third, second, all eight words are free,
      yet no six are in one block. */
  lemma FragmentedHeap()
    ensures Allocated(Allocated(Allocated(map[0 := Block(7, true)], 0, 1), 2, 1), 4, 1) == FULL_HEAP
    ensures var b := Freed(Freed(Freed(FULL_HEAP, 0), 4), 2);
            b == map[0 := Block(5, true), 6 := Block(1, true)] && LiveStarts(b) == {} && NoFit(b, 6)
  {
    FullHeapReached();
    FreedCase(FULL_HEAP, 0, -1);
    var a := map[0 := Block(1, true), 2 := Block(1, false), 4 := Block(1, false), 6 := Block(1, true)];
    assert Freed(FULL_HEAP, 0) == a;
    FreedCase(a, 4, 0);
    var b := map[0 := Block(1, true), 2 := Block(1, false), 4 := Block(1, true), 6 := Block(1, true)];
    assert Freed(a, 4) == b;
    FreedCase(b, 2, 0);
    assert Freed(b, 2) == map[0 := Block(5, true), 6 := Block(1, true)];
  }

  lemma FreedCase(bs: Blocks, x: nat, p: int)
    requires -1 <= p < x && (p < 0 || p in FreeStarts(bs)) && forall z: nat :: p < z < x ==> z !in FreeStarts(bs)
    ensures PrevFree(bs, x) == p
  {
  }
}
