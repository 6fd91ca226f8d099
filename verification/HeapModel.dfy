/** The blocks that the allocator keeps in one array of words: what they are, what allocating and
    freeing make of them, and what is conserved. */
module HeapModel {
  import opened Bytes

  type u32 = x: int | 0 <= x < U32_LIMIT

  /** A block: a header word, then size words. */
  datatype Block = Block(size: nat, free: bool)

  /** Blocks by the index of their header word. */
  type Blocks = map<nat, Block>

  /** The index behind the block at x. */
  function End(bs: Blocks, x: nat): nat
    requires x in bs
  {
    x + bs[x].size + 1
  }

  /** The last word of the block at x; in a free block it holds the link. */
  function Last(bs: Blocks, x: nat): nat
    requires x in bs
  {
    x + bs[x].size
  }

  /** Where the free blocks start. */
  ghost function FreeStarts(bs: Blocks): set<nat> {
    set x | x in bs && bs[x].free
  }

  ghost predicate LiveAt(bs: Blocks, x: nat) {
    x in bs && !bs[x].free
  }

  /** The block at x has at least two words and ends at n or where another starts. */
  ghost predicate Sound(bs: Blocks, n: nat, x: nat)
    requires x in bs
  {
    bs[x].size >= 1 && End(bs, x) <= n && (End(bs, x) == n || End(bs, x) in bs)
  }

  /** The blocks tile the words 0..n: the first starts at 0, each meets the next, and none overlap. */
  ghost predicate Tiling(bs: Blocks, n: nat) {
    && 0 in bs
    && (forall x {:trigger Sound(bs, n, x)} :: x in bs ==> Sound(bs, n, x))
    && Disjoint(bs)
  }

  ghost predicate Disjoint(bs: Blocks) {
    forall x, y :: x in bs && y in bs && x < y ==> End(bs, x) <= y
  }

  /** y is the first free block from x on, or the end of memory. */
  ghost predicate IsNext(f: set<nat>, n: nat, x: nat, y: nat) {
    && x <= y <= n
    && (y == n || y in f)
    && forall z :: x <= z < y ==> z !in f
  }

  /** Every block's size is in its header word. */
  ghost predicate Headers(mem: seq<u32>, bs: Blocks) {
    forall x :: x in bs ==> End(bs, x) <= |mem| && mem[x] == bs[x].size
  }

  /** Each free block links to the next one; avail is the first. */
  ghost predicate Links(mem: seq<u32>, avail: nat, bs: Blocks) {
    var f := FreeStarts(bs);
    && IsNext(f, |mem|, 0, avail)
    && forall x :: x in f ==> Last(bs, x) < |mem| && IsNext(f, |mem|, x + 1, mem[Last(bs, x)])
  }

  ghost predicate Represents(mem: seq<u32>, avail: nat, bs: Blocks) {
    (|mem| < U32_LIMIT && Tiling(bs, |mem|) && Headers(mem, bs) && Links(mem, avail, bs)) == true
  }

  // What the operations do to the blocks.

  /** The block at x given to a request of num words: one spare word is absorbed, more are split off. */
  ghost function Allocated(bs: Blocks, x: nat, num: nat): Blocks
    requires x in bs && num <= bs[x].size
  {
    if bs[x].size <= num + 1 then bs[x := Block(bs[x].size, false)]
    else bs[x := Block(num, false)][x + num + 1 := Block(bs[x].size - num - 1, true)]
  }

  /** The last free block before x, or -1. */
  ghost function PrevFree(bs: Blocks, x: nat): (p: int)
    ensures -1 <= p < x
    ensures p >= 0 ==> p in FreeStarts(bs)
    ensures forall z :: p < z < x ==> z !in FreeStarts(bs)
  {
    if x == 0 then -1 else if x - 1 in FreeStarts(bs) then x - 1 else PrevFree(bs, x - 1)
  }

  /** The block at y joined to the one at x that it follows. */
  ghost function Joined(bs: Blocks, x: nat, y: nat): Blocks
    requires x in bs && y in bs && x != y
  {
    (bs - {y})[x := Block(bs[x].size + bs[y].size + 1, true)]
  }

  ghost function Freed(bs: Blocks, x: nat): Blocks
    requires x in bs
  {
    var p, e := PrevFree(bs, x), End(bs, x);
    var b := bs[x := Block(bs[x].size, true)];
    if p < 0 then
      if e in FreeStarts(bs) then Joined(b, x, e) else b
    else if End(bs, p) == x then
      if e in FreeStarts(bs) then Joined(Joined(b, p, x), p, e) else Joined(b, p, x)
    else
      b
  }

  // The first free block after a place, as blocks come and go.

  /** Once x is no longer free, what pointed at x points at what x pointed at. */
  lemma NextRemoved(f: set<nat>, n: nat, x: nat, next: nat, a: nat, y: nat)
    requires x in f && x < n && IsNext(f, n, x + 1, next) && IsNext(f, n, a, y)
    ensures IsNext(f - {x}, n, a, if y == x then next else y)
  {
  }

  lemma NextMoved(f: set<nat>, n: nat, x: nat, x1: nat, next: nat, a: nat, y: nat)
    requires x in f && x < x1 < next && IsNext(f, n, x + 1, next) && IsNext(f, n, a, y)
    requires a <= x || next <= a
    ensures IsNext(f - {x} + {x1}, n, a, if y == x then x1 else y)
    ensures IsNext(f - {x} + {x1}, n, x1 + 1, next)
  {
  }

  lemma NextAdded(f: set<nat>, n: nat, x: nat, a: nat, y: nat)
    requires x < n && IsNext(f, n, a, y)
    ensures IsNext(f + {x}, n, a, if a <= x < y then x else y)
  {
  }

  lemma NextGap(f: set<nat>, n: nat, x: nat, next: nat, z: nat)
    requires IsNext(f, n, x, next) && z in f
    ensures z < x || next <= z
  {
  }

  /** A later start leaves out nothing when no block in between is free. */
  lemma NextSame(f: set<nat>, n: nat, a: nat, y: nat, a1: nat)
    requires IsNext(f, n, a, y)
    ensures a <= a1 <= y ==> IsNext(f, n, a1, y)
    ensures a1 <= a && (forall z :: a1 <= z < a ==> z !in f) ==> IsNext(f, n, a1, y)
  {
  }

  // Tilings.

  lemma TilingAlike(bs: Blocks, n: nat, b: Blocks)
    requires Tiling(bs, n) && b.Keys == bs.Keys && forall x :: x in bs ==> b[x].size == bs[x].size
    ensures Tiling(b, n)
  {
    forall x | x in b
      ensures Sound(b, n, x)
    {
      assert Sound(bs, n, x);
    }
  }

  /** Different blocks share no word. */
  lemma Apart(bs: Blocks, n: nat, x: nat, y: nat)
    requires Tiling(bs, n) && x in bs && y in bs && x != y
    ensures Last(bs, x) < y || Last(bs, y) < x
  {
    assert Sound(bs, n, x) && Sound(bs, n, y);
  }

  lemma Within(bs: Blocks, n: nat, x: nat)
    requires Tiling(bs, n) && x in bs
    ensures x < Last(bs, x) < n
  {
    assert Sound(bs, n, x);
  }

  lemma TilingSplit(bs: Blocks, n: nat, x: nat, num: nat)
    requires Tiling(bs, n) && x in bs && 1 <= num < bs[x].size - 1
    ensures Tiling(Allocated(bs, x, num), n)
  {
    hide Disjoint;
    var b, y := Allocated(bs, x, num), x + num + 1;
    assert Sound(bs, n, x);
    forall z | z in b
      ensures Sound(b, n, z)
    {
      if z != x && z != y {
        assert Sound(bs, n, z);
      }
    }
    SplitDisjoint(bs, x, num);
  }

  lemma SplitDisjoint(bs: Blocks, x: nat, num: nat)
    requires Disjoint(bs) && x in bs && 1 <= num < bs[x].size - 1
    ensures Disjoint(Allocated(bs, x, num))
  {
  }

  lemma TilingJoined(bs: Blocks, n: nat, x: nat)
    requires Tiling(bs, n) && x in bs && End(bs, x) in bs
    ensures Tiling(Joined(bs, x, End(bs, x)), n)
  {
    var y := End(bs, x);
    var b := Joined(bs, x, y);
    assert Sound(bs, n, x) && Sound(bs, n, y);
    forall z | z in b
      ensures Sound(b, n, z)
    {
      assert Sound(bs, n, z);
      if z != x && End(bs, z) == y {
        Apart(bs, n, x, z);
      }
    }
    hide Sound;
    JoinedDisjoint(bs, x);
  }

  lemma JoinedDisjoint(bs: Blocks, x: nat)
    requires Disjoint(bs) && x in bs && End(bs, x) in bs
    ensures Disjoint(Joined(bs, x, End(bs, x)))
  {
  }

  /** No block starts inside another. */
  lemma NoBlockInside(bs: Blocks, n: nat, x: nat, w: nat)
    requires Tiling(bs, n) && x in bs && x < w <= Last(bs, x)
    ensures w !in bs
  {
  }

  lemma NextBlock(bs: Blocks, n: nat, x: nat, y: nat)
    requires Tiling(bs, n) && x in bs && IsNext(FreeStarts(bs), n, x + 1, y)
    ensures End(bs, x) <= y
  {
    Within(bs, n, x);
  }

  // Each branch keeps the representation.

  lemma Parts(mem: seq<u32>, avail: nat, bs: Blocks, x: nat)
    requires Represents(mem, avail, bs) && x in bs
    ensures |mem| < U32_LIMIT && Tiling(bs, |mem|) && x < Last(bs, x) < |mem| && mem[x] == bs[x].size
    ensures IsNext(FreeStarts(bs), |mem|, 0, avail)
    ensures x in FreeStarts(bs) ==> avail <= x && IsNext(FreeStarts(bs), |mem|, x + 1, mem[Last(bs, x)])
  {
    Within(bs, |mem|, x);
  }

  lemma Assembled(mem: seq<u32>, avail: nat, bs: Blocks)
    requires |mem| < U32_LIMIT && Tiling(bs, |mem|)
    requires forall z :: z in bs ==> z < |mem| && mem[z] == bs[z].size
    requires IsNext(FreeStarts(bs), |mem|, 0, avail)
    requires forall z :: z in FreeStarts(bs) ==>
      Last(bs, z) < |mem| && IsNext(FreeStarts(bs), |mem|, z + 1, mem[Last(bs, z)])
    ensures Represents(mem, avail, bs)
  {
    forall z | z in bs
      ensures End(bs, z) <= |mem|
    {
      Within(bs, |mem|, z);
    }
  }

  /** What points at the free block x: avail when it is the first, else the link of prev. */
  ghost predicate Pointed(mem: seq<u32>, avail: nat, bs: Blocks, x: nat, first: bool, prev: nat) {
    if first then x == avail
    else prev in FreeStarts(bs) && prev < x && IsNext(FreeStarts(bs), |mem|, prev + 1, x)
  }

  /** m differs from mem in the words ws at most. */
  ghost predicate Changed(mem: seq<u32>, m: seq<u32>, ws: set<nat>) {
    |m| == |mem| && forall w :: 0 <= w < |mem| && w !in ws ==> m[w] == mem[w]
  }

  /** The link word that points at a block behind prev; avail is no word of memory. */
  ghost function LinkWord(bs: Blocks, first: bool, prev: nat): set<nat>
    requires first || prev in bs
  {
    if first then {} else {Last(bs, prev)}
  }

  /** Only one word points at x, and it is no header. */
  lemma Pointers(mem: seq<u32>, avail: nat, bs: Blocks, x: nat, first: bool, prev: nat, z: nat)
    requires Represents(mem, avail, bs) && x in FreeStarts(bs) && Pointed(mem, avail, bs, x, first, prev)
    requires z in bs
    ensures !first ==> prev in FreeStarts(bs) && Last(bs, prev) < |mem| && prev < x && avail != x
    ensures z !in LinkWord(bs, first, prev)
    ensures z in FreeStarts(bs) ==> (mem[Last(bs, z)] == x <==> !first && z == prev)
    ensures z in FreeStarts(bs) ==> (Last(bs, z) in LinkWord(bs, first, prev) <==> !first && z == prev)
    ensures first ==> avail == x
  {
    hide Tiling, Represents;
    Parts(mem, avail, bs, z);
    if !first {
      Parts(mem, avail, bs, prev);
      if z != prev { Apart(bs, |mem|, z, prev); }
    }
  }

  lemma Took(mem: seq<u32>, avail: nat, bs: Blocks, x: nat, first: bool, prev: nat, m: seq<u32>, av: nat)
    requires Represents(mem, avail, bs) && x in FreeStarts(bs) && Pointed(mem, avail, bs, x, first, prev)
    requires Last(bs, x) < |mem| && (first || prev in bs) && Changed(mem, m, LinkWord(bs, first, prev))
    requires av == if first then mem[Last(bs, x)] else avail
    requires first || (Last(bs, prev) < |m| && m[Last(bs, prev)] == mem[Last(bs, x)])
    ensures Represents(m, av, bs[x := Block(bs[x].size, false)])
  {
    hide IsNext, Tiling, Pointed, Represents, LinkWord;
    var n, next, b, f := |mem|, mem[Last(bs, x)], bs[x := Block(bs[x].size, false)], FreeStarts(bs);
    Parts(mem, avail, bs, x);
    Pointers(mem, avail, bs, x, first, prev, x);
    assert FreeStarts(b) == f - {x};
    TilingAlike(bs, n, b);
    NextRemoved(f, n, x, next, 0, avail);
    forall z | z in bs
      ensures z < n && m[z] == b[z].size
      ensures z in f - {x} ==> Last(b, z) < n && IsNext(f - {x}, n, z + 1, m[Last(b, z)])
    {
      Parts(mem, avail, bs, z);
      Pointers(mem, avail, bs, x, first, prev, z);
      if z in f - {x} { NextRemoved(f, n, x, next, z + 1, mem[Last(bs, z)]); }
    }
    Assembled(m, av, b);
  }

  lemma SplitOff(mem: seq<u32>, avail: nat, bs: Blocks, x: nat, num: nat, first: bool, prev: nat, m: seq<u32>, av: nat)
    requires Represents(mem, avail, bs) && x in FreeStarts(bs) && Pointed(mem, avail, bs, x, first, prev)
    requires 1 <= num < bs[x].size - 1 && End(bs, x) <= |mem| && (first || prev in bs)
    requires Changed(mem, m, LinkWord(bs, first, prev) + {x, x + num + 1})
    requires m[x] == num && m[x + num + 1] == bs[x].size - num - 1
    requires av == if first then x + num + 1 else avail
    requires first || (Last(bs, prev) < |m| && m[Last(bs, prev)] == x + num + 1)
    ensures Represents(m, av, Allocated(bs, x, num))
  {
    hide IsNext, Tiling, Pointed, Represents, LinkWord;
    var n, next, y, f, b := |mem|, mem[Last(bs, x)], x + num + 1, FreeStarts(bs), Allocated(bs, x, num);
    Parts(mem, avail, bs, x);
    TilingSplit(bs, n, x, num);
    NextBlock(bs, n, x, next);
    NoBlockInside(bs, n, x, y);
    assert FreeStarts(b) == f - {x} + {y};
    NextMoved(f, n, x, y, next, 0, avail);
    Pointers(mem, avail, bs, x, first, prev, x);
    forall z | z in b
      ensures z < n && m[z] == b[z].size
      ensures z in FreeStarts(b) ==> Last(b, z) < n && IsNext(FreeStarts(b), n, z + 1, m[Last(b, z)])
    {
      if z == y {
        assert Last(b, y) == Last(bs, x);
      } else if z != x {
        Parts(mem, avail, bs, z);
        Pointers(mem, avail, bs, x, first, prev, z);
        Apart(bs, n, x, z);
        if z in f {
          NextGap(f, n, x + 1, next, z);
          NextMoved(f, n, x, y, next, z + 1, mem[Last(bs, z)]);
        }
      }
    }
    Assembled(m, av, b);
  }

  // Freeing.

  /** The free blocks around the live block x: prev is before it unless none is, and cur after it. */
  ghost predicate Between(mem: seq<u32>, avail: nat, bs: Blocks, x: nat, first: bool, prev: nat, cur: nat) {
    && LiveAt(bs, x) && x < cur <= |mem|
    && if first then cur == avail
       else prev in FreeStarts(bs) && prev < x && Last(bs, prev) < |mem| && cur == mem[Last(bs, prev)]
  }

  lemma Around(mem: seq<u32>, avail: nat, bs: Blocks, x: nat, first: bool, prev: nat, cur: nat)
    requires Represents(mem, avail, bs) && Between(mem, avail, bs, x, first, prev, cur)
    ensures LiveAt(bs, x) && x < cur <= |mem| && Last(bs, x) < cur
    ensures IsNext(FreeStarts(bs), |mem|, if first then 0 else prev + 1, cur)
    ensures cur < |mem| ==> cur in FreeStarts(bs)
    ensures !first ==> prev in FreeStarts(bs) && avail <= prev && Last(bs, prev) < x && mem[Last(bs, prev)] == cur
    ensures first ==> cur == avail
  {
    Parts(mem, avail, bs, x);
    NextSame(FreeStarts(bs), |mem|, if first then 0 else prev + 1, cur, x + 1);
    NextBlock(bs, |mem|, x, cur);
  }

  lemma Neighbours(mem: seq<u32>, avail: nat, bs: Blocks, x: nat, first: bool, prev: nat, cur: nat, z: nat)
    requires Represents(mem, avail, bs) && Between(mem, avail, bs, x, first, prev, cur) && z in FreeStarts(bs)
    ensures Last(bs, z) < |mem| && IsNext(FreeStarts(bs), |mem|, z + 1, mem[Last(bs, z)])
    ensures z < x || cur <= z
    ensures z < x < mem[Last(bs, z)] <==> !first && z == prev
  {
    Parts(mem, avail, bs, z);
  }

  /** Linked in on its own. */
  lemma FreedAlone(mem: seq<u32>, avail: nat, bs: Blocks, x: nat, first: bool, prev: nat, cur: nat,
                   m: seq<u32>, av: nat)
    requires Represents(mem, avail, bs) && Between(mem, avail, bs, x, first, prev, cur)
    requires Last(bs, x) < |mem| && (first || prev in bs) && Changed(mem, m, LinkWord(bs, first, prev) + {Last(bs, x)})
    requires m[Last(bs, x)] == cur && (first || (Last(bs, prev) < |m| && m[Last(bs, prev)] == x))
    requires av == if first then x else avail
    ensures Represents(m, av, bs[x := Block(bs[x].size, true)])
  {
    hide IsNext, Tiling, Represents, Between;
    Around(mem, avail, bs, x, first, prev, cur);
    var n, f, b := |mem|, FreeStarts(bs), bs[x := Block(bs[x].size, true)];
    Parts(mem, avail, bs, x);
    TilingAlike(bs, n, b);
    assert FreeStarts(b) == f + {x};
    NextAdded(f, n, x, 0, avail);
    NextSame(f, n, if first then 0 else prev + 1, cur, x + 1);
    NextAdded(f, n, x, x + 1, cur);
    forall z | z in b
      ensures z < n && m[z] == b[z].size
      ensures z in f + {x} ==> Last(b, z) < n && IsNext(f + {x}, n, z + 1, m[Last(b, z)])
    {
      Parts(mem, avail, bs, z);
      if z != x { Apart(bs, n, z, x); }
      if !first && z != prev { Apart(bs, n, z, prev); }
      if z in f {
        Neighbours(mem, avail, bs, x, first, prev, cur, z);
        NextAdded(f, n, x, z + 1, mem[Last(bs, z)]);
      }
    }
    Assembled(m, av, b);
  }

  /** The block is before all free ones and meets the first of them. */
  lemma FreedBeforeFirst(mem: seq<u32>, avail: nat, bs: Blocks, x: nat, m: seq<u32>)
    requires Represents(mem, avail, bs) && Between(mem, avail, bs, x, true, 0, avail)
    requires End(bs, x) == avail < |mem| && avail in bs && Changed(mem, m, {x})
    requires m[x] == bs[x].size + bs[avail].size + 1
    ensures Represents(m, x, Joined(bs[x := Block(bs[x].size, true)], x, avail))
  {
    hide IsNext, Tiling, Represents, Between;
    Around(mem, avail, bs, x, true, 0, avail);
    var n, f, b0 := |mem|, FreeStarts(bs), bs[x := Block(bs[x].size, true)];
    Parts(mem, avail, bs, avail);
    var b, next := Joined(b0, x, avail), mem[Last(bs, avail)];
    TilingAlike(bs, n, b0);
    TilingJoined(b0, n, x);
    assert FreeStarts(b) == f - {avail} + {x};
    NextMovedBack(f, n, x, avail, next, 0, avail);
    forall z | z in b
      ensures z < n && m[z] == b[z].size
      ensures z in FreeStarts(b) ==> Last(b, z) < n && IsNext(FreeStarts(b), n, z + 1, m[Last(b, z)])
    {
      Parts(mem, avail, bs, z);
      if z != x {
        Apart(bs, n, z, x);
        if z in f {
          Neighbours(mem, avail, bs, x, true, 0, avail, z);
          NextMovedBack(f, n, x, avail, next, z + 1, mem[Last(bs, z)]);
        }
      }
    }
    Assembled(m, x, b);
  }

  /** The free block at y now starts at x. */
  lemma NextMovedBack(f: set<nat>, n: nat, x: nat, y: nat, next: nat, a: nat, v: nat)
    requires IsNext(f, n, 0, y) && x < y < n && IsNext(f, n, y + 1, next) && IsNext(f, n, a, v)
    ensures a <= x ==> IsNext(f - {y} + {x}, n, a, x)
    ensures y < a ==> IsNext(f - {y} + {x}, n, a, v)
    ensures IsNext(f - {y} + {x}, n, x + 1, next)
  {
  }

  /** The block meets the free one before it. */
  lemma FreedAfterPrev(mem: seq<u32>, avail: nat, bs: Blocks, x: nat, prev: nat, cur: nat, m: seq<u32>)
    requires Represents(mem, avail, bs) && Between(mem, avail, bs, x, false, prev, cur)
    requires End(bs, prev) == x && Last(bs, x) < |mem| && Changed(mem, m, {prev, Last(bs, x)})
    requires m[prev] == bs[prev].size + bs[x].size + 1 && m[Last(bs, x)] == cur
    ensures Represents(m, avail, Joined(bs[x := Block(bs[x].size, true)], prev, x))
  {
    hide IsNext, Tiling, Represents, Between;
    Around(mem, avail, bs, x, false, prev, cur);
    var n, f, b0 := |mem|, FreeStarts(bs), bs[x := Block(bs[x].size, true)];
    Parts(mem, avail, bs, prev);
    var b := Joined(b0, prev, x);
    TilingAlike(bs, n, b0);
    TilingJoined(b0, n, prev);
    assert FreeStarts(b) == f;
    forall z | z in b
      ensures z < n && m[z] == b[z].size
      ensures z in f ==> Last(b, z) < n && IsNext(f, n, z + 1, m[Last(b, z)])
    {
      Parts(mem, avail, bs, z);
      Apart(bs, n, z, x);
      if z != prev { Apart(bs, n, z, prev); }
    }
    Assembled(m, avail, b);
  }

  lemma GapJoined(bs: Blocks, n: nat, prev: nat, x: nat, cur: nat)
    requires Tiling(bs, n) && prev in bs && LiveAt(bs, x) && cur in bs && bs[cur].free && bs[prev].free
    requires prev < x < cur && End(bs, prev) == x && End(bs, x) == cur
    ensures var b := Joined(Joined(bs[x := Block(bs[x].size, true)], prev, x), prev, cur);
            && Tiling(b, n) && FreeStarts(b) == FreeStarts(bs) - {cur}
            && b.Keys == bs.Keys - {x, cur} && (forall z :: z in b && z != prev ==> b[z] == bs[z])
            && Last(b, prev) == Last(bs, cur) && b[prev].size == bs[prev].size + bs[x].size + 1 + bs[cur].size + 1
  {
    hide Tiling;
    var b0 := bs[x := Block(bs[x].size, true)];
    TilingAlike(bs, n, b0);
    TilingJoined(b0, n, prev);
    TilingJoined(Joined(b0, prev, x), n, prev);
  }

  /** The block meets the free ones before and after it. */
  lemma FreedInGap(mem: seq<u32>, avail: nat, bs: Blocks, x: nat, prev: nat, cur: nat, m: seq<u32>)
    requires Represents(mem, avail, bs) && Between(mem, avail, bs, x, false, prev, cur)
    requires End(bs, prev) == x && End(bs, x) == cur < |mem| && cur in bs && Changed(mem, m, {prev})
    requires m[prev] == bs[prev].size + bs[x].size + 1 + bs[cur].size + 1
    ensures Represents(m, avail, Joined(Joined(bs[x := Block(bs[x].size, true)], prev, x), prev, cur))
  {
    hide IsNext, Tiling, Represents, Between;
    Around(mem, avail, bs, x, false, prev, cur);
    var n, f, b0 := |mem|, FreeStarts(bs), bs[x := Block(bs[x].size, true)];
    Parts(mem, avail, bs, prev);
    Parts(mem, avail, bs, cur);
    GapJoined(bs, n, prev, x, cur);
    var b, next := Joined(Joined(b0, prev, x), prev, cur), mem[Last(bs, cur)];
    hide Joined;
    assert Pointed(mem, avail, bs, cur, false, prev);
    NextRemoved(f, n, cur, next, 0, avail);
    forall z | z in b
      ensures z < n && m[z] == b[z].size
      ensures z in f - {cur} ==> Last(b, z) < n && IsNext(f - {cur}, n, z + 1, m[Last(b, z)])
    {
      Parts(mem, avail, bs, z);
      if z != prev { Apart(bs, n, z, prev); }
      if z in f {
        Pointers(mem, avail, bs, cur, false, prev, z);
        NextRemoved(f, n, cur, next, z + 1, mem[Last(bs, z)]);
      }
    }
    Assembled(m, avail, b);
  }
}
