// The kernel heap: first fit, splitting, and merging with the next block.
module KernelHeap {
  import opened Bits
  import opened Words
  import opened HeapLayout
  import opened HeapSteps
  import Pmm

  // The largest request whose block really holds it: beyond it the 64-bit
  // sums in the allocator wrap around.
  const LARGEST := WORD_LIMIT - 8224

  // The size of the block for a request, in 64-bit arithmetic.
  function Need(size: nat): (n: nat)
    ensures n % 8 == 0 && MIN_BLOCK <= n < WORD_LIMIT
  {
    var n := (size + HEADER + FOOTER + 7) % WORD_LIMIT / 8 * 8;
    if n < MIN_BLOCK then MIN_BLOCK else n
  }

  lemma NeedCovers(size: nat)
    requires 0 < size < WORD_LIMIT
    ensures size <= LARGEST ==> size + 32 <= Need(size) <= WORD_LIMIT - 8192 && Need(size) < size + 56
    ensures size <= LARGEST ==> Need(Need(size)) == Need(size) + 32
  {
  }

  // The size is the least that is a multiple of eight, large enough for a free
  // block, and has room for the request with header and footer.
  lemma NeedIsLeast(size: nat, n: nat)
    requires size < WORD_LIMIT - 39
    ensures Need(size) % 8 == 0 && Need(size) >= size + HEADER + FOOTER
    ensures n % 8 == 0 && n >= MIN_BLOCK && n >= size + HEADER + FOOTER ==> Need(size) <= n
  {
  }

  // The heap grows by the fewest pages that hold a page more than needed.
  lemma GrowthIsLeast(need: nat, g: nat)
    requires need < WORD_LIMIT - 8191
    ensures Growth(need) % 4096 == 0 && Growth(need) >= need + 4096
    ensures g % 4096 == 0 && g >= need + 4096 ==> Growth(need) <= g
  {
  }

  lemma Pages(n: nat)
    ensures Pmm.AlignUp(n) % 4096 == 0 && Pmm.AlignUp(n) < WORD_LIMIT
    ensures Pmm.AlignUp(n) % 8 == 0 && (Pmm.AlignUp(n) > 0 ==> Pmm.AlignUp(n) >= 4096)
  {
  }

  // How many bytes the heap grows by when no block of `need` bytes is free.
  function Growth(need: nat): (g: nat)
    ensures g % 4096 == 0
  {
    Pmm.AlignUp((need + 4096) % WORD_LIMIT)
  }

  // Requests for which the number of bytes to grow by wraps around to zero.
  predicate CannotGrow(size: nat) {
    LARGEST < size <= WORD_LIMIT - 4128
  }

  lemma NoneCanGrow()
    ensures !CannotGrow(0)
  {
  }

  lemma GrowsByNothing(size: nat)
    requires 0 < size < WORD_LIMIT
    ensures Growth(Need(size)) == 0 <==> CannotGrow(size)
    ensures CannotGrow(size) ==> Need(size) >= WORD_LIMIT - 8192
    ensures !CannotGrow(size) && Growth(Need(size)) < WORD_LIMIT - 12288 ==> !CannotGrow(Need(size))
  {
  }

  lemma GrowthCovers(size: nat)
    requires 0 < size <= LARGEST
    ensures Growth(Need(size)) >= Need(Need(size))
  {
    NeedCovers(size);
  }

  // The position in the list of the first block with room; |fl| without one.
  function FirstFit(blk: Blocks, fl: seq<nat>, need: nat): (i: nat)
    ensures i <= |fl|
    ensures forall j :: 0 <= j < i && fl[j] in blk ==> blk[fl[j]].size < need
    ensures i < |fl| ==> fl[i] in blk && blk[fl[i]].size >= need
  {
    if fl == [] then 0
    else if fl[0] in blk && blk[fl[0]].size >= need then 0
    else 1 + FirstFit(blk, fl[1..], need)
  }

  lemma FirstFitIs(blk: Blocks, fl: seq<nat>, need: nat, i: nat)
    requires i < |fl| ==> fl[i] in blk && blk[fl[i]].size >= need
    requires i <= |fl| && forall j :: 0 <= j < i ==> fl[j] in blk && blk[fl[j]].size < need
    ensures FirstFit(blk, fl, need) == i
  {
  }

  // The blocks after `need` bytes are taken from free block `h`.
  function Placed(blk: Blocks, h: nat, need: nat): Blocks {
    if h !in blk || need > blk[h].size then blk
    else if blk[h].size - need >= MIN_BLOCK then SplitBlocks(blk, h, need) else blk[h := Block(blk[h].size, true)]
  }

  // The list after free block number `i` is used for `need` bytes.
  function PlacedList(blk: Blocks, fl: seq<nat>, i: nat, need: nat): seq<nat> {
    if i >= |fl| || fl[i] !in blk || need > blk[fl[i]].size then fl
    else if blk[fl[i]].size - need >= MIN_BLOCK then [fl[i] + need] + Without(fl, i) else Without(fl, i)
  }

  // Block by block: block `h` is in use, with all its bytes or just those needed
  // and a free block behind it that has the rest.
  ghost predicate TakesFrom(before: Blocks, after: Blocks, h: nat, need: nat) {
    && h in before && h in after && after[h].used && need <= after[h].size < need + MIN_BLOCK
    && var rest, behind: nat := before[h].size - after[h].size, h + after[h].size;
       && (rest == 0 || (rest >= MIN_BLOCK && after[h].size == need
                         && behind in after && after[behind] == Block(rest, false)))
       && (forall a :: a in after <==> a in before || (rest > 0 && a == behind))
       && (forall a :: a in before && a != h && !(rest > 0 && a == behind) ==> after[a] == before[a])
  }

  lemma PlacedTakes(blk: Blocks, h: nat, need: nat)
    requires h in blk && need <= blk[h].size && 0 < need
    ensures TakesFrom(blk, Placed(blk, h, need), h, need)
  {
  }

  // The order of the list: what is left of the block comes first.
  lemma PlacedInOrder(blk: Blocks, fl: seq<nat>, i: nat, need: nat)
    requires i < |fl| && fl[i] in blk && need <= blk[fl[i]].size
    ensures var after, split := PlacedList(blk, fl, i, need), blk[fl[i]].size - need >= MIN_BLOCK;
            after == (if split then [fl[i] + need] else []) + fl[..i] + fl[i + 1..]
  {
  }

  // The same in a heap that has grown by a block at `n`. The retry asks for a
  // block that holds a block of the size needed.
  ghost predicate TakesFromGrown(before: Blocks, fl: seq<nat>, after: Blocks, fl': seq<nat>, n: nat, size: nat) {
    var grown, need := before[n := Block(Growth(Need(size)), false)], Need(size) + HEADER + FOOTER;
    && after == Placed(grown, n, need) && TakesFrom(grown, after, n, need)
    && fl' == PlacedList(grown, [n] + fl, 0, need)
  }

  // Placing adds one block to those in use and touches no other payload.
  lemma PlacedInUse(m: seq<Byte>, n: seq<Byte>, blk: Blocks, h: nat, need: nat)
    requires h in blk && need <= blk[h].size && !blk[h].used
    requires h + need !in blk || blk[h].size - need < MIN_BLOCK
    requires SamePayloads(m, n, blk - {h})
    ensures var placed := Placed(blk, h, need);
            h in placed && placed[h].size >= need && InUse(placed) == InUse(blk)[h := placed[h]]
    ensures h !in InUse(blk) && SamePayloads(m, n, InUse(blk))
  {
    hide BlockBytes;
    forall a | a in InUse(blk)
      ensures Payload(n, InUse(blk), a) == Payload(m, InUse(blk), a)
    {
      assert Payload(n, blk - {h}, a) == Payload(m, blk - {h}, a);
    }
  }

  lemma PlacedSize(blk: Blocks, h: nat, need: nat)
    requires h in blk && need <= blk[h].size
    ensures h in Placed(blk, h, need) && Placed(blk, h, need)[h].size >= need
  {
  }

  // The payload of a block in use covers the request exactly up to the limit.
  lemma PayloadCovers(m: seq<Byte>, base: nat, blk: Blocks, h: nat, size: nat)
    requires Tiles(blk, |m|) && h in blk && base + |m| < WORD_LIMIT && base >= 12288
    requires size <= LARGEST ==> blk[h].size >= size + 32
    ensures |Payload(m, blk, h)| >= size <==> size <= LARGEST
  {
    hide Tiles;
    BlockFacts(blk, |m|, m, h);
  }

  lemma PayloadKept(m: seq<Byte>, n: seq<Byte>, sub: Blocks, blk: Blocks, blk': Blocks, a: nat)
    requires SamePayloads(m, n, sub) && a in sub && a in blk && a in blk' && blk[a] == sub[a] && blk'[a] == sub[a]
    ensures Payload(n, blk', a) == Payload(m, blk, a)
  {
    hide BlockBytes;
    assert Payload(n, sub, a) == Payload(m, sub, a);
  }

  predicate SamePrefix(a: seq<Byte>, b: seq<Byte>, n: nat) {
    n <= |a| && n <= |b| && a[..n] == b[..n]
  }

  function Min(a: nat, b: nat): nat {
    if a < b then a else b
  }

  lemma SlicePrefix(m: seq<Byte>, lo: nat, hi: nat, n: nat)
    requires lo + n <= hi <= |m|
    ensures m[lo..hi][..n] == m[lo..lo + n]
  {
  }

  // A block that stays in use keeps its payload.
  lemma StillLive(m: seq<Byte>, n: seq<Byte>, blk: Blocks, blk': Blocks, live: Blocks, h: nat)
    requires SamePayloads(m, n, live) && live == InUse(blk) && h in live
    requires forall a :: a in live ==> a in InUse(blk') && InUse(blk')[a] == live[a]
    ensures h in blk' && blk'[h] == blk[h] == live[h] && Payload(n, blk', h) == Payload(m, blk, h)
  {
    assert h in InUse(blk');
    PayloadKept(m, n, live, blk, blk', h);
  }

  lemma MovedLive(live0: Blocks, live1: Blocks, h: nat, to: nat)
    requires h in live0 && to !in live0 && to in live1 && live1 == live0[to := live1[to]]
    ensures live1 - {h} - {to} == live0 - {h} && h in live1 && live1[h] == live0[h]
    ensures live1 - {h} == (live0 - {h})[to := live1[to]]
  {
  }

  // One free block over the whole heap.
  lemma InitSound(m: seq<Byte>, base: nat)
    requires |m| % 8 == 0 && |m| >= MIN_BLOCK && base + |m| < WORD_LIMIT
    ensures TagFits(m, 0, |m|)
    ensures var n := SetTag(m, 0, Block(|m|, false));
            WordFitsAt(n, 8) && WordFitsAt(n, 16)
            && Sound(ClearLinks(n, 0), base, base, map[0 := Block(|m|, false)], [0])
  {
    hide SetW, W, SetTag, Tag;
    var b := Block(|m|, false);
    var n := SetTag(m, 0, b);
    WordsOfSetTag(m, 0, b);
    WordOfSet(n, 8, 0);
    WordOfSet(SetW(n, 8, 0), 16, 0);
  }

  // After growing, the new block is the first in the list and fits.
  lemma GrownFits(blk: Blocks, fl: seq<nat>, n: nat, size: nat)
    requires 0 < size <= LARGEST && |fl| > 0 && fl[0] == n && n in blk && blk[n].size == Growth(Need(size))
    ensures FirstFit(blk, fl, Need(Need(size))) == 0
  {
    hide Need, Growth;
    GrowthCovers(size);
  }

  lemma FreeBlockAdded(m: seq<Byte>, n: seq<Byte>, blk: Blocks, h: nat, g: nat)
    requires h !in blk && SamePayloads(m, n, blk)
    ensures InUse(blk[h := Block(g, false)]) == InUse(blk)
    ensures SamePayloads(m, n, InUse(blk))
  {
    hide BlockBytes;
    forall a | a in InUse(blk)
      ensures Payload(n, InUse(blk), a) == Payload(m, InUse(blk), a)
    {
      assert Payload(n, blk, a) == Payload(m, blk, a);
    }
  }

  // The blocks after `h` is freed: merged with the next block if that is free.
  function Freed(blk: Blocks, h: nat): Blocks {
    if h !in blk then blk
    else
      var next := h + blk[h].size;
      if next in blk && !blk[next].used then MergedBlocks(blk, h, next) else blk[h := Block(blk[h].size, false)]
  }

  // Block by block: block `h` is free and has the bytes of a free block behind it
  // as well; that one is gone, and all others are as they were.
  ghost predicate GivesBack(before: Blocks, after: Blocks, h: nat) {
    && h in before && h in after && !after[h].used
    && var next := h + before[h].size;
       var joins := next in before && !before[next].used;
       && after[h].size == before[h].size + (if joins then before[next].size else 0)
       && (forall a :: a in after <==> a in before && !(joins && a == next))
       && (forall a :: a in after && a != h ==> after[a] == before[a])
  }

  // The block freed comes first in the list, and one merged into it is taken out.
  ghost predicate ListedFirst(before: Blocks, fl: seq<nat>, fl': seq<nat>, h: nat)
    requires h in before
  {
    var next := h + before[h].size;
    if next in before && !before[next].used
    then exists i: nat :: i < |fl| && fl[i] == next && fl' == [h] + fl[..i] + fl[i + 1..]
    else fl' == [h] + fl
  }

  lemma MergedIsListed(blk: Blocks, fl: seq<nat>, h: nat, i: nat)
    requires h in blk && i < |fl| && fl[i] == h + blk[h].size && fl[i] in blk && !blk[fl[i]].used
    ensures ListedFirst(blk, fl, [h] + Without(fl, i), h)
  {
    assert [h] + Without(fl, i) == [h] + fl[..i] + fl[i + 1..];
  }

  lemma AloneIsListed(blk: Blocks, fl: seq<nat>, h: nat)
    requires h in blk
    ensures (h + blk[h].size in blk ==> blk[h + blk[h].size].used) ==> ListedFirst(blk, fl, [h] + fl, h)
  {
  }

  lemma FreedGivesBack(blk: Blocks, h: nat)
    requires h in blk && blk[h].size > 0
    ensures GivesBack(blk, Freed(blk, h), h)
  {
  }

  // Freeing undoes placing, unless the block was not split and another free block
  // lies behind it, which is then merged.
  lemma FreeUndoesPlace(blk: Blocks, n: nat, h: nat, need: nat)
    requires Tiles(blk, n) && h in blk && !blk[h].used && 0 < need <= blk[h].size
    requires need % 8 == 0 && need >= MIN_BLOCK
    ensures var next := h + blk[h].size;
            Freed(Placed(blk, h, need), h) == blk <==>
            blk[h].size - need >= MIN_BLOCK || next !in blk || blk[next].used
  {
    if blk[h].size - need >= MIN_BLOCK {
      SplitTiles(blk, n, h, need);
    }
  }

  lemma FreedInUse(m: seq<Byte>, n: seq<Byte>, blk: Blocks, h: nat)
    requires h in blk && blk[h].used && blk[h].size > 0
    requires SamePayloads(m, n, blk - {h, h + blk[h].size}) || SamePayloads(m, n, blk - {h})
    requires !SamePayloads(m, n, blk - {h}) ==> h + blk[h].size in blk && !blk[h + blk[h].size].used
    ensures InUse(Freed(blk, h)) == InUse(blk) - {h}
    ensures SamePayloads(m, n, InUse(blk) - {h})
  {
    hide BlockBytes;
    var rest := InUse(blk) - {h};
    forall a | a in rest
      ensures Payload(n, rest, a) == Payload(m, rest, a)
    {
      if SamePayloads(m, n, blk - {h}) {
        assert Payload(n, blk - {h}, a) == Payload(m, blk - {h}, a);
      } else {
        var b := blk - {h, h + blk[h].size};
        assert Payload(n, b, a) == Payload(m, b, a);
      }
    }
  }

  // Reading the link words of element `i` of the list.
  lemma LinksAt(m: seq<Byte>, base: nat, head: nat, fl: seq<nat>, i: nat)
    requires Linked(m, base, head, fl) && i < |fl| && base > 0
    ensures WordFitsAt(m, fl[i] + 8) && WordFitsAt(m, fl[i] + 16)
    ensures W(m, fl[i] + 8) == if i > 0 then base + fl[i - 1] else 0
    ensures W(m, fl[i] + 16) == if i + 1 < |fl| then base + fl[i + 1] else 0
    ensures i > 0 ==> WordFitsAt(m, fl[i - 1] + 16)
    ensures i + 1 < |fl| ==> WordFitsAt(m, fl[i + 1] + 8)
    ensures Link(base, fl, i - 1) == W(m, fl[i] + 8) && Link(base, fl, i + 1) == W(m, fl[i] + 16)
    ensures head == base + fl[0] && Apart(m, fl)
    ensures Link(base, Without(fl, i), 0) == if i > 0 then head else W(m, fl[i] + 16)
  {
    hide W;
    assert fl[i] % 8 == 0;
  }

  lemma HeadIs(m: seq<Byte>, base: nat, head: nat, fl: seq<nat>)
    requires Linked(m, base, head, fl)
    ensures head == if |fl| > 0 then base + fl[0] else 0
  {
  }

  lemma PushFrontWords(m: seq<Byte>, base: nat, head: nat, fl: seq<nat>, h: nat)
    requires Linked(m, base, head, fl) && Apart(m, [h] + fl) && base > 0
    ensures WordFitsAt(m, h + 8) && WordFitsAt(m, h + 16)
    ensures Link(base, fl, 0) == head == if |fl| > 0 then base + fl[0] else 0
    ensures |fl| > 0 ==> WordFitsAt(m, fl[0] + 8)
  {
    hide W;
    assert ([h] + fl)[0] == h;
    assert |fl| > 0 ==> ([h] + fl)[1] == fl[0];
  }

  lemma SetTagTwice(m: seq<Byte>, h: nat, size: nat, used: bool)
    requires TagFits(m, h, size) && |m| < WORD_LIMIT
    ensures WordFitsAt(m, h) && W(SetW(m, h, Tag(Block(size, used))), h) / 2 * 2 == size
  {
    hide SetW, W, Tag;
    TagHalves(Block(size, used));
    WordOfSet(m, h, Tag(Block(size, used)));
  }

  lemma TagHalves(b: Block)
    requires b.size % 8 == 0
    ensures Tag(b) / 2 * 2 == b.size && (Tag(b) % 2 == 1 <==> b.used) && Tag(b) <= b.size + 1
  {
    Halves(4 * (b.size / 8), b.size, if b.used then 1 else 0);
  }

  lemma Halves(half: nat, size: nat, u: nat)
    requires size == 2 * half && u < 2
    ensures (size + u) / 2 * 2 == size && (size + u) % 2 == u
  {
  }

  // A fault is a store behind the mapped pages, an overrun one behind the block at `p`.
  datatype Outcome = Null | At(p: nat) | OutOfFrames | Fault | Overrun(p: nat)

  class Heap {
    const base: nat
    // What a page holds when it is mapped at the given offset.
    const ram: nat -> Byte
    var mem: seq<Byte>
    var freeList: nat
    // Frames that the frame allocator can still give for heap pages, not counting
    // those that the page tables of the heap take.
    var frames: nat
    ghost var blk: Blocks
    ghost var fl: seq<nat>

    constructor (base: nat, ram: nat -> Byte, frames: nat)
      ensures this.base == base && this.frames == frames
    {
      this.base := base;
      this.ram := ram;
      this.frames := frames;
      mem, freeList, blk, fl := [], 0, map[], [];
    }

    // The mapped range, and what could still be mapped, ends below 2^64.
    predicate Placeable()
      reads this
    {
      base % 4096 == 0 && base >= 12288 && base + |mem| + 4096 * frames < WORD_LIMIT
    }

    ghost predicate Valid()
      reads this
    {
      Placeable() && Sound(mem, base, freeList, blk, fl) && ListsFree(blk, fl)
    }

    function BlkSize(h: nat): nat
      reads this
    {
      W(mem, h) / 2 * 2
    }

    predicate BlkUsed(h: nat)
      reads this
    {
      W(mem, h) % 2 == 1
    }

    method SetSize(h: nat, size: nat, used: bool)
      requires TagFits(mem, h, size) && |mem| < WORD_LIMIT
      modifies this`mem
      ensures mem == SetTag(old(mem), h, Block(size, used))
    {
      hide SetW, W;
      var tag := size + if used then 1 else 0;
      SetTagTwice(mem, h, size, used);
      mem := SetW(mem, h, tag);
      mem := SetW(mem, h + BlkSize(h) - FOOTER, tag);
    }

    // Takes element `i` of the free list out of it.
    method ListRemove(h: nat, ghost i: nat)
      requires Sound(mem, base, freeList, blk, fl) && base > 0
      requires i < |fl| && fl[i] == h
      modifies this`mem, this`freeList, this`fl
      ensures fl == Without(old(fl), i) && h !in fl && (forall a :: a != h ==> (a in fl <==> a in old(fl)))
      ensures Sound(mem, base, freeList, blk, fl) && KeepsBlocks(old(mem), mem, blk)
    {
      hide SetW, W, Tiles, Tagged, KeepsBlocks, Linked, Apart, AreBlocks, Without, Link;
      UnlinkSound(mem, base, freeList, blk, fl, i);
      LinksAt(mem, base, freeList, fl, i);
      hide Sound;
      var prev, next := W(mem, h + 8), W(mem, h + 16);
      if prev != 0 {
        mem := SetW(mem, prev - base + 16, next);
      } else {
        freeList := next;
      }
      if next != 0 {
        mem := SetW(mem, next - base + 8, prev);
      }
      mem := SetW(mem, h + 8, 0);
      mem := SetW(mem, h + 16, 0);
      assert mem == Unlink(old(mem), base, fl, i);
      fl := Without(fl, i);
    }

    method ListInsert(h: nat)
      requires Sound(mem, base, freeList, blk, fl) && base > 0
      requires h in blk && h !in fl
      modifies this`mem, this`freeList, this`fl
      ensures fl == [h] + old(fl)
      ensures Sound(mem, base, freeList, blk, fl) && KeepsBlocks(old(mem), mem, blk)
    {
      hide SetW, W, Tiles, Tagged, KeepsBlocks, Linked, Apart, AreBlocks, Link;
      PushFrontSound(mem, base, freeList, blk, fl, h);
      PushFrontWords(mem, base, freeList, fl, h);
      hide Sound;
      mem := SetW(mem, h + 16, freeList);
      mem := SetW(mem, h + 8, 0);
      if freeList != 0 {
        mem := SetW(mem, freeList - base + 8, base + h);
      }
      freeList := base + h;
      assert mem == PushFront(old(mem), base, fl, h);
      fl := [h] + fl;
    }

    // Maps whole pages behind the heap and makes them one free block.
    method HeapExpand(extra: nat) returns (r: Outcome)
      requires Valid()
      modifies this
      ensures r == (if Pmm.AlignUp(extra) == 0 then Fault
                    else if 4096 * old(frames) < Pmm.AlignUp(extra) then OutOfFrames else Null)
      ensures Valid() && (r.Fault? ==> frames == old(frames))
      ensures !r.Null? ==> mem == old(mem) && blk == old(blk) && fl == old(fl)
      ensures var g := Pmm.AlignUp(extra);
              r.Null? ==>
                && |mem| == |old(mem)| + g && 4096 * frames == 4096 * old(frames) - g
                && |old(mem)| !in old(blk) && blk == old(blk)[|old(mem)| := Block(g, false)]
                && fl == [|old(mem)|] + old(fl)
                && SamePayloads(old(mem), mem, old(blk))
    {
      hide SetW, W, Sound, ListsFree, SetTag, SamePayloads, Pmm.AlignUp;
      var g := Pmm.AlignUp(extra);
      Pages(extra);
      var more: seq<Byte> := MapPages(g);
      if |more| < g {
        return OutOfFrames;
      }
      if g == 0 {
        // The header of the new block would lie behind the mapped pages.
        return Fault;
      }
      Adopt(more);
      r := Null;
    }

    // Maps `g` bytes page by page; gives less when the frames run out.
    method MapPages(g: nat) returns (more: seq<Byte>)
      requires g % 4096 == 0
      modifies this`frames
      ensures g <= 4096 * old(frames) ==> |more| == g
      ensures g > 4096 * old(frames) ==> |more| < g
      ensures |more| + 4096 * frames == 4096 * old(frames)
    {
      more := [];
      var off := 0;
      while off < g
        invariant off % 4096 == 0 && off <= g && |more| == off
        invariant off + 4096 * frames == 4096 * old(frames)
        modifies this`frames
      {
        if frames == 0 {
          return;
        }
        frames := frames - 1;
        var at := |mem| + off;
        more := more + seq(4096, i requires 0 <= i < 4096 => ram(at + i));
        off := off + 4096;
      }
    }

    method Adopt(more: seq<Byte>)
      requires Valid() && |more| % 8 == 0 && |more| >= MIN_BLOCK && base + |mem| + |more| + 4096 * frames < WORD_LIMIT
      modifies this
      ensures Valid() && frames == old(frames) && |mem| == |old(mem)| + |more|
      ensures |old(mem)| !in old(blk) && blk == old(blk)[|old(mem)| := Block(|more|, false)]
      ensures fl == [|old(mem)|] + old(fl)
      ensures SamePayloads(old(mem), mem, old(blk))
    {
      hide SetW, W, Tiles, Tagged, KeepsBlocks, Linked, Apart, SetTag, SamePayloads;
      ghost var m0, blk0 := mem, blk;
      var h := |mem|;
      GrowSound(mem, more, base, freeList, blk, fl);
      mem := mem + more;
      SetSize(h, |more|, false);
      blk := blk[h := Block(|more|, false)];
      ClearLinksSound(mem, base, freeList, blk, fl, h);
      ghost var m1 := mem;
      ClearBlockLinks(h);
      ListInsert(h);
      KeepsBlocksTransitive(m1, ClearLinks(m1, h), mem, blk);
      KeepsBlocksFacts(m1, mem, blk);
      SamePayloadsTransitive(m0, m1, mem, blk0, blk0, blk);
    }

    method ClearBlockLinks(h: nat)
      requires WordFitsAt(mem, h + 8) && WordFitsAt(mem, h + 16)
      modifies this`mem
      ensures mem == ClearLinks(old(mem), h)
    {
      hide SetW;
      mem := SetW(mem, h + 8, 0);
      mem := SetW(mem, h + 16, 0);
    }

    lemma TagsAt(h: nat)
      requires Tiles(blk, |mem|) && Tagged(mem, blk) && h in blk
      ensures BlkSize(h) == blk[h].size && BlkUsed(h) == blk[h].used
    {
      hide W, Tag;
      assert BlockFits(blk, |mem|, h);
      assert TaggedAt(mem, h, blk[h]);
      TagHalves(blk[h]);
    }

    lemma ListEntry(i: nat)
      requires Valid() && i < |fl|
      ensures fl[i] in blk && BlkSize(fl[i]) == blk[fl[i]].size
      ensures W(mem, fl[i] + 16) == if i + 1 < |fl| then base + fl[i + 1] else 0
    {
      hide W, Tiles, Tagged, Apart, Heap.BlkSize;
      TagsAt(fl[i]);
      LinksAt(mem, base, freeList, fl, i);
    }

    lemma SizeOf(h: nat)
      requires Valid() && h in blk
      ensures BlkSize(h) == blk[h].size
    {
      TagsAt(h);
    }

    // Walks the free list to the first block with room for `need` bytes.
    method FindFit(need: nat) returns (h: nat, ghost i: nat)
      requires Valid()
      ensures i == FirstFit(blk, fl, need)
      ensures h == if i < |fl| then base + fl[i] else 0
    {
      hide W, Sound, ListsFree, Heap.BlkSize, FirstFit;
      h := freeList;
      i := 0;
      HeadIsFirst();
      while h != 0
        invariant i <= |fl| && h == if i < |fl| then base + fl[i] else 0
        invariant forall j :: 0 <= j < i ==> fl[j] in blk && blk[fl[j]].size < need
        decreases |fl| - i
      {
        ListEntry(i);
        if BlkSize(h - base) >= need {
          FirstFitIs(blk, fl, need, i);
          return;
        }
        h := W(mem, h - base + 16);
        i := i + 1;
      }
      FirstFitIs(blk, fl, need, i);
    }

    // Following the links in memory from the head of the list meets exactly the
    // free blocks, each once, and following them back from the last meets the same
    // in the opposite order.
    lemma ListIsFreeSet(n: nat)
      requires Valid() && n >= |fl|
      ensures Chain(mem, base, freeList, 16, n) == fl
      ensures |fl| > 0 ==> Chain(mem, base, base + fl[|fl| - 1], 8, n) == Backwards(fl, |fl| - 1)
      ensures forall i, j :: 0 <= i < j < |fl| ==> fl[i] != fl[j]
      ensures forall a :: a in fl <==> a in blk && !blk[a].used
    {
      hide W, Tiles, Tagged, AreBlocks, Chain, Linked, Backwards;
      ChainsMeetAll(mem, base, freeList, fl, n);
    }

    lemma HeadIsFirst()
      requires Valid()
      ensures freeList == if |fl| > 0 then base + fl[0] else 0
    {
      HeadIs(mem, base, freeList, fl);
    }

    // Splits block `h`: `need` bytes in use, and the rest a free block.
    method Carve(h: nat, need: nat)
      requires Sound(mem, base, freeList, blk, fl) && base > 0 && CanSplit(blk, h, need) && h !in fl
      modifies this`mem, this`freeList, this`blk, this`fl
      ensures Sound(mem, base, freeList, blk, fl) && |mem| == |old(mem)|
      ensures h + need !in old(blk) && blk == SplitBlocks(old(blk), h, need) && fl == [h + need] + old(fl)
      ensures SamePayloads(old(mem), mem, old(blk) - {h})
    {
      hide SetW, W, Tiles, Tagged, KeepsBlocks, Linked, Apart, SetTag, SamePayloads, Tag;
      ghost var m0, blk0 := mem, blk;
      SplitSound(mem, base, freeList, blk, fl, h, need);
      TagsAt(h);
      var leftover := BlkSize(h) - need;
      SetSize(h, need, true);
      WordsOfSetTag(m0, h, Block(need, true));
      TagHalves(Block(need, true));
      var rest := h + BlkSize(h);
      SetSize(rest, leftover, false);
      blk := SplitBlocks(blk, h, need);
      ghost var m1 := mem;
      ClearLinksSound(mem, base, freeList, blk, fl, rest);
      ClearBlockLinks(rest);
      ListInsert(rest);
      KeepsBlocksTransitive(m1, ClearLinks(m1, rest), mem, blk);
      KeepsBlocksFacts(m1, mem, blk);
      SamePayloadsTransitive(m0, m1, mem, blk0 - {h}, blk0 - {h}, blk);
    }

    // Uses free block number `i` for `need` bytes and frees what is left over.
    method Place(h: nat, ghost i: nat, need: nat)
      requires Valid() && i < |fl| && h == fl[i] && need % 8 == 0 && MIN_BLOCK <= need <= blk[h].size
      modifies this`mem, this`freeList, this`blk, this`fl
      ensures Valid() && |mem| == |old(mem)|
      ensures blk == Placed(old(blk), h, need) && fl == PlacedList(old(blk), old(fl), i, need)
      ensures h + need !in old(blk) || old(blk[h].size) - need < MIN_BLOCK
      ensures SamePayloads(old(mem), mem, old(blk) - {h})
    {
      hide SetW, W, Tiles, Tagged, KeepsBlocks, Linked, Apart, SetTag, SamePayloads;
      ghost var m0, blk0 := mem, blk;
      ListRemove(h, i);
      KeepsBlocksFacts(m0, mem, blk);
      TagsAt(h);
      var size := BlkSize(h);
      ghost var m1 := mem;
      if size - need >= MIN_BLOCK {
        Carve(h, need);
        SamePayloadsTransitive(m0, m1, mem, blk0 - {h}, blk0, blk0 - {h});
      } else {
        RetagSound(mem, base, freeList, blk, fl, h, true);
        SetSize(h, size, true);
        blk := blk[h := Block(size, true)];
        SamePayloadsTransitive(m0, m1, mem, blk0 - {h}, blk0, blk0 - {h});
      }
    }

    // The blocks in use, by the offset of their header.
    ghost function Live(): Blocks
      reads this
    {
      InUse(blk)
    }

    // Makes the heap grow for a request that no free block can hold.
    method Enlarge(size: nat, need: nat) returns (r: Outcome)
      requires Valid() && 0 < size < WORD_LIMIT && need == Need(size)
      modifies this
      ensures Valid() && !r.At? && !r.Overrun?
      ensures Live() == old(Live()) && SamePayloads(old(mem), mem, Live())
      ensures !r.Null? ==> mem == old(mem) && blk == old(blk) && fl == old(fl) && (r.Fault? ==> frames == old(frames))
      ensures r.Null? ==> frames < old(frames)
      ensures r.Fault? <==> CannotGrow(size)
      ensures r.Null? ==> !CannotGrow(need)
      ensures size <= LARGEST ==> r == if 4096 * old(frames) < Growth(need) then OutOfFrames else Null
      ensures size <= LARGEST && r.Null? ==>
        && |mem| == |old(mem)| + Growth(need) && |old(mem)| !in old(blk)
        && blk == old(blk)[|old(mem)| := Block(Growth(need), false)]
        && FirstFit(blk, fl, Need(need)) == 0 && fl == [|old(mem)|] + old(fl)
    {
      hide SetW, W, Sound, ListsFree, SamePayloads, Pmm.AlignUp, FirstFit, Need, CannotGrow;
      GrowsByNothing(size);
      if size <= LARGEST {
        GrowthCovers(size);
      }
      r := HeapExpand((need + 4096) % WORD_LIMIT);
      if r.Null? {
        FreeBlockAdded(old(mem), mem, old(blk), |old(mem)|, Growth(need));
        if size <= LARGEST {
          GrownFits(blk, fl, |old(mem)|, size);
        }
      }
    }

    method Kmalloc(size: nat) returns (r: Outcome, ghost retries: nat)
      requires Valid() && size < WORD_LIMIT
      modifies this
      ensures Valid() && !r.Overrun?
      ensures r.Null? <==> size == 0
      ensures r.Fault? <==> CannotGrow(size)
      ensures r.Fault? ==> mem == old(mem) && blk == old(blk) && fl == old(fl) && frames == old(frames)
      ensures !r.At? ==> Live() == old(Live()) && SamePayloads(old(mem), mem, Live())
      ensures r.At? ==>
        && r.p >= base + HEADER && r.p % 8 == 0
        && var h := r.p - base - HEADER;
           && h in blk && h !in old(Live()) && Live() == old(Live())[h := blk[h]]
           && SamePayloads(old(mem), mem, old(Live()))
           && (|Payload(mem, blk, h)| >= size <==> size <= LARGEST)
      // With room: the first block of the list that is large enough, split if it can be.
      ensures var i := FirstFit(old(blk), old(fl), Need(size));
              size > 0 && i < |old(fl)| ==>
                && var h := old(fl)[i];
                   && r == At(base + h + HEADER) && |mem| == |old(mem)| && frames == old(frames) && retries == 0
                   && blk == Placed(old(blk), h, Need(size)) && fl == PlacedList(old(blk), old(fl), i, Need(size))
                   && TakesFrom(old(blk), blk, h, Need(size))
      // Without: grows once, or the frames run out.
      ensures 0 < size <= LARGEST && FirstFit(old(blk), old(fl), Need(size)) == |old(fl)| ==>
        && (r.OutOfFrames? <==> 4096 * old(frames) < Growth(Need(size)))
        && (r.OutOfFrames? ==> blk == old(blk) && mem == old(mem))
        && (!r.OutOfFrames? ==>
              var n := |old(mem)|;
              && r == At(base + n + HEADER) && |mem| == n + Growth(Need(size)) && retries == 1
              && TakesFromGrown(old(blk), old(fl), blk, fl, n, size))
      decreases frames
    {
      hide SetW, W, Sound, ListsFree, SamePayloads, Pmm.AlignUp, FirstFit, Placed, PlacedList, Need;
      hide CannotGrow, Growth, InUse, Payload, TakesFrom;
      retries := 0;
      if size == 0 {
        NoneCanGrow();
        return Null, 0;
      }
      var need := Need(size);
      var h;
      ghost var i;
      h, i := FindFit(need);
      if h != 0 {
        FitsInHeap(h - base, size);
        PlacedTakes(blk, h - base, need);
        UseFit(h - base, i, size, need);
        r := At(h + HEADER);
        return;
      }
      ghost var m0, blk0, fl0 := mem, blk, fl;
      var e := Enlarge(size, need);
      if !e.Null? {
        return e, 0;
      }
      NeedCovers(size);
      ghost var m1 := mem;
      r, retries := Kmalloc(need);
      retries := retries + 1;
      SamePayloadsTransitive(m0, m1, mem, InUse(blk0), InUse(blk0), InUse(blk0));
      if size <= LARGEST {
        PlacedSize(blk0[|m0| := Block(Growth(need), false)], |m0|, Need(need));
        PlacedTakes(blk0[|m0| := Block(Growth(need), false)], |m0|, Need(need));
        assert TakesFromGrown(blk0, fl0, blk, fl, |m0|, size);
      }
      if r.At? {
        CoversRequest(r.p - base - HEADER, size);
      }
    }

    lemma FitsInHeap(h: nat, size: nat)
      requires Valid() && h in blk && blk[h].size >= Need(size) && 0 < size < WORD_LIMIT
      ensures !CannotGrow(size)
    {
      hide Need;
      PayloadAt(h);
      GrowsByNothing(size);
    }

    lemma CoversRequest(h: nat, size: nat)
      requires Valid() && h in blk && (size <= LARGEST ==> blk[h].size >= size + 32)
      ensures |Payload(mem, blk, h)| >= size <==> size <= LARGEST
    {
      PayloadCovers(mem, base, blk, h, size);
    }

    // What using the free block that was found does to the blocks in use.
    method UseFit(h: nat, ghost i: nat, size: nat, need: nat)
      requires Valid() && 0 < size < WORD_LIMIT && need == Need(size)
      requires i == FirstFit(blk, fl, need) && i < |fl| && h == fl[i]
      modifies this`mem, this`freeList, this`blk, this`fl
      ensures Valid() && |mem| == |old(mem)|
      ensures blk == Placed(old(blk), h, need) && fl == PlacedList(old(blk), old(fl), i, need)
      ensures h in blk && h !in old(Live()) && Live() == old(Live())[h := blk[h]]
      ensures SamePayloads(old(mem), mem, old(Live()))
      ensures |Payload(mem, blk, h)| >= size <==> size <= LARGEST
      ensures (base + h) % 8 == 0 && blk[h].size >= need
    {
      hide SetW, W, Tiles, Tagged, Linked, Apart, SamePayloads, Placed, PlacedList, Need;
      ghost var m0, blk0 := mem, blk;
      Place(h, i, need);
      PlacedInUse(m0, mem, blk0, h, need);
      NeedCovers(size);
      PayloadCovers(mem, base, blk, h, size);
      BlockFacts(blk, |mem|, mem, h);
    }

    lemma NextBlock(h: nat)
      requires Tiles(blk, |mem|) && h in blk
      ensures h + blk[h].size < |mem| ==> h + blk[h].size in blk
      ensures h + blk[h].size == |mem| ==> h + blk[h].size !in blk
      ensures blk[h].size > 0 && blk[h].size % 8 == 0
    {
      var next := h + blk[h].size;
      assert BlockFits(blk, |mem|, h);
      assert next in blk ==> BlockFits(blk, |mem|, next);
    }

    method FreeBlock(h: nat)
      requires Valid() && h in blk && blk[h].used
      modifies this`mem, this`freeList, this`blk, this`fl
      ensures Valid() && |mem| == |old(mem)| && blk == Freed(old(blk), h)
      ensures ListedFirst(old(blk), old(fl), fl, h)
      ensures var next: nat := h + old(blk)[h].size;
              if next in old(blk) && !old(blk)[next].used then SamePayloads(old(mem), mem, old(blk) - {h, next})
              else SamePayloads(old(mem), mem, old(blk) - {h})
    {
      hide SetW, W, Tiles, Tagged, KeepsBlocks, Linked, Apart, SetTag, SamePayloads, Tag;
      hide ListedFirst, Without;
      ghost var m0, blk0 := mem, blk;
      TagsAt(h);
      NextBlock(h);
      RetagSound(mem, base, freeList, blk, fl, h, false);
      SetSize(h, BlkSize(h), false);
      blk := blk[h := Block(blk[h].size, false)];
      ghost var m1, blk1: Blocks := mem, blk;
      TagsAt(h);
      var next: nat := h + BlkSize(h);
      if next < |mem| {
        TagsAt(next);
      }
      if next < |mem| && !BlkUsed(next) {
        ghost var i := MergeNext(h, next);
        MergedIsListed(blk0, old(fl), h, i);
        SamePayloadsTransitive(m0, m1, mem, blk0 - {h, next}, blk0 - {h}, blk1 - {h, next});
      }
      ghost var m2 := mem;
      assert ListedFirst(blk0, old(fl), [h] + fl, h) by {
        AloneIsListed(blk0, old(fl), h);
      }
      ListInsert(h);
      KeepsBlocksFacts(m2, mem, blk);
      ghost var kept: Blocks := if next < |mem| && !blk1[next].used then blk0 - {h, next} else blk0 - {h};
      SamePayloadsTransitive(m0, m2, mem, kept, kept, blk);
    }

    method MergeNext(h: nat, next: nat) returns (ghost i: nat)
      requires Sound(mem, base, freeList, blk, fl) && base > 0
      requires h in blk && next in blk && next == h + blk[h].size && !blk[next].used && h !in fl && next in fl
      modifies this`mem, this`freeList, this`blk, this`fl
      ensures Sound(mem, base, freeList, blk, fl) && |mem| == |old(mem)|
      ensures blk == MergedBlocks(old(blk), h, next)
      ensures next !in fl && forall a :: a != next ==> (a in fl <==> a in old(fl))
      ensures i < |old(fl)| && old(fl)[i] == next && fl == Without(old(fl), i)
      ensures SamePayloads(old(mem), mem, old(blk) - {h, next})
    {
      hide SetW, W, Tiles, Tagged, KeepsBlocks, Linked, Apart, SetTag, SamePayloads, Tag;
      ghost var m0, blk0 := mem, blk;
      i :| 0 <= i < |fl| && fl[i] == next;
      ListRemove(next, i);
      KeepsBlocksFacts(m0, mem, blk);
      ghost var m1 := mem;
      TagsAt(h);
      TagsAt(next);
      MergeSound(mem, base, freeList, blk, fl, h, next);
      SetSize(h, BlkSize(h) + BlkSize(next), false);
      blk := MergedBlocks(blk, h, next);
      SamePayloadsTransitive(m0, m1, mem, blk0 - {h, next}, blk0, blk0 - {h, next});
    }

    // Whether `p` points just behind the header of a block.
    ghost predicate IsBlock(p: nat)
      reads this
    {
      p >= base + HEADER && p - base - HEADER in blk
    }

    // Frees the block at `p`; false when the block is already free.
    method Kfree(p: nat) returns (ok: bool)
      requires Valid() && (p == 0 || IsBlock(p))
      modifies this
      ensures Valid() && frames == old(frames) && |mem| == |old(mem)|
      ensures p == 0 ==> ok && mem == old(mem) && blk == old(blk) && fl == old(fl)
      ensures p != 0 ==>
        && var h := p - base - HEADER;
           && (ok <==> h in old(Live()))
           && (!ok ==> mem == old(mem) && blk == old(blk) && fl == old(fl))
           && (ok ==> && GivesBack(old(blk), blk, h) && ListedFirst(old(blk), old(fl), fl, h)
                      && blk == Freed(old(blk), h) && Live() == old(Live()) - {h}
                      && SamePayloads(old(mem), mem, Live()))
    {
      hide SetW, W, Tiles, Tagged, KeepsBlocks, Linked, Apart, SetTag, SamePayloads, Tag, Freed;
      hide GivesBack, ListedFirst;
      if p == 0 {
        return true;
      }
      var h := p - base - HEADER;
      TagsAt(h);
      if !BlkUsed(h) {
        return false;
      }
      ok := true;
      ghost var m0, blk0 := mem, blk;
      NextBlock(h);
      FreeBlock(h);
      FreedInUse(m0, mem, blk0, h);
      FreedGivesBack(blk0, h);
    }

    // Giving a block back at once leaves the blocks as they were, unless it was not
    // split and a free block lies behind it, which is then merged.
    method TakeAndGiveBack(size: nat) returns (r: Outcome)
      requires Valid() && 0 < size < WORD_LIMIT && FirstFit(blk, fl, Need(size)) < |fl|
      modifies this
      ensures Valid() && r.At? && frames == old(frames) && |mem| == |old(mem)|
      ensures Live() == old(Live()) && SamePayloads(old(mem), mem, Live())
      ensures
        && var h := old(fl)[FirstFit(old(blk), old(fl), Need(size))];
           var next := h + old(blk)[h].size;
           blk == old(blk) <==>
           old(blk)[h].size - Need(size) >= MIN_BLOCK || next !in old(blk) || old(blk)[next].used
    {
      hide SetW, W, Sound, SamePayloads, FirstFit, Placed, PlacedList, Need, Freed, GivesBack, ListedFirst;
      hide TakesFrom, CannotGrow, Growth, Payload;
      ghost var m0, blk0, live0, h := mem, blk, Live(), fl[FirstFit(blk, fl, Need(size))];
      PlaceUndone(h, Need(size));
      ghost var retries;
      r, retries := Kmalloc(size);
      ghost var m1 := mem;
      ghost var live1 := Live();
      var ok := Kfree(r.p);
      assert live1 - {h} == live0;
      SamePayloadsTransitive(m0, m1, mem, live0, live0, live0);
    }

    lemma PlaceUndone(h: nat, need: nat)
      requires Valid() && h in fl && h in blk && need <= blk[h].size && need % 8 == 0 && need >= MIN_BLOCK
      ensures !blk[h].used
      ensures var next := h + blk[h].size;
              Freed(Placed(blk, h, need), h) == blk <==>
              blk[h].size - need >= MIN_BLOCK || next !in blk || blk[next].used
    {
      hide W, Tagged, Linked, AreBlocks, Freed, Placed, Tiles;
      FreeUndoesPlace(blk, |mem|, h, need);
    }

    // Makes the first pages one free block.
    method Init(initial: nat) returns (r: Outcome)
      requires Placeable() && mem == []
      modifies this
      ensures r == (if Pmm.AlignUp(initial) == 0 then Fault
                    else if 4096 * old(frames) < Pmm.AlignUp(initial) then OutOfFrames else Null)
      ensures r.Null? ==> Valid() && blk == map[0 := Block(Pmm.AlignUp(initial), false)] && fl == [0]
    {
      hide SetW, W, Sound, SetTag, Pmm.AlignUp;
      var g := Pmm.AlignUp(initial);
      Pages(initial);
      var more: seq<Byte> := MapPages(g);
      if |more| < g {
        return OutOfFrames;
      }
      if g == 0 {
        return Fault;
      }
      mem := more;
      InitSound(mem, base);
      SetSize(0, g, false);
      ClearBlockLinks(0);
      freeList := base;
      blk, fl := map[0 := Block(g, false)], [0];
      r := Null;
    }

    // A client writes `bytes` at `at` within the payload of block `h`.
    method Write(h: nat, at: nat, bytes: seq<Byte>)
      requires Valid() && h in Live() && InPayload(blk, h, at, |bytes|)
      modifies this`mem
      ensures Valid() && |mem| == |old(mem)|
      ensures SamePayloads(old(mem), mem, old(Live()) - {h})
      ensures at + |bytes| <= |mem| && mem[at..at + |bytes|] == bytes
      ensures forall x :: 0 <= x < |mem| && (x < at || at + |bytes| <= x) ==> mem[x] == old(mem)[x]
    {
      hide Tiles, Tagged, Linked, SamePayloads;
      ghost var m0 := mem;
      OverwriteSound(mem, base, freeList, blk, fl, h, at, bytes);
      mem := Overwrite(mem, at, bytes);
      SamePayloadsTransitive(m0, mem, mem, Live() - {h}, blk - {h}, blk);
    }

    // The blocks in use are `kept`, with the bytes they have in `m`, and that at `p`.
    ghost predicate Adds(p: nat, kept: Blocks, m: seq<Byte>)
      reads this
    {
      IsBlock(p) &&
      var h: nat := p - base - HEADER;
      Live() == kept[h := blk[h]] && SamePayloads(m, mem, kept)
    }

    // Sets the first bytes of a block to zero; false when they are not all its own.
    method ZeroPayload(p: nat, n: nat) returns (ok: bool)
      requires Valid() && IsBlock(p) && p - base - HEADER in Live()
      modifies this`mem
      ensures Valid() && |mem| == |old(mem)|
      ensures ok <==> n <= |old(PayloadOf(p))|
      ensures !ok ==> mem == old(mem)
      ensures ok ==> SamePayloads(old(mem), mem, Others(p)) && n <= |PayloadOf(p)| && PayloadOf(p)[..n] == Zeros(n)
    {
      hide Sound, ListsFree, SamePayloads, Heap.BlkSize, Zeros;
      var h := p - base - HEADER;
      PayloadAt(h);
      SizeOf(h);
      ok := n <= BlkSize(h) - HEADER - FOOTER;
      if ok {
        Write(h, p - base, Zeros(n));
        PayloadAt(h);
      }
    }

    // Room for `n` times `size` bytes, all zero. Zeroing runs over the end of the
    // block exactly when the product is one that no block is large enough for.
    method Kcalloc(n: nat, size: nat) returns (r: Outcome)
      requires Valid()
      modifies this
      ensures Valid()
      ensures !r.At? && !r.Overrun? ==> Live() == old(Live()) && SamePayloads(old(mem), mem, Live())
      ensures r.Overrun? ==> n * size % WORD_LIMIT > LARGEST
      ensures r.At? || r.Overrun? ==>
        Adds(r.p, old(Live()), old(mem)) && r.p - base - HEADER !in old(Live())
      ensures r.At? ==>
        && var bytes, total := PayloadOf(r.p), n * size % WORD_LIMIT;
           total <= LARGEST && |bytes| >= total && bytes[..total] == Zeros(total)
    {
      hide Sound, ListsFree, SamePayloads, FirstFit, Placed, PlacedList, Need, Growth, Heap.BlkSize, Zeros;
      var total := n * size % WORD_LIMIT;
      ghost var m0 := mem;
      ghost var retries;
      r, retries := Kmalloc(total);
      if r.At? {
        ghost var m1 := mem;
        var ok := ZeroPayload(r.p, total);
        if ok {
          SamePayloadsTransitive(m0, m1, mem, old(Live()), old(Live()), Others(r.p));
        } else {
          r := Overrun(r.p);
        }
      }
    }

    lemma PayloadAt(h: nat)
      requires Valid() && h in blk
      ensures h + blk[h].size <= |mem| && blk[h].size >= MIN_BLOCK
      ensures Payload(mem, blk, h) == mem[h + HEADER..h + blk[h].size - FOOTER]
    {
      hide W, Tagged, Linked, AreBlocks, ListsFree;
      BlockFacts(blk, |mem|, mem, h);
    }

    // The blocks in use but for that at `p`.
    ghost function Others(p: nat): Blocks
      reads this
    {
      if p >= base + HEADER then Live() - {p - base - HEADER} else Live()
    }

    // What the block at `p` holds.
    ghost function PayloadOf(p: nat): seq<Byte>
      reads this
    {
      if IsBlock(p) then Payload(mem, blk, p - base - HEADER) else []
    }

    // Moves the block at `p` to one of the new size. The copy runs over the end of
    // the new block only for sizes that no block is large enough for, and then
    // exactly when the old block holds more than the new one.
    method Krealloc(p: nat, size: nat) returns (r: Outcome)
      requires Valid() && (p == 0 || (IsBlock(p) && p - base - HEADER in Live())) && size < WORD_LIMIT
      modifies this
      ensures Valid()
      ensures !r.At? && !r.Overrun? ==> Live() == old(Live()) && SamePayloads(old(mem), mem, Live())
      ensures r.At? || r.Overrun? ==>
        Adds(r.p, if r.At? then old(Others(p)) else old(Live()), old(mem)) && r.p - base - HEADER !in old(Live())
      ensures r.At? ==> (|PayloadOf(r.p)| >= size <==> size <= LARGEST)
      ensures r.At? ==> |PayloadOf(r.p)| >= Min(size, |old(PayloadOf(p))|)
      ensures r.Overrun? ==> p != 0 && size > LARGEST && |PayloadOf(r.p)| < Min(size, |old(PayloadOf(p))|)
      ensures r.At? && p != 0 ==>
        SamePrefix(old(PayloadOf(p)), PayloadOf(r.p), Min(size, |old(PayloadOf(p))|))
    {
      hide Sound, ListsFree, SamePayloads, FirstFit, Placed, PlacedList, Need, Growth, InUse, Payload, SamePrefix;
      ghost var retries;
      ghost var m0, live0 := mem, Live();
      if p != 0 {
        InLive(p - base - HEADER);
        SizeOf(p - base - HEADER);
      }
      var oldSize := if p == 0 then 0 else BlkSize(p - base - HEADER) - HEADER - FOOTER;
      r, retries := Kmalloc(size);
      if p != 0 && r.At? {
        var h, to := p - base - HEADER, r.p - base - HEADER;
        ghost var m1, live1 := mem, Live();
        InLive(to);
        StillLive(m0, m1, old(blk), blk, live0, h);
        MovedLive(live0, live1, h, to);
        assert Others(p) - {to} == old(Others(p));
        var n := if oldSize < size then oldSize else size;
        SizeOf(to);
        if n > BlkSize(to) - HEADER - FOOTER {
          return Overrun(r.p);
        }
        MoveBlock(p, to, n);
        SamePayloadsTransitive(m0, m1, mem, old(Others(p)), live0, old(Others(p)));
      }
    }

    lemma InLive(h: nat)
      requires Valid() && h in Live()
      ensures h in blk && blk[h] == Live()[h] && |Payload(mem, blk, h)| == blk[h].size - 32 >= 16
    {
      PayloadAt(h);
    }

    // Copies `n` bytes to block `to` and frees the block at `p`.
    method MoveBlock(p: nat, to: nat, n: nat)
      requires Valid() && IsBlock(p) && p - base - HEADER in Live() && to in Live() && to != p - base - HEADER
      requires n <= Live()[p - base - HEADER].size - 32 && n <= Live()[to].size - 32
      modifies this
      ensures Valid() && Live() == old(Others(p)) && to in blk && blk[to] == old(Live())[to]
      ensures SamePayloads(old(mem), mem, old(Others(p)) - {to})
      ensures SamePrefix(old(PayloadOf(p)), PayloadOf(base + HEADER + to), n)
      ensures |PayloadOf(base + HEADER + to)| == blk[to].size - 32
    {
      hide Sound, ListsFree, SamePayloads, Freed, Payload, SamePrefix, InUse;
      var h := p - base - HEADER;
      InLive(h);
      InLive(to);
      ghost var m0, live0 := mem, Live();
      CopyPayload(h, to, n);
      ghost var m1, blk1 := mem, blk;
      var ok := Kfree(p);
      InLive(to);
      PayloadKept(m1, mem, Live(), blk1, blk, to);
      SamePayloadsTransitive(m0, m1, mem, old(Others(p)) - {to}, live0 - {to}, live0 - {h});
    }

    method CopyPayload(from: nat, to: nat, n: nat)
      requires Valid() && from in Live() && to in Live() && from != to
      requires n <= Live()[from].size - 32 && n <= Live()[to].size - 32
      modifies this`mem
      ensures Valid() && |mem| == |old(mem)|
      ensures SamePayloads(old(mem), mem, old(Live()) - {to})
      ensures SamePrefix(old(Payload(mem, blk, from)), Payload(mem, blk, to), n)
    {
      hide Sound, ListsFree, SamePayloads;
      PayloadAt(from);
      PayloadAt(to);
      ghost var m0 := mem;
      Write(to, to + HEADER, mem[from + HEADER..from + HEADER + n]);
      PayloadAt(to);
      SlicePrefix(m0, from + HEADER, from + blk[from].size - FOOTER, n);
      SlicePrefix(mem, to + HEADER, to + blk[to].size - FOOTER, n);
    }
  }
}
