// What re-tagging, splitting, merging and growing do to a heap.
module HeapSteps {
  import opened Bits
  import opened Words
  import opened HeapLayout

  // A block other than those rewritten keeps its tags.
  lemma TagsElsewhere(m: seq<Byte>, n: seq<Byte>, blk: Blocks, a: nat)
    requires a in blk && Tagged(m, blk) && TagFits(m, a, blk[a].size) && |m| <= |n| && SameBlock(m, n, a, blk[a].size)
    ensures TaggedAt(n, a, blk[a])
    ensures Payload(n, blk, a) == Payload(m, blk, a)
  {
    hide W, Tag;
  }

  // Writing a tag within block `h` leaves the other blocks alone.
  lemma OthersKept(m: seq<Byte>, blk: Blocks, h: nat, at: nat, b: Block, a: nat)
    requires Tiles(blk, |m|) && h in blk && a in blk && a != h && |m| < WORD_LIMIT
    requires TagFits(m, at, b.size) && h <= at && at + b.size <= h + blk[h].size
    ensures TagFits(m, a, blk[a].size) && SameBlock(m, SetTag(m, at, b), a, blk[a].size)
  {
    hide SetTag, SameBlock, Tiles, TagFits;
    BlockFacts(blk, |m|, m, a);
    BlocksApart(blk, |m|, a, h);
    SetTagSpares(m, at, b, a, blk[a].size);
  }

  lemma RetagSound(m: seq<Byte>, base: nat, head: nat, blk: Blocks, fl: seq<nat>, h: nat, used: bool)
    requires Sound(m, base, head, blk, fl) && h in blk && h !in fl
    ensures TagFits(m, h, blk[h].size)
    ensures var b := Block(blk[h].size, used); Sound(SetTag(m, h, b), base, head, blk[h := b], fl)
    ensures SamePayloads(m, SetTag(m, h, Block(blk[h].size, used)), blk - {h})
  {
    hide SetTag, Linked, Tiles, SameBlock, W, Tag;
    var b := Block(blk[h].size, used);
    BlockFacts(blk, |m|, m, h);
    var n := SetTag(m, h, b);
    RetagTiles(blk, |m|, h, used);
    ListAvoids(blk, |m|, fl, h, blk[h].size);
    SetTagKeepsList(m, base, head, fl, h, b);
    WordsOfSetTag(m, h, b);
    forall a | a in blk && a != h
      ensures TaggedAt(n, a, blk[a])
      ensures Payload(n, blk, a) == Payload(m, blk, a)
    {
      OthersKept(m, blk, h, h, b, a);
      hide Tagged;
      TagsElsewhere(m, n, blk, a);
    }
  }

  // ---- splitting -----------------------------------------------------------

  predicate CanSplit(blk: Blocks, h: nat, size: nat) {
    h in blk && size % 8 == 0 && MIN_BLOCK <= size && size + MIN_BLOCK <= blk[h].size
  }

  lemma SplitFitsMemory(m: seq<Byte>, blk: Blocks, h: nat, size: nat)
    requires Tiles(blk, |m|) && CanSplit(blk, h, size)
    ensures TagFits(m, h, size) && TagFits(m, h + size, blk[h].size - size)
  {
    hide Tiles;
    BlockFacts(blk, |m|, m, h);
  }

  // The used part first, then what is left over.
  function SplitTags(m: seq<Byte>, blk: Blocks, h: nat, size: nat): (n: seq<Byte>)
    requires CanSplit(blk, h, size) && TagFits(m, h, size) && TagFits(m, h + size, blk[h].size - size)
    ensures |n| == |m|
  {
    hide SetTag;
    SetTag(SetTag(m, h, Block(size, true)), h + size, Block(blk[h].size - size, false))
  }

  lemma SplitKeepsOther(m: seq<Byte>, blk: Blocks, h: nat, size: nat, a: nat)
    requires Tiles(blk, |m|) && Tagged(m, blk) && |m| < WORD_LIMIT && CanSplit(blk, h, size) && a in blk && a != h
    requires TagFits(m, h, size) && TagFits(m, h + size, blk[h].size - size)
    ensures TaggedAt(SplitTags(m, blk, h, size), a, blk[a])
    ensures Payload(SplitTags(m, blk, h, size), blk, a) == Payload(m, blk, a)
  {
    hide SetTag, Tiles, W, Tag;
    var n := SetTag(m, h, Block(size, true));
    OthersKept(m, blk, h, h, Block(size, true), a);
    OthersKept(n, blk, h, h + size, Block(blk[h].size - size, false), a);
    hide Tagged;
    TagsElsewhere(m, SplitTags(m, blk, h, size), blk, a);
  }

  lemma SplitWords(m: seq<Byte>, blk: Blocks, h: nat, size: nat)
    requires CanSplit(blk, h, size) && TagFits(m, h, size) && TagFits(m, h + size, blk[h].size - size)
    requires |m| < WORD_LIMIT
    ensures TaggedAt(SplitTags(m, blk, h, size), h, Block(size, true))
    ensures TaggedAt(SplitTags(m, blk, h, size), h + size, Block(blk[h].size - size, false))
  {
    hide SetTag, W, Tag;
    WordsOfSetTag(m, h, Block(size, true));
    WordsOfSetTag(SetTag(m, h, Block(size, true)), h + size, Block(blk[h].size - size, false));
  }

  lemma SplitSound(m: seq<Byte>, base: nat, head: nat, blk: Blocks, fl: seq<nat>, h: nat, size: nat)
    requires Sound(m, base, head, blk, fl) && CanSplit(blk, h, size) && h !in fl
    ensures TagFits(m, h, size) && TagFits(m, h + size, blk[h].size - size)
    ensures Sound(SplitTags(m, blk, h, size), base, head, SplitBlocks(blk, h, size), fl)
    ensures h + size !in blk
    ensures SamePayloads(m, SplitTags(m, blk, h, size), blk - {h})
  {
    hide SetTag, Linked, Tiles, TaggedAt, TagFits, Payload;
    SplitFitsMemory(m, blk, h, size);
    var n := SplitTags(m, blk, h, size);
    SplitTiles(blk, |m|, h, size);
    SplitWords(m, blk, h, size);
    forall a | a in blk && a != h
      ensures TaggedAt(n, a, blk[a]) && Payload(n, blk, a) == Payload(m, blk, a)
    {
      SplitKeepsOther(m, blk, h, size, a);
    }
    SplitKeepsList(m, base, head, blk, fl, h, size);
    assert SamePayloads(m, n, blk - {h}) by {
      PayloadsWithout(m, n, blk, {h});
    }
  }

  lemma PayloadsWithout(m: seq<Byte>, n: seq<Byte>, blk: Blocks, s: set<nat>)
    requires forall a :: a in blk && a !in s ==> Payload(n, blk, a) == Payload(m, blk, a)
    ensures SamePayloads(m, n, blk - s)
  {
  }

  lemma SplitKeepsList(m: seq<Byte>, base: nat, head: nat, blk: Blocks, fl: seq<nat>, h: nat, size: nat)
    requires Tiles(blk, |m|) && AreBlocks(blk, fl) && Linked(m, base, head, fl) && CanSplit(blk, h, size) && h !in fl
    requires TagFits(m, h, size) && TagFits(m, h + size, blk[h].size - size) && |m| < WORD_LIMIT
    ensures Linked(SplitTags(m, blk, h, size), base, head, fl)
  {
    hide SetTag, Linked, Tiles;
    ListAvoids(blk, |m|, fl, h, blk[h].size);
    SetTagKeepsList(m, base, head, fl, h, Block(size, true));
    SetTagKeepsList(SetTag(m, h, Block(size, true)), base, head, fl, h + size, Block(blk[h].size - size, false));
  }

  // ---- merging -------------------------------------------------------------

  lemma MergeSound(m: seq<Byte>, base: nat, head: nat, blk: Blocks, fl: seq<nat>, h: nat, next: nat)
    requires Sound(m, base, head, blk, fl) && h in blk && next in blk && next == h + blk[h].size
    requires h !in fl && next !in fl
    ensures TagFits(m, h, blk[h].size + blk[next].size)
    ensures var b := Block(blk[h].size + blk[next].size, false);
            Sound(SetTag(m, h, b), base, head, MergedBlocks(blk, h, next), fl)
    ensures SamePayloads(m, SetTag(m, h, Block(blk[h].size + blk[next].size, false)), blk - {h, next})
  {
    hide SetTag, Linked, Tiles, SameBlock, W, Tag, Payload;
    var b, blk' := Block(blk[h].size + blk[next].size, false), MergedBlocks(blk, h, next);
    BlockFacts(blk, |m|, m, h);
    BlockFacts(blk, |m|, m, next);
    var n := SetTag(m, h, b);
    MergeTiles(blk, |m|, h, next);
    ListAvoids(blk, |m|, fl, h, blk[h].size);
    ListAvoids(blk, |m|, fl, next, blk[next].size);
    BothClear(blk, |m|, fl, h, next);
    SetTagKeepsList(m, base, head, fl, h, b);
    WordsOfSetTag(m, h, b);
    forall a | a in blk && a != h && a != next
      ensures TaggedAt(n, a, blk'[a]) && Payload(n, blk, a) == Payload(m, blk, a)
    {
      OthersKept(m, blk', h, h, b, a);
      assert blk'[a] == blk[a];
      TagsElsewhere(m, n, blk, a);
    }
    PayloadsWithout(m, n, blk, {h, next});
  }

  lemma BothClear(blk: Blocks, n: nat, fl: seq<nat>, h: nat, next: nat)
    requires Tiles(blk, n) && AreBlocks(blk, fl) && h in blk && next in blk && next == h + blk[h].size
    requires h !in fl && next !in fl
    ensures Clear(fl, h, blk[h].size + blk[next].size)
  {
    forall i | 0 <= i < |fl|
      ensures fl[i] + HEADER <= h || h + blk[h].size + blk[next].size <= fl[i]
    {
      BlocksApart(blk, n, fl[i], h);
      BlocksApart(blk, n, fl[i], next);
      assert BlockFits(blk, n, fl[i]);
    }
  }

  // ---- growing -------------------------------------------------------------

  lemma WordsOfExtension(m: seq<Byte>, more: seq<Byte>, a: nat)
    requires a + 8 <= |m|
    ensures W(m + more, a) == W(m, a)
  {
    hide WordAt;
    if WordFitsAt(m, a) {
      assert (m + more)[a..a + 8] == m[a..a + 8];
      WordOfSlice(m, m + more, a);
    }
  }

  lemma ExtensionKeepsBlock(m: seq<Byte>, more: seq<Byte>, a: nat, size: nat)
    requires TagFits(m, a, size)
    ensures SameBlock(m, m + more, a, size)
  {
    hide W;
    WordsOfExtension(m, more, a);
    WordsOfExtension(m, more, a + size - 8);
    assert (m + more)[a + HEADER..a + size - FOOTER] == m[a + HEADER..a + size - FOOTER];
  }

  lemma ExtensionKeepsList(m: seq<Byte>, more: seq<Byte>, base: nat, head: nat, fl: seq<nat>)
    requires Linked(m, base, head, fl)
    ensures Linked(m + more, base, head, fl) && Clear(fl, |m|, |more|)
  {
    hide W, Link;
    forall i | 0 <= i < |fl|
      ensures W(m + more, fl[i] + 8) == W(m, fl[i] + 8) && W(m + more, fl[i] + 16) == W(m, fl[i] + 16)
    {
      WordsOfExtension(m, more, fl[i] + 8);
      WordsOfExtension(m, more, fl[i] + 16);
    }
  }

  // The new pages become one free block at the old end of the heap.
  lemma GrowSound(m: seq<Byte>, more: seq<Byte>, base: nat, head: nat, blk: Blocks, fl: seq<nat>)
    requires Sound(m, base, head, blk, fl) && |more| % 8 == 0 && |more| >= MIN_BLOCK && base + |m| + |more| < WORD_LIMIT
    ensures |m| !in blk && TagFits(m + more, |m|, |more|)
    ensures var b := Block(|more|, false);
            Sound(SetTag(m + more, |m|, b), base, head, blk[|m| := b], fl)
    ensures SamePayloads(m, SetTag(m + more, |m|, Block(|more|, false)), blk)
  {
    hide SetTag, Linked, Tiles, SameBlock, W, Tag, Payload;
    var h, b, x := |m|, Block(|more|, false), m + more;
    var blk' := blk[h := b];
    GrowTiles(blk, |m|, |more|);
    var n := SetTag(x, h, b);
    ExtensionKeepsList(m, more, base, head, fl);
    SetTagKeepsList(x, base, head, fl, h, b);
    WordsOfSetTag(x, h, b);
    forall a | a in blk
      ensures TaggedAt(n, a, blk'[a]) && Payload(n, blk, a) == Payload(m, blk, a)
    {
      BlockFacts(blk, |m|, m, a);
      ExtensionKeepsBlock(m, more, a, blk[a].size);
      TagsElsewhere(m, x, blk, a);
      SetTagSpares(x, h, b, a, blk[a].size);
      SpareTags(x, n, blk, a);
    }
  }

  lemma SpareTags(x: seq<Byte>, n: seq<Byte>, blk: Blocks, a: nat)
    requires a in blk && TaggedAt(x, a, blk[a]) && TagFits(x, a, blk[a].size) && |x| <= |n|
    requires SameBlock(x, n, a, blk[a].size)
    ensures TaggedAt(n, a, blk[a]) && Payload(n, blk, a) == Payload(x, blk, a)
  {
    hide W, Tag;
  }

  // ---- writing into a block in use -----------------------------------------

  function Overwrite(m: seq<Byte>, at: nat, bytes: seq<Byte>): (n: seq<Byte>)
    requires at + |bytes| <= |m|
    ensures |n| == |m|
  {
    m[..at] + bytes + m[at + |bytes|..]
  }

  lemma SliceOfOverwrite(m: seq<Byte>, at: nat, bytes: seq<Byte>, lo: nat, hi: nat)
    requires at + |bytes| <= |m| && lo <= hi <= |m| && (hi <= at || at + |bytes| <= lo)
    ensures Overwrite(m, at, bytes)[lo..hi] == m[lo..hi]
  {
  }

  lemma WordOfOverwrite(m: seq<Byte>, at: nat, bytes: seq<Byte>, a: nat)
    requires at + |bytes| <= |m| && a + 8 <= |m| && (a + 8 <= at || at + |bytes| <= a)
    ensures W(Overwrite(m, at, bytes), a) == W(m, a)
  {
    hide WordAt, Overwrite;
    SliceOfOverwrite(m, at, bytes, a, a + 8);
    if WordFitsAt(m, a) {
      WordOfSlice(m, Overwrite(m, at, bytes), a);
    }
  }

  predicate InPayload(blk: Blocks, h: nat, at: nat, len: nat) {
    h in blk && h + HEADER <= at && at + len <= h + blk[h].size - FOOTER
  }

  lemma OverwriteKeepsOther(m: seq<Byte>, blk: Blocks, h: nat, at: nat, bytes: seq<Byte>, a: nat)
    requires Tiles(blk, |m|) && InPayload(blk, h, at, |bytes|) && a in blk && at + |bytes| <= |m|
    requires TaggedAt(m, a, blk[a])
    ensures TaggedAt(Overwrite(m, at, bytes), a, blk[a])
    ensures a != h ==> Payload(Overwrite(m, at, bytes), blk, a) == Payload(m, blk, a)
  {
    hide Tiles, W, Overwrite, Tag;
    BlockFacts(blk, |m|, m, a);
    if a != h {
      BlocksApart(blk, |m|, a, h);
      SliceOfOverwrite(m, at, bytes, a + HEADER, a + blk[a].size - FOOTER);
    }
    WordOfOverwrite(m, at, bytes, a);
    WordOfOverwrite(m, at, bytes, a + blk[a].size - 8);
  }

  lemma OverwriteKeepsList(m: seq<Byte>, base: nat, head: nat, blk: Blocks, fl: seq<nat>, h: nat, at: nat,
                           bytes: seq<Byte>)
    requires Tiles(blk, |m|) && AreBlocks(blk, fl) && Linked(m, base, head, fl)
    requires InPayload(blk, h, at, |bytes|) && h !in fl && at + |bytes| <= |m|
    ensures Linked(Overwrite(m, at, bytes), base, head, fl)
  {
    hide W, Link, Overwrite, Tiles;
    ListAvoids(blk, |m|, fl, h, blk[h].size);
    forall i | 0 <= i < |fl|
      ensures W(Overwrite(m, at, bytes), fl[i] + 8) == W(m, fl[i] + 8)
      ensures W(Overwrite(m, at, bytes), fl[i] + 16) == W(m, fl[i] + 16)
    {
      WordOfOverwrite(m, at, bytes, fl[i] + 8);
      WordOfOverwrite(m, at, bytes, fl[i] + 16);
    }
  }

  // A client that stays within its payload cannot break the heap.
  lemma OverwriteSound(m: seq<Byte>, base: nat, head: nat, blk: Blocks, fl: seq<nat>, h: nat, at: nat, bytes: seq<Byte>)
    requires Sound(m, base, head, blk, fl) && InPayload(blk, h, at, |bytes|) && h !in fl
    ensures at + |bytes| <= |m|
    ensures Sound(Overwrite(m, at, bytes), base, head, blk, fl)
    ensures SamePayloads(m, Overwrite(m, at, bytes), blk - {h})
    ensures Overwrite(m, at, bytes)[at..at + |bytes|] == bytes
    ensures forall x :: 0 <= x < |m| && (x < at || at + |bytes| <= x) ==> Overwrite(m, at, bytes)[x] == m[x]
  {
    BlockFacts(blk, |m|, m, h);
    hide Linked, Tiles, TaggedAt, Payload;
    var n := Overwrite(m, at, bytes);
    forall a | a in blk
      ensures TaggedAt(n, a, blk[a])
      ensures a != h ==> Payload(n, blk, a) == Payload(m, blk, a)
    {
      OverwriteKeepsOther(m, blk, h, at, bytes, a);
    }
    OverwriteKeepsList(m, base, head, blk, fl, h, at, bytes);
    PayloadsWithout(m, n, blk, {h});
  }
}
