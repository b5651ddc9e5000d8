// Boundary-tag blocks laid over raw memory, as values.
module HeapLayout {
  import opened Bits
  import opened Words

  // Offsets are from the start of the heap. A block has a header of three words
  // (size with the used flag in bit 0, previous and next free block) and a
  // footer of one word that repeats the first.
  datatype Block = Block(size: nat, used: bool)
  type Blocks = map<nat, Block>

  const HEADER := 24
  const FOOTER := 8
  const MIN_BLOCK := 48

  // ---- words at byte offsets -----------------------------------------------

  predicate WordFitsAt(m: seq<Byte>, a: nat) {
    a % 8 == 0 && a + 8 <= |m|
  }

  // The word at byte offset `a`.
  function W(m: seq<Byte>, a: nat): nat {
    if WordFitsAt(m, a) then WordAt(m, a / 8) else 0
  }

  function SetW(m: seq<Byte>, a: nat, w: nat): (m': seq<Byte>)
    requires WordFitsAt(m, a)
    ensures |m'| == |m|
  {
    StoreWord(m, a / 8, w)
  }

  lemma WordOfSet(m: seq<Byte>, a: nat, w: nat)
    requires WordFitsAt(m, a) && w < WORD_LIMIT
    ensures forall b: nat :: W(SetW(m, a, w), b) == if a == b then w else W(m, b)
  {
    hide WordAt, StoreWord;
    forall b: nat | WordFitsAt(m, b)
      ensures W(SetW(m, a, w), b) == if a == b then w else W(m, b)
    {
      WordOfStore(m, a / 8, w, b / 8);
    }
  }

  lemma SliceOfSet(m: seq<Byte>, a: nat, w: nat, lo: nat, hi: nat)
    requires WordFitsAt(m, a) && lo <= hi <= |m| && (hi <= a || a + 8 <= lo)
    ensures SetW(m, a, w)[lo..hi] == m[lo..hi]
  {
    hide ToLE;
  }

  // `m` is unchanged in the bytes from `lo` to `hi`.
  lemma WordOfSlice(m: seq<Byte>, n: seq<Byte>, a: nat)
    requires WordFitsAt(m, a) && WordFitsAt(n, a) && m[a..a + 8] == n[a..a + 8]
    ensures W(m, a) == W(n, a)
  {
    hide FromLE;
    assert 8 * (a / 8) == a;
  }

  // ---- the blocks ----------------------------------------------------------

  // A block of proper size that ends where the heap or the next block does.
  predicate BlockFits(blk: Blocks, n: nat, a: nat)
    requires a in blk
  {
    && a % 8 == 0 && blk[a].size % 8 == 0 && blk[a].size >= MIN_BLOCK
    && (a + blk[a].size == n || (a + blk[a].size < n && a + blk[a].size in blk))
  }

  predicate Disjoint(blk: Blocks, a: nat, b: nat)
    requires a in blk && b in blk
  {
    a < b ==> a + blk[a].size <= b
  }

  // The blocks cover the heap without gap or overlap.
  ghost predicate Tiles(blk: Blocks, n: nat) {
    && 0 in blk
    && (forall a {:trigger BlockFits(blk, n, a)} :: a in blk ==> BlockFits(blk, n, a))
    && (forall a, b {:trigger Disjoint(blk, a, b)} :: a in blk && b in blk ==> Disjoint(blk, a, b))
  }

  function Tag(b: Block): nat {
    b.size + if b.used then 1 else 0
  }

  predicate TaggedAt(m: seq<Byte>, a: nat, b: Block) {
    W(m, a) == Tag(b) && (b.size >= 8 ==> W(m, a + b.size - 8) == Tag(b))
  }

  // Header and footer of every block hold its size and flag.
  ghost predicate Tagged(m: seq<Byte>, blk: Blocks) {
    forall a :: a in blk ==> TaggedAt(m, a, blk[a])
  }

  // Every byte of the heap lies in exactly one block.
  lemma BlockOf(blk: Blocks, n: nat, x: nat) returns (a: nat)
    requires Tiles(blk, n) && x < n
    ensures a in blk && a <= x < a + blk[a].size
    ensures forall b :: b in blk && b <= x < b + blk[b].size ==> b == a
  {
    a := BlockFrom(blk, n, x, 0);
    forall b | b in blk && b <= x < b + blk[b].size
      ensures b == a
    {
      assert Disjoint(blk, a, b) && Disjoint(blk, b, a);
    }
  }

  lemma {:induction false} BlockFrom(blk: Blocks, n: nat, x: nat, from: nat) returns (a: nat)
    requires Tiles(blk, n) && x < n && from in blk && from <= x
    ensures a in blk && a <= x < a + blk[a].size
    decreases x - from
  {
    var next := from + blk[from].size;
    if x < next {
      return from;
    }
    assert BlockFits(blk, n, from);
    a := BlockFrom(blk, n, x, next);
  }

  lemma BlocksApart(blk: Blocks, n: nat, a: nat, b: nat)
    requires Tiles(blk, n) && a in blk && b in blk && a != b
    ensures a + blk[a].size <= b || b + blk[b].size <= a
  {
    assert Disjoint(blk, a, b) && Disjoint(blk, b, a);
  }

  // The bytes between header and footer of the block at `a`.
  function BlockBytes(m: seq<Byte>, a: nat, b: Block): seq<Byte> {
    if b.size >= MIN_BLOCK && a + b.size <= |m| then m[a + HEADER..a + b.size - FOOTER] else []
  }

  function Payload(m: seq<Byte>, blk: Blocks, a: nat): seq<Byte>
    requires a in blk
  {
    BlockBytes(m, a, blk[a])
  }

  // The blocks in use.
  function InUse(blk: Blocks): Blocks {
    map a | a in blk && blk[a].used :: blk[a]
  }

  // Every payload of `blk` reads the same in both memories.
  ghost predicate SamePayloads(m: seq<Byte>, n: seq<Byte>, blk: Blocks)
    ensures m == n ==> SamePayloads(m, n, blk)
  {
    forall a :: a in blk ==> Payload(n, blk, a) == Payload(m, blk, a)
  }

  lemma SamePayloadsTransitive(k: seq<Byte>, m: seq<Byte>, n: seq<Byte>, blk: Blocks, first: Blocks, second: Blocks)
    requires SamePayloads(k, m, first) && SamePayloads(m, n, second)
    requires forall a :: a in blk ==> a in first && first[a] == blk[a] && a in second && second[a] == blk[a]
    ensures SamePayloads(k, n, blk)
  {
    hide BlockBytes;
    forall a | a in blk
      ensures Payload(n, blk, a) == Payload(k, blk, a)
    {
      assert Payload(m, first, a) == Payload(k, first, a) && Payload(n, second, a) == Payload(m, second, a);
    }
  }

  // ---- the free list -------------------------------------------------------

  // Pointer to element `i` of the list, null outside it.
  function Link(base: nat, fl: seq<nat>, i: int): nat {
    if 0 <= i < |fl| then base + fl[i] else 0
  }

  ghost predicate Apart(m: seq<Byte>, fl: seq<nat>) {
    && (forall i :: 0 <= i < |fl| ==> fl[i] % 8 == 0 && fl[i] + HEADER <= |m|)
    && (forall i, j :: 0 <= i < j < |fl| ==> fl[i] + HEADER <= fl[j] || fl[j] + HEADER <= fl[i])
  }

  // `fl` is the list that starts at `head`, linked both ways.
  ghost predicate Linked(m: seq<Byte>, base: nat, head: nat, fl: seq<nat>) {
    && head == Link(base, fl, 0)
    && Apart(m, fl)
    && (forall i :: 0 <= i < |fl| ==> W(m, fl[i] + 8) == Link(base, fl, i - 1))
    && (forall i :: 0 <= i < |fl| ==> W(m, fl[i] + 16) == Link(base, fl, i + 1))
  }

  ghost predicate ListsFree(blk: Blocks, fl: seq<nat>) {
    forall a :: a in fl <==> a in blk && !blk[a].used
  }

  // The blocks met by following up to `n` links through memory, forwards or back.
  function Chain(m: seq<Byte>, base: nat, at: nat, link: nat, n: nat): seq<nat>
    decreases n
  {
    if at < base || at == 0 || n == 0 then []
    else [at - base] + Chain(m, base, W(m, at - base + link), link, n - 1)
  }

  lemma ChainStep(m: seq<Byte>, base: nat, h: nat, link: nat, n: nat)
    requires base > 0
    ensures Chain(m, base, 0, link, n) == []
    ensures n > 0 ==> Chain(m, base, base + h, link, n) == [h] + Chain(m, base, W(m, h + link), link, n - 1)
  {
    hide W;
  }

  lemma {:induction false} ChainForward(m: seq<Byte>, base: nat, head: nat, fl: seq<nat>, i: nat, n: nat)
    requires Linked(m, base, head, fl) && base > 0 && i <= |fl| && n >= |fl| - i
    ensures Chain(m, base, Link(base, fl, i), 16, n) == fl[i..]
    decreases n
  {
    hide W, Chain, Apart;
    ChainStep(m, base, if i < |fl| then fl[i] else 0, 16, n);
    if i < |fl| {
      ChainForward(m, base, head, fl, i + 1, n - 1);
      assert fl[i..] == [fl[i]] + fl[i + 1..];
    }
  }

  // Both ways of following the links meet the elements, and no element twice.
  lemma ChainsMeetAll(m: seq<Byte>, base: nat, head: nat, fl: seq<nat>, n: nat)
    requires Linked(m, base, head, fl) && base > 0 && n >= |fl|
    ensures Chain(m, base, head, 16, n) == fl
    ensures |fl| > 0 ==> Chain(m, base, base + fl[|fl| - 1], 8, n) == Backwards(fl, |fl| - 1)
    ensures forall i, j :: 0 <= i < j < |fl| ==> fl[i] != fl[j]
  {
    hide W, Chain, Backwards;
    assert fl[0..] == fl;
    ChainForward(m, base, head, fl, 0, n);
    ChainBack(m, base, head, fl, |fl| - 1, n);
  }

  // The elements up to number `i`, last one first.
  function Backwards(fl: seq<nat>, i: int): seq<nat>
    requires i < |fl|
    decreases i
  {
    if i < 0 then [] else [fl[i]] + Backwards(fl, i - 1)
  }

  lemma LinkBack(m: seq<Byte>, base: nat, head: nat, fl: seq<nat>, i: nat)
    requires Linked(m, base, head, fl) && i < |fl|
    ensures W(m, fl[i] + 8) == Link(base, fl, i - 1)
  {
    hide W, Apart;
  }

  lemma {:induction false} ChainBack(m: seq<Byte>, base: nat, head: nat, fl: seq<nat>, i: int, n: nat)
    requires Linked(m, base, head, fl) && base > 0 && -1 <= i < |fl| && n > i
    ensures Chain(m, base, Link(base, fl, i), 8, n) == Backwards(fl, i)
    decreases n
  {
    hide W, Chain, Linked;
    ChainStep(m, base, if i >= 0 then fl[i] else 0, 8, n);
    if i >= 0 {
      LinkBack(m, base, head, fl, i);
      ChainBack(m, base, head, fl, i - 1, n - 1);
    }
  }

  function Without(fl: seq<nat>, i: nat): (r: seq<nat>)
    requires i < |fl|
    ensures |r| == |fl| - 1
  {
    fl[..i] + fl[i + 1..]
  }

  // Memory after taking element `i` out of the list.
  function Unlink(m: seq<Byte>, base: nat, fl: seq<nat>, i: nat): (m': seq<Byte>)
    requires Apart(m, fl) && i < |fl|
    ensures |m'| == |m|
  {
    hide SetW;
    var m1 := if i > 0 then SetW(m, fl[i - 1] + 16, Link(base, fl, i + 1)) else m;
    var m2 := if i + 1 < |fl| then SetW(m1, fl[i + 1] + 8, Link(base, fl, i - 1)) else m1;
    SetW(SetW(m2, fl[i] + 8, 0), fl[i] + 16, 0)
  }

  // Memory after putting `h` in front of the list.
  function PushFront(m: seq<Byte>, base: nat, fl: seq<nat>, h: nat): (m': seq<Byte>)
    requires Apart(m, [h] + fl)
    ensures |m'| == |m|
  {
    hide SetW;
    assert ([h] + fl)[0] == h;
    var m1 := SetW(SetW(m, h + 16, Link(base, fl, 0)), h + 8, 0);
    if |fl| > 0 then (assert ([h] + fl)[1] == fl[0]; SetW(m1, fl[0] + 8, base + h)) else m1
  }

  lemma WordsOfUnlink(m: seq<Byte>, base: nat, fl: seq<nat>, i: nat, b: nat)
    requires Apart(m, fl) && i < |fl| && base + |m| < WORD_LIMIT
    ensures W(Unlink(m, base, fl, i), b) ==
      if b == fl[i] + 8 || b == fl[i] + 16 then 0
      else if i + 1 < |fl| && b == fl[i + 1] + 8 then Link(base, fl, i - 1)
      else if i > 0 && b == fl[i - 1] + 16 then Link(base, fl, i + 1)
      else W(m, b)
  {
    hide SetW, W;
    var m1 := if i > 0 then SetW(m, fl[i - 1] + 16, Link(base, fl, i + 1)) else m;
    var m2 := if i + 1 < |fl| then SetW(m1, fl[i + 1] + 8, Link(base, fl, i - 1)) else m1;
    var m3 := SetW(m2, fl[i] + 8, 0);
    if i > 0 {
      WordOfSet(m, fl[i - 1] + 16, Link(base, fl, i + 1));
    }
    if i + 1 < |fl| {
      WordOfSet(m1, fl[i + 1] + 8, Link(base, fl, i - 1));
    }
    WordOfSet(m2, fl[i] + 8, 0);
    WordOfSet(m3, fl[i] + 16, 0);
  }

  lemma LinksOfUnlink(m: seq<Byte>, base: nat, head: nat, fl: seq<nat>, i: nat, j: nat)
    requires Linked(m, base, head, fl) && i < |fl| && j < |fl| && j != i && base + |m| < WORD_LIMIT
    ensures W(Unlink(m, base, fl, i), fl[j] + 8) == Link(base, fl, if j == i + 1 then i - 1 else j - 1)
    ensures W(Unlink(m, base, fl, i), fl[j] + 16) == Link(base, fl, if j == i - 1 then i + 1 else j + 1)
  {
    hide SetW, W, WordFitsAt, Unlink, Link;
    WordsOfUnlink(m, base, fl, i, fl[j] + 8);
    WordsOfUnlink(m, base, fl, i, fl[j] + 16);
    assert AddressesApart(fl, i, j);
    assert i + 1 < |fl| ==> AddressesApart(fl, i + 1, j);
    assert i > 0 ==> AddressesApart(fl, i - 1, j);
    assert W(m, fl[j] + 8) == Link(base, fl, j - 1) && W(m, fl[j] + 16) == Link(base, fl, j + 1);
    hide Linked, Apart;
  }

  predicate AddressesApart(fl: seq<nat>, i: nat, j: nat)
    requires i < |fl| && j < |fl|
  {
    i == j || fl[i] + HEADER <= fl[j] || fl[j] + HEADER <= fl[i]
  }

  lemma WithoutLinks(m: seq<Byte>, base: nat, fl: seq<nat>, i: nat)
    requires Apart(m, fl) && i < |fl|
    ensures forall k :: 0 <= k < |fl| - 1 ==> Without(fl, i)[k] == fl[if k < i then k else k + 1]
    ensures forall n: seq<Byte> :: |n| == |m| ==> Apart(n, Without(fl, i))
    ensures forall k: int :: Link(base, Without(fl, i), k) == Link(base, fl, if k < i then k else k + 1)
  {
  }

  lemma UnlinkKeepsList(m: seq<Byte>, base: nat, head: nat, fl: seq<nat>, i: nat)
    requires Linked(m, base, head, fl) && i < |fl| && base + |m| < WORD_LIMIT
    ensures Linked(Unlink(m, base, fl, i), base, Link(base, Without(fl, i), 0), Without(fl, i))
  {
    hide SetW, W, WordFitsAt, Unlink, Link;
    var m', fl' := Unlink(m, base, fl, i), Without(fl, i);
    WithoutLinks(m, base, fl, i);
    hide Apart;
    forall k | 0 <= k < |fl'|
      ensures W(m', fl'[k] + 8) == Link(base, fl', k - 1)
      ensures W(m', fl'[k] + 16) == Link(base, fl', k + 1)
    {
      hide Linked, Without;
      LinksOfUnlink(m, base, head, fl, i, if k < i then k else k + 1);
    }
  }

  lemma WordsOfPushFront(m: seq<Byte>, base: nat, fl: seq<nat>, h: nat, b: nat)
    requires Apart(m, [h] + fl) && base + |m| < WORD_LIMIT
    ensures W(PushFront(m, base, fl, h), b) ==
      if b == h + 8 then 0
      else if b == h + 16 then Link(base, fl, 0)
      else if |fl| > 0 && b == fl[0] + 8 then base + h
      else W(m, b)
  {
    hide SetW, W;
    assert ([h] + fl)[0] == h;
    assert |fl| > 0 ==> ([h] + fl)[1] == fl[0];
    var m0 := SetW(m, h + 16, Link(base, fl, 0));
    var m1 := SetW(m0, h + 8, 0);
    WordOfSet(m, h + 16, Link(base, fl, 0));
    WordOfSet(m0, h + 8, 0);
    if |fl| > 0 {
      WordOfSet(m1, fl[0] + 8, base + h);
    }
  }

  lemma LinksOfPushFront(m: seq<Byte>, base: nat, head: nat, fl: seq<nat>, h: nat, j: nat)
    requires Linked(m, base, head, fl) && Apart(m, [h] + fl) && j < |fl| && base + |m| < WORD_LIMIT
    ensures W(PushFront(m, base, fl, h), fl[j] + 8) == if j == 0 then base + h else Link(base, fl, j - 1)
    ensures W(PushFront(m, base, fl, h), fl[j] + 16) == Link(base, fl, j + 1)
  {
    hide SetW, W, WordFitsAt, PushFront, Link;
    WordsOfPushFront(m, base, fl, h, fl[j] + 8);
    WordsOfPushFront(m, base, fl, h, fl[j] + 16);
    assert ([h] + fl)[0] == h && ([h] + fl)[j + 1] == fl[j];
    assert AddressesApart([h] + fl, 0, j + 1);
    assert AddressesApart(fl, 0, j);
    assert W(m, fl[j] + 8) == Link(base, fl, j - 1) && W(m, fl[j] + 16) == Link(base, fl, j + 1);
    hide Linked, Apart;
  }

  lemma FrontLinks(m: seq<Byte>, base: nat, fl: seq<nat>, h: nat)
    requires Apart(m, [h] + fl)
    ensures ([h] + fl)[0] == h && forall k :: 0 < k <= |fl| ==> ([h] + fl)[k] == fl[k - 1]
    ensures forall n: seq<Byte> :: |n| == |m| ==> Apart(n, [h] + fl)
    ensures forall k: int :: Link(base, [h] + fl, k) == if k == 0 then base + h else Link(base, fl, k - 1)
    ensures Link(base, fl, -1) == 0 && Link(base, [h] + fl, -1) == 0
  {
  }

  lemma PushFrontKeepsList(m: seq<Byte>, base: nat, head: nat, fl: seq<nat>, h: nat)
    requires Linked(m, base, head, fl) && Apart(m, [h] + fl) && base + |m| < WORD_LIMIT
    ensures Linked(PushFront(m, base, fl, h), base, base + h, [h] + fl)
  {
    hide SetW, W, WordFitsAt, PushFront, Link;
    var m', fl' := PushFront(m, base, fl, h), [h] + fl;
    FrontLinks(m, base, fl, h);
    assert |m'| == |m|;
    hide Apart;
    WordsOfPushFront(m, base, fl, h, h + 8);
    WordsOfPushFront(m, base, fl, h, h + 16);
    forall k | 0 <= k < |fl'|
      ensures W(m', fl'[k] + 8) == Link(base, fl', k - 1)
      ensures W(m', fl'[k] + 16) == Link(base, fl', k + 1)
    {
      hide Linked;
      if k > 0 {
        LinksOfPushFront(m, base, head, fl, h, k - 1);
      }
    }
  }

  // ---- link words do not touch tags or payloads ----------------------------

  ghost predicate AreBlocks(blk: Blocks, fl: seq<nat>) {
    forall i :: 0 <= i < |fl| ==> fl[i] in blk
  }

  lemma LinkWordsApart(blk: Blocks, n: nat, m: seq<Byte>, fl: seq<nat>)
    requires Tiles(blk, n) && n <= |m| && AreBlocks(blk, fl)
    requires forall i, j :: 0 <= i < j < |fl| ==> fl[i] != fl[j]
    ensures Apart(m, fl)
  {
    forall i | 0 <= i < |fl|
      ensures fl[i] % 8 == 0 && fl[i] + HEADER <= |m|
    {
      assert BlockFits(blk, n, fl[i]);
    }
    forall i, j | 0 <= i < j < |fl|
      ensures fl[i] + HEADER <= fl[j] || fl[j] + HEADER <= fl[i]
    {
      BlocksApart(blk, n, fl[i], fl[j]);
      assert BlockFits(blk, n, fl[i]) && BlockFits(blk, n, fl[j]);
    }
  }

  // The word at `a` is no tag and no payload of a block of `size` bytes at `b`.
  predicate Spares(b: nat, size: nat, a: nat) {
    a + 8 <= b || b + size <= a || a == b + 8 || a == b + 16
  }

  predicate TagFits(m: seq<Byte>, h: nat, size: nat) {
    h % 8 == 0 && size % 8 == 0 && size >= MIN_BLOCK && h + size <= |m|
  }

  // Block `b` has the same tags and payload in both memories.
  ghost predicate SameBlock(m: seq<Byte>, n: seq<Byte>, b: nat, size: nat)
    requires size >= MIN_BLOCK && b + size <= |m| && |m| <= |n|
  {
    && W(n, b) == W(m, b) && W(n, b + size - 8) == W(m, b + size - 8)
    && n[b + HEADER..b + size - FOOTER] == m[b + HEADER..b + size - FOOTER]
  }

  lemma SparedBlock(m: seq<Byte>, a: nat, w: nat, b: nat, size: nat)
    requires WordFitsAt(m, a) && w < WORD_LIMIT && Spares(b, size, a)
    requires size >= MIN_BLOCK && b % 8 == 0 && size % 8 == 0 && b + size <= |m|
    ensures SameBlock(m, SetW(m, a, w), b, size)
  {
    hide SetW, W;
    WordOfSet(m, a, w);
    SliceOfSet(m, a, w, b + HEADER, b + size - FOOTER);
  }

  lemma BlockFacts(blk: Blocks, n: nat, m: seq<Byte>, b: nat)
    requires Tiles(blk, n) && n <= |m| && b in blk
    ensures TagFits(m, b, blk[b].size) && WordFitsAt(m, b + 8) && WordFitsAt(m, b + 16)
  {
    assert BlockFits(blk, n, b);
  }

  ghost predicate KeepsBlocks(m: seq<Byte>, n: seq<Byte>, blk: Blocks) {
    && |n| == |m|
    && (forall b :: b in blk ==> TagFits(m, b, blk[b].size) && SameBlock(m, n, b, blk[b].size))
  }

  lemma KeepsBlocksFacts(m: seq<Byte>, n: seq<Byte>, blk: Blocks)
    requires KeepsBlocks(m, n, blk)
    ensures Tagged(m, blk) ==> Tagged(n, blk)
    ensures SamePayloads(m, n, blk) && |n| == |m|
  {
    hide W;
  }

  lemma KeepsBlocksTransitive(k: seq<Byte>, m: seq<Byte>, n: seq<Byte>, blk: Blocks)
    requires KeepsBlocks(k, m, blk) && KeepsBlocks(m, n, blk)
    ensures KeepsBlocks(k, n, blk)
  {
    hide W, TagFits;
  }

  // A write to a link word leaves every tag and payload as it was.
  lemma LinkWrite(m: seq<Byte>, blk: Blocks, h: nat, a: nat, w: nat)
    requires Tiles(blk, |m|) && h in blk && (a == h + 8 || a == h + 16) && w < WORD_LIMIT && WordFitsAt(m, a)
    ensures KeepsBlocks(m, SetW(m, a, w), blk)
  {
    hide SetW, BlockFits, SameBlock;
    BlockFacts(blk, |m|, m, h);
    forall b | b in blk
      ensures TagFits(m, b, blk[b].size) && SameBlock(m, SetW(m, a, w), b, blk[b].size)
    {
      BlockFacts(blk, |m|, m, b);
      if b != h {
        BlocksApart(blk, |m|, b, h);
      }
      hide Tiles, WordFitsAt;
      SparedBlock(m, a, w, b, blk[b].size);
    }
  }

  // ---- writing header and footer -------------------------------------------

  function SetTag(m: seq<Byte>, h: nat, b: Block): (m': seq<Byte>)
    ensures |m'| == |m|
  {
    hide SetW;
    if TagFits(m, h, b.size) then SetW(SetW(m, h, Tag(b)), h + b.size - 8, Tag(b)) else m
  }

  lemma WordsOfSetTag(m: seq<Byte>, h: nat, b: Block)
    requires TagFits(m, h, b.size) && |m| < WORD_LIMIT
    ensures forall a: nat :: W(SetTag(m, h, b), a) == if a == h || a == h + b.size - 8 then Tag(b) else W(m, a)
  {
    hide SetW, W;
    WordOfSet(m, h, Tag(b));
    WordOfSet(SetW(m, h, Tag(b)), h + b.size - 8, Tag(b));
  }

  lemma SetTagSpares(m: seq<Byte>, h: nat, b: Block, c: nat, size: nat)
    requires TagFits(m, h, b.size) && TagFits(m, c, size) && |m| < WORD_LIMIT
    requires c + size <= h || h + b.size <= c
    ensures SameBlock(m, SetTag(m, h, b), c, size)
  {
    hide SetW, W;
    SparedBlock(m, h, Tag(b), c, size);
    SparedBlock(SetW(m, h, Tag(b)), h + b.size - 8, Tag(b), c, size);
  }

  ghost predicate Clear(fl: seq<nat>, h: nat, size: nat) {
    forall i :: 0 <= i < |fl| ==> fl[i] + HEADER <= h || h + size <= fl[i]
  }

  lemma SetTagKeepsList(m: seq<Byte>, base: nat, head: nat, fl: seq<nat>, h: nat, b: Block)
    requires Linked(m, base, head, fl) && TagFits(m, h, b.size) && |m| < WORD_LIMIT && Clear(fl, h, b.size)
    ensures Linked(SetTag(m, h, b), base, head, fl)
  {
    hide SetTag, W, Link;
    WordsOfSetTag(m, h, b);
  }

  // A free list avoids a used block.
  lemma ListAvoids(blk: Blocks, n: nat, fl: seq<nat>, h: nat, size: nat)
    requires Tiles(blk, n) && AreBlocks(blk, fl) && h in blk && h !in fl && size <= blk[h].size
    ensures Clear(fl, h, size)
  {
    forall i | 0 <= i < |fl|
      ensures fl[i] + HEADER <= h || h + size <= fl[i]
    {
      BlocksApart(blk, n, fl[i], h);
      assert BlockFits(blk, n, fl[i]);
    }
  }

  // ---- what the operations do to the blocks --------------------------------

  function SplitBlocks(blk: Blocks, h: nat, size: nat): Blocks
    requires h in blk && size <= blk[h].size
  {
    blk[h := Block(size, true)][h + size := Block(blk[h].size - size, false)]
  }

  function MergedBlocks(blk: Blocks, h: nat, next: nat): Blocks
    requires h in blk && next in blk
  {
    (blk - {next})[h := Block(blk[h].size + blk[next].size, false)]
  }

  lemma RetagTiles(blk: Blocks, n: nat, h: nat, used: bool)
    requires Tiles(blk, n) && h in blk
    ensures Tiles(blk[h := Block(blk[h].size, used)], n)
  {
    var blk' := blk[h := Block(blk[h].size, used)];
    forall a | a in blk'
      ensures BlockFits(blk', n, a)
    {
      assert BlockFits(blk, n, a);
    }
    forall a, b | a in blk' && b in blk'
      ensures Disjoint(blk', a, b)
    {
      assert Disjoint(blk, a, b);
    }
  }

  lemma SplitFits(blk: Blocks, n: nat, h: nat, size: nat, a: nat)
    requires h in blk && BlockFits(blk, n, h) && size % 8 == 0 && MIN_BLOCK <= size && size + MIN_BLOCK <= blk[h].size
    requires a in SplitBlocks(blk, h, size) && (a in blk ==> BlockFits(blk, n, a)) && h + size !in blk
    ensures BlockFits(SplitBlocks(blk, h, size), n, a)
  {
  }

  lemma SplitDisjoint(blk: Blocks, h: nat, size: nat, a: nat, b: nat)
    requires h in blk && size <= blk[h].size && h + size !in blk && size > 0
    requires var blk' := SplitBlocks(blk, h, size); a in blk' && b in blk'
    requires forall a, b :: a in blk && b in blk ==> Disjoint(blk, a, b)
    ensures Disjoint(SplitBlocks(blk, h, size), a, b)
  {
    var rest := h + size;
    assert Disjoint(blk, if a == rest then h else a, if b == rest then h else b);
  }

  lemma SplitTiles(blk: Blocks, n: nat, h: nat, size: nat)
    requires Tiles(blk, n) && h in blk && size % 8 == 0 && MIN_BLOCK <= size && size + MIN_BLOCK <= blk[h].size
    ensures Tiles(SplitBlocks(blk, h, size), n) && h + size !in blk
  {
    hide BlockFits;
    var blk', rest := SplitBlocks(blk, h, size), h + size;
    if rest in blk {
      BlocksApart(blk, n, h, rest);
      assert false;
    }
    assert BlockFits(blk, n, h);
    forall a | a in blk'
      ensures BlockFits(blk', n, a)
    {
      assert a in blk ==> BlockFits(blk, n, a);
      SplitFits(blk, n, h, size, a);
    }
    forall a, b | a in blk' && b in blk'
      ensures Disjoint(blk', a, b)
    {
      hide Disjoint;
      SplitDisjoint(blk, h, size, a, b);
    }
  }

  lemma MergeFits(blk: Blocks, n: nat, h: nat, next: nat, a: nat)
    requires h in blk && next in blk && next == h + blk[h].size && a in blk && a != next
    requires BlockFits(blk, n, h) && BlockFits(blk, n, next) && BlockFits(blk, n, a)
    requires Disjoint(blk, a, h) && Disjoint(blk, h, a)
    ensures BlockFits(MergedBlocks(blk, h, next), n, a)
  {
  }

  lemma MergeDisjoint(blk: Blocks, h: nat, next: nat, a: nat, b: nat)
    requires h in blk && next in blk && next == h + blk[h].size && a in blk && b in blk && a != next && b != next
    requires Disjoint(blk, a, b) && Disjoint(blk, next, b)
    requires b > h ==> b > next
    ensures Disjoint(MergedBlocks(blk, h, next), a, b)
  {
  }

  lemma MergeTiles(blk: Blocks, n: nat, h: nat, next: nat)
    requires Tiles(blk, n) && h in blk && next in blk && next == h + blk[h].size
    ensures Tiles(MergedBlocks(blk, h, next), n)
  {
    var blk' := MergedBlocks(blk, h, next);
    assert BlockFits(blk, n, h) && BlockFits(blk, n, next);
    assert 0 in blk';
    hide BlockFits;
    forall a | a in blk'
      ensures BlockFits(blk', n, a)
    {
      assert BlockFits(blk, n, h) && BlockFits(blk, n, next) && BlockFits(blk, n, a);
      assert Disjoint(blk, a, h) && Disjoint(blk, h, a);
      MergeFits(blk, n, h, next, a);
    }
    forall a, b | a in blk' && b in blk'
      ensures Disjoint(blk', a, b)
    {
      assert Disjoint(blk, a, b) && Disjoint(blk, next, b) && Disjoint(blk, h, b);
      MergeDisjoint(blk, h, next, a, b);
    }
  }

  lemma GrowTiles(blk: Blocks, n: nat, extra: nat)
    requires Tiles(blk, n) && extra % 8 == 0 && extra >= MIN_BLOCK
    ensures n !in blk && n % 8 == 0 && Tiles(blk[n := Block(extra, false)], n + extra)
  {
    assert BlockFits(blk, n, 0);
    var last := BlockOf(blk, n, n - 1);
    assert BlockFits(blk, n, last);
    assert n in blk ==> BlockFits(blk, n, n);
    var blk' := blk[n := Block(extra, false)];
    forall a | a in blk'
      ensures BlockFits(blk', n + extra, a)
    {
      if a != n {
        assert BlockFits(blk, n, a);
      }
    }
    forall a, b | a in blk' && b in blk'
      ensures Disjoint(blk', a, b)
    {
      if a != n && b != n {
        assert Disjoint(blk, a, b);
      } else if a != n {
        assert BlockFits(blk, n, a);
      } else if b != n {
        assert BlockFits(blk, n, b);
      }
    }
  }

  // ---- the state of the heap -----------------------------------------------

  // The free list may lack free blocks while an operation is under way.
  ghost predicate Sound(m: seq<Byte>, base: nat, head: nat, blk: Blocks, fl: seq<nat>) {
    && base + |m| < WORD_LIMIT
    && Tiles(blk, |m|)
    && Tagged(m, blk)
    && Linked(m, base, head, fl)
    && AreBlocks(blk, fl)
  }

  lemma UnlinkKeepsBlocks(m: seq<Byte>, base: nat, blk: Blocks, fl: seq<nat>, i: nat)
    requires Tiles(blk, |m|) && Apart(m, fl) && AreBlocks(blk, fl) && i < |fl| && base + |m| < WORD_LIMIT
    ensures KeepsBlocks(m, Unlink(m, base, fl, i), blk)
  {
    hide SetW, KeepsBlocks, Tiles, W, BlockFits;
    var m1 := if i > 0 then SetW(m, fl[i - 1] + 16, Link(base, fl, i + 1)) else m;
    var m2 := if i + 1 < |fl| then SetW(m1, fl[i + 1] + 8, Link(base, fl, i - 1)) else m1;
    var m3 := SetW(m2, fl[i] + 8, 0);
    KeepsBlocksReflexive(m, blk);
    if i > 0 {
      LinkWrite(m, blk, fl[i - 1], fl[i - 1] + 16, Link(base, fl, i + 1));
    }
    if i + 1 < |fl| {
      LinkWrite(m1, blk, fl[i + 1], fl[i + 1] + 8, Link(base, fl, i - 1));
      KeepsBlocksTransitive(m, m1, m2, blk);
    }
    LinkWrite(m2, blk, fl[i], fl[i] + 8, 0);
    KeepsBlocksTransitive(m, m2, m3, blk);
    LinkWrite(m3, blk, fl[i], fl[i] + 16, 0);
    KeepsBlocksTransitive(m, m3, Unlink(m, base, fl, i), blk);
  }

  lemma KeepsBlocksReflexive(m: seq<Byte>, blk: Blocks)
    requires Tiles(blk, |m|)
    ensures KeepsBlocks(m, m, blk)
  {
    forall b | b in blk
      ensures TagFits(m, b, blk[b].size)
    {
      BlockFacts(blk, |m|, m, b);
    }
  }

  lemma UnlinkSound(m: seq<Byte>, base: nat, head: nat, blk: Blocks, fl: seq<nat>, i: nat)
    requires Sound(m, base, head, blk, fl) && i < |fl|
    ensures Sound(Unlink(m, base, fl, i), base, Link(base, Without(fl, i), 0), blk, Without(fl, i))
    ensures KeepsBlocks(m, Unlink(m, base, fl, i), blk)
    ensures fl[i] !in Without(fl, i)
    ensures forall a :: a != fl[i] ==> (a in fl <==> a in Without(fl, i))
  {
    hide Unlink, Tagged, KeepsBlocks, Tiles, W, Link, Without;
    UnlinkKeepsBlocks(m, base, blk, fl, i);
    KeepsBlocksFacts(m, Unlink(m, base, fl, i), blk);
    UnlinkKeepsList(m, base, head, fl, i);
    WithoutElements(m, fl, i);
    hide Linked;
  }

  lemma WithoutElements(m: seq<Byte>, fl: seq<nat>, i: nat)
    requires Apart(m, fl) && i < |fl|
    ensures fl[i] !in Without(fl, i)
    ensures forall a :: a != fl[i] ==> (a in fl <==> a in Without(fl, i))
    ensures forall k :: 0 <= k < |fl| - 1 ==> Without(fl, i)[k] in fl
  {
    var fl' := Without(fl, i);
    assert forall k :: 0 <= k < |fl'| ==> fl'[k] == fl[if k < i then k else k + 1];
    assert forall k :: 0 <= k < |fl| && k != i ==> fl[k] == fl'[if k < i then k else k - 1];
  }

  lemma PushFrontSound(m: seq<Byte>, base: nat, head: nat, blk: Blocks, fl: seq<nat>, h: nat)
    requires Sound(m, base, head, blk, fl) && h in blk && h !in fl
    ensures Apart(m, [h] + fl)
    ensures Sound(PushFront(m, base, fl, h), base, base + h, blk, [h] + fl)
    ensures KeepsBlocks(m, PushFront(m, base, fl, h), blk)
  {
    hide SetW, Tagged, KeepsBlocks, Tiles, BlockFits, TagFits, Link;
    FrontApart(m, blk, fl, h);
    PushFrontKeepsList(m, base, head, fl, h);
    BlockFacts(blk, |m|, m, h);
    assert ([h] + fl)[0] == h;
    assert |fl| > 0 ==> ([h] + fl)[1] == fl[0];
    assert Link(base, fl, 0) < WORD_LIMIT by {
      LinkBound(m, base, fl, 0);
    }
    var m0 := SetW(m, h + 16, Link(base, fl, 0));
    LinkWrite(m, blk, h, h + 16, Link(base, fl, 0));
    var m1 := SetW(m0, h + 8, 0);
    LinkWrite(m0, blk, h, h + 8, 0);
    KeepsBlocksTransitive(m, m0, m1, blk);
    if |fl| > 0 {
      LinkWrite(m1, blk, fl[0], fl[0] + 8, base + h);
      KeepsBlocksTransitive(m, m1, PushFront(m, base, fl, h), blk);
    }
    KeepsBlocksFacts(m, PushFront(m, base, fl, h), blk);
    hide Linked, PushFront, WordFitsAt;
  }

  lemma LinkBound(m: seq<Byte>, base: nat, fl: seq<nat>, i: int)
    requires Apart(m, fl) && base + |m| < WORD_LIMIT
    ensures Link(base, fl, i) < WORD_LIMIT
  {
  }

  lemma FrontApart(m: seq<Byte>, blk: Blocks, fl: seq<nat>, h: nat)
    requires Tiles(blk, |m|) && Apart(m, fl) && AreBlocks(blk, fl) && h in blk && h !in fl
    ensures Apart(m, [h] + fl) && AreBlocks(blk, [h] + fl)
  {
    var fl' := [h] + fl;
    assert forall i :: 0 < i < |fl'| ==> fl'[i] == fl[i - 1];
    LinkWordsApart(blk, |m|, m, fl');
  }

  // Clearing the link words of a block that is not in the list.
  function ClearLinks(m: seq<Byte>, h: nat): (m': seq<Byte>)
    requires WordFitsAt(m, h + 8) && WordFitsAt(m, h + 16)
    ensures |m'| == |m|
  {
    hide SetW;
    SetW(SetW(m, h + 8, 0), h + 16, 0)
  }

  lemma ClearLinksSound(m: seq<Byte>, base: nat, head: nat, blk: Blocks, fl: seq<nat>, h: nat)
    requires Sound(m, base, head, blk, fl) && h in blk && h !in fl
    ensures WordFitsAt(m, h + 8) && WordFitsAt(m, h + 16)
    ensures Sound(ClearLinks(m, h), base, head, blk, fl) && KeepsBlocks(m, ClearLinks(m, h), blk)
  {
    hide SetW, Tagged, KeepsBlocks, Tiles, BlockFits, TagFits, W;
    BlockFacts(blk, |m|, m, h);
    var m0 := SetW(m, h + 8, 0);
    LinkWrite(m, blk, h, h + 8, 0);
    assert WordFitsAt(m0, h + 16);
    LinkWrite(m0, blk, h, h + 16, 0);
    KeepsBlocksTransitive(m, m0, ClearLinks(m, h), blk);
    KeepsBlocksFacts(m, ClearLinks(m, h), blk);
    ClearLinksKeepsList(m, base, head, blk, fl, h);
    hide Linked;
  }

  lemma ClearLinksKeepsList(m: seq<Byte>, base: nat, head: nat, blk: Blocks, fl: seq<nat>, h: nat)
    requires Tiles(blk, |m|) && AreBlocks(blk, fl) && Linked(m, base, head, fl) && h in blk && h !in fl
    requires WordFitsAt(m, h + 8) && WordFitsAt(m, h + 16)
    ensures Linked(ClearLinks(m, h), base, head, fl)
  {
    hide SetW, Tiles, W, Link;
    BlockFacts(blk, |m|, m, h);
    ListAvoids(blk, |m|, fl, h, blk[h].size);
    WordOfSet(m, h + 8, 0);
    assert WordFitsAt(SetW(m, h + 8, 0), h + 16);
    WordOfSet(SetW(m, h + 8, 0), h + 16, 0);
  }
}
