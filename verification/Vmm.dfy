// The virtual memory manager: address spaces built from frames of physical
// memory, changed entry by entry.
module Vmm {
  import opened Bits
  import opened Arith
  import opened Words
  import opened Flags
  import opened Pmm
  import opened PageTables

  // What asking for an entry yields. The kernel panics when no frame is left for
  // a table; a huge page on the way, or a missing table, yields a null pointer.
  datatype Pte = Found(table: nat) | Null | Panic

  // Storing through a null pointer is the fault of a mapping under a huge page.
  datatype Outcome = Mapped | NullStore | Panicked

  // Bytes of virtual address space that an address can lie in.
  predicate IsAddress(va: nat) {
    va < WORD_LIMIT
  }

  // Physical address of `va` according to a page map, 0 when it is not mapped.
  function LookupIn(view: View, r: nat, va: nat): nat {
    var k := KeyOf(r, PageOf(va));
    if k in view then view[k] * 4096 + va % 4096 else 0
  }

  function PagesTouched(virt: nat, nbytes: nat): nat {
    (virt % 4096 + nbytes + 4095) / 4096
  }

  // The view without the `n` pages from address `v` on.
  function UnmapPages(view: View, r: nat, v: nat, n: nat): View
    decreases n
  {
    if n == 0 then view else UnmapPages(view - {KeyOf(r, PageOf(v))}, r, v + 4096, n - 1)
  }

  // Page `i` of a run of pages from address `v`.
  function PageAt(v: nat, i: nat): Page {
    PageOf(v + 4096 * i)
  }

  ghost predicate Touched(r: nat, v: nat, n: nat, k: Key) {
    exists i: nat :: i < n && k == KeyOf(r, PageAt(v, i))
  }

  lemma TouchedStep(r: nat, v: nat, n: nat, k: Key)
    requires n > 0
    ensures Touched(r, v, n, k) <==> k == KeyOf(r, PageOf(v)) || Touched(r, v + 4096, n - 1, k)
  {
    hide PageOf;
    assert PageAt(v, 0) == PageOf(v);
    if Touched(r, v, n, k) {
      var i: nat :| i < n && k == KeyOf(r, PageAt(v, i));
      if i > 0 {
        assert PageAt(v, i) == PageAt(v + 4096, i - 1);
      }
    }
    if Touched(r, v + 4096, n - 1, k) {
      var i: nat :| i < n - 1 && k == KeyOf(r, PageAt(v + 4096, i));
      assert PageAt(v, i + 1) == PageAt(v + 4096, i);
    }
  }

  // Exactly the pages of the run are gone, in every space that shares them.
  lemma {:induction false} UnmapPagesRemoves(view: View, r: nat, v: nat, n: nat, k: Key)
    ensures var after := UnmapPages(view, r, v, n);
            && (k in after <==> k in view && !Touched(r, v, n, k))
            && (k in after ==> after[k] == view[k])
    decreases n
  {
    if n > 0 {
      UnmapPagesRemoves(view - {KeyOf(r, PageOf(v))}, r, v + 4096, n - 1, k);
      TouchedStep(r, v, n, k);
    }
  }

  lemma {:induction false} WalkInMemory(m: Memory, f: nat, path: seq<nat>, top: bool)
    requires IsMemory(m) && forall i :: 0 <= i < |path| ==> path[i] < 512
    ensures Walk(m, f, path, top).Down? ==> Walk(m, f, path, top).frame < |m|
    decreases |path|
  {
    hide Entry;
    if f < |m| && path != [] && Follow(m, f, path[0], top).Down? {
      WalkInMemory(m, Follow(m, f, path[0], top).frame, path[1..], false);
    }
  }

  lemma IsMemoryFact(m: Memory, labels: Labels, roots: set<nat>, kernel: nat, view: View)
    requires Consistent(m, labels, roots, kernel, view)
    ensures IsMemory(m)
  {
  }

  lemma RootReached(m: Memory, root: nat, p: Page)
    requires IsMemory(m) && root < |m|
    ensures p[..0] == [] && Walk(m, root, p[..0], true) == Down(root)
  {
  }

  lemma RootKeepsFrames(m: Memory, n: nat, kernel: nat)
    requires IsMemory(m) && n < |m|
    ensures forall g :: 0 <= g < |m| && g != n ==> AddRoot(m, n, kernel)[g] == m[g]
  {
  }

  lemma WalkExtends(m: Memory, f: nat, path: seq<nat>, k: nat, t: nat, top: bool)
    requires IsMemory(m) && f < |m| && k < |path| && forall i :: 0 <= i < |path| ==> path[i] < 512
    requires Walk(m, f, path[..k], top) == Down(t)
    ensures t < |m|
    ensures match Follow(m, t, path[k], top && k == 0)
            case Down(c) => c < |m| ==> Walk(m, f, path[..k + 1], top) == Down(c)
            case stop => Walk(m, f, path, top) == stop
    decreases k
  {
    hide Entry;
    if k > 0 {
      assert path[..k][0] == path[0] && path[..k][1..] == path[1..][..k - 1];
      assert path[..k + 1][0] == path[0] && path[..k + 1][1..] == path[1..][..k];
      var c := Follow(m, f, path[0], top).frame;
      WalkExtends(m, c, path[1..], k - 1, t, false);
    } else {
      assert path[..1][1..] == [];
      assert path[..1][0] == path[0];
    }
  }

  // One level of a walk whose upper part reaches `table`.
  lemma LevelDown(m: Memory, labels: Labels, root: nat, p: Page, k: nat, table: nat)
    requires IsMemory(m) && IsTree(m, labels) && root < |m| && k < 3
    requires Walk(m, root, p[..k], true) == Down(table) && table in labels && labels[table].path == p[..k]
    ensures table < |m| && (labels[table].path == [] <==> k == 0)
    ensures match Follow(m, table, p[k], k == 0)
            case Down(c) => c in labels && labels[c].path == p[..k + 1] && Walk(m, root, p[..k + 1], true) == Down(c)
            case stop => Walk(m, root, p[..3], true) == stop
  {
    hide Entry;
    assert LeadsDown(m, labels, table, p[k]);
    assert p[..3][..k] == p[..k] && p[..3][..k + 1] == p[..k + 1] && p[..k] + [p[k]] == p[..k + 1];
    WalkExtends(m, root, p[..3], k, table, true);
  }

  lemma NewTableIsEmpty(m: Memory, f: nat, i: nat, n: nat, j: nat)
    requires IsMemory(m) && f < |m| && n < |m| && i < 512 && f != n && j < 512
    ensures Follow(AddTable(m, f, i, n), n, j, false).Absent?
  {
    hide Entry, AddTable, TableEntry;
    EntryOfAdd(m, f, i, n, n, j);
  }

  // ---- unmapping a range ---------------------------------------------------

  // Where the range ends, and how many pages the loop takes up to there.
  function EndOf(virt: nat, nbytes: nat): nat {
    (virt + nbytes) % WORD_LIMIT
  }

  function PagesUnmapped(virt: nat, nbytes: nat): nat {
    if nbytes == 0 then 0 else PagesUpTo(virt / 4096 * 4096, EndOf(virt, nbytes))
  }

  function PagesUpTo(v: nat, end: nat): nat {
    if end <= v then 0 else (end - v + 4095) / 4096
  }

  lemma OnePageLess(v: nat, end: nat)
    requires v < end
    ensures PagesUpTo(v, end) == 1 + PagesUpTo(v + 4096, end)
  {
  }

  lemma NothingUnmapped(view: View, r: nat, v: nat, end: nat)
    requires v >= end
    ensures PagesUpTo(v, end) == 0 && UnmapPages(view, r, v, 0) == view
  {
  }

  lemma OnePageUnmapped(view: View, r: nat, v: nat, end: nat)
    requires v < end
    ensures UnmapPages(view, r, v, PagesUpTo(v, end)) ==
            UnmapPages(view - {KeyOf(r, PageOf(v))}, r, v + 4096, PagesUpTo(v + 4096, end))
  {
    hide PageOf;
    OnePageLess(v, end);
  }

  // The page that the loop looks at after `k` rounds; addresses wrap around.
  function NthPage(v: nat, k: nat): nat {
    (v + 4096 * k) % WORD_LIMIT
  }

  // The loop goes on for ever exactly when the range ends in the last page.
  lemma NeverPastEnd(virt: nat, nbytes: nat)
    requires virt < WORD_LIMIT && nbytes < WORD_LIMIT
    ensures (forall k: nat :: NthPage(virt / 4096 * 4096, k) < EndOf(virt, nbytes))
            <==> EndOf(virt, nbytes) > WORD_LIMIT - 4096
  {
    hide EndOf, NthPage;
    var v, end := virt / 4096 * 4096, EndOf(virt, nbytes);
    if end <= WORD_LIMIT - 4096 {
      ReachesLastPage(v);
    } else {
      forall k: nat
        ensures NthPage(v, k) < end
      {
        AtMostLastPage(v, k);
      }
    }
  }

  lemma ReachesLastPage(v: nat)
    requires v % 4096 == 0 && v < WORD_LIMIT
    ensures NthPage(v, (WORD_LIMIT - 4096 - v) / 4096) == WORD_LIMIT - 4096
  {
    var k := (WORD_LIMIT - 4096 - v) / 4096;
    assert v + 4096 * k == WORD_LIMIT - 4096;
  }

  lemma AtMostLastPage(v: nat, k: nat)
    requires v % 4096 == 0
    ensures NthPage(v, k) <= WORD_LIMIT - 4096
  {
    var x := v + 4096 * k;
    assert x % 4096 == 0;
    assert x % WORD_LIMIT == x - WORD_LIMIT * (x / WORD_LIMIT);
    assert x % WORD_LIMIT % 4096 == 0;
  }

  // The loop takes exactly the pages that the range touches, unless the range
  // reaches the top of memory, where its end wraps around.
  lemma UnmapIsExactIff(r: nat, virt: nat, nbytes: nat)
    requires virt < WORD_LIMIT && nbytes < WORD_LIMIT
    ensures (forall k: Key :: Touched(r, virt / 4096 * 4096, PagesUnmapped(virt, nbytes), k)
                              <==> nbytes > 0 && Touched(r, virt / 4096 * 4096, PagesTouched(virt, nbytes), k))
            <==> nbytes == 0 || virt + nbytes < WORD_LIMIT
  {
    hide PageOf;
    var v, n, m := virt / 4096 * 4096, PagesUnmapped(virt, nbytes), PagesTouched(virt, nbytes);
    if nbytes > 0 && virt + nbytes < WORD_LIMIT {
      assert n == m;
    } else if nbytes > 0 {
      assert n <= 1 && n < m;
      var k := KeyOf(r, PageAt(v, n));
      assert Touched(r, v, m, k);
      if n == 1 {
        PagesDiffer(v, 0, 1);
      }
      assert !Touched(r, v, n, k);
    }
  }

  lemma PagesDiffer(v: nat, i: nat, j: nat)
    requires v % 4096 == 0 && i < j < i + 0x10_0000_0000
    ensures PageAt(v, i) != PageAt(v, j)
  {
    hide PageOf;
    var p, q := v / 4096 + i, v / 4096 + j;
    Digits(v + 4096 * i, p);
    Digits(v + 4096 * j, q);
    NearNumbersDiffer(p, q);
  }

  lemma NearNumbersDiffer(p: nat, q: nat)
    requires p < q < p + 0x10_0000_0000
    ensures p % 0x10_0000_0000 != q % 0x10_0000_0000
  {
  }

  // The page number modulo 2^36, written in base 512.
  lemma Digits(x: nat, p: nat)
    requires x == 4096 * p
    ensures var d := PageOf(x);
            p % 0x10_0000_0000 == ((d[0] * 512 + d[1]) * 512 + d[2]) * 512 + d[3]
  {
    Shifts(x, p);
    BaseDigits(p, p / 512, p / 512 / 512, p / 512 / 512 / 512);
  }

  lemma Shifts(x: nat, p: nat)
    requires x == 4096 * p
    ensures x / 0x1000 == p && x / 0x20_0000 == p / 512
    ensures x / 0x4000_0000 == p / 512 / 512 && x / 0x80_0000_0000 == p / 512 / 512 / 512
  {
  }

  lemma BaseDigits(p: nat, p1: nat, p2: nat, p3: nat)
    requires p1 == p / 512 && p2 == p1 / 512 && p3 == p2 / 512
    ensures p % 0x10_0000_0000 == ((p3 % 512 * 512 + p2 % 512) * 512 + p1 % 512) * 512 + p % 512
  {
    var r := ((p3 % 512 * 512 + p2 % 512) * 512 + p1 % 512) * 512 + p % 512;
    assert p == 0x10_0000_0000 * (p3 / 512) + r;
    DivModUnique(p, 0x10_0000_0000, p3 / 512, r);
  }

  // Slot 511 as the root `s` sees it, and nothing else.
  ghost predicate SeesOnlyShared(view: View, r: nat, s: nat) {
    forall va: nat {:trigger LookupIn(view, r, va)} ::
      LookupIn(view, r, va) == (if PageOf(va)[0] == 511 then LookupIn(view, s, va) else 0)
  }

  // A root not yet in use sees nothing but what all spaces share.
  lemma NewSpaceLookups(m: Memory, roots: set<nat>, view: View, r: nat, cr3: nat)
    requires IsMemory(m) && Agrees(m, roots, view) && r !in roots
    ensures SeesOnlyShared(view, r, cr3)
  {
    hide PageOf;
  }

  lemma OneLess(was: set<nat>, now: set<nat>, n: nat)
    requires was <= now + {n}
    ensures |now| + 1 >= |was|
  {
    CardinalityOfSubset(was, now + {n});
  }

  lemma CardinalityOfSubset(a: set<nat>, b: set<nat>)
    requires a <= b
    ensures |a| <= |b|
  {
    assert b == a + (b - a);
  }

  // After adding a table below `table`, the walk goes on into it.
  lemma NewTableReached(m: Memory, labels: Labels, root: nat, p: Page, k: nat, table: nat, n: nat)
    requires IsMemory(m) && IsTree(m, labels) && k < 3 && root in labels && labels[root].path == []
    requires Walk(m, root, p[..k], true) == Down(table) && table in labels && labels[table].path == p[..k]
    requires table < |m| && n < |m| && n !in labels && Follow(m, table, p[k], k == 0).Absent?
    ensures Walk(AddTable(m, table, p[k], n), root, p[..k + 1], true) == Down(n)
    ensures Below(labels[table], p[k]).path == p[..k + 1]
  {
    hide Entry, AddTable, TableEntry, Walk;
    var m' := AddTable(m, table, p[k], n);
    AddKeepsWalk(m, labels, table, p[k], n, root, p[..k]);
    EntryOfAdd(m, table, p[k], n, table, p[k]);
    TableEntryMeaning(n);
    assert p[..3][..k] == p[..k] && p[..3][..k + 1] == p[..k + 1] && p[..k] + [p[k]] == p[..k + 1];
    WalkExtends(m', root, p[..3], k, table, true);
  }

  class Machine {
    const pmm: FrameAllocator
    var mem: Memory
    // The root that the processor uses, by frame number.
    var cr3: nat
    ghost var labels: Labels
    ghost var roots: set<nat>
    ghost var kernel: nat
    ghost var view: View

    // The page tables are consistent, their frames are in use, and frame 0 is
    // never handed out.
    ghost predicate Valid()
      reads this, pmm, pmm.bitmap
      ensures Valid() ==> pmm.bitmap.Length == BITMAP_SIZE
    {
      && pmm.Valid() && pmm.totalFrames <= |mem|
      && Consistent(mem, labels, roots, kernel, view)
      && cr3 in roots && kernel < WORD_LIMIT
      && (forall f :: f in labels ==> f !in pmm.Free())
      && 0 !in pmm.Free()
    }

    // The state that the boot code leaves: tables for the root in use.
    constructor (allocator: FrameAllocator, m: Memory, root: nat, ghost tables: Labels, ghost entry511: nat,
                 ghost pages: View)
      requires allocator.Valid() && allocator.totalFrames <= |m|
      requires Consistent(m, tables, {root}, entry511, pages) && entry511 < WORD_LIMIT
      requires (forall f :: f in tables ==> f !in allocator.Free()) && 0 !in allocator.Free()
      ensures Valid() && pmm == allocator && mem == m && cr3 == root
      ensures labels == tables && roots == {root} && view == pages
    {
      pmm := allocator;
      mem, cr3 := m, root;
      labels, roots, kernel, view := tables, {root}, entry511, pages;
    }

    // What adding tables may change: new labels are taken from the free frames,
    // and frames that are not tables keep their bytes.
    twostate predicate TablesGrew()
      requires pmm.bitmap.Length == BITMAP_SIZE
      reads this, pmm, pmm.bitmap
    {
      && |mem| == old(|mem|) && cr3 == old(cr3) && pmm.totalFrames == old(pmm.totalFrames)
      && roots == old(roots) && kernel == old(kernel)
      && pmm.Free() <= old(pmm.Free())
      && (forall f :: f in old(labels) ==> f in labels && labels[f] == old(labels)[f])
      && (forall f :: f in labels && f !in old(labels) ==> f in old(pmm.Free()))
      && (forall f :: 0 <= f < |mem| && f !in labels ==> mem[f] == old(mem)[f])
    }

    // A zeroed frame for a table; none is left when it fails.
    method AllocPtFrame() returns (ok: bool, n: nat)
      requires Valid()
      modifies this`mem, pmm`freeFrames, pmm.bitmap
      ensures pmm.Valid()
      ensures ok ==>
        && 0 < n < |old(mem)| && n in old(pmm.Free()) && pmm.Free() == old(pmm.Free()) - {n}
        && mem == ZeroFrame(old(mem), n)
      ensures !ok ==>
        && mem == old(mem) && pmm.Free() == old(pmm.Free())
        && old(pmm.Usable()) == {} && forall f :: f in pmm.Free() ==> f >= pmm.totalFrames
      ensures |pmm.Usable()| + 1 >= |old(pmm.Usable())|
    {
      hide FrameAllocator.Free, FrameAllocator.Test, Consistent, Zeros;
      ghost var usable := pmm.Usable();
      var frame := pmm.Alloc();
      ok, n := frame != 0, frame / 4096;
      OneLess(usable, pmm.Usable(), n);
      if ok {
        mem := mem[n := Zeros(4096)];
      }
    }

    // Creates the table below the empty entry `p[k]` of `table`.
    method AddBelow(root: nat, p: Page, k: nat, table: nat) returns (res: Pte)
      requires Valid() && root in roots && k < 3
      requires Walk(mem, root, p[..k], true) == Down(table) && table in labels && labels[table].path == p[..k]
      requires table < |mem| && Follow(mem, table, p[k], k == 0).Absent?
      modifies this`mem, this`labels, pmm`freeFrames, pmm.bitmap
      ensures Valid() && view == old(view) && TablesGrew() && !res.Null?
      ensures |pmm.Usable()| + 1 >= |old(pmm.Usable())|
      ensures res.Panic? ==> old(pmm.Usable()) == {} && forall f :: f in pmm.Free() ==> f >= pmm.totalFrames
      ensures res.Found? ==>
        && Walk(mem, root, p[..k + 1], true) == Down(res.table)
        && res.table in labels && labels[res.table].path == p[..k + 1]
        && Follow(mem, res.table, p[k + 1], false).Absent?
    {
      hide FrameAllocator.Free, FrameAllocator.Test, FrameAllocator.Usable;
      hide Entry, SetEntry, IsTree, Agrees, TableEntry, Walk, Follow;
      LabelsInMemory(mem, labels, table);
      var ok, n := AllocPtFrame();
      if !ok {
        return Panic;
      }
      ghost var before := old(mem);
      mem := SetEntry(mem, table, p[k], TableEntry(n));
      assert mem == AddTable(before, table, p[k], n);
      AddKeepsFrames(before, table, p[k], n);
      TableAdded(before, labels, roots, kernel, view, table, p[k], n);
      NewTableReached(before, labels, root, p, k, table, n);
      NewTableIsEmpty(before, table, p[k], n, p[k + 1]);
      labels := labels[n := Below(labels[table], p[k])];
      res := Found(n);
    }

    // Follows or creates the table below entry `p[k]` of `table`.
    method Descend(root: nat, p: Page, k: nat, table: nat, create: bool) returns (res: Pte)
      requires Valid() && root in roots && k < 3
      requires Walk(mem, root, p[..k], true) == Down(table) && table in labels && labels[table].path == p[..k]
      modifies this`mem, this`labels, pmm`freeFrames, pmm.bitmap
      ensures Valid() && view == old(view) && TablesGrew()
      ensures !create ==> mem == old(mem) && labels == old(labels) && pmm.Free() == old(pmm.Free())
      ensures match res
        case Found(c) => Walk(mem, root, p[..k + 1], true) == Down(c) && c in labels && labels[c].path == p[..k + 1]
        case Null => if create then Walk(mem, root, p[..3], true) == Blocked else !Walk(mem, root, p[..3], true).Down?
        case Panic => create && forall f :: f in pmm.Free() ==> f >= pmm.totalFrames
      ensures table < |old(mem)| && |pmm.Usable()| + 1 >= |old(pmm.Usable())|
      ensures (res.Panic? ==> old(pmm.Usable()) == {})
      ensures create && Follow(old(mem), table, p[k], k == 0).Absent? ==> !res.Null?
      ensures res.Null? ==> mem == old(mem)
      ensures res.Found? && res.table < |mem| && Follow(old(mem), table, p[k], k == 0).Absent? ==>
        Follow(mem, res.table, p[k + 1], false).Absent?
      ensures !Follow(old(mem), table, p[k], k == 0).Absent? ==> mem == old(mem)
    {
      hide FrameAllocator.Free, FrameAllocator.Test, Entry, SetEntry, IsTree, Agrees, TableEntry, Walk;
      LabelsInMemory(mem, labels, table);
      LevelDown(mem, labels, root, p, k, table);
      var entry := Entry(mem, table, p[k]);
      if !Present(entry) {
        if !create {
          return Null;
        }
        res := AddBelow(root, p, k, table);
      } else if k != 0 && Huge(entry) {
        res := Null;
      } else {
        res := Found(entry / 4096);
      }
    }

    // Walks to the last-level table for `va`, adding missing tables if asked.
    method GetPte(root: nat, va: nat, create: bool) returns (res: Pte)
      requires Valid() && root in roots && IsAddress(va)
      modifies this`mem, this`labels, pmm`freeFrames, pmm.bitmap
      ensures Valid() && view == old(view) && TablesGrew()
      ensures !create ==> mem == old(mem) && labels == old(labels) && pmm.Free() == old(pmm.Free())
      ensures var next := Walk(mem, root, PageOf(va)[..3], true);
        match res
        case Found(t) => next == Down(t)
        case Null => if create then next == Blocked else !next.Down?
        case Panic => create && forall f :: f in pmm.Free() ==> f >= pmm.totalFrames
      ensures res.Null? ==> mem == old(mem)
      ensures res.Panic? ==> |old(pmm.Usable())| < 3
    {
      hide FrameAllocator.Free, FrameAllocator.Test, FrameAllocator.Usable, Entry, AddTable, IsTree, Agrees;
      hide PageOf, Follow;
      var p := PageOf(va);
      var table: nat := root;
      var k := 0;
      while k < 3
        invariant 0 <= k <= 3 && table < |mem|
        invariant Valid() && view == old(view) && TablesGrew()
        invariant !create ==> mem == old(mem) && labels == old(labels) && pmm.Free() == old(pmm.Free())
        invariant Walk(mem, root, p[..k], true) == Down(table)
        invariant table in labels && labels[table].path == p[..k]
        invariant mem == old(mem) || (create && k > 0 && Follow(mem, table, p[k], false).Absent?)
        invariant |pmm.Usable()| + k >= |old(pmm.Usable())|
      {
        res := Descend(root, p, k, table, create);
        if !res.Found? {
          return;
        }
        table := res.table;
        LabelsInMemory(mem, labels, table);
        k := k + 1;
      }
      res := Found(table);
    }

    // Maps the page of `va` to the frame of `pa`. That fails only below a huge
    // page, or with fewer free frames than tables that may be missing.
    method MapPage(root: nat, va: nat, pa: nat, flags: nat) returns (outcome: Outcome)
      requires Valid() && root in roots && IsAddress(va) && pa < WORD_LIMIT && flags < WORD_LIMIT
      modifies this`mem, this`labels, this`view, pmm`freeFrames, pmm.bitmap
      ensures Valid() && TablesGrew() && KeepsData()
      ensures outcome == Mapped ==> view == old(view)[KeyOf(root, PageOf(va)) := MappedFrame(pa, flags)]
      ensures outcome != Mapped ==> view == old(view)
      ensures outcome == NullStore ==> mem == old(mem) && Walk(mem, root, PageOf(va)[..3], true) == Blocked
      ensures outcome == Panicked ==> |old(pmm.Usable())| < 3 && forall f :: f in pmm.Free() ==> f >= pmm.totalFrames
    {
      hide FrameAllocator.Free, FrameAllocator.Test, FrameAllocator.Usable, Entry, IsTree, Agrees, PageOf;
      hide PageEntry, MappedFrame, Walk;
      var pte := GetPte(root, va, true);
      match pte {
        case Found(t) =>
          PageEntryMeaning(pa, flags);
          LeafWrite(mem, labels, roots, kernel, view, root, PageOf(va), t, PageEntry(pa, flags));
          LabelsInMemory(mem, labels, t);
          mem := SetEntry(mem, t, PageOf(va)[3], PageEntry(pa, flags));
          view := view[KeyOf(root, PageOf(va)) := MappedFrame(pa, flags)];
          outcome := Mapped;
        case Null => outcome := NullStore;
        case Panic => outcome := Panicked;
      }
    }

    // Removes the mapping of the page of `va`, if there is one.
    method UnmapPage(root: nat, va: nat)
      requires Valid() && root in roots && IsAddress(va)
      modifies this`mem, this`labels, this`view, pmm`freeFrames, pmm.bitmap
      ensures Valid() && TablesGrew() && labels == old(labels) && pmm.Free() == old(pmm.Free())
      ensures view == old(view) - {KeyOf(root, PageOf(va))}
    {
      hide FrameAllocator.Free, FrameAllocator.Test, Entry, IsTree, PageOf, Walk;
      var p := PageOf(va);
      var pte := GetPte(root, va, false);
      WalkInMemory(mem, root, p[..3], true);
      assert Translate(mem, root, p) ==
             if KeyOf(root, p) in view then PageTables.Some(view[KeyOf(root, p)]) else PageTables.None;
      if pte.Found? && Present(Entry(mem, pte.table, p[3])) {
        LeafWrite(mem, labels, roots, kernel, view, root, p, pte.table, 0);
        mem := SetEntry(mem, pte.table, p[3], 0);
      }
      view := view - {KeyOf(root, p)};
    }

    // Removes the mappings of the pages from that of `virt` up to the end of the
    // range. For ranges that end in the last page, see `NeverPastEnd`.
    method UnmapRange(root: nat, virt: nat, nbytes: nat)
      requires Valid() && root in roots && virt < WORD_LIMIT && nbytes < WORD_LIMIT
      requires nbytes == 0 || EndOf(virt, nbytes) <= WORD_LIMIT - 4096
      modifies this`mem, this`labels, this`view, pmm`freeFrames, pmm.bitmap
      ensures Valid() && TablesGrew() && labels == old(labels) && pmm.Free() == old(pmm.Free())
      ensures view == UnmapPages(old(view), root, virt / 4096 * 4096, PagesUnmapped(virt, nbytes))
    {
      hide FrameAllocator.Free, FrameAllocator.Test, IsTree, Agrees, PageOf, Consistent, UnmapPages, PagesUpTo;
      if nbytes == 0 {
        NothingUnmapped(view, root, virt / 4096 * 4096, 0);
        return;
      }
      var v := virt / 4096 * 4096;
      var end := (virt + nbytes) % WORD_LIMIT;
      while v < end
        invariant v % 4096 == 0 && v < WORD_LIMIT
        invariant Valid() && TablesGrew() && labels == old(labels) && pmm.Free() == old(pmm.Free())
        invariant UnmapPages(view, root, v, PagesUpTo(v, end)) ==
          UnmapPages(old(view), root, virt / 4096 * 4096, PagesUnmapped(virt, nbytes))
        decreases end + 4096 - v
      {
        OnePageUnmapped(view, root, v, end);
        UnmapPage(root, v);
        v := v + 4096;
      }
      NothingUnmapped(view, root, v, end);
    }

    // The physical address of `va`, 0 when it is not mapped.
    method Lookup(root: nat, va: nat) returns (pa: nat)
      requires Valid() && root in roots && IsAddress(va)
      ensures pa == LookupIn(view, root, va)
    {
      hide FrameAllocator.Free, FrameAllocator.Test, Entry, IsTree, PageOf, Walk;
      var p := PageOf(va);
      assert Translate(mem, root, p) ==
             if KeyOf(root, p) in view then PageTables.Some(view[KeyOf(root, p)]) else PageTables.None;
      var table := root;
      var k := 0;
      RootReached(mem, root, p);
      while k < 3
        invariant 0 <= k <= 3
        invariant Walk(mem, root, p[..k], true) == Down(table)
        invariant table in labels && labels[table].path == p[..k]
      {
        LevelDown(mem, labels, root, p, k, table);
        var entry := Entry(mem, table, p[k]);
        if !Present(entry) || (k != 0 && Huge(entry)) {
          return 0;
        }
        table := entry / 4096;
        k := k + 1;
      }
      LabelsInMemory(mem, labels, table);
      var pte := Entry(mem, table, p[3]);
      pa := if Present(pte) then pte / 4096 * 4096 + va % 4096 else 0;
    }

    // A new address space that shares slot 511 with the current one; 0 when no
    // frame is left.
    method CreateSpace() returns (r: nat)
      requires Valid()
      modifies this`mem, this`labels, this`roots, pmm`freeFrames, pmm.bitmap
      ensures Valid() && view == old(view) && cr3 == old(cr3)
      ensures r == 0 ==> roots == old(roots) && mem == old(mem)
      ensures r != 0 ==> r !in old(roots) && roots == old(roots) + {r}
      ensures r != 0 ==> SeesOnlyShared(view, r, cr3)
      ensures forall f :: f in old(labels) ==> f in labels && labels[f] == old(labels)[f]
      ensures |mem| == |old(mem)| && forall f :: 0 <= f < |mem| && f != r ==> mem[f] == old(mem)[f]
    {
      hide FrameAllocator.Free, FrameAllocator.Test, Entry, SetEntry, IsTree, Agrees, Walk;
      var ok, n := AllocPtFrame();
      if !ok {
        return 0;
      }
      ghost var before := old(mem);
      NewSpaceLookups(before, roots, view, n, cr3);
      EntryOfZero(before, n, cr3, 511);
      mem := SetEntry(mem, n, 511, Entry(mem, cr3, 511));
      assert mem == AddRoot(before, n, kernel);
      RootKeepsFrames(before, n, kernel);
      RootAdded(before, labels, roots, kernel, view, n, cr3);
      labels := labels[n := Region(Private(n), [])];
      roots := roots + {n};
      r := n;
    }

    lemma MemoryFact()
      requires Valid()
      ensures IsMemory(mem)
    {
    }

    // A frame in use that holds no table.
    ghost predicate IsData(f: nat)
      requires pmm.bitmap.Length == BITMAP_SIZE
      reads this, pmm.bitmap
    {
      0 < f < |mem| && f !in labels && f !in pmm.Free()
    }

    ghost function DataSet(): (d: set<nat>)
      requires pmm.bitmap.Length == BITMAP_SIZE
      reads this, pmm.bitmap
      ensures forall f: nat :: f in d <==> IsData(f)
    {
      set f: nat | f < |mem| && IsData(f)
    }

    // Frames that were in use keep their use and their bytes.
    twostate predicate KeepsData()
      requires pmm.bitmap.Length == BITMAP_SIZE
      reads this, pmm.bitmap
    {
      |mem| == |old(mem)| && forall f: nat :: old(IsData(f)) ==> IsData(f) && mem[f] == old(mem)[f]
    }

    // Takes a frame for data and zeroes it.
    method AllocData() returns (ok: bool, n: nat)
      requires Valid()
      modifies this`mem, pmm`freeFrames, pmm.bitmap
      ensures Valid() && KeepsData()
      ensures pmm.Free() <= old(pmm.Free())
      ensures ok ==> n in old(pmm.Free()) && n < MAX_FRAMES && IsData(n) && mem[n] == Zeros(4096)
      ensures !ok ==> forall f :: f in pmm.Free() ==> f >= pmm.totalFrames
    {
      hide FrameAllocator.Free, FrameAllocator.Test, Consistent, Zeros;
      ok, n := AllocPtFrame();
      if ok {
        pmm.FreeBound();
        IsMemoryFact(old(mem), labels, roots, kernel, view);
        DataWrite(old(mem), labels, roots, kernel, view, n, Zeros(4096));
      }
    }

    method StoreByte(pa: nat, b: Byte)
      requires Valid() && IsData(pa / 4096)
      modifies this`mem
      ensures Valid() && IsMemory(old(mem)) && mem == PutByte(old(mem), pa, b)
      ensures forall f: nat :: old(IsData(f)) ==> IsData(f)
      ensures forall f :: 0 <= f < |mem| && f != pa / 4096 ==> mem[f] == old(mem)[f]
    {
      hide FrameAllocator.Free, FrameAllocator.Test, Consistent;
      IsMemoryFact(mem, labels, roots, kernel, view);
      ghost var page: seq<Byte> := mem[pa / 4096];
      DataWrite(mem, labels, roots, kernel, view, pa / 4096, page[pa % 4096 := b]);
      mem := PutByte(mem, pa, b);
    }
  }
}
