// Loading an ELF64 executable into an address space.
module Elf {
  import opened Bits
  import opened Words
  import opened Flags
  import opened Pmm
  import opened PageTables
  import opened Vmm

  const ENOEXEC := 8
  const EINVAL := 22
  const ENOMEM := 12

  const EHDR_SIZE := 64
  const PHDR_SIZE := 56
  const PT_LOAD := 1

  // A crash is a kernel panic or a store through a null entry.
  datatype Status = Done | Failed(errno: nat) | Crashed

  // ---- header fields -------------------------------------------------------

  function Field(elf: seq<Byte>, off: nat, n: nat): nat
    requires off + n <= |elf|
  {
    FromLE(elf[off..off + n])
  }

  datatype Phdr = Phdr(kind: nat, offset: nat, vaddr: nat, filesz: nat, memsz: nat) {
    // First page of the segment and the number of its pages.
    function FirstPage(): nat {
      vaddr / 4096 * 4096
    }

    function PageCount(): nat {
      PagesTouched(vaddr, memsz)
    }

    // The fields are as wide as those of the file.
    predicate InWords() {
      offset < WORD_LIMIT && vaddr < WORD_LIMIT && filesz < WORD_LIMIT && memsz < WORD_LIMIT
    }

    // Where the loader sees the end of the last page, and how many pages it maps.
    function EndPage(): nat {
      AlignUp((vaddr + memsz) % WORD_LIMIT)
    }

    function PagesMapped(): nat {
      if EndPage() < FirstPage() then 0 else (EndPage() - FirstPage()) / 4096
    }

    // How many bytes from its start on lie in those pages.
    function Room(): nat {
      if 4096 * PagesMapped() < vaddr % 4096 then 0 else 4096 * PagesMapped() - vaddr % 4096
    }

    // The end does not wrap around to the first page or above.
    predicate SizeHolds() {
      vaddr % 4096 + memsz <= WORD_LIMIT - 4096 || vaddr + memsz > 2 * WORD_LIMIT - 4096
    }

    // What is loaded of a segment of any size.
    function Part(): Phdr {
      if memsz <= Room() then this else this.(memsz := Room())
    }
  }

  // The end of a file range does not wrap around to a place inside the file.
  predicate RangeHolds(offset: nat, n: nat, length: nat) {
    offset + n < WORD_LIMIT || offset + n - WORD_LIMIT > length
  }

  // How loading a segment ends when memory does not run out: by its sizes, and as
  // the loader sees them.
  function Verdict(ph: Phdr, length: nat): Status {
    if ph.vaddr + ph.memsz > WORD_LIMIT - 4096 then Failed(EINVAL)
    else if ph.offset + ph.filesz > length then Failed(ENOEXEC)
    else Done
  }

  function SeenVerdict(ph: Phdr, length: nat): Status {
    if ph.EndPage() < ph.FirstPage() then Failed(EINVAL)
    else if (ph.offset + ph.filesz) % WORD_LIMIT > length then Failed(ENOEXEC)
    else Done
  }

  // The sizes are seen as they are, and the file's part lies in the pages mapped.
  predicate WellFormed(ph: Phdr, length: nat) {
    && ph.SizeHolds()
    && (RangeHolds(ph.offset, ph.filesz, length) || ph.vaddr + ph.memsz > WORD_LIMIT - 4096)
    && (Verdict(ph, length) == Done ==> ph.vaddr % 4096 + ph.filesz <= 4096 * ph.PageCount())
  }

  // ---- the pages of a segment ----------------------------------------------

  ghost predicate DistinctPages(root: nat, v: nat, n: nat) {
    forall i: nat, j: nat :: i < j < n ==> KeyOf(root, PageAt(v, i)) != KeyOf(root, PageAt(v, j))
  }

  // Pages from `v` on are mapped to `frames`, which are different data frames.
  ghost predicate MappedTo(machine: Machine, root: nat, v: nat, frames: seq<nat>)
    requires machine.pmm.bitmap.Length == BITMAP_SIZE
    reads machine, machine.pmm.bitmap
  {
    && (forall i: nat :: i < |frames| ==>
          KeyOf(root, PageAt(v, i)) in machine.view && machine.view[KeyOf(root, PageAt(v, i))] == frames[i])
    && DataFrames(machine, frames)
  }

  ghost predicate DataFrames(machine: Machine, frames: seq<nat>)
    requires machine.pmm.bitmap.Length == BITMAP_SIZE
    reads machine, machine.pmm.bitmap
  {
    && (forall i :: 0 <= i < |frames| ==> machine.IsData(frames[i]))
    && (forall i, j :: 0 <= i < j < |frames| ==> frames[i] != frames[j])
  }

  // No frame is left for a page or a table.
  ghost predicate NoFrame(machine: Machine)
    requires machine.pmm.bitmap.Length == BITMAP_SIZE
    reads machine, machine.pmm, machine.pmm.bitmap
  {
    forall f :: f in machine.pmm.Free() ==> f >= machine.pmm.totalFrames
  }

  // The page of `va` lies below a huge page.
  ghost predicate Covered(machine: Machine, root: nat, va: nat)
    reads machine
  {
    IsMemory(machine.mem) && Walk(machine.mem, root, PageOf(va)[..3], true) == Blocked
  }

  // Why loading stops half-way.
  ghost predicate Stopped(machine: Machine, root: nat, status: Status)
    requires machine.pmm.bitmap.Length == BITMAP_SIZE
    reads machine, machine.pmm, machine.pmm.bitmap
  {
    match status
    case Failed(errno) => errno == ENOMEM && NoFrame(machine)
    case Crashed => NoFrame(machine) || exists va :: Covered(machine, root, va)
    case Done => false
  }

  // Maps a fresh zeroed frame to the page of `va`.
  method LoadPage(machine: Machine, root: nat, va: nat) returns (status: Status, f: nat)
    requires machine.Valid() && root in machine.roots && IsAddress(va)
    modifies machine`mem, machine`labels, machine`view, machine.pmm`freeFrames, machine.pmm.bitmap
    ensures machine.Valid() && machine.KeepsData() && machine.pmm.Free() <= old(machine.pmm.Free())
    ensures status == Done ==>
      && f in old(machine.pmm.Free()) && !old(machine.IsData(f)) && machine.IsData(f) && machine.mem[f] == Zeros(4096)
      && machine.view == old(machine.view)[KeyOf(root, PageOf(va)) := f]
    ensures status != Done ==> machine.view == old(machine.view) && Stopped(machine, root, status)
  {
    hide Machine.Valid, FrameAllocator.Free, PageOf, MappedFrame, Zeros, Walk;
    var ok;
    ok, f := machine.AllocData();
    if !ok {
      return Failed(ENOMEM), f;
    }
    var outcome := machine.MapPage(root, va, f * 4096, FLAG_PRESENT + FLAG_WRITE + FLAG_USER);
    if outcome != Mapped {
      assert NoFrame(machine) || Covered(machine, root, va) by {
        machine.MemoryFact();
      }
      return Crashed, f;
    }
    MappedFrameIsExact(f * 4096, 7);
    status := Done;
  }

  // Maps fresh zeroed frames to the pages from `v0` up to `v1`.
  method LoadPages(machine: Machine, root: nat, v0: nat, v1: nat) returns (status: Status, ghost frames: seq<nat>)
    requires machine.Valid() && root in machine.roots
    requires v0 % 4096 == 0 && v1 % 4096 == 0 && v0 <= v1 < WORD_LIMIT
    modifies machine`mem, machine`labels, machine`view, machine.pmm`freeFrames, machine.pmm.bitmap
    ensures machine.Valid() && machine.KeepsData() && machine.pmm.Free() <= old(machine.pmm.Free())
    ensures forall k :: !Touched(root, v0, (v1 - v0) / 4096, k) ==>
      (k in machine.view <==> k in old(machine.view)) && (k in machine.view ==> machine.view[k] == old(machine.view)[k])
    ensures status != Done ==> Stopped(machine, root, status)
    ensures status == Done ==>
      && |frames| == (v1 - v0) / 4096 && DataFrames(machine, frames)
      && (forall i :: 0 <= i < |frames| ==>
            frames[i] in old(machine.pmm.Free()) && machine.mem[frames[i]] == Zeros(4096))
      && (DistinctPages(root, v0, |frames|) ==> MappedTo(machine, root, v0, frames))
  {
    hide Machine.Valid, FrameAllocator.Free, PageOf, MappedFrame, Zeros, Stopped;
    var va := v0;
    frames := [];
    ghost var n: nat := (v1 - v0) / 4096;
    while va < v1
      invariant |frames| <= n && va == v0 + 4096 * |frames| && v1 == v0 + 4096 * n
      invariant machine.Valid() && machine.KeepsData() && machine.pmm.Free() <= old(machine.pmm.Free())
      invariant machine.roots == old(machine.roots)
      invariant forall k :: !Touched(root, v0, n, k) ==>
        && (k in machine.view <==> k in old(machine.view))
        && (k in machine.view ==> machine.view[k] == old(machine.view)[k])
      invariant DataFrames(machine, frames)
      invariant forall i :: 0 <= i < |frames| ==>
        frames[i] in old(machine.pmm.Free()) && machine.mem[frames[i]] == Zeros(4096)
      invariant DistinctPages(root, v0, n) ==> MappedTo(machine, root, v0, frames)
    {
      ghost var i := |frames|;
      var f;
      status, f := LoadPage(machine, root, va);
      if status != Done {
        return;
      }
      assert PageOf(va) == PageAt(v0, i) && Touched(root, v0, n, KeyOf(root, PageAt(v0, i)));
      frames := frames + [f];
      va := va + 4096;
    }
    status := Done;
  }

  // ---- bytes through the mapping -------------------------------------------

  lemma PageInside(v0: nat, i: nat, x: nat)
    requires v0 % 4096 == 0 && v0 + 4096 * i <= x < v0 + 4096 * i + 4096
    ensures PageOf(x) == PageAt(v0, i) && (x - v0) / 4096 == i
  {
    var p, q := x / 0x1000, (v0 + 4096 * i) / 0x1000;
    assert p == q;
    assert x / 0x20_0000 == p / 512 && (v0 + 4096 * i) / 0x20_0000 == q / 512;
    assert x / 0x4000_0000 == p / 0x4_0000 && (v0 + 4096 * i) / 0x4000_0000 == q / 0x4_0000;
    assert x / 0x80_0000_0000 == p / 0x800_0000 && (v0 + 4096 * i) / 0x80_0000_0000 == q / 0x800_0000;
  }

  predicate InPages(v0: nat, n: nat, x: nat) {
    v0 <= x < v0 + 4096 * n
  }

  // The byte at `x` when pages from `v0` on lie in `frames`.
  function UserByte(m: Memory, v0: nat, frames: seq<nat>, x: nat): Byte
    requires IsMemory(m) && InPages(v0, |frames|, x) && frames[(x - v0) / 4096] < |m|
  {
    m[frames[(x - v0) / 4096]][x % 4096]
  }

  // Stores a byte at a user address that is mapped.
  method CopyByte(machine: Machine, root: nat, va: nat, b: Byte, ghost v0: nat, ghost frames: seq<nat>)
    requires machine.Valid() && root in machine.roots && v0 % 4096 == 0
    requires MappedTo(machine, root, v0, frames) && InPages(v0, |frames|, va) && IsAddress(va)
    modifies machine`mem
    ensures machine.Valid() && MappedTo(machine, root, v0, frames)
    ensures IsMemory(old(machine.mem)) && IsMemory(machine.mem) && |machine.mem| == |old(machine.mem)|
    ensures forall x: nat :: InPages(v0, |frames|, x) ==>
      UserByte(machine.mem, v0, frames, x) == if x == va then b else UserByte(old(machine.mem), v0, frames, x)
    ensures forall f: nat :: f < |machine.mem| && f !in frames ==> machine.mem[f] == old(machine.mem)[f]
    ensures forall f: nat :: old(machine.IsData(f)) ==> machine.IsData(f)
  {
    hide Machine.Valid, FrameAllocator.Free, PageOf;
    machine.MemoryFact();
    ghost var j := (va - v0) / 4096;
    PageInside(v0, j, va);
    var pa := machine.Lookup(root, va);
    assert pa == frames[j] * 4096 + va % 4096 && pa != 0;
    ghost var before := machine.mem;
    machine.StoreByte(pa, b);
    StoreIsLocal(before, v0, frames, va, b);
  }

  // Copies bytes to user addresses one by one; all of them are mapped.
  method CopyToUser(machine: Machine, root: nat, dst: nat, src: seq<Byte>, ghost v0: nat, ghost frames: seq<nat>)
    requires machine.Valid() && root in machine.roots && v0 % 4096 == 0
    requires MappedTo(machine, root, v0, frames)
    requires v0 <= dst && dst + |src| <= v0 + 4096 * |frames| <= WORD_LIMIT
    modifies machine`mem
    ensures machine.Valid() && MappedTo(machine, root, v0, frames)
    ensures IsMemory(old(machine.mem)) && IsMemory(machine.mem) && |machine.mem| == |old(machine.mem)|
    ensures forall x: nat :: InPages(v0, |frames|, x) ==>
      UserByte(machine.mem, v0, frames, x) ==
      if dst <= x < dst + |src| then src[x - dst] else UserByte(old(machine.mem), v0, frames, x)
    ensures forall f: nat :: f < |machine.mem| && f !in frames ==> machine.mem[f] == old(machine.mem)[f]
    ensures forall f: nat :: old(machine.IsData(f)) ==> machine.IsData(f)
  {
    hide Machine.Valid, FrameAllocator.Free, PageOf;
    machine.MemoryFact();
    for i := 0 to |src|
      invariant machine.Valid() && MappedTo(machine, root, v0, frames)
      invariant IsMemory(machine.mem) && |machine.mem| == |old(machine.mem)|
      invariant forall x: nat :: InPages(v0, |frames|, x) ==>
        UserByte(machine.mem, v0, frames, x) ==
        if dst <= x < dst + i then src[x - dst] else UserByte(old(machine.mem), v0, frames, x)
      invariant forall f: nat :: f < |machine.mem| && f !in frames ==> machine.mem[f] == old(machine.mem)[f]
      invariant forall f: nat :: old(machine.IsData(f)) ==> machine.IsData(f)
    {
      CopyByte(machine, root, dst + i, src[i], v0, frames);
    }
  }

  lemma StoreIsLocal(m: Memory, v0: nat, frames: seq<nat>, va: nat, b: Byte)
    requires IsMemory(m) && v0 % 4096 == 0 && InPages(v0, |frames|, va)
    requires forall i :: 0 <= i < |frames| ==> frames[i] < |m|
    requires forall i, j :: 0 <= i < j < |frames| ==> frames[i] != frames[j]
    ensures var m' := PutByte(m, frames[(va - v0) / 4096] * 4096 + va % 4096, b);
      forall x: nat :: InPages(v0, |frames|, x) ==>
        UserByte(m', v0, frames, x) == if x == va then b else UserByte(m, v0, frames, x)
  {
    var pa := frames[(va - v0) / 4096] * 4096 + va % 4096;
    assert pa / 4096 == frames[(va - v0) / 4096] && pa % 4096 == va % 4096;
    forall x: nat | InPages(v0, |frames|, x)
      ensures UserByte(PutByte(m, pa, b), v0, frames, x) == if x == va then b else UserByte(m, v0, frames, x)
    {
      SamePlace(v0, va, x);
    }
  }

  lemma SamePlace(v0: nat, x: nat, y: nat)
    requires v0 % 4096 == 0 && v0 <= x && v0 <= y
    ensures x == y <==> (x - v0) / 4096 == (y - v0) / 4096 && x % 4096 == y % 4096
  {
  }

  // ---- one segment ---------------------------------------------------------

  // Every byte of the segment is mapped to data and holds the file's byte, or
  // zero past the end of the file's part.
  ghost predicate SegmentLoaded(m: Memory, view: View, data: set<nat>, root: nat, elf: seq<Byte>, ph: Phdr) {
    forall x: nat :: ph.vaddr <= x < ph.vaddr + ph.memsz ==> ByteLoaded(m, view, data, root, elf, ph, x)
  }

  ghost predicate ByteLoaded(m: Memory, view: View, data: set<nat>, root: nat, elf: seq<Byte>, ph: Phdr, x: nat)
    requires ph.vaddr <= x
  {
    var k := KeyOf(root, PageOf(x));
    && k in view && view[k] in data && view[k] < |m| && |m[view[k]]| == 4096
    && var j := x - ph.vaddr;
       m[view[k]][x % 4096] == if j < ph.filesz && ph.offset + j < |elf| then elf[ph.offset + j] else 0
  }

  // Loading another segment elsewhere does not disturb a loaded one.
  lemma StillLoaded(m: Memory, view: View, data: set<nat>, m': Memory, view': View, data': set<nat>,
                    root: nat, elf: seq<Byte>, ph: Phdr, other: Phdr)
    requires SegmentLoaded(m, view, data, root, elf, ph) && ApartFrom(root, ph, other)
    requires ph.vaddr + ph.memsz <= ph.FirstPage() + 4096 * ph.PageCount()
    requires |m'| == |m| && forall f :: f in data ==> f in data' && f < |m| && m'[f] == m[f]
    requires forall k :: !Touched(root, other.FirstPage(), other.PageCount(), k) && k in view ==>
               k in view' && view'[k] == view[k]
    ensures SegmentLoaded(m', view', data', root, elf, ph)
  {
    hide PageOf, Touched;
    forall x: nat | ph.vaddr <= x < ph.vaddr + ph.memsz
      ensures ByteLoaded(m', view', data', root, elf, ph, x)
    {
      assert ByteLoaded(m, view, data, root, elf, ph, x);
      assert InPages(ph.FirstPage(), ph.PageCount(), x);
    }
  }

  // Copies the file's part of a segment to zeroed pages.
  method CopySegment(machine: Machine, root: nat, elf: seq<Byte>, ph: Phdr, ghost frames: seq<nat>)
    requires machine.Valid() && root in machine.roots && ph.offset + ph.filesz <= |elf|
    requires ph.FirstPage() + 4096 * |frames| <= WORD_LIMIT
    requires ph.filesz > 0 ==> ph.vaddr + ph.filesz <= ph.FirstPage() + 4096 * |frames|
    requires ph.memsz > 0 ==> ph.vaddr + ph.memsz <= ph.FirstPage() + 4096 * |frames|
    requires MappedTo(machine, root, ph.FirstPage(), frames)
    requires forall i :: 0 <= i < |frames| ==> machine.mem[frames[i]] == Zeros(4096)
    modifies machine`mem
    ensures machine.Valid() && |machine.mem| == |old(machine.mem)|
    ensures forall f: nat :: f < |machine.mem| && f !in frames ==> machine.mem[f] == old(machine.mem)[f]
    ensures forall f: nat :: old(machine.IsData(f)) ==> machine.IsData(f)
    ensures SegmentLoaded(machine.mem, machine.view, machine.DataSet(), root, elf, ph)
  {
    hide Machine.Valid, FrameAllocator.Free, PageOf, Zeros;
    machine.MemoryFact();
    FreshBytes(machine.mem, ph.FirstPage(), frames);
    if ph.filesz != 0 {
      CopyToUser(machine, root, ph.vaddr, elf[ph.offset..ph.offset + ph.filesz], ph.FirstPage(), frames);
    }
    SegmentBytes(machine, root, elf, ph, frames);
  }

  // Maps the pages the loader sees and copies the file's part, which must lie in
  // them and inside the file.
  method LoadSegment(machine: Machine, root: nat, elf: seq<Byte>, ph: Phdr) returns (status: Status)
    requires machine.Valid() && root in machine.roots && ph.InWords()
    requires SeenVerdict(ph, |elf|) == Done ==> ph.offset + ph.filesz <= |elf| && ph.filesz <= ph.Room()
    modifies machine`mem, machine`labels, machine`view, machine.pmm`freeFrames, machine.pmm.bitmap
    ensures machine.Valid() && machine.KeepsData()
    ensures forall k :: !Touched(root, ph.FirstPage(), ph.PagesMapped(), k) ==>
      (k in machine.view <==> k in old(machine.view)) && (k in machine.view ==> machine.view[k] == old(machine.view)[k])
    ensures status == SeenVerdict(ph, |elf|) || Stopped(machine, root, status)
    ensures status == Done ==> SeenVerdict(ph, |elf|) == Done
    ensures status == Done ==> SegmentLoaded(machine.mem, machine.view, machine.DataSet(), root, elf, ph.Part())
  {
    hide Machine.Valid, FrameAllocator.Free, PageOf, Zeros, Stopped;
    hide Phdr.Part, Phdr.Room, MappedTo, DataFrames, Touched;
    var v0 := ph.vaddr / 4096 * 4096;
    var v1 := AlignUp((ph.vaddr + ph.memsz) % WORD_LIMIT);
    SegmentEnd(ph);
    if v1 < v0 {
      return Failed(EINVAL);
    }
    ghost var frames;
    status, frames := LoadPages(machine, root, v0, v1);
    if status != Done {
      return;
    }
    if (ph.offset + ph.filesz) % WORD_LIMIT > |elf| {
      return Failed(ENOEXEC);
    }
    PagesAreDistinct(machine, root, v0, frames);
    RoomInPages(ph);
    CopySegment(machine, root, elf, ph.Part(), frames);
  }

  lemma RoomInPages(ph: Phdr)
    requires ph.InWords() && ph.filesz <= ph.Room()
    ensures var part, end := ph.Part(), ph.FirstPage() + 4096 * ph.PagesMapped();
      && part.FirstPage() == ph.FirstPage() && part.vaddr == ph.vaddr
      && part.offset == ph.offset && part.filesz == ph.filesz
      && (part.filesz > 0 ==> part.vaddr + part.filesz <= end)
      && (part.memsz > 0 ==> part.vaddr + part.memsz <= end)
  {
    SegmentEnd(ph);
  }

  lemma FreshBytes(m: Memory, v0: nat, frames: seq<nat>)
    requires IsMemory(m) && forall i :: 0 <= i < |frames| ==> frames[i] < |m| && m[frames[i]] == Zeros(4096)
    ensures forall x: nat :: InPages(v0, |frames|, x) ==> UserByte(m, v0, frames, x) == 0
  {
  }

  lemma SegmentBytes(machine: Machine, root: nat, elf: seq<Byte>, ph: Phdr, frames: seq<nat>)
    requires machine.pmm.bitmap.Length == BITMAP_SIZE && IsMemory(machine.mem)
    requires MappedTo(machine, root, ph.FirstPage(), frames) && ph.offset + ph.filesz <= |elf|
    requires ph.memsz > 0 ==> ph.vaddr + ph.memsz <= ph.FirstPage() + 4096 * |frames|
    requires forall x: nat :: InPages(ph.FirstPage(), |frames|, x) ==>
      UserByte(machine.mem, ph.FirstPage(), frames, x) ==
      if ph.vaddr <= x < ph.vaddr + ph.filesz then elf[ph.offset + (x - ph.vaddr)] else 0
    ensures SegmentLoaded(machine.mem, machine.view, machine.DataSet(), root, elf, ph)
  {
    hide PageOf;
    var v0 := ph.FirstPage();
    forall x: nat | ph.vaddr <= x < ph.vaddr + ph.memsz
      ensures ByteLoaded(machine.mem, machine.view, machine.DataSet(), root, elf, ph, x)
    {
      var i := (x - v0) / 4096;
      PageInside(v0, i, x);
      assert InPages(v0, |frames|, x);
    }
  }

  lemma {:induction false} Pigeonhole(s: seq<nat>, n: nat)
    requires forall i :: 0 <= i < |s| ==> s[i] < n
    requires forall i, j :: 0 <= i < j < |s| ==> s[i] != s[j]
    ensures |s| <= n
    decreases n
  {
    if s != [] {
      if i :| 0 <= i < |s| && s[i] == n - 1 {
        Pigeonhole(s[..i] + s[i + 1..], n - 1);
      } else {
        assert s[0] < n;
        Pigeonhole(s, n - 1);
      }
    }
  }

  // There are too few frames for the pages of one segment to repeat.
  lemma PagesAreDistinct(machine: Machine, root: nat, v: nat, frames: seq<nat>)
    requires machine.Valid() && DataFrames(machine, frames) && v % 4096 == 0
    ensures DistinctPages(root, v, |frames|)
  {
    hide PageOf;
    machine.MemoryFact();
    Pigeonhole(frames, |machine.mem|);
    forall i: nat, j: nat | i < j < |frames|
      ensures KeyOf(root, PageAt(v, i)) != KeyOf(root, PageAt(v, j))
    {
      PagesDiffer(v, i, j);
    }
  }

  lemma SegmentEnd(ph: Phdr)
    requires ph.InWords()
    ensures ph.EndPage() % 4096 == 0 && ph.EndPage() <= WORD_LIMIT - 4096
    ensures ph.EndPage() >= ph.FirstPage() ==> ph.EndPage() == ph.FirstPage() + 4096 * ph.PagesMapped()
    ensures ph.vaddr + ph.Room() <= ph.FirstPage() + 4096 * ph.PagesMapped() || ph.Room() == 0
  {
  }

  // The loader refuses what is too large, and maps all pages otherwise, exactly
  // for sizes whose end does not wrap around to the segment's own start.
  lemma SizesAreSeenIff(ph: Phdr)
    requires ph.InWords()
    ensures ph.SizeHolds() <==>
            if ph.vaddr + ph.memsz > WORD_LIMIT - 4096 then ph.EndPage() < ph.FirstPage()
            else ph.EndPage() >= ph.FirstPage() && ph.PagesMapped() == ph.PageCount()
  {
  }

  // A range past the end of the file is seen as one exactly when it holds.
  lemma RangesAreSeenIff(offset: nat, n: nat, length: nat)
    requires offset < WORD_LIMIT && n < WORD_LIMIT && length < WORD_LIMIT
    ensures ((offset + n) % WORD_LIMIT > length <==> offset + n > length) <==> RangeHolds(offset, n, length)
  {
  }

  // Loading ends as the sizes say exactly when the loader sees them as they are.
  lemma VerdictIff(ph: Phdr, length: nat)
    requires ph.InWords() && length < WORD_LIMIT
    ensures SeenVerdict(ph, length) == Verdict(ph, length) <==>
            ph.SizeHolds() && (RangeHolds(ph.offset, ph.filesz, length) || ph.vaddr + ph.memsz > WORD_LIMIT - 4096)
  {
    SizesAreSeenIff(ph);
    RangesAreSeenIff(ph.offset, ph.filesz, length);
  }

  // A well-formed segment is loaded as a whole.
  lemma SeenAsItIs(ph: Phdr, length: nat)
    requires ph.InWords() && WellFormed(ph, length)
    ensures SeenVerdict(ph, length) == Verdict(ph, length)
    ensures Verdict(ph, length) == Done ==>
      && ph.offset + ph.filesz <= length && ph.filesz <= ph.Room() && ph.Part() == ph
      && ph.vaddr + ph.memsz <= WORD_LIMIT - 4096 && ph.PagesMapped() == ph.PageCount()
      && ph.vaddr + ph.memsz <= ph.FirstPage() + 4096 * ph.PageCount()
    ensures Verdict(ph, length) == Failed(EINVAL) ==> ph.PagesMapped() == 0
    ensures Verdict(ph, length) != Failed(EINVAL) ==> ph.PagesMapped() == ph.PageCount()
  {
    SizesAreSeenIff(ph);
  }

  // A segment of 2^64 - 1 bytes is loaded as one of a page: what lies on the
  // next page is not mapped.
  method LoadWrapped(machine: Machine, root: nat, elf: seq<Byte>) returns (status: Status)
    requires machine.Valid() && root in machine.roots
    requires KeyOf(root, PageOf(0x40_1000)) !in machine.view
    modifies machine`mem, machine`labels, machine`view, machine.pmm`freeFrames, machine.pmm.bitmap
    ensures var ph := Phdr(PT_LOAD, 0, 0x40_0800, 0, WORD_LIMIT - 1);
      && Verdict(ph, |elf|) == Failed(EINVAL)
      && (status == Done || Stopped(machine, root, status))
      && !SegmentLoaded(machine.mem, machine.view, machine.DataSet(), root, elf, ph)
  {
    hide Machine.Valid, FrameAllocator.Free, PageOf, Stopped;
    var ph := Phdr(PT_LOAD, 0, 0x40_0800, 0, WORD_LIMIT - 1);
    assert ph.PagesMapped() == 1 && SeenVerdict(ph, |elf|) == Done;
    status := LoadSegment(machine, root, elf, ph);
    NextPage(root);
    assert !ByteLoaded(machine.mem, machine.view, machine.DataSet(), root, elf, ph, 0x40_1000);
  }

  lemma NextPage(root: nat)
    ensures !Touched(root, 0x40_0000, 1, KeyOf(root, PageOf(0x40_1000)))
  {
    hide PageOf;
    assert PageAt(0x40_0000, 1) == PageOf(0x40_1000);
    PagesDiffer(0x40_0000, 0, 1);
  }

  // ---- the whole file ------------------------------------------------------

  function PhOff(elf: seq<Byte>): nat
    requires |elf| >= EHDR_SIZE
  {
    Field(elf, 32, 8)
  }

  function PhNum(elf: seq<Byte>): nat
    requires |elf| >= EHDR_SIZE
  {
    Field(elf, 56, 2)
  }

  // The checks on the file header.
  predicate IsExecutable(elf: seq<Byte>)
    requires |elf| >= EHDR_SIZE
  {
    && elf[0] == 0x7F && elf[1] == 0x45 && elf[2] == 0x4C && elf[3] == 0x46
    && elf[4] == 2 && Field(elf, 16, 2) == 2 && Field(elf, 18, 2) == 62
    && Field(elf, 54, 2) == PHDR_SIZE && PhNum(elf) != 0
  }

  // All program headers lie within the file.
  predicate HeadersInside(elf: seq<Byte>) {
    |elf| >= EHDR_SIZE && PhOff(elf) + PhNum(elf) * PHDR_SIZE <= |elf|
  }

  function Header(elf: seq<Byte>, i: nat): Phdr
    requires HeadersInside(elf) && i < PhNum(elf)
  {
    var at := PhOff(elf) + i * PHDR_SIZE;
    Phdr(Field(elf, at, 4), Field(elf, at + 8, 8), Field(elf, at + 16, 8),
         Field(elf, at + 32, 8), Field(elf, at + 40, 8))
  }

  predicate IsSegment(elf: seq<Byte>, i: nat)
    requires HeadersInside(elf)
  {
    i < PhNum(elf) && Header(elf, i).kind == PT_LOAD
  }

  function SegmentEndOf(elf: seq<Byte>, i: nat): nat
    requires HeadersInside(elf) && IsSegment(elf, i)
  {
    Header(elf, i).vaddr + Header(elf, i).memsz
  }

  // The greatest end of the first `n` segments; 0 when there is none.
  ghost predicate IsTop(elf: seq<Byte>, n: nat, top: nat)
    requires HeadersInside(elf)
  {
    && (forall j :: 0 <= j < n && IsSegment(elf, j) ==> SegmentEndOf(elf, j) <= top)
    && (top == 0 || exists j :: 0 <= j < n && IsSegment(elf, j) && SegmentEndOf(elf, j) == top)
  }

  lemma NoneOnTop(elf: seq<Byte>)
    requires HeadersInside(elf)
    ensures IsTop(elf, 0, 0)
  {
  }

  lemma NextTop(elf: seq<Byte>, i: nat, top: nat)
    requires HeadersInside(elf) && i < PhNum(elf) && IsTop(elf, i, top)
    ensures var end := if IsSegment(elf, i) then SegmentEndOf(elf, i) else 0;
            IsTop(elf, i + 1, if end > top then end else top)
  {
    hide Field;
  }

  // The break is the least page boundary above all segments.
  lemma TopIsBreak(elf: seq<Byte>, top: nat)
    requires HeadersInside(elf) && IsTop(elf, PhNum(elf), top) && top <= WORD_LIMIT - 4096
    ensures AlignUp(top) % 4096 == 0
    ensures forall i :: IsSegment(elf, i) ==> SegmentEndOf(elf, i) <= AlignUp(top)
    ensures AlignUp(top) == 0 || exists i :: IsSegment(elf, i) && SegmentEndOf(elf, i) > AlignUp(top) - 4096
  {
    hide Field;
  }

  lemma FieldBound(elf: seq<Byte>, off: nat)
    ensures off + 8 <= |elf| ==> Field(elf, off, 8) < WORD_LIMIT
    ensures off + 2 <= |elf| ==> Field(elf, off, 2) < 0x1_0000
  {
    PowerOf64();
    if off + 8 <= |elf| {
      FromLEBound(elf[off..off + 8]);
    }
    if off + 2 <= |elf| {
      FromLEBound(elf[off..off + 2]);
      Pow2Small();
    }
  }

  lemma HeaderInWords(elf: seq<Byte>, i: nat)
    requires HeadersInside(elf) && i < PhNum(elf)
    ensures Header(elf, i).InWords()
  {
    hide Field;
    var at := PhOff(elf) + i * PHDR_SIZE;
    FieldBound(elf, at + 8);
    FieldBound(elf, at + 16);
    FieldBound(elf, at + 32);
    FieldBound(elf, at + 40);
  }

  // The test on the place of the headers.
  lemma HeadersAreSeen(elf: seq<Byte>)
    requires |elf| >= EHDR_SIZE && RangeHolds(PhOff(elf), PhNum(elf) * PHDR_SIZE, |elf|)
    ensures (PhOff(elf) + PhNum(elf) * PHDR_SIZE) % WORD_LIMIT > |elf| <==> !HeadersInside(elf)
  {
    hide Field;
    FieldBound(elf, 32);
    FieldBound(elf, 56);
  }

  // The loader sees the place of the headers and the sizes of the segments as
  // they are.
  ghost predicate FileWellFormed(elf: seq<Byte>) {
    |elf| >= EHDR_SIZE ==>
      && RangeHolds(PhOff(elf), PhNum(elf) * PHDR_SIZE, |elf|)
      && (HeadersInside(elf) ==> forall i :: IsSegment(elf, i) ==> WellFormed(Header(elf, i), |elf|))
  }

  // How loading the segments from number `i` on ends when memory does not run out.
  function FirstVerdict(elf: seq<Byte>, i: nat): Status
    requires HeadersInside(elf) && i <= PhNum(elf)
    decreases PhNum(elf) - i
  {
    if i == PhNum(elf) then Done
    else if IsSegment(elf, i) && Verdict(Header(elf, i), |elf|) != Done then Verdict(Header(elf, i), |elf|)
    else FirstVerdict(elf, i + 1)
  }

  lemma VerdictHere(elf: seq<Byte>, i: nat)
    requires HeadersInside(elf) && i <= PhNum(elf)
    ensures FirstVerdict(elf, i) ==
            if i == PhNum(elf) then Done
            else if IsSegment(elf, i) && Verdict(Header(elf, i), |elf|) != Done then Verdict(Header(elf, i), |elf|)
            else FirstVerdict(elf, i + 1)
  {
    hide Field;
  }

  // No two segments share a page.
  ghost predicate SegmentsDisjoint(elf: seq<Byte>, root: nat)
    requires HeadersInside(elf)
  {
    forall i, j :: IsSegment(elf, i) && IsSegment(elf, j) && i != j ==> ApartFrom(root, Header(elf, i), Header(elf, j))
  }

  ghost predicate ApartFrom(root: nat, a: Phdr, b: Phdr) {
    forall x: nat :: InPages(a.FirstPage(), a.PageCount(), x) ==>
      !Touched(root, b.FirstPage(), b.PageCount(), KeyOf(root, PageOf(x)))
  }

  // Loads every segment of the file and returns the entry point and the first
  // page boundary above all segments.
  method Load(machine: Machine, root: nat, elf: seq<Byte>) returns (status: Status, entry: nat, brk: nat)
    requires machine.Valid() && root in machine.roots && FileWellFormed(elf)
    modifies machine`mem, machine`labels, machine`view, machine.pmm`freeFrames, machine.pmm.bitmap
    ensures machine.Valid() && machine.KeepsData()
    ensures |elf| < EHDR_SIZE || !IsExecutable(elf) || !HeadersInside(elf) ==>
      status == Failed(ENOEXEC) && machine.mem == old(machine.mem) && machine.view == old(machine.view)
    ensures |elf| >= EHDR_SIZE && IsExecutable(elf) && HeadersInside(elf) ==>
      status == FirstVerdict(elf, 0) || Stopped(machine, root, status)
    ensures status == Done ==>
      && |elf| >= EHDR_SIZE && IsExecutable(elf) && HeadersInside(elf) && entry == Field(elf, 24, 8)
      && brk % 4096 == 0
      && (forall i :: IsSegment(elf, i) ==> SegmentEndOf(elf, i) <= brk)
      && (brk == 0 || exists i :: IsSegment(elf, i) && SegmentEndOf(elf, i) > brk - 4096)
      && (SegmentsDisjoint(elf, root) ==>
            forall i :: IsSegment(elf, i) ==>
              SegmentLoaded(machine.mem, machine.view, machine.DataSet(), root, elf, Header(elf, i)))
  {
    hide Machine.Valid, FrameAllocator.Free, PageOf, Field, Touched, Machine.IsData, ByteLoaded, Stopped;
    hide Verdict, FirstVerdict, SegmentLoaded, ApartFrom, IsTop, AlignUp;
    entry, brk := 0, 0;
    if |elf| >= EHDR_SIZE {
      HeadersAreSeen(elf);
    }
    if |elf| < EHDR_SIZE || !IsExecutable(elf) || (PhOff(elf) + PhNum(elf) * PHDR_SIZE) % WORD_LIMIT > |elf| {
      return Failed(ENOEXEC), entry, brk;
    }
    var maxEnd := 0;
    NoneOnTop(elf);
    for i := 0 to PhNum(elf)
      invariant machine.Valid() && machine.KeepsData() && machine.roots == old(machine.roots)
      invariant 0 <= maxEnd <= WORD_LIMIT - 4096 && FirstVerdict(elf, 0) == FirstVerdict(elf, i)
      invariant IsTop(elf, i, maxEnd)
      invariant SegmentsDisjoint(elf, root) ==>
        forall j :: 0 <= j < i && IsSegment(elf, j) ==>
          SegmentLoaded(machine.mem, machine.view, machine.DataSet(), root, elf, Header(elf, j))
    {
      var ph := Header(elf, i);
      VerdictHere(elf, i);
      NextTop(elf, i, maxEnd);
      if ph.kind != PT_LOAD {
        continue;
      }
      assert IsSegment(elf, i);
      HeaderInWords(elf, i);
      SeenAsItIs(ph, |elf|);
      ghost var m, view, data := machine.mem, machine.view, machine.DataSet();
      status := LoadSegment(machine, root, elf, ph);
      if status != Done {
        return;
      }
      if SegmentsDisjoint(elf, root) {
        forall j | 0 <= j < i && IsSegment(elf, j)
          ensures SegmentLoaded(machine.mem, machine.view, machine.DataSet(), root, elf, Header(elf, j))
        {
          assert ApartFrom(root, Header(elf, j), ph);
          HeaderInWords(elf, j);
          SeenAsItIs(Header(elf, j), |elf|);
          StillLoaded(m, view, data, machine.mem, machine.view, machine.DataSet(), root, elf, Header(elf, j), ph);
        }
      }
      if ph.vaddr + ph.memsz > maxEnd {
        maxEnd := ph.vaddr + ph.memsz;
      }
    }
    VerdictHere(elf, PhNum(elf));
    TopIsBreak(elf, maxEnd);
    status := Done;
    entry := Field(elf, 24, 8);
    brk := AlignUp(maxEnd);
  }
}
