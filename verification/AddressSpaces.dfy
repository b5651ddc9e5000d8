// Whole runs of mapping and unmapping, through any mix of address spaces.
module AddressSpaces {
  import opened Words
  import opened Flags
  import opened Pmm
  import opened PageTables
  import opened Vmm

  datatype Op = Map(root: nat, va: nat, pa: nat, flags: nat)
              | Unmap(root: nat, va: nat, nbytes: nat)

  predicate IsOp(op: Op, roots: set<nat>) {
    op.root in roots &&
    match op
    case Map(_, va, pa, flags) => va < WORD_LIMIT && pa < WORD_LIMIT && flags < WORD_LIMIT
    case Unmap(_, va, nbytes) =>
      va < WORD_LIMIT && nbytes < WORD_LIMIT && (nbytes == 0 || EndOf(va, nbytes) <= WORD_LIMIT - 4096)
  }

  function Apply(view: View, op: Op): View {
    match op
    case Map(r, va, pa, flags) => view[KeyOf(r, PageOf(va)) := MappedFrame(pa, flags)]
    case Unmap(r, va, nbytes) =>
      UnmapPages(view, r, va / 4096 * 4096, PagesUnmapped(va, nbytes))
  }

  function ApplyAll(view: View, ops: seq<Op>): View {
    if ops == [] then view else Apply(ApplyAll(view, ops[..|ops| - 1]), ops[|ops| - 1])
  }

  // Whether an operation changes the page `k`.
  ghost predicate Changes(op: Op, k: Key) {
    match op
    case Map(r, va, _, _) => k == KeyOf(r, PageOf(va))
    case Unmap(r, va, nbytes) => Touched(r, va / 4096 * 4096, PagesUnmapped(va, nbytes), k)
  }

  // A mapping below a huge page, or with no frame left for a table.
  ghost predicate Stuck(machine: Machine, op: Op)
    reads machine, machine.pmm, machine.pmm.bitmap
  {
    op.Map? && IsMemory(machine.mem) && machine.pmm.bitmap.Length == BITMAP_SIZE
    && (Walk(machine.mem, op.root, PageOf(op.va)[..3], true) == Blocked || machine.pmm.Usable() == {})
  }

  // Carries the operations out on the page tables, up to the first one that the
  // kernel cannot carry out.
  method Run(machine: Machine, ops: seq<Op>) returns (done: nat)
    requires machine.Valid() && forall i :: 0 <= i < |ops| ==> IsOp(ops[i], machine.roots)
    modifies machine, machine.pmm, machine.pmm.bitmap
    ensures machine.Valid() && machine.roots == old(machine.roots)
    ensures done <= |ops| && machine.view == ApplyAll(old(machine.view), ops[..done])
    ensures done < |ops| ==> Stuck(machine, ops[done])
  {
    hide Machine.Valid, FrameAllocator.Free, UnmapPages, PageOf, MappedFrame;
    done := 0;
    while done < |ops|
      invariant machine.Valid() && machine.roots == old(machine.roots)
      invariant done <= |ops| && machine.view == ApplyAll(old(machine.view), ops[..done])
    {
      assert IsOp(ops[done], machine.roots);
      assert ops[..done + 1][..done] == ops[..done];
      match ops[done] {
        case Map(r, va, pa, flags) =>
          var outcome := machine.MapPage(r, va, pa, flags);
          if outcome != Mapped {
            machine.MemoryFact();
            return;
          }
        case Unmap(r, va, nbytes) =>
          machine.UnmapRange(r, va, nbytes);
      }
      done := done + 1;
    }
  }

  lemma Unchanged(view: View, op: Op, k: Key)
    requires !Changes(op, k)
    ensures k in Apply(view, op) <==> k in view
    ensures k in view ==> Apply(view, op)[k] == view[k]
  {
    hide PageOf, UnmapPages, MappedFrame;
    if op.Unmap? {
      UnmapPagesRemoves(view, op.root, op.va / 4096 * 4096, PagesUnmapped(op.va, op.nbytes), k);
    }
  }

  lemma {:induction false} UnchangedAll(view: View, ops: seq<Op>, k: Key)
    requires forall i :: 0 <= i < |ops| ==> !Changes(ops[i], k)
    ensures k in ApplyAll(view, ops) <==> k in view
    ensures k in view ==> ApplyAll(view, ops)[k] == view[k]
  {
    hide Changes, Apply;
    if ops != [] {
      UnchangedAll(view, ops[..|ops| - 1], k);
      Unchanged(ApplyAll(view, ops[..|ops| - 1]), ops[|ops| - 1], k);
    }
  }

  lemma {:induction false} ApplyAllSplit(view: View, a: seq<Op>, b: seq<Op>)
    ensures ApplyAll(view, a + b) == ApplyAll(ApplyAll(view, a), b)
  {
    if b == [] {
      assert a + b == a;
    } else {
      var n := |b| - 1;
      assert (a + b)[..|a + b| - 1] == a + b[..n];
      ApplyAllSplit(view, a, b[..n]);
    }
  }

  // After any run an address translates to the frame it was last mapped to, with
  // its own offset, in every space that shares the page.
  lemma LastMappingHolds(view: View, before: seq<Op>, op: Op, after: seq<Op>, s: nat, va: nat)
    requires op.Map? && KeyOf(s, PageOf(va)) == KeyOf(op.root, PageOf(op.va))
    requires forall i :: 0 <= i < |after| ==> !Changes(after[i], KeyOf(s, PageOf(va)))
    ensures LookupIn(ApplyAll(view, before + [op] + after), s, va) == MappedFrame(op.pa, op.flags) * 4096 + va % 4096
  {
    hide PageOf, MappedFrame, Changes;
    ApplyAllSplit(view, before + [op], after);
    assert (before + [op])[..|before|] == before;
    UnchangedAll(ApplyAll(view, before + [op]), after, KeyOf(s, PageOf(va)));
  }

  // And an address that was unmapped last is not mapped.
  lemma UnmappedLast(view: View, before: seq<Op>, op: Op, after: seq<Op>, s: nat, va: nat)
    requires op.Unmap? && Changes(op, KeyOf(s, PageOf(va)))
    requires forall i :: 0 <= i < |after| ==> !Changes(after[i], KeyOf(s, PageOf(va)))
    ensures LookupIn(ApplyAll(view, before + [op] + after), s, va) == 0
  {
    hide PageOf, UnmapPages;
    var k := KeyOf(s, PageOf(va));
    ApplyAllSplit(view, before + [op], after);
    assert (before + [op])[..|before|] == before;
    UnmapPagesRemoves(ApplyAll(view, before), op.root, op.va / 4096 * 4096, PagesUnmapped(op.va, op.nbytes), k);
    UnchangedAll(ApplyAll(view, before + [op]), after, k);
  }

  // Runs through other roots never change what a root sees below slot 511.
  lemma {:induction false} OtherSpacesAreIsolated(view: View, ops: seq<Op>, s: nat, va: nat)
    requires forall i :: 0 <= i < |ops| ==> ops[i].root != s
    requires PageOf(va)[0] != 511
    ensures LookupIn(ApplyAll(view, ops), s, va) == LookupIn(view, s, va)
  {
    hide PageOf;
    forall i | 0 <= i < |ops|
      ensures !Changes(ops[i], KeyOf(s, PageOf(va)))
    {
    }
    UnchangedAll(view, ops, KeyOf(s, PageOf(va)));
  }

  // The slot that is shared holds the addresses of the top 512 GiB, of 48 bits.
  lemma SharedIsTop(va: nat)
    ensures PageOf(va)[0] == 511 <==> va % 0x1_0000_0000_0000 >= 0xFF80_0000_0000
  {
    var slot := va / 0x80_0000_0000;
    assert va % 0x1_0000_0000_0000 == slot % 512 * 0x80_0000_0000 + va % 0x80_0000_0000 by {
      assert va == 0x80_0000_0000 * slot + va % 0x80_0000_0000;
      assert slot == 512 * (slot / 512) + slot % 512;
    }
  }

  const HEAP_BASE := 0xFFFF_C000_0000_0000

  // The kernel heap lies in slot 384, not 511: a space just created, which sees
  // nothing outside slot 511, does not map it.
  method HeapIsNotShared(machine: Machine) returns (r: nat)
    requires machine.Valid()
    modifies machine, machine.pmm, machine.pmm.bitmap
    ensures machine.Valid()
    ensures r != 0 ==> r in machine.roots && forall va: nat {:trigger LookupIn(machine.view, r, va)} ::
      HEAP_BASE <= va < HEAP_BASE + 0x80_0000_0000 ==> LookupIn(machine.view, r, va) == 0
  {
    hide Machine.Valid, PageOf;
    r := machine.CreateSpace();
    forall va: nat | HEAP_BASE <= va < HEAP_BASE + 0x80_0000_0000
      ensures PageOf(va)[0] == 384
    {
      HeapSlot(va);
    }
  }

  lemma HeapSlot(va: nat)
    requires HEAP_BASE <= va < HEAP_BASE + 0x80_0000_0000
    ensures PageOf(va)[0] == 384
  {
    assert va / 0x80_0000_0000 == 0x1FFFF80 && 0x1FFFF80 % 512 == 384;
  }
}
