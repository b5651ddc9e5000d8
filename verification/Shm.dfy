// Shared-memory objects: byte arrays kept in frames of their own.
module Shm {
  import opened Bits
  import opened Words
  import Pmm

  const MAX_OBJECTS := 32
  const MAX_PAGES := 1024
  const NAME_MAX := 64
  const EINVAL := -22
  const ENOMEM := -12
  const EFBIG := -27

  // `pages` holds the physical address of each page, 0 for none.
  datatype Object = Object(used: bool, name: string, pages: seq<nat>, size: nat)

  // Every page missing.
  function NoPages(): (r: seq<nat>)
    ensures |r| == MAX_PAGES && forall k :: 0 <= k < MAX_PAGES ==> r[k] == 0
  {
    seq(MAX_PAGES, _ => 0)
  }

  // Pages for `n` bytes, in 64-bit arithmetic.
  function PagesFor(n: nat): nat {
    (n + 4095) % WORD_LIMIT / 4096
  }

  lemma PagesForRounds(n: nat)
    requires n < WORD_LIMIT
    ensures n + 4095 < WORD_LIMIT ==> n <= 4096 * PagesFor(n) < n + 4096
    ensures n + 4095 >= WORD_LIMIT ==> PagesFor(n) == 0
  {
  }

  // ---- who owns which frame ------------------------------------------------

  datatype Slot = Slot(obj: nat, page: nat)
  type Owners = map<nat, Slot>

  predicate SlotExists(objs: seq<Object>, s: Slot) {
    s.obj < |objs| && s.page < |objs[s.obj].pages|
  }

  function FrameAt(objs: seq<Object>, s: Slot): nat
    requires SlotExists(objs, s)
  {
    objs[s.obj].pages[s.page] / 4096
  }

  // Every slot in use has a frame of its own, and `owner` knows them all.
  ghost predicate Owns(objs: seq<Object>, owner: Owners) {
    && (forall s {:trigger SlotExists(objs, s)} :: SlotExists(objs, s) ==>
          var a := objs[s.obj].pages[s.page];
          a % 4096 == 0 && (a != 0 ==> a / 4096 in owner && owner[a / 4096] == s))
    && (forall f :: f in owner ==>
          f != 0 && f < Pmm.MAX_FRAMES && SlotExists(objs, owner[f]) && FrameAt(objs, owner[f]) == f)
  }

  lemma OwnedFrame(objs: seq<Object>, owner: Owners, s: Slot)
    requires Owns(objs, owner) && SlotExists(objs, s) && objs[s.obj].pages[s.page] != 0
    ensures FrameAt(objs, s) in owner && 0 < FrameAt(objs, s) < Pmm.MAX_FRAMES
    ensures objs[s.obj].pages[s.page] == 4096 * FrameAt(objs, s)
  {
  }

  // Ownership does not depend on sizes.
  lemma SameSlots(objs: seq<Object>, objs': seq<Object>, owner: Owners)
    requires Owns(objs, owner) && |objs'| == |objs|
    requires forall j :: 0 <= j < |objs| ==> objs'[j].pages == objs[j].pages
    ensures Owns(objs', owner)
  {
    forall s | SlotExists(objs', s)
      ensures var a := objs'[s.obj].pages[s.page];
              a % 4096 == 0 && (a != 0 ==> a / 4096 in owner && owner[a / 4096] == s)
    {
      assert SlotExists(objs, s);
    }
  }

  // No two slots share a frame.
  lemma FramesAreDistinct(objs: seq<Object>, owner: Owners, s: Slot, t: Slot)
    requires Owns(objs, owner) && SlotExists(objs, s) && SlotExists(objs, t)
    requires objs[s.obj].pages[s.page] != 0 && objs[s.obj].pages[s.page] == objs[t.obj].pages[t.page]
    ensures s == t
  {
  }

  function SetSlot(objs: seq<Object>, s: Slot, a: nat): (r: seq<Object>)
    requires SlotExists(objs, s)
    ensures |r| == |objs|
  {
    objs[s.obj := objs[s.obj].(pages := objs[s.obj].pages[s.page := a])]
  }

  lemma SlotsKept(objs: seq<Object>, s: Slot, a: nat, t: Slot)
    requires SlotExists(objs, s)
    ensures SlotExists(SetSlot(objs, s, a), t) <==> SlotExists(objs, t)
    ensures SlotExists(objs, t) ==>
      SetSlot(objs, s, a)[t.obj].pages[t.page] == if s == t then a else objs[t.obj].pages[t.page]
  {
  }

  lemma GiveFrame(objs: seq<Object>, owner: Owners, s: Slot, f: nat)
    requires Owns(objs, owner) && SlotExists(objs, s) && objs[s.obj].pages[s.page] == 0
    requires 0 < f < Pmm.MAX_FRAMES && f !in owner
    ensures Owns(SetSlot(objs, s, 4096 * f), owner[f := s])
  {
    var objs', owner' := SetSlot(objs, s, 4096 * f), owner[f := s];
    forall t | SlotExists(objs', t)
      ensures var a := objs'[t.obj].pages[t.page];
              a % 4096 == 0 && (a != 0 ==> a / 4096 in owner' && owner'[a / 4096] == t)
    {
      SlotsKept(objs, s, 4096 * f, t);
    }
    forall g | g in owner'
      ensures g != 0 && g < Pmm.MAX_FRAMES && SlotExists(objs', owner'[g]) && FrameAt(objs', owner'[g]) == g
    {
      SlotsKept(objs, s, 4096 * f, owner'[g]);
    }
  }

  lemma TakeFrame(objs: seq<Object>, owner: Owners, s: Slot)
    requires Owns(objs, owner) && SlotExists(objs, s) && objs[s.obj].pages[s.page] != 0
    ensures Owns(SetSlot(objs, s, 0), owner - {FrameAt(objs, s)}) && FrameAt(objs, s) in owner
  {
    var objs', owner' := SetSlot(objs, s, 0), owner - {FrameAt(objs, s)};
    forall t | SlotExists(objs', t)
      ensures var a := objs'[t.obj].pages[t.page];
              a % 4096 == 0 && (a != 0 ==> a / 4096 in owner' && owner'[a / 4096] == t)
    {
      SlotsKept(objs, s, 0, t);
    }
    forall g | g in owner'
      ensures g != 0 && g < Pmm.MAX_FRAMES && SlotExists(objs', owner'[g]) && FrameAt(objs', owner'[g]) == g
    {
      SlotsKept(objs, s, 0, owner'[g]);
    }
  }

  // ---- contents ------------------------------------------------------------

  type Frames = map<nat, seq<Byte>>

  // The bytes of a page; nothing when there is none.
  function PageBytes(mem: Frames, a: nat): seq<Byte> {
    if a != 0 && a / 4096 in mem then mem[a / 4096] else []
  }

  // All bytes in the first `n` pages of an object.
  function Flat(mem: Frames, pages: seq<nat>, n: nat): seq<Byte>
    requires n <= |pages|
  {
    if n == 0 then [] else Flat(mem, pages, n - 1) + PageBytes(mem, pages[n - 1])
  }

  // Pages 0 to n - 1 are there.
  predicate Present(mem: Frames, pages: seq<nat>, n: nat) {
    n <= |pages| && forall k :: 0 <= k < n ==> |PageBytes(mem, pages[k])| == 4096
  }

  lemma {:induction false} FlatLength(mem: Frames, pages: seq<nat>, n: nat)
    requires Present(mem, pages, n)
    ensures |Flat(mem, pages, n)| == 4096 * n
    decreases n
  {
    if n > 0 {
      FlatLength(mem, pages, n - 1);
    }
  }

  lemma {:induction false} FlatSame(mem: Frames, pages: seq<nat>, mem': Frames, pages': seq<nat>, n: nat)
    requires n <= |pages| && n <= |pages'|
    requires forall k :: 0 <= k < n ==> PageBytes(mem', pages'[k]) == PageBytes(mem, pages[k])
    ensures Flat(mem', pages', n) == Flat(mem, pages, n)
    decreases n
  {
    if n > 0 {
      FlatSame(mem, pages, mem', pages', n - 1);
    }
  }

  // Every other object is the same, with the same bytes.
  ghost predicate SameElsewhere(objs: seq<Object>, mem: Frames, objs': seq<Object>, mem': Frames, i: nat) {
    && |objs'| == |objs|
    && (forall s {:trigger SlotExists(objs, s)} :: SlotExists(objs, s) && s.obj != i ==>
          PageBytes(mem', objs[s.obj].pages[s.page]) == PageBytes(mem, objs[s.obj].pages[s.page]))
    && (forall j :: 0 <= j < |objs| && j != i ==> objs'[j] == objs[j])
  }

  lemma SameElsewhereTransitive(o1: seq<Object>, m1: Frames, o2: seq<Object>, m2: Frames,
                                o3: seq<Object>, m3: Frames, i: nat)
    requires SameElsewhere(o1, m1, o2, m2, i) && SameElsewhere(o2, m2, o3, m3, i)
    ensures SameElsewhere(o1, m1, o3, m3, i)
  {
    forall s | SlotExists(o1, s) && s.obj != i
      ensures PageBytes(m3, o1[s.obj].pages[s.page]) == PageBytes(m1, o1[s.obj].pages[s.page])
    {
      assert SlotExists(o2, s);
    }
  }

  // Memory, objects and owners at one moment.
  datatype Moment = Moment(objs: seq<Object>, mem: Frames, owner: Owners)

  // From `a` to `b`, slots `lo` to `hi` of object `i` have got zeroed pages.
  ghost predicate Added(a: Moment, b: Moment, i: nat, lo: nat, hi: nat) {
    && i < |a.objs| == |b.objs| && |a.objs[i].pages| == |b.objs[i].pages| == MAX_PAGES
    && (forall j :: 0 <= j < |a.objs| && j != i ==> b.objs[j] == a.objs[j])
    && b.objs[i].(pages := a.objs[i].pages) == a.objs[i]
    && (forall k :: 0 <= k < MAX_PAGES ==>
          if lo <= k < hi then b.objs[i].pages[k] != 0 && PageBytes(b.mem, b.objs[i].pages[k]) == Zeros(4096)
          else b.objs[i].pages[k] == a.objs[i].pages[k])
    && (forall f :: f in a.owner ==> f in b.owner && b.owner[f] == a.owner[f] && OfFrame(b.mem, f) == OfFrame(a.mem, f))
    && (forall f :: f in b.owner && f !in a.owner ==> b.owner[f].obj == i && lo <= b.owner[f].page < hi)
  }

  function OfFrame(mem: Frames, f: nat): seq<Byte> {
    if f in mem then mem[f] else []
  }

  lemma AddedOne(a: Moment, b: Moment, i: nat, lo: nat, hi: nat, f: nat)
    requires Added(a, b, i, lo, hi) && lo <= hi < MAX_PAGES && Owns(b.objs, b.owner) && f > 0 && f !in b.owner
    ensures SlotExists(b.objs, Slot(i, hi))
    ensures var s := Slot(i, hi);
            Added(a, Moment(SetSlot(b.objs, s, 4096 * f), b.mem[f := Zeros(4096)], b.owner[f := s]), i, lo, hi + 1)
  {
    AddedOneSlots(a, b, i, lo, hi, f);
    hide Owns, PageBytes;
  }

  lemma AddedOneSlots(a: Moment, b: Moment, i: nat, lo: nat, hi: nat, f: nat)
    requires Added(a, b, i, lo, hi) && lo <= hi < MAX_PAGES && Owns(b.objs, b.owner) && f > 0 && f !in b.owner
    ensures SlotExists(b.objs, Slot(i, hi))
    ensures var objs, mem := SetSlot(b.objs, Slot(i, hi), 4096 * f), b.mem[f := Zeros(4096)];
            forall k :: 0 <= k < MAX_PAGES ==>
              if lo <= k < hi + 1 then objs[i].pages[k] != 0 && PageBytes(mem, objs[i].pages[k]) == Zeros(4096)
              else objs[i].pages[k] == a.objs[i].pages[k]
  {
    hide Owns, Zeros;
    var c := Moment(SetSlot(b.objs, Slot(i, hi), 4096 * f), b.mem[f := Zeros(4096)], b.owner[f := Slot(i, hi)]);
    forall k | 0 <= k < MAX_PAGES
      ensures if lo <= k < hi + 1 then c.objs[i].pages[k] != 0 && PageBytes(c.mem, c.objs[i].pages[k]) == Zeros(4096)
              else c.objs[i].pages[k] == a.objs[i].pages[k]
    {
      if lo <= k < hi {
        OwnedFrame(b.objs, b.owner, Slot(i, k));
      }
    }
  }

  lemma RemovedOne(a: Moment, b: Moment, i: nat, lo: nat, hi: nat)
    requires Added(a, b, i, lo, hi) && lo < hi <= MAX_PAGES && Owns(b.objs, b.owner) && Owns(a.objs, a.owner)
    requires a.objs[i].pages[lo] == 0
    ensures SlotExists(b.objs, Slot(i, lo))
    ensures var f := FrameAt(b.objs, Slot(i, lo));
            Added(a, Moment(SetSlot(b.objs, Slot(i, lo), 0), b.mem, b.owner - {f}), i, lo + 1, hi)
  {
    assert SlotExists(b.objs, Slot(i, lo));
    OwnedFrame(b.objs, b.owner, Slot(i, lo));
    NotOwnedBefore(a, b, i, lo, hi);
    hide Owns, PageBytes, Zeros;
  }

  lemma NotOwnedBefore(a: Moment, b: Moment, i: nat, lo: nat, hi: nat)
    requires Added(a, b, i, lo, hi) && lo < hi <= MAX_PAGES && Owns(b.objs, b.owner) && Owns(a.objs, a.owner)
    requires a.objs[i].pages[lo] == 0 && SlotExists(b.objs, Slot(i, lo))
    ensures var f := FrameAt(b.objs, Slot(i, lo));
            && f !in a.owner && (f in b.owner ==> b.owner[f] == Slot(i, lo))
            && forall g :: g in b.owner && b.owner[g] == Slot(i, lo) ==> g == f
  {
    hide PageBytes, Zeros;
    assert SlotExists(a.objs, Slot(i, lo));
  }

  lemma AddedNothing(a: Moment, i: nat, lo: nat)
    requires i < |a.objs| && |a.objs[i].pages| == MAX_PAGES
    ensures Added(a, a, i, lo, lo)
  {
  }

  lemma AddedEmpty(a: Moment, b: Moment, i: nat, m: nat, n: nat)
    requires Added(a, b, i, m, m)
    ensures Added(a, b, i, n, n)
  {
  }

  lemma AddedSlot(a: Moment, b: Moment, i: nat, lo: nat, hi: nat, k: nat)
    requires Added(a, b, i, lo, hi) && k < MAX_PAGES
    ensures i < |a.objs| == |b.objs| && |a.objs[i].pages| == |b.objs[i].pages| == MAX_PAGES
    ensures if lo <= k < hi then b.objs[i].pages[k] != 0 else b.objs[i].pages[k] == a.objs[i].pages[k]
  {
  }

  // What adding pages does to the bytes.
  lemma AddedBytes(a: Moment, b: Moment, i: nat, lo: nat, hi: nat)
    requires Added(a, b, i, lo, hi) && Owns(a.objs, a.owner) && lo <= hi <= MAX_PAGES
    requires Present(a.mem, a.objs[i].pages, lo)
    ensures SameElsewhere(a.objs, a.mem, b.objs, b.mem, i)
    ensures Present(b.mem, b.objs[i].pages, hi)
    ensures Flat(b.mem, b.objs[i].pages, hi) == Flat(a.mem, a.objs[i].pages, lo) + Zeros(4096 * (hi - lo))
  {
    forall s | SlotExists(a.objs, s) && (s.obj != i || s.page < lo)
      ensures PageBytes(b.mem, a.objs[s.obj].pages[s.page]) == PageBytes(a.mem, a.objs[s.obj].pages[s.page])
    {
    }
    forall k | 0 <= k < lo
      ensures PageBytes(b.mem, b.objs[i].pages[k]) == PageBytes(a.mem, a.objs[i].pages[k])
    {
      assert SlotExists(a.objs, Slot(i, k));
    }
    hide Owns, PageBytes, Flat;
    FlatSame(a.mem, a.objs[i].pages, b.mem, b.objs[i].pages, lo);
    FlatZeros(b.mem, b.objs[i].pages, lo, hi);
  }

  lemma {:induction false} FlatZeros(mem: Frames, pages: seq<nat>, lo: nat, hi: nat)
    requires lo <= hi <= |pages| && forall k :: lo <= k < hi ==> PageBytes(mem, pages[k]) == Zeros(4096)
    ensures Flat(mem, pages, hi) == Flat(mem, pages, lo) + Zeros(4096 * (hi - lo))
    decreases hi - lo
  {
    if lo < hi {
      FlatZeros(mem, pages, lo, hi - 1);
      assert Zeros(4096 * (hi - 1 - lo)) + Zeros(4096) == Zeros(4096 * (hi - lo));
    }
  }

  // From `a` to `b`, slots `lo` to `hi` of object `i` have lost their pages.
  ghost predicate Dropped(a: Moment, b: Moment, i: nat, lo: nat, hi: nat) {
    && i < |a.objs| == |b.objs| && |a.objs[i].pages| == |b.objs[i].pages| == MAX_PAGES && b.mem == a.mem
    && (forall j :: 0 <= j < |a.objs| && j != i ==> b.objs[j] == a.objs[j])
    && b.objs[i].(pages := a.objs[i].pages) == a.objs[i]
    && (forall k :: 0 <= k < MAX_PAGES ==> b.objs[i].pages[k] == if lo <= k < hi then 0 else a.objs[i].pages[k])
    && (forall f :: f in b.owner <==> f in a.owner && !(a.owner[f].obj == i && lo <= a.owner[f].page < hi))
    && (forall f :: f in b.owner ==> b.owner[f] == a.owner[f])
  }

  lemma DroppedNothing(a: Moment, i: nat, lo: nat)
    requires i < |a.objs| && |a.objs[i].pages| == MAX_PAGES
    ensures Dropped(a, a, i, lo, lo)
  {
  }

  lemma DroppedOne(a: Moment, b: Moment, i: nat, lo: nat, hi: nat)
    requires Dropped(a, b, i, lo, hi) && lo <= hi < MAX_PAGES && Owns(a.objs, a.owner) && Owns(b.objs, b.owner)
    ensures SlotExists(b.objs, Slot(i, hi))
    ensures var s := Slot(i, hi);
            if b.objs[i].pages[hi] != 0 then
              Dropped(a, Moment(SetSlot(b.objs, s, 0), b.mem, b.owner - {FrameAt(b.objs, s)}), i, lo, hi + 1)
            else Dropped(a, b, i, lo, hi + 1)
  {
    assert SlotExists(b.objs, Slot(i, hi)) && SlotExists(a.objs, Slot(i, hi));
  }

  // The pages that an object has are those its size asks for.
  predicate Whole(o: Object) {
    && |o.pages| == MAX_PAGES && o.size <= 4096 * MAX_PAGES
    && forall k :: 0 <= k < MAX_PAGES ==> (o.pages[k] != 0 <==> o.used && k < PagesFor(o.size))
  }

  // The bytes in the pages of an object, which its size may not fill.
  ghost function BytesOf(mem: Frames, o: Object): seq<Byte> {
    var n := PagesFor(o.size);
    if n <= |o.pages| then Flat(mem, o.pages, n) else []
  }

  // Cut short, or made longer with zeros.
  function Fit(s: seq<Byte>, n: nat): (r: seq<Byte>)
    ensures |r| == n
  {
    if n <= |s| then s[..n] else s + Zeros(n - |s|)
  }

  // Only frames that nobody owns may differ.
  ghost predicate Unchanged(a: Moment, b: Moment) {
    && b.objs == a.objs && b.owner == a.owner
    && forall j :: 0 <= j < |a.objs| ==> BytesOf(b.mem, a.objs[j]) == BytesOf(a.mem, a.objs[j])
  }

  // Object `i` has got a new length, with the bytes that fit, and only it.
  ghost predicate Resized(a: Moment, b: Moment, i: nat, length: nat) {
    && SameElsewhere(a.objs, a.mem, b.objs, b.mem, i)
    && i < |a.objs| && b.objs[i] == a.objs[i].(pages := b.objs[i].pages, size := length)
    && BytesOf(b.mem, b.objs[i]) == Fit(BytesOf(a.mem, a.objs[i]), 4096 * PagesFor(length))
  }

  // Byte by byte: up to the new end the bytes stay, and pages that were not there are zero.
  lemma ResizedAt(a: Moment, b: Moment, i: nat, length: nat, x: nat)
    requires Resized(a, b, i, length) && x < 4096 * PagesFor(length)
    ensures b.objs[i].size == length && b.objs[i].name == a.objs[i].name && b.objs[i].used == a.objs[i].used
    ensures var was, now := BytesOf(a.mem, a.objs[i]), BytesOf(b.mem, b.objs[i]);
            |now| == 4096 * PagesFor(length) && now[x] == if x < |was| then was[x] else 0
  {
    hide BytesOf, SameElsewhere, Fit;
    FitAt(BytesOf(a.mem, a.objs[i]), 4096 * PagesFor(length), x);
  }

  lemma UnchangedItself(a: Moment)
    ensures Unchanged(a, a)
  {
  }

  lemma AddedUnchanged(a: Moment, b: Moment, i: nat, n: nat)
    requires Added(a, b, i, n, n) && Owns(a.objs, a.owner)
    ensures Unchanged(a, b) && b.objs == a.objs
  {
    hide Flat, PagesFor;
    assert b.objs[i].pages == a.objs[i].pages;
    forall j | 0 <= j < |a.objs|
      ensures BytesOf(b.mem, a.objs[j]) == BytesOf(a.mem, a.objs[j])
    {
      var o := a.objs[j];
      var n := PagesFor(o.size);
      if n <= |o.pages| {
        forall k | 0 <= k < n
          ensures PageBytes(b.mem, o.pages[k]) == PageBytes(a.mem, o.pages[k])
        {
          assert SlotExists(a.objs, Slot(j, k));
        }
        FlatSame(a.mem, o.pages, b.mem, o.pages, n);
      }
    }
  }

  lemma WholeSlots(o: Object)
    requires Whole(o) && o.used
    ensures forall k :: PagesFor(o.size) <= k < MAX_PAGES ==> o.pages[k] == 0
    ensures forall k :: 0 <= k < PagesFor(o.size) && k < MAX_PAGES ==> o.pages[k] != 0
  {
  }

  function WithSize(b: Moment, i: nat, length: nat): Moment
    requires i < |b.objs|
  {
    b.(objs := b.objs[i := b.objs[i].(size := length)])
  }

  lemma GrownIsResized(a: Moment, b: Moment, i: nat, length: nat)
    requires i < |a.objs| && Whole(a.objs[i]) && a.objs[i].used && Owns(a.objs, a.owner)
    requires PagesFor(a.objs[i].size) <= PagesFor(length) <= MAX_PAGES
    requires Present(a.mem, a.objs[i].pages, PagesFor(a.objs[i].size))
    requires Added(a, b, i, PagesFor(a.objs[i].size), PagesFor(length))
    ensures i < |b.objs| && Resized(a, WithSize(b, i, length), i, length)
    ensures |b.objs| == |a.objs| && forall j :: 0 <= j < |a.objs| && j != i ==> b.objs[j] == a.objs[j]
    ensures length <= 4096 * MAX_PAGES ==> Whole(WithSize(b, i, length).objs[i])
  {
    hide Owns, PagesFor, Flat;
    AddedBytes(a, b, i, PagesFor(a.objs[i].size), PagesFor(length));
    FlatLength(a.mem, a.objs[i].pages, PagesFor(a.objs[i].size));
  }

  lemma ShrunkIsResized(a: Moment, b: Moment, i: nat, length: nat)
    requires i < |a.objs| && Whole(a.objs[i]) && a.objs[i].used && Owns(a.objs, a.owner)
    requires PagesFor(length) <= PagesFor(a.objs[i].size) <= MAX_PAGES
    requires Present(a.mem, a.objs[i].pages, PagesFor(a.objs[i].size))
    requires Dropped(a, b, i, PagesFor(length), PagesFor(a.objs[i].size))
    ensures i < |b.objs| && Resized(a, WithSize(b, i, length), i, length)
    ensures |b.objs| == |a.objs| && forall j :: 0 <= j < |a.objs| && j != i ==> b.objs[j] == a.objs[j]
    ensures length <= 4096 * MAX_PAGES ==> Whole(WithSize(b, i, length).objs[i])
  {
    hide Owns, PagesFor, Flat;
    var n, m := PagesFor(length), PagesFor(a.objs[i].size);
    FlatSame(a.mem, a.objs[i].pages, b.mem, b.objs[i].pages, n);
    FlatPrefix(a.mem, a.objs[i].pages, n, m);
  }

  lemma {:induction false} FlatPrefix(mem: Frames, pages: seq<nat>, n: nat, m: nat)
    requires n <= m && Present(mem, pages, m)
    ensures |Flat(mem, pages, m)| == 4096 * m && Flat(mem, pages, n) == Flat(mem, pages, m)[..4096 * n]
    decreases m - n
  {
    FlatLength(mem, pages, m);
    if n < m {
      FlatLength(mem, pages, m - 1);
      FlatPrefix(mem, pages, n, m - 1);
    }
  }

  // ---- chunks of pages -----------------------------------------------------

  // `s` with `bytes` written over it from `at` on.
  function Overlay(s: seq<Byte>, at: nat, bytes: seq<Byte>): (r: seq<Byte>)
    requires at + |bytes| <= |s|
    ensures |r| == |s|
  {
    s[..at] + bytes + s[at + |bytes|..]
  }

  // Byte by byte.
  lemma OverlayAt(s: seq<Byte>, at: nat, bytes: seq<Byte>, x: nat)
    requires at + |bytes| <= |s| && x < |s|
    ensures Overlay(s, at, bytes)[x] == if at <= x < at + |bytes| then bytes[x - at] else s[x]
  {
  }

  lemma OverlaidSlice(s: seq<Byte>, at: nat, bytes: seq<Byte>)
    requires at + |bytes| <= |s|
    ensures Overlay(s, at, bytes)[at..at + |bytes|] == bytes
  {
  }

  lemma FitAt(s: seq<Byte>, n: nat, x: nat)
    requires x < n
    ensures Fit(s, n)[x] == if x < |s| then s[x] else 0
  {
  }

  // Page `k` of the bytes.
  lemma {:induction false} FlatPage(mem: Frames, pages: seq<nat>, n: nat, k: nat)
    requires Present(mem, pages, n) && k < n
    ensures |Flat(mem, pages, n)| == 4096 * n
    ensures Flat(mem, pages, n)[4096 * k..4096 * k + 4096] == PageBytes(mem, pages[k])
    decreases n
  {
    hide PageBytes;
    FlatLength(mem, pages, n - 1);
    if k < n - 1 {
      FlatPage(mem, pages, n - 1, k);
      SliceOfPrefix(Flat(mem, pages, n - 1), PageBytes(mem, pages[n - 1]), 4096 * k, 4096 * k + 4096);
    }
  }

  lemma SliceOfPrefix(s: seq<Byte>, t: seq<Byte>, lo: nat, hi: nat)
    requires lo <= hi <= |s|
    ensures (s + t)[lo..hi] == s[lo..hi]
  {
  }

  lemma SlicesJoin(s: seq<Byte>, a: nat, b: nat, c: nat)
    requires a <= b <= c <= |s|
    ensures s[a..b] + s[b..c] == s[a..c]
  {
  }

  // A chunk within a page is a chunk of the bytes.
  lemma ChunkOf(mem: Frames, pages: seq<nat>, n: nat, x: nat, len: nat)
    requires Present(mem, pages, n) && x + len <= 4096 * n && x % 4096 + len <= 4096 && len > 0
    ensures x / 4096 < n && |PageBytes(mem, pages[x / 4096])| == 4096 && |Flat(mem, pages, n)| == 4096 * n
    ensures PageBytes(mem, pages[x / 4096])[x % 4096..x % 4096 + len] == Flat(mem, pages, n)[x..x + len]
  {
    hide PageBytes, Flat;
    var k, po := x / 4096, x % 4096;
    FlatPage(mem, pages, n, k);
    SliceOfSlice(Flat(mem, pages, n), 4096 * k, 4096 * k + 4096, po, len);
  }

  // Replacing one page replaces that part of the bytes.
  lemma {:induction false} FlatPut(mem: Frames, pages: seq<nat>, n: nat, k: nat, page: seq<Byte>)
    requires Present(mem, pages, n) && k < n && |page| == 4096
    requires forall j :: 0 <= j < n && j != k ==> pages[j] / 4096 != pages[k] / 4096
    ensures var mem' := mem[pages[k] / 4096 := page];
            |Flat(mem, pages, n)| == 4096 * n && Flat(mem', pages, n) == Overlay(Flat(mem, pages, n), 4096 * k, page)
    decreases n
  {
    var mem' := mem[pages[k] / 4096 := page];
    FlatLength(mem, pages, n);
    FlatLength(mem, pages, n - 1);
    var s, last := Flat(mem, pages, n - 1), PageBytes(mem, pages[n - 1]);
    if k < n - 1 {
      FlatPut(mem, pages, n - 1, k, page);
      hide Flat;
      assert PageBytes(mem', pages[n - 1]) == last;
      OverlayPrefix(s, last, 4096 * k, page);
    } else {
      FlatSame(mem, pages, mem', pages, n - 1);
      assert PageBytes(mem', pages[k]) == page;
    }
  }

  lemma OverlayPrefix(s: seq<Byte>, t: seq<Byte>, at: nat, bytes: seq<Byte>)
    requires at + |bytes| <= |s|
    ensures Overlay(s + t, at, bytes) == Overlay(s, at, bytes) + t
  {
  }

  lemma OverlayPart(s: seq<Byte>, at: nat, po: nat, bytes: seq<Byte>)
    requires at + 4096 <= |s| && po + |bytes| <= 4096
    ensures Overlay(s, at, Overlay(s[at..at + 4096], po, bytes)) == Overlay(s, at + po, bytes)
  {
  }

  lemma OverlayNext(s: seq<Byte>, at: nat, a: seq<Byte>, b: seq<Byte>)
    requires at + |a| + |b| <= |s|
    ensures Overlay(Overlay(s, at, a), at + |a|, b) == Overlay(s, at, a + b)
  {
  }

  class SharedMemory {
    const pmm: Pmm.FrameAllocator
    const objs: array<Object>
    var mem: Frames
    ghost var owner: Owners

    constructor (pmm: Pmm.FrameAllocator, mem: Frames)
      requires pmm.Valid() && 0 !in pmm.Free()
      ensures Valid() && fresh(objs) && this.pmm == pmm && owner == map[]
      ensures forall i :: 0 <= i < MAX_OBJECTS ==> !objs[i].used
    {
      this.pmm, this.mem, owner := pmm, mem, map[];
      objs := new Object[MAX_OBJECTS](_ => Object(false, "", NoPages(), 0));
    }

    // All frames the objects own and all free ones.
    ghost function Total(): set<nat>
      requires pmm.bitmap.Length == Pmm.BITMAP_SIZE
      reads this, pmm, pmm.bitmap
    {
      pmm.Free() + owner.Keys
    }

    // Frames are owned or free, never both.
    ghost predicate Framed()
      reads this, objs, pmm, pmm.bitmap
    {
      && pmm.Valid() && objs.Length == MAX_OBJECTS && 0 !in pmm.Free()
      && Owns(objs[..], owner) && owner.Keys !! pmm.Free()
      && (forall f :: f in owner ==> f in mem && |mem[f]| == 4096)
      && (forall i :: 0 <= i < MAX_OBJECTS ==> |objs[i].pages| == MAX_PAGES)
    }

    ghost predicate Valid()
      reads this, objs, pmm, pmm.bitmap
    {
      Framed() && forall i :: 0 <= i < MAX_OBJECTS ==> Whole(objs[i])
    }

    method NewFrame() returns (frame: nat)
      requires pmm.Valid() && 0 !in pmm.Free()
      modifies pmm`freeFrames, pmm.bitmap
      ensures pmm.Valid() && (frame != 0) == (old(pmm.Usable()) != {})
      ensures frame == 0 ==> pmm.Free() == old(pmm.Free())
      ensures frame != 0 ==>
        && frame % 4096 == 0 && frame / 4096 in old(pmm.Usable()) && frame / 4096 < Pmm.MAX_FRAMES
        && pmm.Free() == old(pmm.Free()) - {frame / 4096} && pmm.Usable() == old(pmm.Usable()) - {frame / 4096}
    {
      hide Pmm.FrameAllocator.Free;
      ghost var usable := pmm.Usable();
      pmm.FreeBound();
      frame := pmm.Alloc();
      assert frame != 0 ==> frame / 4096 in usable;
      assert frame == 0 ==> forall f :: f in usable ==> false;
    }

    // Gives slot `k` of object `i` a zeroed frame of its own.
    method AddPage(i: nat, k: nat) returns (ok: bool, ghost f: nat)
      requires Framed() && i < MAX_OBJECTS && k < MAX_PAGES && objs[i].pages[k] == 0
      modifies objs, this`mem, this`owner, pmm`freeFrames, pmm.bitmap
      ensures Framed() && ok == (old(pmm.Usable()) != {})
      ensures Total() == old(Total())
      ensures !ok ==> objs[..] == old(objs[..]) && mem == old(mem) && owner == old(owner)
      ensures ok ==>
        && f > 0 && f !in old(owner) && |pmm.Usable()| == |old(pmm.Usable())| - 1
        && objs[..] == SetSlot(old(objs[..]), Slot(i, k), 4096 * f)
        && owner == old(owner)[f := Slot(i, k)] && mem == old(mem)[f := Zeros(4096)]
    {
      hide Pmm.FrameAllocator.Free, Pmm.FrameAllocator.Valid, Owns;
      ghost var objs0 := objs[..];
      BitmapThere();
      var frame := NewFrame();
      f := frame / 4096;
      if frame == 0 {
        ok := false;
        return;
      }
      ok := true;
      GiveFrame(objs0, owner, Slot(i, k), f);
      mem := mem[frame / 4096 := Zeros(4096)];
      objs[i] := objs[i].(pages := objs[i].pages[k := frame]);
      owner := owner[f := Slot(i, k)];
      assert objs[..] == SetSlot(objs0, Slot(i, k), 4096 * f);
    }

    lemma BitmapThere()
      requires pmm.Valid()
      ensures pmm.bitmap.Length == Pmm.BITMAP_SIZE
    {
    }

    // Gives back the frame of slot `k` of object `i`.
    method RemovePage(i: nat, k: nat)
      requires Framed() && i < MAX_OBJECTS && k < MAX_PAGES && objs[i].pages[k] != 0
      modifies objs, this`owner, pmm`freeFrames, pmm.bitmap
      ensures Framed() && SlotExists(old(objs[..]), Slot(i, k)) && Total() == old(Total())
      ensures var f := FrameAt(old(objs[..]), Slot(i, k));
              && owner == old(owner) - {f}
              && objs[..] == SetSlot(old(objs[..]), Slot(i, k), 0)
    {
      hide Pmm.FrameAllocator.Free, Pmm.FrameAllocator.Valid, Owns;
      ghost var objs0 := objs[..];
      assert SlotExists(objs0, Slot(i, k));
      TakeFrame(objs0, owner, Slot(i, k));
      OwnedFrame(objs0, owner, Slot(i, k));
      BitmapThere();
      pmm.Release(objs[i].pages[k]);
      assert objs[..] == objs0;
      objs[i] := objs[i].(pages := objs[i].pages[k := 0]);
      owner := owner - {FrameAt(objs0, Slot(i, k))};
      assert objs[..] == SetSlot(objs0, Slot(i, k), 0);
    }

    ghost function Now(): Moment
      reads this, objs
    {
      Moment(objs[..], mem, owner)
    }

    // Adds pages `lo` to `hi`, or none when the frames run out.
    method Grow(i: nat, lo: nat, hi: nat) returns (ok: bool)
      requires Framed() && i < MAX_OBJECTS && lo <= hi <= MAX_PAGES
      requires forall k :: lo <= k < hi ==> objs[i].pages[k] == 0
      modifies objs, this`mem, this`owner, pmm`freeFrames, pmm.bitmap
      ensures Framed() && Total() == old(Total())
      ensures ok <==> |old(pmm.Usable())| >= hi - lo
      ensures if ok then Added(old(Now()), Now(), i, lo, hi) else Added(old(Now()), Now(), i, lo, lo)
    {
      hide Pmm.FrameAllocator.Free, Pmm.FrameAllocator.Valid, Owns, Added, SetSlot;
      hide SharedMemory.Framed, SharedMemory.Total, Pmm.FrameAllocator.Usable;
      FramedFacts();
      ghost var a := Now();
      AddedNothing(a, i, lo);
      ghost var usable := pmm.Usable();
      var k := lo;
      while k < hi
        invariant lo <= k <= hi && Framed() && Total() == old(Total())
        invariant Added(a, Now(), i, lo, k) && |pmm.Usable()| == |usable| - (k - lo)
        modifies objs, this`mem, this`owner, pmm`freeFrames, pmm.bitmap
      {
        ghost var b := Now();
        FramedFacts();
        AddedSlot(a, b, i, lo, k, k);
        var added;
        ghost var f;
        added, f := AddPage(i, k);
        if !added {
          Undo(a, i, lo, k);
          return false;
        }
        AddedOne(a, b, i, lo, k, f);
        k := k + 1;
      }
      ok := true;
    }

    lemma FramedFacts()
      requires Framed()
      ensures pmm.bitmap.Length == Pmm.BITMAP_SIZE && objs.Length == MAX_OBJECTS && 0 !in pmm.Free()
      ensures Owns(objs[..], owner) && owner.Keys !! pmm.Free()
      ensures forall f :: f in owner ==> f in mem && |mem[f]| == 4096
      ensures forall i :: 0 <= i < MAX_OBJECTS ==> |objs[i].pages| == MAX_PAGES
    {
      BitmapThere();
      hide Pmm.FrameAllocator.Free, Pmm.FrameAllocator.Valid, Owns;
    }

    method UndoPage(ghost a: Moment, i: nat, k: nat, ghost hi: nat)
      requires Framed() && i < MAX_OBJECTS && k < hi <= MAX_PAGES && Added(a, Now(), i, k, hi)
      requires Owns(a.objs, a.owner) && a.objs[i].pages[k] == 0
      modifies objs, this`owner, pmm`freeFrames, pmm.bitmap
      ensures Framed() && Total() == old(Total()) && Added(a, Now(), i, k + 1, hi)
    {
      hide Pmm.FrameAllocator.Free, Pmm.FrameAllocator.Valid, Owns, Added, SetSlot;
      hide SharedMemory.Framed, SharedMemory.Total, Pmm.FrameAllocator.Usable;
      OwnsNow(i);
      AddedSlot(a, Now(), i, k, hi, k);
      RemovedOne(a, Now(), i, k, hi);
      RemovePage(i, k);
    }

    lemma OwnsNow(i: nat)
      requires Framed() && i < MAX_OBJECTS
      ensures pmm.bitmap.Length == Pmm.BITMAP_SIZE && objs.Length == MAX_OBJECTS
      ensures Owns(objs[..], owner) && |objs[i].pages| == MAX_PAGES
    {
      FramedFacts();
    }

    // Takes pages `lo` to `hi`, added since `a`, back.
    method Undo(ghost a: Moment, i: nat, lo: nat, hi: nat)
      requires Framed() && i < MAX_OBJECTS && lo <= hi <= MAX_PAGES && Added(a, Now(), i, lo, hi)
      requires Owns(a.objs, a.owner) && forall k :: lo <= k < hi ==> a.objs[i].pages[k] == 0
      modifies objs, this`owner, pmm`freeFrames, pmm.bitmap
      ensures Framed() && Total() == old(Total()) && Added(a, Now(), i, lo, lo)
    {
      hide Pmm.FrameAllocator.Free, Pmm.FrameAllocator.Valid, Owns, Added;
      hide SharedMemory.Framed, SharedMemory.Total, Pmm.FrameAllocator.Usable;
      OwnsNow(i);
      var j := lo;
      while j < hi
        invariant lo <= j <= hi && Framed() && Total() == old(Total()) && Added(a, Now(), i, j, hi)
        modifies objs, this`owner, pmm`freeFrames, pmm.bitmap
      {
        UndoPage(a, i, j, hi);
        j := j + 1;
      }
      AddedEmpty(a, Now(), i, hi, lo);
    }

    // Gives back page `k` if it is there.
    method DropPage(ghost a: Moment, i: nat, ghost lo: nat, k: nat)
      requires Framed() && i < MAX_OBJECTS && lo <= k < MAX_PAGES
      requires Dropped(a, Now(), i, lo, k) && Owns(a.objs, a.owner)
      modifies objs, this`owner, pmm`freeFrames, pmm.bitmap
      ensures Framed() && Total() == old(Total()) && Dropped(a, Now(), i, lo, k + 1)
    {
      hide Pmm.FrameAllocator.Free, Pmm.FrameAllocator.Valid, Owns, Dropped, SetSlot;
      hide SharedMemory.Framed, SharedMemory.Total, Pmm.FrameAllocator.Usable;
      FramedFacts();
      DroppedOne(a, Now(), i, lo, k);
      if objs[i].pages[k] != 0 {
        RemovePage(i, k);
      }
    }

    // Gives back pages `lo` to `hi`.
    method Shrink(i: nat, lo: nat, hi: nat)
      requires Framed() && i < MAX_OBJECTS && lo <= hi <= MAX_PAGES
      modifies objs, this`owner, pmm`freeFrames, pmm.bitmap
      ensures Framed() && Total() == old(Total()) && Dropped(old(Now()), Now(), i, lo, hi)
    {
      hide Pmm.FrameAllocator.Free, Pmm.FrameAllocator.Valid, Owns, Dropped;
      hide SharedMemory.Framed, SharedMemory.Total, Pmm.FrameAllocator.Usable;
      OwnsNow(i);
      ghost var a := Now();
      DroppedNothing(a, i, lo);
      hide SharedMemory.Now;
      var k := lo;
      while k < hi
        invariant lo <= k <= hi && Framed() && Total() == old(Total()) && Dropped(a, Now(), i, lo, k)
        modifies objs, this`owner, pmm`freeFrames, pmm.bitmap
      {
        DropPage(a, i, lo, k);
        k := k + 1;
      }
    }

    predicate Known(i: int)
      reads objs
    {
      0 <= i < objs.Length && objs[i].used
    }

    lemma ItsLength()
      requires Valid()
      ensures objs.Length == MAX_OBJECTS && Framed()
    {
    }

    // The new length, once the pages are there.
    method SetLength(i: nat, length: nat)
      requires Framed() && i < MAX_OBJECTS && length < WORD_LIMIT
      requires length <= 4096 * MAX_PAGES ==> Whole(objs[i].(size := length))
      requires forall j :: 0 <= j < |Now().objs| && j != i ==> Whole(Now().objs[j])
      requires PagesFor(length) <= MAX_PAGES
      modifies objs
      ensures Framed() && Now() == WithSize(old(Now()), i, length) && Total() == old(Total())
      ensures Valid() <==> length <= WORD_LIMIT - 4096
    {
      BitmapThere();
      PagesForRounds(length);
      hide Pmm.FrameAllocator.Free, Pmm.FrameAllocator.Valid, PagesFor, Owns;
      ghost var was := objs[..];
      objs[i] := objs[i].(size := length);
      assert objs[..] == was[i := was[i].(size := length)];
      SameSlots(was, objs[..], owner);
      assert forall j :: 0 <= j < MAX_OBJECTS && j != i ==> objs[j] == was[j];
      if length > 4096 * MAX_PAGES {
        assert !Whole(objs[i]);
      }
    }

    lemma ValidAgain(a: Moment)
      requires Framed() && Now().objs == a.objs && forall j :: 0 <= j < |a.objs| ==> Whole(a.objs[j])
      ensures Valid()
    {
      assert forall j :: 0 <= j < objs.Length ==> objs[j] == a.objs[j];
    }

    lemma WholeFacts(i: nat)
      requires Valid() && i < MAX_OBJECTS
      ensures Whole(objs[i]) && PagesFor(objs[i].size) <= MAX_PAGES && objs[i].size <= 4096 * PagesFor(objs[i].size)
      ensures objs[i].used ==> Present(mem, objs[i].pages, PagesFor(objs[i].size))
    {
      var o := objs[i];
      PagesForRounds(o.size);
      hide Owns, PagesFor;
      FramedFacts();
      if o.used {
        forall k | 0 <= k < PagesFor(o.size)
          ensures |PageBytes(mem, o.pages[k])| == 4096
        {
          OwnedFrame(objs[..], owner, Slot(i, k));
        }
      }
    }

    // Sets the length of an object: 0, or what went wrong.
    method Truncate(i: int, length: nat) returns (r: int)
      requires Valid() && length < WORD_LIMIT
      modifies objs, this`mem, this`owner, pmm`freeFrames, pmm.bitmap
      ensures Total() == old(Total())
      ensures r == if !old(Known(i)) then EINVAL else if PagesFor(length) > MAX_PAGES then EFBIG
                   else if |old(pmm.Usable())| + PagesFor(old(objs[i].size)) < PagesFor(length) then ENOMEM else 0
      ensures r != 0 ==> Valid() && Unchanged(old(Now()), Now())
      ensures r == 0 ==> Resized(old(Now()), Now(), i, length) && (Valid() <==> length <= WORD_LIMIT - 4096)
    {
      hide SharedMemory.Framed, SharedMemory.Total, Pmm.FrameAllocator.Usable, Resized, Unchanged, Whole;
      hide PagesFor, Added, Dropped;
      ghost var a := Now();
      ItsLength();
      UnchangedItself(a);
      assert forall j :: 0 <= j < |a.objs| ==> a.objs[j] == objs[j];
      if i < 0 || i >= MAX_OBJECTS || !objs[i].used {
        return EINVAL;
      }
      var oldPages, newPages := PagesFor(objs[i].size), PagesFor(length);
      if newPages > MAX_PAGES {
        return EFBIG;
      }
      WholeFacts(i);
      hide Owns;
      FramedFacts();
      if oldPages < newPages {
        WholeSlots(objs[i]);
        var ok := Grow(i, oldPages, newPages);
        if !ok {
          AddedUnchanged(a, Now(), i, oldPages);
          ValidAgain(a);
          return ENOMEM;
        }
        GrownIsResized(a, Now(), i, length);
      } else {
        Shrink(i, newPages, oldPages);
        ShrunkIsResized(a, Now(), i, length);
      }
      SetLength(i, length);
      r := 0;
    }

    // Gives back all pages and makes the slot free.
    method Destroy(i: int)
      requires Valid()
      modifies objs, this`owner, pmm`freeFrames, pmm.bitmap
      ensures Valid() && Total() == old(Total()) && !Known(i)
      ensures !old(Known(i)) ==> objs[..] == old(objs[..]) && owner == old(owner)
      ensures old(Known(i)) ==>
        && SameElsewhere(old(objs[..]), old(mem), objs[..], mem, i)
        && (forall f :: f in owner <==> f in old(owner) && old(owner)[f].obj != i)
    {
      hide SharedMemory.Framed, SharedMemory.Total, Pmm.FrameAllocator.Usable, Whole, PagesFor, Dropped, Owns;
      ghost var a := Now();
      ItsLength();
      if i < 0 || i >= MAX_OBJECTS || !objs[i].used {
        return;
      }
      WholeFacts(i);
      assert forall j :: 0 <= j < |a.objs| ==> a.objs[j] == objs[j];
      var pages := PagesFor(objs[i].size);
      OwnsNow(i);
      Shrink(i, 0, pages);
      DroppedAll(a, Now(), i);
      Retire(i);
    }

    method Retire(i: nat)
      requires Framed() && i < MAX_OBJECTS && Whole(objs[i].(used := false))
      requires forall j :: 0 <= j < |Now().objs| && j != i ==> Whole(Now().objs[j])
      modifies objs
      ensures Valid() && Total() == old(Total())
      ensures objs[..] == old(objs[..])[i := old(objs[i]).(used := false)]
    {
      BitmapThere();
      hide Pmm.FrameAllocator.Free, Pmm.FrameAllocator.Valid, PagesFor, Owns;
      ghost var was := Now().objs;
      assert forall j :: 0 <= j < MAX_OBJECTS && j != i ==> Whole(was[j]);
      objs[i] := objs[i].(used := false);
      assert objs[..] == was[i := was[i].(used := false)];
      SameSlots(was, objs[..], owner);
      assert forall j :: 0 <= j < MAX_OBJECTS && j != i ==> objs[j] == was[j];
      assert Whole(objs[i]);
    }

    // Reads up to `len` bytes at `off`: how many, what, and the new offset.
    method ReadAt(i: int, len: nat, off: nat) returns (r: int, buf: seq<Byte>, off': nat)
      requires Valid()
      ensures !Known(i) ==> r == EINVAL && buf == [] && off' == off
      ensures Known(i) ==>
        && r == (if off >= objs[i].size then 0 else if len < objs[i].size - off then len else objs[i].size - off)
        && off' == off + r && |buf| == r
        && (r > 0 ==> off + r <= |BytesOf(mem, objs[i])| && buf == BytesOf(mem, objs[i])[off..off + r])
    {
      hide SharedMemory.Framed, Whole, PagesFor, Owns, Flat, PageBytes, Present;
      ItsLength();
      buf, off' := [], off;
      if i < 0 || i >= MAX_OBJECTS || !objs[i].used {
        return EINVAL, buf, off;
      }
      WholeFacts(i);
      var o := objs[i];
      if off >= o.size {
        return 0, buf, off;
      }
      var avail := o.size - off;
      var toRead := if len < avail then len else avail;
      var cur, copied := off, 0;
      ghost var n := PagesFor(o.size);
      ghost var all := BytesOf(mem, o);
      AllBytes(mem, o);
      while copied < toRead
        invariant copied <= toRead && cur == off + copied && |buf| == copied && buf == all[off..cur]
      {
        var pageIdx, pageOff := cur / 4096, cur % 4096;
        var chunk := 4096 - pageOff;
        if chunk > toRead - copied {
          chunk := toRead - copied;
        }
        ChunkOf(mem, o.pages, n, cur, chunk);
        var phys := o.pages[pageIdx];
        ThereIsAPage(mem, phys);
        buf := buf + mem[phys / 4096][pageOff..pageOff + chunk];
        SlicesJoin(all, off, cur, cur + chunk);
        copied := copied + chunk;
        cur := cur + chunk;
      }
      off' := cur;
      r := copied;
    }

    // Writes bytes within one page.
    method PutChunk(i: nat, cur: nat, bytes: seq<Byte>)
      requires Valid() && Known(i) && cur + |bytes| <= objs[i].size && cur % 4096 + |bytes| <= 4096 && |bytes| > 0
      modifies this`mem
      ensures Valid() && SameElsewhere(objs[..], old(mem), objs[..], mem, i)
      ensures cur + |bytes| <= |old(BytesOf(mem, objs[i]))|
      ensures BytesOf(mem, objs[i]) == Overlay(old(BytesOf(mem, objs[i])), cur, bytes)
    {
      hide SharedMemory.Framed, Whole, PagesFor, Owns, Flat, PageBytes, Present, Overlay;
      ItsLength();
      WholeFacts(i);
      FramedFacts();
      ghost var was := mem;
      var o := objs[i];
      ghost var n := PagesFor(o.size);
      AllBytes(mem, o);
      ChunkOf(mem, o.pages, n, cur, |bytes|);
      var phys, po := o.pages[cur / 4096], cur % 4096;
      ThereIsAPage(mem, phys);
      WholeSlots(o);
      OtherFrames(objs[..], owner, i, cur / 4096, n);
      ghost var page := Overlay(mem[phys / 4096], po, bytes);
      FlatPage(mem, o.pages, n, cur / 4096);
      FlatPut(mem, o.pages, n, cur / 4096, page);
      OverlayPart(Flat(mem, o.pages, n), 4096 * (cur / 4096), po, bytes);
      ElsewhereKept(objs[..], owner, was, i, cur / 4096, page);
      OwnedFrame(objs[..], owner, Slot(i, cur / 4096));
      PutFrame(phys / 4096, Overlay(mem[phys / 4096], po, bytes));
    }

    method WriteChunks(i: nat, data: seq<Byte>, off: nat)
      requires Valid() && Known(i) && off + |data| <= objs[i].size
      modifies this`mem
      ensures Valid() && SameElsewhere(objs[..], old(mem), objs[..], mem, i)
      ensures off + |data| <= |old(BytesOf(mem, objs[i]))|
      ensures BytesOf(mem, objs[i]) == Overlay(old(BytesOf(mem, objs[i])), off, data)
    {
      hide SharedMemory.Valid, Whole, PagesFor, Owns, Flat, PageBytes, Present, Overlay, BytesOf, SameElsewhere;
      ghost var m0, all := mem, BytesOf(mem, objs[i]);
      Enough(i);
      OverlayNone(all, off);
      ElsewhereItself(objs[..], mem, i);
      var cur, written := off, 0;
      while written < |data|
        invariant written <= |data| && cur == off + written && Valid()
        invariant SameElsewhere(objs[..], m0, objs[..], mem, i)
        invariant BytesOf(mem, objs[i]) == Overlay(all, off, data[..written])
      {
        var pageOff := cur % 4096;
        var chunk := 4096 - pageOff;
        if chunk > |data| - written {
          chunk := |data| - written;
        }
        ghost var m1 := mem;
        PutChunk(i, cur, data[written..written + chunk]);
        SameElsewhereTransitive(objs[..], m0, objs[..], m1, objs[..], mem, i);
        OverlayNext(all, off, data[..written], data[written..written + chunk]);
        assert data[..written] + data[written..written + chunk] == data[..written + chunk];
        written := written + chunk;
        cur := cur + chunk;
      }
      assert data[..written] == data;
    }

    lemma Enough(i: nat)
      requires Valid() && Known(i)
      ensures objs[i].size <= |BytesOf(mem, objs[i])| && i < |objs[..]|
    {
      WholeFacts(i);
      AllBytes(mem, objs[i]);
    }

    // Writes at `off`, making the object longer if need be: the count or an
    // error, and the new offset.
    method WriteAt(i: int, data: seq<Byte>, off: nat) returns (r: int, off': nat)
      requires Valid() && off + |data| <= WORD_LIMIT - 4096
      modifies objs, this`mem, this`owner, pmm`freeFrames, pmm.bitmap
      ensures Valid() && Total() == old(Total())
      ensures var end := off + |data|;
              r == if !old(Known(i)) then EINVAL
                   else if end <= old(objs[i].size) then |data|
                   else if PagesFor(end) > MAX_PAGES then EFBIG
                   else if |old(pmm.Usable())| + PagesFor(old(objs[i].size)) < PagesFor(end) then ENOMEM else |data|
      ensures r < 0 ==> Unchanged(old(Now()), Now()) && off' == off
      ensures r >= 0 ==>
        && r == |data| && off' == off + |data| && Known(i)
        && objs[i].size == (if off + |data| > old(objs[i].size) then off + |data| else old(objs[i].size))
        && SameElsewhere(old(objs[..]), old(mem), objs[..], mem, i)
        && off + |data| <= objs[i].size <= 4096 * PagesFor(objs[i].size)
        && BytesOf(mem, objs[i]) ==
             Overlay(Fit(old(BytesOf(mem, objs[i])), 4096 * PagesFor(objs[i].size)), off, data)
    {
      hide SharedMemory.Framed, Pmm.FrameAllocator.Usable, Pmm.FrameAllocator.Free, Whole, PagesFor, Owns;
      hide Flat, PageBytes, Present;
      hide Overlay, Fit, BytesOf, SameElsewhere, Unchanged;
      ItsLength();
      ghost var a := Now();
      UnchangedItself(a);
      if i < 0 || i >= MAX_OBJECTS || !objs[i].used {
        return EINVAL, off;
      }
      Enough(i);
      WholeFacts(i);
      ElsewhereItself(objs[..], mem, i);
      FitItself(BytesOf(mem, objs[i]));
      AllBytes(mem, objs[i]);
      PagesForRounds(off + |data|);
      var newEnd := off + |data|;
      if newEnd > objs[i].size {
        var t := Truncate(i, newEnd);
        if t < 0 {
          return t, off;
        }
      }
      ghost var b := Now();
      Enough(i);
      WriteChunks(i, data, off);
      SameElsewhereTransitive(a.objs, a.mem, b.objs, b.mem, objs[..], mem, i);
      off' := newEnd;
      r := |data|;
    }

    // What was written is read back, and every other byte is the old one, or zero
    // where there was none.
    method WriteThenRead(i: int, data: seq<Byte>, off: nat) returns (r: int, back: seq<Byte>)
      requires Valid() && off + |data| <= WORD_LIMIT - 4096
      modifies objs, this`mem, this`owner, pmm`freeFrames, pmm.bitmap
      ensures Valid()
      ensures r >= 0 ==> r == |data| && back == data && Known(i)
      ensures r >= 0 ==> var was, now := old(BytesOf(mem, objs[i])), BytesOf(mem, objs[i]);
        forall x: nat {:trigger now[x]} :: x < |now| ==>
          now[x] == if off <= x < off + |data| then data[x - off] else if x < |was| then was[x] else 0
    {
      hide SharedMemory.Valid, SharedMemory.Total, BytesOf, Overlay, Fit, SameElsewhere, Unchanged, PagesFor;
      var off', n;
      r, off' := WriteAt(i, data, off);
      back := [];
      if r >= 0 {
        ghost var was, now := old(BytesOf(mem, objs[i])), BytesOf(mem, objs[i]);
        ghost var room := 4096 * PagesFor(objs[i].size);
        forall x: nat | x < |now|
          ensures now[x] == if off <= x < off + |data| then data[x - off] else if x < |was| then was[x] else 0
        {
          OverlayAt(Fit(was, room), off, data, x);
          FitAt(was, room, x);
        }
        n, back, off' := ReadAt(i, |data|, off);
        OverlaidSlice(Fit(was, room), off, data);
      }
    }

    // The object of that name, or a new empty one; an error when all are taken.
    method Open(name: string) returns (r: int)
      requires Valid()
      modifies objs
      ensures Valid() && (r == ENOMEM || 0 <= r < MAX_OBJECTS)
      ensures FindName(old(objs[..]), name) < MAX_OBJECTS ==>
        r == FindName(old(objs[..]), name) && objs[..] == old(objs[..])
      ensures FindName(old(objs[..]), name) == MAX_OBJECTS ==>
        && (r == ENOMEM <==> forall j :: 0 <= j < MAX_OBJECTS ==> old(objs[j]).used)
        && (r == ENOMEM ==> objs[..] == old(objs[..]))
        && (r != ENOMEM ==> !old(objs[r]).used && objs[..] == old(objs[..])[r := Opened(name)])
    {
      hide SharedMemory.Framed, Whole, Owns;
      ItsLength();
      ghost var was := objs[..];
      for i := 0 to MAX_OBJECTS
        invariant FindName(was, name) == FindFrom(was, name, i)
      {
        if objs[i].used && objs[i].name == name {
          return i;
        }
      }
      for i := 0 to MAX_OBJECTS
        invariant objs[..] == was && forall j :: 0 <= j < i ==> objs[j].used
      {
        if !objs[i].used {
          Replace(i, name);
          return i;
        }
      }
      r := ENOMEM;
    }

    method Replace(i: nat, name: string)
      requires Valid() && i < MAX_OBJECTS && !objs[i].used
      modifies objs
      ensures Valid() && objs[..] == old(objs[..])[i := Opened(name)]
    {
      BitmapThere();
      hide Pmm.FrameAllocator.Free, Pmm.FrameAllocator.Valid, Owns;
      ghost var was := objs[..];
      assert forall j :: 0 <= j < MAX_OBJECTS ==> Whole(was[j]);
      assert objs[i].pages == NoPages();
      objs[i] := Opened(name);
      assert objs[..] == was[i := Opened(name)];
      SameSlots(was, objs[..], owner);
    }

    method PutFrame(f: nat, page: seq<Byte>)
      requires Valid() && f in owner && |page| == 4096
      modifies this`mem
      ensures Valid() && mem == old(mem)[f := page]
    {
      BitmapThere();
      hide Owns, Whole, Pmm.FrameAllocator.Free, Pmm.FrameAllocator.Valid;
      mem := mem[f := page];
    }
  }

  lemma AllBytes(mem: Frames, o: Object)
    requires PagesFor(o.size) <= |o.pages| && Present(mem, o.pages, PagesFor(o.size))
    ensures |BytesOf(mem, o)| == 4096 * PagesFor(o.size) && BytesOf(mem, o) == Flat(mem, o.pages, PagesFor(o.size))
  {
    FlatLength(mem, o.pages, PagesFor(o.size));
  }

  lemma ThereIsAPage(mem: Frames, a: nat)
    requires |PageBytes(mem, a)| == 4096
    ensures a != 0 && a / 4096 in mem && PageBytes(mem, a) == mem[a / 4096]
  {
  }

  lemma DroppedAll(a: Moment, b: Moment, i: nat)
    requires i < |a.objs| && Whole(a.objs[i]) && Owns(a.objs, a.owner)
    requires Dropped(a, b, i, 0, PagesFor(a.objs[i].size))
    ensures |b.objs| == |a.objs| && Whole(b.objs[i].(used := false))
    ensures forall j :: 0 <= j < |a.objs| && j != i ==> b.objs[j] == a.objs[j]
    ensures SameElsewhere(a.objs, a.mem, b.objs[i := b.objs[i].(used := false)], b.mem, i)
    ensures forall f :: f in b.owner <==> f in a.owner && a.owner[f].obj != i
  {
    hide PagesFor;
    forall f | f in a.owner && a.owner[f].obj == i
      ensures a.owner[f].page < PagesFor(a.objs[i].size)
    {
      assert FrameAt(a.objs, a.owner[f]) == f;
    }
  }

  lemma OverlayNone(s: seq<Byte>, at: nat)
    requires at <= |s|
    ensures Overlay(s, at, []) == s
  {
  }

  lemma FitItself(s: seq<Byte>)
    ensures Fit(s, |s|) == s
  {
  }

  lemma ElsewhereItself(objs: seq<Object>, mem: Frames, i: nat)
    ensures SameElsewhere(objs, mem, objs, mem, i)
  {
  }

  // A fresh object; names are cut to what the field holds.
  function Opened(name: string): Object {
    Object(true, if |name| < NAME_MAX then name else name[..NAME_MAX - 1], NoPages(), 0)
  }

  // It is in use and empty, and its name is what the field holds of the one asked for.
  lemma OpenedIs(name: string)
    ensures var o := Opened(name);
            && o.used && o.size == 0 && |o.name| <= 63 && o.name <= name && (|name| <= 63 ==> o.name == name)
            && (|name| > 63 ==> |o.name| == 63)
            && |o.pages| == 1024 && forall k :: 0 <= k < 1024 ==> o.pages[k] == 0
  {
  }

  // The first object in use with that name; |objs| when there is none.
  function FindName(objs: seq<Object>, name: string): nat {
    FindFrom(objs, name, 0)
  }

  function FindFrom(objs: seq<Object>, name: string, i: nat): (r: nat)
    decreases |objs| - i
  {
    if i >= |objs| then |objs|
    else if objs[i].used && objs[i].name == name then i
    else FindFrom(objs, name, i + 1)
  }

  lemma {:induction false} FindFromIs(objs: seq<Object>, name: string, i: nat, j: nat)
    requires i <= |objs|
    ensures i <= FindFrom(objs, name, i) <= |objs|
    ensures FindFrom(objs, name, i) < |objs| ==>
      objs[FindFrom(objs, name, i)].used && objs[FindFrom(objs, name, i)].name == name
    ensures i <= j < FindFrom(objs, name, i) ==> !(objs[j].used && objs[j].name == name)
    decreases |objs| - i
  {
    if i < |objs| {
      FindFromIs(objs, name, i + 1, j);
    }
  }

  // Opening a name again finds the object just made exactly when the name fits.
  lemma OpenedIsFound(objs: seq<Object>, name: string, i: nat)
    requires i < |objs| && !objs[i].used && FindName(objs, name) == |objs|
    ensures FindName(objs[i := Opened(name)], name) == i <==> |name| < NAME_MAX
  {
    var objs' := objs[i := Opened(name)];
    var k := FindName(objs', name);
    FindFromIs(objs', name, 0, i);
    if k < |objs| && k != i {
      FindFromIs(objs, name, 0, k);
    }
  }

  // The other pages of the object, and all of the others, lie elsewhere.
  lemma OtherFrames(objs: seq<Object>, owner: Owners, i: nat, k: nat, n: nat)
    requires Owns(objs, owner) && i < |objs| && k < n <= |objs[i].pages|
    requires forall j :: 0 <= j < n ==> objs[i].pages[j] != 0
    ensures forall j :: 0 <= j < n && j != k ==> objs[i].pages[j] / 4096 != objs[i].pages[k] / 4096
  {
    forall j | 0 <= j < n && j != k
      ensures objs[i].pages[j] / 4096 != objs[i].pages[k] / 4096
    {
      assert SlotExists(objs, Slot(i, j)) && SlotExists(objs, Slot(i, k));
    }
  }

  lemma ElsewhereKept(objs: seq<Object>, owner: Owners, mem: Frames, i: nat, k: nat, page: seq<Byte>)
    requires Owns(objs, owner) && i < |objs| && k < |objs[i].pages| && objs[i].pages[k] != 0
    ensures SameElsewhere(objs, mem, objs, mem[objs[i].pages[k] / 4096 := page], i)
  {
    assert SlotExists(objs, Slot(i, k));
  }
}
