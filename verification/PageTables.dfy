// Four-level page tables in physical memory, as values: walking them, and what
// one write to them changes.
module PageTables {
  import opened Bits
  import opened Words
  import opened Flags

  // Physical memory: frames of 4096 bytes by frame number.
  type Memory = seq<seq<Byte>>

  ghost predicate IsMemory(m: Memory) {
    |m| <= 0x10_0000 && forall f :: 0 <= f < |m| ==> |m[f]| == 4096
  }

  // Entry `i` of the table in frame `f`.
  function Entry(m: Memory, f: nat, i: nat): nat
    requires f < |m| && |m[f]| == 4096 && i < 512
  {
    WordAt(m[f], i)
  }

  function SetEntry(m: Memory, f: nat, i: nat, w: nat): (m': Memory)
    requires IsMemory(m) && f < |m| && i < 512
    ensures IsMemory(m') && |m'| == |m|
  {
    m[f := StoreWord(m[f], i, w)]
  }

  function ZeroFrame(m: Memory, f: nat): (m': Memory)
    requires IsMemory(m) && f < |m|
    ensures IsMemory(m') && |m'| == |m|
  {
    m[f := Zeros(4096)]
  }

  lemma EntryOfSet(m: Memory, f: nat, i: nat, w: nat, g: nat, j: nat)
    requires IsMemory(m) && f < |m| && i < 512 && g < |m| && j < 512 && w < WORD_LIMIT
    ensures Entry(SetEntry(m, f, i, w), g, j) == if f == g && i == j then w else Entry(m, g, j)
  {
    hide WordAt, StoreWord;
    if f == g {
      WordOfStore(m[f], i, w, j);
    }
  }

  lemma EntryOfZero(m: Memory, f: nat, g: nat, j: nat)
    requires IsMemory(m) && f < |m| && g < |m| && j < 512
    ensures Entry(ZeroFrame(m, f), g, j) == if f == g then 0 else Entry(m, g, j)
  {
    hide WordAt;
    if f == g {
      WordOfZeros(4096, j);
    }
  }

  // ---- walking -------------------------------------------------------------

  // The four table indices of a virtual address, from the root down. Bits 48 and
  // above play no part.
  type Page = p: seq<nat> | |p| == 4 && forall i :: 0 <= i < 4 ==> p[i] < 512 witness [0, 0, 0, 0]

  function PageOf(va: nat): Page {
    [va / 0x80_0000_0000 % 512, va / 0x4000_0000 % 512, va / 0x20_0000 % 512, va / 0x1000 % 512]
  }

  // Where an entry above the last level leads.
  datatype Next = Absent | Blocked | Down(frame: nat)

  // A present entry leads to a table, except that below the root it may map a
  // huge page instead.
  function Follow(m: Memory, f: nat, i: nat, top: bool): Next
    requires IsMemory(m) && f < |m| && i < 512
  {
    var e := Entry(m, f, i);
    if !Present(e) then Absent
    else if !top && Huge(e) then Blocked
    else Down(e / 4096)
  }

  // Follows `path` from the table in frame `f`. Frame numbers outside memory,
  // which no table entry holds, end the walk.
  function Walk(m: Memory, f: nat, path: seq<nat>, top: bool): Next
    requires IsMemory(m) && forall i :: 0 <= i < |path| ==> path[i] < 512
    decreases |path|
  {
    if f >= |m| then Blocked
    else if path == [] then Down(f)
    else
      match Follow(m, f, path[0], top)
      case Down(c) => Walk(m, c, path[1..], false)
      case stop => stop
  }

  // The frame that page `p` is mapped to.
  function Translate(m: Memory, root: nat, p: Page): Option
    requires IsMemory(m)
  {
    match Walk(m, root, p[..3], true)
    case Down(t) =>
      if t < |m| && Present(Entry(m, t, p[3])) then Some(Entry(m, t, p[3]) / 4096) else None
    case _ => None
  }

  datatype Option = None | Some(frame: nat)

  // ---- who owns a table ----------------------------------------------------

  // The table reached by `path` from a root; the tables below slot 511 are
  // shared by all roots.
  datatype Space = Private(root: nat) | Shared
  datatype Region = Region(space: Space, path: seq<nat>)

  function Below(r: Region, i: nat): Region {
    Region(if r.path == [] && i == 511 then Shared else r.space, r.path + [i])
  }

  type Labels = map<nat, Region>

  // Every table frame has one place in the tree: entries lead from a table to
  // the table for the next part of the path.
  ghost predicate IsTree(m: Memory, labels: Labels)
    requires IsMemory(m)
  {
    && (forall f :: f in labels ==> f < |m| && |labels[f].path| <= 3)
    && (forall f, i :: f in labels && 0 <= i < 512 && |labels[f].path| < 3 ==> LeadsDown(m, labels, f, i))
  }

  ghost predicate LeadsDown(m: Memory, labels: Labels, f: nat, i: nat)
    requires IsMemory(m) && f < |m| && i < 512 && f in labels
  {
    var next := Follow(m, f, i, labels[f].path == []);
    next.Down? ==> next.frame in labels && labels[next.frame] == Below(labels[f], i)
  }

  // The roots are tables of their own that agree on slot 511.
  ghost predicate AreRoots(m: Memory, labels: Labels, roots: set<nat>, kernel: nat)
    requires IsMemory(m)
  {
    && Present(kernel)
    && forall r :: r in roots ==>
         r < |m| && r in labels && labels[r] == Region(Private(r), []) && Entry(m, r, 511) == kernel
  }

  // The page as the root `r` sees it: slot 511 is common to all.
  type Key = (Space, Page)

  function KeyOf(r: nat, p: Page): Key {
    (if p[0] == 511 then Shared else Private(r), p)
  }

  lemma {:induction false} WalkFollowsLabels(m: Memory, labels: Labels, f: nat, path: seq<nat>)
    requires IsMemory(m) && IsTree(m, labels) && f in labels
    requires |labels[f].path| + |path| <= 3 && forall i :: 0 <= i < |path| ==> path[i] < 512
    ensures var next := Walk(m, f, path, labels[f].path == []);
            next.Down? ==>
              && next.frame in labels && labels[next.frame].path == labels[f].path + path
              && labels[next.frame].space ==
                 if labels[f].path == [] && path != [] && path[0] == 511 then Shared else labels[f].space
    decreases |path|
  {
    if path == [] {
      assert labels[f].path + path == labels[f].path;
    } else {
      assert LeadsDown(m, labels, f, path[0]);
      var next := Follow(m, f, path[0], labels[f].path == []);
      if next.Down? {
        WalkFollowsLabels(m, labels, next.frame, path[1..]);
        assert labels[f].path + [path[0]] + path[1..] == labels[f].path + path;
      }
    }
  }

  // A page reaches the last-level table of its own region.
  lemma WalkToRegion(m: Memory, labels: Labels, roots: set<nat>, kernel: nat, r: nat, p: Page)
    requires IsMemory(m) && IsTree(m, labels) && AreRoots(m, labels, roots, kernel) && r in roots
    ensures var next := Walk(m, r, p[..3], true);
            next.Down? ==> next.frame in labels && labels[next.frame] == Region(KeyOf(r, p).0, p[..3])
  {
    WalkFollowsLabels(m, labels, r, p[..3]);
    assert [] + p[..3] == p[..3];
  }

  // Two roots reach the shared tables together.
  lemma SharedWalk(m: Memory, labels: Labels, roots: set<nat>, kernel: nat, r: nat, s: nat, p: Page)
    requires IsMemory(m) && IsTree(m, labels) && AreRoots(m, labels, roots, kernel) && r in roots && s in roots
    requires KeyOf(r, p) == KeyOf(s, p)
    ensures Walk(m, r, p[..3], true) == Walk(m, s, p[..3], true)
  {
    if r != s {
      assert p[..3][0] == 511;
    }
  }

  // ---- what the tables map -------------------------------------------------

  // The plain page map that the tables stand for.
  type View = map<Key, nat>

  ghost predicate Agrees(m: Memory, roots: set<nat>, view: View)
    requires IsMemory(m)
  {
    && (forall r, p: Page {:trigger Translate(m, r, p)} :: r in roots ==>
          Translate(m, r, p) == if KeyOf(r, p) in view then Some(view[KeyOf(r, p)]) else None)
    && (forall k :: k in view && k.0.Private? ==> k.0.root in roots)
  }

  // Everything that holds of the tables between calls.
  ghost predicate Consistent(m: Memory, labels: Labels, roots: set<nat>, kernel: nat, view: View) {
    IsMemory(m) && IsTree(m, labels) && AreRoots(m, labels, roots, kernel) && Agrees(m, roots, view)
  }

  // ---- writing a last-level entry ------------------------------------------

  // Walks do not look at last-level entries.
  lemma {:induction false} LeafWriteKeepsWalk(m: Memory, labels: Labels, t: nat, i: nat, w: nat, f: nat, path: seq<nat>)
    requires IsMemory(m) && IsTree(m, labels) && f in labels && t in labels && |labels[t].path| == 3
    requires i < 512 && w < WORD_LIMIT
    requires |labels[f].path| + |path| <= 3 && forall k :: 0 <= k < |path| ==> path[k] < 512
    ensures Walk(SetEntry(m, t, i, w), f, path, labels[f].path == []) == Walk(m, f, path, labels[f].path == [])
    decreases |path|
  {
    hide Entry, SetEntry;
    if path != [] {
      EntryOfSet(m, t, i, w, f, path[0]);
      assert LeadsDown(m, labels, f, path[0]);
      var next := Follow(m, f, path[0], labels[f].path == []);
      if next.Down? {
        LeafWriteKeepsWalk(m, labels, t, i, w, next.frame, path[1..]);
      }
    }
  }

  lemma LeafWriteKeepsTree(m: Memory, labels: Labels, roots: set<nat>, kernel: nat, t: nat, i: nat, w: nat)
    requires IsMemory(m) && IsTree(m, labels) && AreRoots(m, labels, roots, kernel)
    requires t in labels && |labels[t].path| == 3 && i < 512 && w < WORD_LIMIT
    ensures IsTree(SetEntry(m, t, i, w), labels) && AreRoots(SetEntry(m, t, i, w), labels, roots, kernel)
  {
    hide Entry, SetEntry;
    var m' := SetEntry(m, t, i, w);
    forall f, j | f in labels && 0 <= j < 512 && |labels[f].path| < 3
      ensures LeadsDown(m', labels, f, j)
    {
      assert LeadsDown(m, labels, f, j);
      EntryOfSet(m, t, i, w, f, j);
    }
    forall r | r in roots
      ensures Entry(m', r, 511) == kernel
    {
      EntryOfSet(m, t, i, w, r, 511);
    }
  }

  // Writing entry `p[3]` of the table for page `p` of root `r` changes exactly
  // the translation of that page, in every root that shares it.
  lemma LeafWrite(m: Memory, labels: Labels, roots: set<nat>, kernel: nat, view: View, r: nat, p: Page, t: nat, w: nat)
    requires Consistent(m, labels, roots, kernel, view) && r in roots
    requires Walk(m, r, p[..3], true) == Down(t) && w < WORD_LIMIT
    ensures t in labels
    ensures Consistent(SetEntry(m, t, p[3], w), labels, roots, kernel,
                       if Present(w) then view[KeyOf(r, p) := w / 4096] else view - {KeyOf(r, p)})
  {
    hide Entry, SetEntry, Walk, IsTree, LeadsDown;
    WalkToRegion(m, labels, roots, kernel, r, p);
    LabelsInMemory(m, labels, t);
    var m' := SetEntry(m, t, p[3], w);
    var view' := if Present(w) then view[KeyOf(r, p) := w / 4096] else view - {KeyOf(r, p)};
    LeafWriteKeepsTree(m, labels, roots, kernel, t, p[3], w);
    forall s, q: Page | s in roots
      ensures Translate(m', s, q) == if KeyOf(s, q) in view' then Some(view'[KeyOf(s, q)]) else None
    {
      LeafWriteTranslation(m, labels, roots, kernel, r, p, t, w, s, q);
      assert Translate(m, s, q) == if KeyOf(s, q) in view then Some(view[KeyOf(s, q)]) else None;
    }
  }

  lemma LabelsInMemory(m: Memory, labels: Labels, t: nat)
    requires IsMemory(m) && IsTree(m, labels) && t in labels
    ensures t < |m|
  {
  }

  lemma LeafWriteTranslation(m: Memory, labels: Labels, roots: set<nat>, kernel: nat, r: nat, p: Page, t: nat, w: nat,
                             s: nat, q: Page)
    requires IsMemory(m) && IsTree(m, labels) && AreRoots(m, labels, roots, kernel) && r in roots && s in roots
    requires Walk(m, r, p[..3], true) == Down(t) && t < |m| && w < WORD_LIMIT
    ensures Translate(SetEntry(m, t, p[3], w), s, q) ==
            if KeyOf(s, q) == KeyOf(r, p) then (if Present(w) then Some(w / 4096) else None) else Translate(m, s, q)
  {
    hide Entry, SetEntry, IsTree, Walk;
    assert q == q[..3] + [q[3]] && p == p[..3] + [p[3]];
    WalkToRegion(m, labels, roots, kernel, r, p);
    LeafWriteKeepsWalk(m, labels, t, p[3], w, s, q[..3]);
    WalkToRegion(m, labels, roots, kernel, s, q);
    var next := Walk(m, s, q[..3], true);
    if KeyOf(s, q) == KeyOf(r, p) {
      SharedWalk(m, labels, roots, kernel, r, s, p);
      EntryOfSet(m, t, p[3], w, t, q[3]);
    } else if next.Down? {
      LabelsInMemory(m, labels, next.frame);
      EntryOfSet(m, t, p[3], w, next.frame, q[3]);
    }
  }

  // ---- adding an empty table -----------------------------------------------

  // Zeroes frame `n` and enters it as the table below entry `i` of `f`.
  function AddTable(m: Memory, f: nat, i: nat, n: nat): (m': Memory)
    requires IsMemory(m) && f < |m| && n < |m| && i < 512
    ensures IsMemory(m') && |m'| == |m|
  {
    SetEntry(ZeroFrame(m, n), f, i, TableEntry(n))
  }

  lemma EntryOfAdd(m: Memory, f: nat, i: nat, n: nat, g: nat, j: nat)
    requires IsMemory(m) && f < |m| && n < |m| && i < 512 && g < |m| && j < 512 && f != n
    ensures Entry(AddTable(m, f, i, n), g, j) ==
            if g == f && j == i then TableEntry(n) else if g == n then 0 else Entry(m, g, j)
  {
    hide Entry, SetEntry, ZeroFrame, TableEntry;
    TableEntryMeaning(n);
    EntryOfZero(m, n, g, j);
    EntryOfSet(ZeroFrame(m, n), f, i, TableEntry(n), g, j);
  }

  lemma AddKeepsFrames(m: Memory, f: nat, i: nat, n: nat)
    requires IsMemory(m) && f < |m| && n < |m| && i < 512
    ensures forall g :: 0 <= g < |m| && g != f && g != n ==> AddTable(m, f, i, n)[g] == m[g]
  {
  }

  lemma AddKeepsTree(m: Memory, labels: Labels, roots: set<nat>, kernel: nat, f: nat, i: nat, n: nat)
    requires IsMemory(m) && IsTree(m, labels) && AreRoots(m, labels, roots, kernel)
    requires f in labels && |labels[f].path| < 3 && i < 512 && n < |m| && n !in labels
    requires Follow(m, f, i, labels[f].path == []).Absent?
    ensures var m' := AddTable(m, f, i, n);
            && IsTree(m', labels[n := Below(labels[f], i)])
            && AreRoots(m', labels[n := Below(labels[f], i)], roots, kernel)
  {
    hide Entry, AddTable, TableEntry;
    var m' := AddTable(m, f, i, n);
    var labels' := labels[n := Below(labels[f], i)];
    TableEntryMeaning(n);
    forall g, j | g in labels' && 0 <= j < 512 && |labels'[g].path| < 3
      ensures LeadsDown(m', labels', g, j)
    {
      EntryOfAdd(m, f, i, n, g, j);
      if g != n {
        assert LeadsDown(m, labels, g, j);
      }
    }
    forall r | r in roots
      ensures Entry(m', r, 511) == kernel
    {
      EntryOfAdd(m, f, i, n, r, 511);
    }
  }

  // A new table is empty, so a walk at most goes on into it.
  lemma {:induction false} AddKeepsWalk(m: Memory, labels: Labels, f: nat, i: nat, n: nat, g: nat, path: seq<nat>)
    requires IsMemory(m) && IsTree(m, labels) && f in labels && |labels[f].path| < 3 && i < 512
    requires n < |m| && n !in labels && Follow(m, f, i, labels[f].path == []).Absent?
    requires g in labels && |labels[g].path| + |path| <= 3 && forall k :: 0 <= k < |path| ==> path[k] < 512
    ensures var top := labels[g].path == [];
            var before, now := Walk(m, g, path, top), Walk(AddTable(m, f, i, n), g, path, top);
            now == before || (before == Absent && now == Down(n))
    decreases |path|
  {
    hide Entry, AddTable, TableEntry;
    if path != [] {
      TableEntryMeaning(n);
      EntryOfAdd(m, f, i, n, g, path[0]);
      assert LeadsDown(m, labels, g, path[0]);
      var next := Follow(m, g, path[0], labels[g].path == []);
      if next.Down? {
        AddKeepsWalk(m, labels, f, i, n, next.frame, path[1..]);
      } else if g == f && path[0] == i && |path| > 1 {
        EntryOfAdd(m, f, i, n, n, path[1]);
        assert path[1..][0] == path[1];
      }
    }
  }

  // Adding an empty table changes no translation.
  lemma TableAdded(m: Memory, labels: Labels, roots: set<nat>, kernel: nat, view: View, f: nat, i: nat, n: nat)
    requires Consistent(m, labels, roots, kernel, view)
    requires f in labels && |labels[f].path| < 3 && i < 512 && n < |m| && n !in labels
    requires Follow(m, f, i, labels[f].path == []).Absent?
    ensures Consistent(AddTable(m, f, i, n), labels[n := Below(labels[f], i)], roots, kernel, view)
  {
    hide Entry, AddTable, TableEntry, Walk, IsTree;
    LabelsInMemory(m, labels, f);
    AddKeepsTree(m, labels, roots, kernel, f, i, n);
    var m' := AddTable(m, f, i, n);
    forall r, p: Page | r in roots
      ensures Translate(m', r, p) == Translate(m, r, p)
    {
      AddKeepsWalk(m, labels, f, i, n, r, p[..3]);
      WalkToRegion(m, labels, roots, kernel, r, p);
      EntryOfAdd(m, f, i, n, n, p[3]);
      var next := Walk(m, r, p[..3], true);
      if next.Down? {
        LabelsInMemory(m, labels, next.frame);
        EntryOfAdd(m, f, i, n, next.frame, p[3]);
      }
    }
  }

  // ---- a new root ----------------------------------------------------------

  // Zeroes frame `n` and copies the kernel's slot 511 into it.
  function AddRoot(m: Memory, n: nat, kernel: nat): (m': Memory)
    requires IsMemory(m) && n < |m|
    ensures IsMemory(m') && |m'| == |m|
  {
    SetEntry(ZeroFrame(m, n), n, 511, kernel)
  }

  lemma EntryOfRoot(m: Memory, n: nat, kernel: nat, g: nat, j: nat)
    requires IsMemory(m) && n < |m| && g < |m| && j < 512 && kernel < WORD_LIMIT
    ensures Entry(AddRoot(m, n, kernel), g, j) ==
            if g == n then (if j == 511 then kernel else 0) else Entry(m, g, j)
  {
    hide Entry, SetEntry, ZeroFrame;
    EntryOfZero(m, n, g, j);
    EntryOfSet(ZeroFrame(m, n), n, 511, kernel, g, j);
  }

  // A walk that does not start at the new root never sees it.
  lemma {:induction false} RootKeepsWalk(m: Memory, labels: Labels, n: nat, kernel: nat, g: nat, path: seq<nat>)
    requires IsMemory(m) && IsTree(m, labels) && n < |m| && n !in labels && kernel < WORD_LIMIT
    requires g in labels && |labels[g].path| + |path| <= 3 && forall k :: 0 <= k < |path| ==> path[k] < 512
    ensures Walk(AddRoot(m, n, kernel), g, path, labels[g].path == []) == Walk(m, g, path, labels[g].path == [])
    decreases |path|
  {
    hide Entry, AddRoot;
    if path != [] {
      EntryOfRoot(m, n, kernel, g, path[0]);
      assert LeadsDown(m, labels, g, path[0]);
      var next := Follow(m, g, path[0], labels[g].path == []);
      if next.Down? {
        RootKeepsWalk(m, labels, n, kernel, next.frame, path[1..]);
      }
    }
  }

  lemma RootKeepsTree(m: Memory, labels: Labels, roots: set<nat>, kernel: nat, n: nat, k: nat)
    requires IsMemory(m) && IsTree(m, labels) && AreRoots(m, labels, roots, kernel) && k in roots
    requires n < |m| && n !in labels && kernel < WORD_LIMIT
    ensures var m' := AddRoot(m, n, kernel);
            && IsTree(m', labels[n := Region(Private(n), [])])
            && AreRoots(m', labels[n := Region(Private(n), [])], roots + {n}, kernel)
  {
    hide Entry, AddRoot;
    var m' := AddRoot(m, n, kernel);
    var labels' := labels[n := Region(Private(n), [])];
    forall g, j | g in labels' && 0 <= j < 512 && |labels'[g].path| < 3
      ensures LeadsDown(m', labels', g, j)
    {
      EntryOfRoot(m, n, kernel, g, j);
      if g != n {
        assert LeadsDown(m, labels, g, j);
      } else if j == 511 {
        assert LeadsDown(m, labels, k, 511);
      }
    }
    forall r | r in roots + {n}
      ensures Entry(m', r, 511) == kernel
    {
      EntryOfRoot(m, n, kernel, r, 511);
    }
  }

  lemma RootAdded(m: Memory, labels: Labels, roots: set<nat>, kernel: nat, view: View, n: nat, k: nat)
    requires Consistent(m, labels, roots, kernel, view) && k in roots
    requires n < |m| && n !in labels && kernel < WORD_LIMIT
    ensures Consistent(AddRoot(m, n, kernel), labels[n := Region(Private(n), [])], roots + {n}, kernel, view)
  {
    hide Entry, AddRoot, Walk, IsTree;
    RootKeepsTree(m, labels, roots, kernel, n, k);
    var m' := AddRoot(m, n, kernel);
    forall r, p: Page | r in roots + {n}
      ensures Translate(m', r, p) == if KeyOf(r, p) in view then Some(view[KeyOf(r, p)]) else None
    {
      if r != n {
        RootKeepsTranslation(m, labels, roots, kernel, n, r, p);
      } else if p[0] == 511 {
        RootSharesKernel(m, labels, roots, kernel, n, k, p);
        assert KeyOf(r, p) == KeyOf(k, p);
        assert Translate(m, k, p) == if KeyOf(k, p) in view then Some(view[KeyOf(k, p)]) else None;
      } else {
        RootIsEmpty(m, n, kernel, p);
        assert n !in roots;
      }
    }
  }

  lemma RootKeepsTranslation(m: Memory, labels: Labels, roots: set<nat>, kernel: nat, n: nat, r: nat, p: Page)
    requires IsMemory(m) && IsTree(m, labels) && AreRoots(m, labels, roots, kernel) && r in roots
    requires n < |m| && n !in labels && kernel < WORD_LIMIT
    ensures Translate(AddRoot(m, n, kernel), r, p) == Translate(m, r, p)
  {
    hide Entry, AddRoot, Walk, IsTree;
    RootKeepsWalk(m, labels, n, kernel, r, p[..3]);
    WalkToRegion(m, labels, roots, kernel, r, p);
    var next := Walk(m, r, p[..3], true);
    if next.Down? {
      LabelsInMemory(m, labels, next.frame);
      EntryOfRoot(m, n, kernel, next.frame, p[3]);
    }
  }

  lemma RootSharesKernel(m: Memory, labels: Labels, roots: set<nat>, kernel: nat, n: nat, k: nat, p: Page)
    requires IsMemory(m) && IsTree(m, labels) && AreRoots(m, labels, roots, kernel) && k in roots
    requires n < |m| && n !in labels && kernel < WORD_LIMIT && p[0] == 511
    ensures Translate(AddRoot(m, n, kernel), n, p) == Translate(m, k, p)
  {
    hide Entry, AddRoot;
    var m' := AddRoot(m, n, kernel);
    RootKeepsTranslation(m, labels, roots, kernel, n, k, p);
    EntryOfRoot(m, n, kernel, n, 511);
    EntryOfRoot(m, n, kernel, k, 511);
    assert p[..3][0] == 511;
    assert Walk(m', n, p[..3], true) == Walk(m', k, p[..3], true);
  }

  lemma RootIsEmpty(m: Memory, n: nat, kernel: nat, p: Page)
    requires IsMemory(m) && n < |m| && kernel < WORD_LIMIT && p[0] != 511
    ensures Translate(AddRoot(m, n, kernel), n, p) == None
  {
    hide Entry, AddRoot;
    EntryOfRoot(m, n, kernel, n, p[0]);
    assert p[..3][0] == p[0];
  }

  function PutByte(m: Memory, pa: nat, b: Byte): (m': Memory)
    requires IsMemory(m) && pa / 4096 < |m|
    ensures IsMemory(m') && |m'| == |m|
  {
    var page: seq<Byte> := m[pa / 4096];
    m[pa / 4096 := page[pa % 4096 := b]]
  }

  // ---- frames that hold no table -------------------------------------------

  lemma {:induction false} DataWriteKeepsWalk(m: Memory, labels: Labels, n: nat, page: seq<Byte>, g: nat,
                                              path: seq<nat>)
    requires IsMemory(m) && IsTree(m, labels) && n < |m| && n !in labels && |page| == 4096
    requires g in labels && |labels[g].path| + |path| <= 3 && forall k :: 0 <= k < |path| ==> path[k] < 512
    ensures Walk(m[n := page], g, path, labels[g].path == []) == Walk(m, g, path, labels[g].path == [])
    decreases |path|
  {
    hide WordAt;
    if path != [] {
      assert LeadsDown(m, labels, g, path[0]);
      assert Entry(m[n := page], g, path[0]) == Entry(m, g, path[0]);
      var next := Follow(m, g, path[0], labels[g].path == []);
      if next.Down? {
        DataWriteKeepsWalk(m, labels, n, page, next.frame, path[1..]);
      }
    }
  }

  // Changing a frame that is no table changes no translation.
  lemma DataWrite(m: Memory, labels: Labels, roots: set<nat>, kernel: nat, view: View, n: nat, page: seq<Byte>)
    requires Consistent(m, labels, roots, kernel, view)
    requires n < |m| && n !in labels && |page| == 4096
    ensures Consistent(m[n := page], labels, roots, kernel, view)
  {
    hide WordAt, Walk;
    var m' := m[n := page];
    forall g, j | g in labels && 0 <= j < 512 && |labels[g].path| < 3
      ensures LeadsDown(m', labels, g, j)
    {
      assert LeadsDown(m, labels, g, j);
      assert Entry(m', g, j) == Entry(m, g, j);
    }
    forall r, p: Page | r in roots
      ensures Translate(m', r, p) == Translate(m, r, p)
    {
      DataWriteKeepsWalk(m, labels, n, page, r, p[..3]);
      WalkToRegion(m, labels, roots, kernel, r, p);
      var next := Walk(m, r, p[..3], true);
      if next.Down? {
        assert Entry(m', next.frame, p[3]) == Entry(m, next.frame, p[3]);
      }
    }
    forall r | r in roots
      ensures Entry(m', r, 511) == kernel
    {
      assert Entry(m', r, 511) == Entry(m, r, 511);
    }
  }
}
