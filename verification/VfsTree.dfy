// The node table of the file system as a tree, and paths through it.
module VfsTree {

  const NAME_MAX := 64
  const ROOT := 0

  datatype Kind = File | Dir | Chr
  datatype Node = Node(used: bool, kind: Kind, inode: nat, parent: nat, name: string)
  type Table = seq<Node>

  // ---- looking nodes up ----------------------------------------------------

  predicate IsNode(t: Table, i: nat, inode: nat) {
    i < |t| && t[i].used && t[i].inode == inode
  }

  predicate IsChild(t: Table, i: nat, parent: nat, name: string) {
    i < |t| && t[i].used && t[i].parent == parent && t[i].name == name
  }

  // The slot of an inode from `i` on; |t| for none.
  function FindNode(t: Table, inode: nat, i: nat): (r: nat)
    requires i <= |t|
    ensures i <= r <= |t| && (r < |t| ==> IsNode(t, r, inode))
    ensures forall k: nat {:trigger IsNode(t, k, inode)} :: i <= k < r ==> !IsNode(t, k, inode)
    decreases |t| - i
  {
    if i == |t| || IsNode(t, i, inode) then i else FindNode(t, inode, i + 1)
  }

  // The slot of the first child of that name from `i` on; |t| for none.
  function FindChild(t: Table, parent: nat, name: string, i: nat): (r: nat)
    requires i <= |t|
    ensures i <= r <= |t| && (r < |t| ==> IsChild(t, r, parent, name))
    ensures forall k: nat {:trigger IsChild(t, k, parent, name)} :: i <= k < r ==> !IsChild(t, k, parent, name)
    decreases |t| - i
  {
    if i == |t| || IsChild(t, i, parent, name) then i else FindChild(t, parent, name, i + 1)
  }

  // The child's inode, or -1.
  function Child(t: Table, parent: nat, name: string): (r: int)
    ensures r >= -1
  {
    var k := FindChild(t, parent, name, 0);
    if k < |t| then t[k].inode else -1
  }

  function ParentOf(t: Table, inode: nat): nat {
    var k := FindNode(t, inode, 0);
    if k < |t| then t[k].parent else inode
  }

  predicate IsDir(t: Table, inode: nat) {
    var k := FindNode(t, inode, 0);
    k < |t| && t[k].kind == Dir
  }

  // ---- walking -------------------------------------------------------------

  function Step(t: Table, cur: nat, name: string): (r: int)
    ensures r >= -1
  {
    if name == "." then cur else if name == ".." then ParentOf(t, cur) else Child(t, cur, name)
  }

  function Walk(t: Table, cur: nat, names: seq<string>): (r: int)
    ensures r >= -1
    decreases |names|
  {
    if names == [] then cur
    else
      var next := Step(t, cur, names[0]);
      if next < 0 then -1 else Walk(t, next, names[1..])
  }

  lemma {:induction false} WalkLast(t: Table, cur: nat, names: seq<string>, last: string)
    ensures Walk(t, cur, names + [last]) ==
      if Walk(t, cur, names) < 0 then -1 else Step(t, Walk(t, cur, names), last)
    decreases |names|
  {
    if names == [] {
      assert (names + [last])[1..] == [];
    } else {
      assert (names + [last])[1..] == names[1..] + [last];
      var next := Step(t, cur, names[0]);
      if next >= 0 {
        WalkLast(t, next, names[1..], last);
      }
    }
  }

  // ---- paths ---------------------------------------------------------------

  // How long the first component is: up to a slash, the end, or the limit.
  function ComponentLength(path: string): (n: nat)
    ensures n <= |path| && n < NAME_MAX && forall k :: 0 <= k < n ==> path[k] != '/'
    ensures n < |path| && n < NAME_MAX - 1 ==> path[n] == '/'
  {
    LengthFrom(path, 0)
  }

  function LengthFrom(path: string, n: nat): (r: nat)
    requires n <= |path| && n < NAME_MAX
    ensures n <= r <= |path| && r < NAME_MAX && forall k :: n <= k < r ==> path[k] != '/'
    ensures r < |path| && r < NAME_MAX - 1 ==> path[r] == '/'
    decreases |path| - n
  {
    if n < |path| && path[n] != '/' && n < NAME_MAX - 1 then LengthFrom(path, n + 1) else n
  }

  // What follows the first component, past one slash.
  function AfterComponent(path: string): (rest: string)
    requires path != ""
    ensures |rest| < |path|
  {
    var n := ComponentLength(path);
    if n < |path| && path[n] == '/' then path[n + 1..] else path[n..]
  }

  function Components(path: string): seq<string>
    decreases |path|
  {
    if path == "" then [] else [path[..ComponentLength(path)]] + Components(AfterComponent(path))
  }

  // The inode a path leads to, or -1.
  function Resolve(t: Table, cwd: nat, path: string): (r: int)
    ensures r >= -1
  {
    if path == "" then cwd
    else if path[0] == '/' then Walk(t, ROOT, Components(path[1..]))
    else Walk(t, cwd, Components(path))
  }

  // ---- proper paths --------------------------------------------------------

  // A component that fits the name field.
  predicate Proper(name: string) {
    0 < |name| < NAME_MAX && forall k :: 0 <= k < |name| ==> name[k] != '/'
  }

  predicate AllProper(names: seq<string>) {
    forall i :: 0 <= i < |names| ==> Proper(names[i])
  }

  // Components with one slash between them.
  function Join(names: seq<string>): (p: string)
    ensures names == [] ==> p == ""
  {
    if names == [] then ""
    else if |names| == 1 then names[0]
    else names[0] + "/" + Join(names[1..])
  }

  function PathOf(absolute: bool, names: seq<string>): string {
    if absolute then "/" + Join(names) else Join(names)
  }

  lemma {:induction false} LengthIs(path: string, n: nat, from: nat)
    requires from <= n <= |path| && n < NAME_MAX && (n == |path| || path[n] == '/')
    requires forall k :: 0 <= k < n ==> path[k] != '/'
    ensures LengthFrom(path, from) == n
    decreases n - from
  {
    if from < n {
      LengthIs(path, n, from + 1);
    }
  }

  lemma {:induction false} ComponentsOfJoin(names: seq<string>)
    requires AllProper(names)
    ensures Components(Join(names)) == names
    ensures names != [] ==> Join(names) != "" && Join(names)[0] != '/'
    decreases |names|
  {
    if names != [] {
      var first, rest := names[0], names[1..];
      var path := Join(names);
      assert Proper(first);
      assert path[..|first|] == first && (|path| > |first| ==> path[|first|] == '/');
      assert forall k :: 0 <= k < |first| ==> path[k] == first[k];
      LengthIs(path, |first|, 0);
      ComponentsOfJoin(rest);
      if |names| == 1 {
        assert AfterComponent(path) == "";
        assert names == [first];
      } else {
        assert path[|first| + 1..] == Join(rest);
        assert names == [first] + rest;
      }
    }
  }

  // A proper path is walked name by name.
  lemma ResolveIsWalk(t: Table, cwd: nat, absolute: bool, names: seq<string>)
    requires AllProper(names)
    ensures Resolve(t, cwd, PathOf(absolute, names)) == Walk(t, if absolute then ROOT else cwd, names)
  {
    hide Components, Walk, Join;
    ComponentsOfJoin(names);
    assert ("/" + Join(names))[1..] == Join(names);
    WalkNothing(t, cwd);
  }

  lemma WalkNothing(t: Table, cur: nat)
    ensures Walk(t, cur, []) == cur
  {
  }

  // ---- the tree ------------------------------------------------------------

  const SLOTS := 256
  const THE_ROOT := Node(true, Dir, ROOT, ROOT, "/")

  // A node other than the root hangs below an older directory.
  predicate Hangs(t: Table, next: nat, i: nat) {
    i < |t| && (t[i].used && i > 0 ==>
      && 0 < t[i].inode < next && t[i].parent < t[i].inode && IsDir(t, t[i].parent)
      && Proper(t[i].name) && t[i].name != "." && t[i].name != "..")
  }

  // Two nodes differ in inode, and in name if they are siblings.
  predicate Differ(t: Table, i: nat, j: nat) {
    i < |t| && j < |t| && (t[i].used && t[j].used && i != j ==>
      t[i].inode != t[j].inode && (t[i].parent == t[j].parent ==> t[i].name != t[j].name))
  }

  // Parents are older than their children, so every node hangs from the root.
  ghost predicate Tree(t: Table, next: nat) {
    && |t| == SLOTS && t[0] == THE_ROOT && next > 0
    && (forall i: nat {:trigger Hangs(t, next, i)} :: i < SLOTS ==> Hangs(t, next, i))
    && (forall i: nat, j: nat {:trigger Differ(t, i, j)} :: i < SLOTS && j < SLOTS ==> Differ(t, i, j))
  }

  lemma NodeIs(t: Table, next: nat, i: nat)
    requires Tree(t, next) && i < SLOTS && t[i].used
    ensures FindNode(t, t[i].inode, 0) == i
  {
    assert IsNode(t, i, t[i].inode);
    assert Differ(t, i, FindNode(t, t[i].inode, 0));
  }

  lemma ChildIs(t: Table, next: nat, i: nat)
    requires Tree(t, next) && i < SLOTS && t[i].used
    ensures Child(t, t[i].parent, t[i].name) == t[i].inode
  {
    assert IsChild(t, i, t[i].parent, t[i].name);
    assert Differ(t, i, FindChild(t, t[i].parent, t[i].name, 0));
  }

  // ---- creating ------------------------------------------------------------

  predicate CanCreate(t: Table, next: nat, k: nat, parent: nat, leaf: string) {
    && k < |t| && !t[k].used && IsDir(t, parent) && Child(t, parent, leaf) < 0
    && Proper(leaf) && leaf != "." && leaf != ".."
  }

  function WithNode(t: Table, next: nat, k: nat, kind: Kind, parent: nat, leaf: string): Table
    requires k < |t|
  {
    t[k := Node(true, kind, next, parent, leaf)]
  }

  // Looking up an older inode finds the same slot after a creation.
  lemma SameNode(t: Table, next: nat, k: nat, node: Node, inode: nat)
    requires Tree(t, next) && k < SLOTS && !t[k].used && node.used && node.inode != inode
    ensures FindNode(t[k := node], inode, 0) == FindNode(t, inode, 0)
  {
    var t' := t[k := node];
    var a, b := FindNode(t, inode, 0), FindNode(t', inode, 0);
    if a < |t| {
      assert IsNode(t', a, inode);
      assert IsNode(t, b, inode);
      assert Differ(t, a, b);
    } else if b < |t| {
      assert IsNode(t, b, inode);
      assert false;
    }
  }

  lemma ParentIsDirStill(t: Table, next: nat, k: nat, node: Node, inode: nat)
    requires Tree(t, next) && k < SLOTS && !t[k].used && node.used && node.inode != inode && IsDir(t, inode)
    ensures IsDir(t[k := node], inode)
  {
    SameNode(t, next, k, node, inode);
    assert IsNode(t, FindNode(t, inode, 0), inode);
  }

  lemma CreateKeepsTree(t: Table, next: nat, k: nat, kind: Kind, parent: nat, leaf: string)
    requires Tree(t, next) && CanCreate(t, next, k, parent, leaf) && k > 0
    ensures Tree(WithNode(t, next, k, kind, parent, leaf), next + 1)
  {
    var node := Node(true, kind, next, parent, leaf);
    var t', next' := t[k := node], next + 1;
    OlderThan(t, next, FindNode(t, parent, 0));
    forall i: nat | i < SLOTS
      ensures Hangs(t', next', i)
    {
      assert Hangs(t, next, i);
      if i == k {
        ParentIsDirStill(t, next, k, node, parent);
      } else if t[i].used && i > 0 {
        ParentIsDirStill(t, next, k, node, t[i].parent);
      }
    }
    forall i: nat, j: nat | i < SLOTS && j < SLOTS
      ensures Differ(t', i, j)
    {
      assert Differ(t, i, j) && Differ(t, j, i);
      if i == k && t[j].used {
        OlderThan(t, next, j);
        assert !IsChild(t, j, parent, leaf);
      } else if j == k && t[i].used {
        OlderThan(t, next, i);
        assert !IsChild(t, i, parent, leaf);
      }
    }
  }

  lemma OlderThan(t: Table, next: nat, i: nat)
    requires Tree(t, next) && i < SLOTS && t[i].used
    ensures t[i].inode < next
  {
    assert Hangs(t, next, i);
  }

  // A step that leads somewhere leads there still.
  lemma StepKept(t: Table, next: nat, k: nat, kind: Kind, parent: nat, leaf: string, cur: nat, name: string)
    requires Tree(t, next) && CanCreate(t, next, k, parent, leaf) && k > 0 && cur < next && Step(t, cur, name) >= 0
    ensures Step(WithNode(t, next, k, kind, parent, leaf), cur, name) == Step(t, cur, name) < next
  {
    var t' := WithNode(t, next, k, kind, parent, leaf);
    if name == ".." {
      SameNode(t, next, k, t'[k], cur);
      var a := FindNode(t, cur, 0);
      if a < |t| {
        assert Hangs(t, next, a);
      }
    } else if name != "." {
      var a, b := FindChild(t, cur, name, 0), FindChild(t', cur, name, 0);
      assert IsChild(t', a, cur, name);
      assert Hangs(t, next, a);
      assert b != k by {
        assert !IsChild(t, a, parent, leaf) by {
          assert FindChild(t, parent, leaf, 0) == |t|;
        }
      }
      assert IsChild(t, b, cur, name);
      assert Differ(t, a, b);
    }
  }

  // Every path that led somewhere leads there still.
  lemma {:induction false} WalkKept(t: Table, next: nat, k: nat, kind: Kind, parent: nat, leaf: string,
                                    cur: nat, names: seq<string>)
    requires Tree(t, next) && CanCreate(t, next, k, parent, leaf) && k > 0 && cur < next && Walk(t, cur, names) >= 0
    ensures Walk(WithNode(t, next, k, kind, parent, leaf), cur, names) == Walk(t, cur, names)
    decreases |names|
  {
    if names != [] {
      StepKept(t, next, k, kind, parent, leaf, cur, names[0]);
      WalkKept(t, next, k, kind, parent, leaf, Step(t, cur, names[0]), names[1..]);
    }
  }

  // The path of a created node leads to it, from wherever the parent's path starts.
  lemma CreatedIsFound(t: Table, next: nat, k: nat, kind: Kind, parent: nat, leaf: string, cur: nat, names: seq<string>)
    requires Tree(t, next) && CanCreate(t, next, k, parent, leaf) && k > 0 && cur < next
    requires Walk(t, cur, names) == parent
    ensures Walk(WithNode(t, next, k, kind, parent, leaf), cur, names + [leaf]) == next
  {
    var t' := WithNode(t, next, k, kind, parent, leaf);
    WalkKept(t, next, k, kind, parent, leaf, cur, names);
    WalkLast(t', cur, names, leaf);
    CreateKeepsTree(t, next, k, kind, parent, leaf);
    ChildIs(t', next + 1, k);
  }

  // ---- removing ------------------------------------------------------------

  function Gone(): Node {
    Node(false, File, 0, 0, "")
  }

  predicate CanRemove(t: Table, k: nat) {
    0 < k < |t| && t[k].used
    && (t[k].kind == Dir ==> forall i: nat {:trigger t[i]} :: i < |t| && t[i].used ==> t[i].parent != t[k].inode)
  }

  lemma RemoveKeepsTree(t: Table, next: nat, k: nat)
    requires Tree(t, next) && CanRemove(t, k)
    ensures Tree(t[k := Gone()], next)
  {
    var t' := t[k := Gone()];
    forall i: nat | i < SLOTS
      ensures Hangs(t', next, i)
    {
      assert Hangs(t, next, i);
      if t[i].used && i > 0 && i != k {
        NotBelow(t, next, k, i);
        SameNodeGone(t, next, k, t[i].parent);
      }
    }
    forall i: nat, j: nat | i < SLOTS && j < SLOTS
      ensures Differ(t', i, j)
    {
      assert Differ(t, i, j);
    }
  }

  // Nothing hangs below what can be removed.
  lemma NotBelow(t: Table, next: nat, k: nat, i: nat)
    requires Tree(t, next) && CanRemove(t, k) && i < SLOTS && t[i].used && i > 0
    ensures t[i].parent != t[k].inode
  {
    assert Hangs(t, next, i);
    NodeIs(t, next, k);
  }

  lemma SameNodeGone(t: Table, next: nat, k: nat, inode: nat)
    requires Tree(t, next) && k < SLOTS && t[k].used && t[k].inode != inode
    ensures FindNode(t[k := Gone()], inode, 0) == FindNode(t, inode, 0)
  {
    var t' := t[k := Gone()];
    var a, b := FindNode(t, inode, 0), FindNode(t', inode, 0);
    if a < |t| {
      assert IsNode(t', a, inode);
      assert IsNode(t, b, inode);
      assert Differ(t, a, b);
    } else if b < |t| {
      assert IsNode(t, b, inode);
      assert false;
    }
  }

  // Whether a walk comes to the inode.
  predicate Visits(t: Table, cur: nat, names: seq<string>, inode: nat)
    decreases |names|
  {
    cur == inode || (names != [] && Step(t, cur, names[0]) >= 0 && Visits(t, Step(t, cur, names[0]), names[1..], inode))
  }

  lemma StepKeptGone(t: Table, next: nat, k: nat, cur: nat, name: string)
    requires Tree(t, next) && CanRemove(t, k) && cur != t[k].inode && Step(t, cur, name) != t[k].inode
    ensures Step(t[k := Gone()], cur, name) == Step(t, cur, name)
  {
    var t' := t[k := Gone()];
    if name == ".." {
      SameNodeGone(t, next, k, cur);
    } else if name != "." {
      var a, b := FindChild(t, cur, name, 0), FindChild(t', cur, name, 0);
      if a < |t| {
        assert IsChild(t', a, cur, name);
        assert IsChild(t, b, cur, name);
        assert Differ(t, a, b);
      } else if b < |t| {
        assert IsChild(t, b, cur, name);
        assert false;
      }
    }
  }

  // Every walk that does not come to the removed node goes as before.
  lemma {:induction false} WalkKeptGone(t: Table, next: nat, k: nat, cur: nat, names: seq<string>)
    requires Tree(t, next) && CanRemove(t, k) && !Visits(t, cur, names, t[k].inode)
    ensures Walk(t[k := Gone()], cur, names) == Walk(t, cur, names)
    decreases |names|
  {
    if names != [] {
      StepKeptGone(t, next, k, cur, names[0]);
      if Step(t, cur, names[0]) >= 0 {
        WalkKeptGone(t, next, k, Step(t, cur, names[0]), names[1..]);
      }
    }
  }

  // ---- the path of a node --------------------------------------------------

  // The names from the root down to a node.
  function NamesOf(t: Table, inode: nat): seq<string>
    decreases inode
  {
    var k := FindNode(t, inode, 0);
    if inode == ROOT || k == |t| || t[k].parent >= inode then [] else NamesOf(t, t[k].parent) + [t[k].name]
  }

  lemma {:induction false} NamesLeadThere(t: Table, next: nat, inode: nat)
    requires Tree(t, next) && (inode == ROOT || FindNode(t, inode, 0) < |t|)
    ensures Walk(t, ROOT, NamesOf(t, inode)) == inode && AllProper(NamesOf(t, inode))
    ensures inode != ROOT ==> NamesOf(t, inode) != []
    decreases inode
  {
    if inode != ROOT {
      var k := FindNode(t, inode, 0);
      assert Hangs(t, next, k);
      NamesLeadThere(t, next, t[k].parent);
      WalkLast(t, ROOT, NamesOf(t, t[k].parent), t[k].name);
      ChildIs(t, next, k);
    }
  }

  // Each name after a slash.
  function Rooted(names: seq<string>): string {
    if names == [] then "" else Rooted(names[..|names| - 1]) + "/" + names[|names| - 1]
  }

  lemma {:induction false} JoinLast(names: seq<string>, last: string)
    ensures Join(names + [last]) == if names == [] then last else Join(names) + "/" + last
    decreases |names|
  {
    if names != [] {
      assert (names + [last])[1..] == names[1..] + [last];
      JoinLast(names[1..], last);
      if |names| == 1 {
        assert names[1..] == [];
      } else {
        assert Join(names) == names[0] + "/" + Join(names[1..]);
      }
    }
  }

  lemma {:induction false} RootedIsPath(names: seq<string>)
    requires names != []
    ensures Rooted(names) == PathOf(true, names)
    decreases |names|
  {
    var n := |names| - 1;
    JoinLast(names[..n], names[n]);
    assert names[..n] + [names[n]] == names;
    if n > 0 {
      RootedIsPath(names[..n]);
    }
  }

  // The path that is given out for a directory.
  function PathName(t: Table, inode: nat): string {
    if inode == ROOT then "/" else Rooted(NamesOf(t, inode))
  }

  // Following the path of a live node leads back to it, whatever the current
  // directory is.
  lemma PathNameLeadsBack(t: Table, next: nat, inode: nat, cwd: nat)
    requires Tree(t, next) && (inode == ROOT || FindNode(t, inode, 0) < |t|)
    ensures Resolve(t, cwd, PathName(t, inode)) == inode
  {
    NamesLeadThere(t, next, inode);
    if inode == ROOT {
      WalkNothing(t, ROOT);
      assert Components("") == [];
    } else {
      RootedIsPath(NamesOf(t, inode));
      ResolveIsWalk(t, cwd, true, NamesOf(t, inode));
    }
  }

  // ---- creation by path ----------------------------------------------------

  // The last slash; -1 for none.
  function LastSlash(path: string): (r: int)
    ensures -1 <= r < |path| && (r >= 0 ==> path[r] == '/')
    ensures forall k :: r < k < |path| ==> path[k] != '/'
  {
    if path == "" then -1
    else if path[|path| - 1] == '/' then |path| - 1
    else LastSlash(path[..|path| - 1])
  }

  function Cut(s: string, n: nat): string {
    if |s| > n then s[..n] else s
  }

  // What comes before the last slash, as far as the buffer goes.
  function ParentPath(path: string): string {
    var k := LastSlash(path);
    if k < 0 then "" else if k == 0 then "/" else Cut(path[..k], 255)
  }

  function Leaf(path: string): string {
    Cut(path[LastSlash(path) + 1..], NAME_MAX - 1)
  }

  function FirstFree(t: Table, i: nat): (r: nat)
    requires i <= |t|
    ensures i <= r <= |t| && (r < |t| ==> !t[r].used) && forall k :: i <= k < r ==> t[k].used
    decreases |t| - i
  {
    if i == |t| || !t[i].used then i else FirstFree(t, i + 1)
  }

  datatype Made = Refused | Made(table: Table)

  // Creating a node at a path that leads nowhere yet. Opening a file does not
  // ask for a leaf; the others do.
  function Create(t: Table, next: nat, cwd: nat, path: string, kind: Kind, asksLeaf: bool): Made {
    var parent := Resolve(t, cwd, ParentPath(path));
    var k := FirstFree(t, 0);
    if Resolve(t, cwd, path) >= 0 || parent < 0 || (asksLeaf && Leaf(path) == "") || !IsDir(t, parent) || k == |t|
    then Refused
    else Made(WithNode(t, next, k, kind, parent, Leaf(path)))
  }

  lemma {:induction false} LastSlashIs(path: string, k: nat)
    requires k < |path| && path[k] == '/' && forall j :: k < j < |path| ==> path[j] != '/'
    ensures LastSlash(path) == k
  {
    assert path[LastSlash(path)] == '/';
  }

  lemma ParentAndLeaf(absolute: bool, names: seq<string>, leaf: string)
    requires AllProper(names) && Proper(leaf) && |PathOf(absolute, names + [leaf])| <= 256
    ensures ParentPath(PathOf(absolute, names + [leaf])) == PathOf(absolute, names)
    ensures Leaf(PathOf(absolute, names + [leaf])) == leaf
  {
    hide Components;
    JoinLast(names, leaf);
    ComponentsOfJoin(names);
    hide Join, AllProper;
    var dir := PathOf(absolute, names);
    var path := PathOf(absolute, names + [leaf]);
    if names == [] {
      if absolute {
        assert dir == "/" && path == "" + "/" + leaf;
        LeafAfterSlash("", leaf);
      } else {
        NoSlash(leaf);
      }
    } else {
      assert path == dir + "/" + leaf;
      LeafAfterSlash(dir, leaf);
    }
  }

  lemma LeafAfterSlash(dir: string, leaf: string)
    requires Proper(leaf) && |dir| + 1 + |leaf| <= 256
    ensures ParentPath(dir + "/" + leaf) == (if dir == "" then "/" else dir) && Leaf(dir + "/" + leaf) == leaf
  {
    var path := dir + "/" + leaf;
    assert forall k :: |dir| < k < |path| ==> path[k] == leaf[k - |dir| - 1];
    LastSlashIs(path, |dir|);
    assert path[|dir| + 1..] == leaf && path[..|dir|] == dir;
  }

  lemma NoSlash(leaf: string)
    requires Proper(leaf)
    ensures ParentPath(leaf) == "" && Leaf(leaf) == leaf
  {
    hide LastSlash;
    assert LastSlash(leaf) == -1;
    assert leaf[0..] == leaf;
  }

  // The live node of that number, and what it is.
  predicate KindIs(t: Table, inode: nat, kind: Kind) {
    var k := FindNode(t, inode, 0);
    k < |t| && t[k].kind == kind
  }

  predicate HasRoom(t: Table) {
    exists i :: 0 <= i < |t| && !t[i].used
  }

  // At a proper path a node can be made exactly when the path before the leaf leads
  // to a directory without such a child, and a slot is free.
  lemma CreationIff(t: Table, next: nat, cwd: nat, absolute: bool, names: seq<string>, leaf: string,
                    kind: Kind, asksLeaf: bool)
    requires Tree(t, next) && cwd < next && AllProper(names + [leaf]) && |PathOf(absolute, names + [leaf])| <= 256
    ensures var parent := Walk(t, if absolute then ROOT else cwd, names);
            Create(t, next, cwd, PathOf(absolute, names + [leaf]), kind, asksLeaf).Made? <==>
            parent >= 0 && IsDir(t, parent) && Step(t, parent, leaf) < 0 && HasRoom(t)
  {
    hide PathOf, Walk, Components, LastSlash, FindNode, FindChild, IsDir, Step, Leaf, ParentPath, Resolve, Join;
    LastIsProper(names, leaf);
    ParentAndLeaf(absolute, names, leaf);
    ResolveIsWalk(t, cwd, absolute, names);
    ResolveIsWalk(t, cwd, absolute, names + [leaf]);
    WalkLast(t, if absolute then ROOT else cwd, names, leaf);
    var k := FirstFree(t, 0);
    assert HasRoom(t) <==> k < |t|;
  }

  lemma LastIsProper(names: seq<string>, leaf: string)
    requires AllProper(names + [leaf])
    ensures AllProper(names) && Proper(leaf)
  {
    var all := names + [leaf];
    assert all[|names|] == leaf && Proper(all[|names|]);
    assert forall i :: 0 <= i < |names| ==> names[i] == all[i];
  }

  // The new node is what was asked for, below the directory and with the name that
  // the path says; every other slot is as it was.
  lemma MadeAsAsked(t: Table, next: nat, cwd: nat, absolute: bool, names: seq<string>, leaf: string,
                    kind: Kind, asksLeaf: bool)
    requires Tree(t, next) && cwd < next && AllProper(names + [leaf]) && |PathOf(absolute, names + [leaf])| <= 256
    requires Create(t, next, cwd, PathOf(absolute, names + [leaf]), kind, asksLeaf).Made?
    ensures var t' := Create(t, next, cwd, PathOf(absolute, names + [leaf]), kind, asksLeaf).table;
            && KindIs(t', next, kind) && |t'| == |t|
            && var k := FindNode(t', next, 0);
               && !t[k].used && t'[k].name == leaf && t'[k].parent == Walk(t, if absolute then ROOT else cwd, names)
               && forall i: nat :: i < |t| && i != k ==> t'[i] == t[i]
  {
    hide PathOf, Walk, Components, LastSlash, FindChild, Leaf, ParentPath, Resolve, Join, IsDir;
    LastIsProper(names, leaf);
    ParentAndLeaf(absolute, names, leaf);
    ResolveIsWalk(t, cwd, absolute, names);
    var t' := Create(t, next, cwd, PathOf(absolute, names + [leaf]), kind, asksLeaf).table;
    NewIsFound(t, next, FirstFree(t, 0), t'[FirstFree(t, 0)]);
  }

  lemma NewIsFound(t: Table, next: nat, k: nat, node: Node)
    requires Tree(t, next) && k < |t| && !t[k].used && node.used && node.inode == next
    ensures FindNode(t[k := node], next, 0) == k
  {
    var t' := t[k := node];
    var b := FindNode(t', next, 0);
    assert IsNode(t', k, next);
    OlderThan2(t, next, if b == k then 0 else b);
  }

  // Where no leaf is asked for, two slashes make a node without a name.
  lemma EmptyName(t: Table, next: nat, cwd: nat, kind: Kind, asksLeaf: bool)
    requires Tree(t, next)
    ensures Create(t, next, cwd, "//", kind, asksLeaf).Made? <==> !asksLeaf && HasRoom(t)
    ensures Create(t, next, cwd, "//", kind, asksLeaf).Made? ==>
      && var t' := Create(t, next, cwd, "//", kind, asksLeaf).table;
         t'[FirstFree(t, 0)].name == "" && !Tree(t', next + 1)
  {
    hide FindNode, Walk, Components, LastSlash;
    TwoSlashes();
    NoNameIsFound(t, next);
    assert "//"[..1] == "/" && "//"[2..] == "";
    assert ParentPath("//") == "/" && Leaf("//") == "";
    assert Resolve(t, cwd, "//") < 0 && Resolve(t, cwd, "/") == ROOT;
    var k := FirstFree(t, 0);
    assert HasRoom(t) <==> k < |t|;
    RootIsDir(t, next);
    if Create(t, next, cwd, "//", kind, asksLeaf).Made? {
      assert !Hangs(Create(t, next, cwd, "//", kind, asksLeaf).table, next + 1, k);
    }
  }

  lemma TwoSlashes()
    ensures LastSlash("//") == 1 && Components("//"[1..]) == [""] && Components("/"[1..]) == []
  {
    LastSlashIs("//", 1);
    assert "//"[1..] == "/" && "/"[1..] == "";
    assert ComponentLength("/") == 0 && AfterComponent("/") == "";
    assert Components("") == [];
  }

  lemma NoNameIsFound(t: Table, next: nat)
    requires Tree(t, next)
    ensures Walk(t, ROOT, [""]) < 0 && Walk(t, ROOT, []) == ROOT
  {
    OneStep(t, ROOT, "");
    var b := FindChild(t, ROOT, "", 0);
    assert b < |t| ==> Hangs(t, next, b);
  }

  lemma RootIsDir(t: Table, next: nat)
    requires Tree(t, next)
    ensures IsDir(t, ROOT)
  {
    assert IsNode(t, 0, ROOT);
  }

  // Below a node just made another one can be made exactly when it is a directory
  // and a slot is left.
  lemma MadeBelowNew(t: Table, next: nat, cwd: nat, absolute: bool, names: seq<string>, leaf: string, kind: Kind,
                     asksLeaf: bool, name: string, other: Kind, asks: bool)
    requires Tree(t, next) && cwd < next && AllProper(names + [leaf]) && |PathOf(absolute, names + [leaf])| <= 256
    requires Proper(name) && name != "." && name != ".." && |PathOf(absolute, names + [leaf] + [name])| <= 256
    requires Create(t, next, cwd, PathOf(absolute, names + [leaf]), kind, asksLeaf).Made?
    ensures var t' := Create(t, next, cwd, PathOf(absolute, names + [leaf]), kind, asksLeaf).table;
            Create(t', next + 1, cwd, PathOf(absolute, names + [leaf] + [name]), other, asks).Made? <==>
            kind == Dir && HasRoom(t')
  {
    hide PathOf, Walk, Components, LastSlash, FindChild, FindNode, Leaf, ParentPath, Resolve, Join, Step, Tree;
    hide HasRoom;
    ProperCreation(t, next, cwd, absolute, names, leaf, kind, asksLeaf);
    MadeAsAsked(t, next, cwd, absolute, names, leaf, kind, asksLeaf);
    var k, t' := FirstFree(t, 0), Create(t, next, cwd, PathOf(absolute, names + [leaf]), kind, asksLeaf).table;
    ResolveIsWalk(t', cwd, absolute, names + [leaf]);
    OneMoreProper(names + [leaf], name);
    CreationIff(t', next + 1, cwd, absolute, names + [leaf], name, other, asks);
    ParentIsBelow(t, next, cwd, absolute, names, leaf, kind, asksLeaf);
    NewIsEmpty(t, next, k, t'[k], name);
  }

  lemma OneMoreProper(names: seq<string>, name: string)
    requires AllProper(names) && Proper(name)
    ensures AllProper(names + [name])
  {
  }

  lemma ParentIsBelow(t: Table, next: nat, cwd: nat, absolute: bool, names: seq<string>, leaf: string,
                      kind: Kind, asksLeaf: bool)
    requires Tree(t, next) && cwd < next
    requires Create(t, next, cwd, PathOf(absolute, names + [leaf]), kind, asksLeaf).Made?
    ensures var t' := Create(t, next, cwd, PathOf(absolute, names + [leaf]), kind, asksLeaf).table;
            var k := FirstFree(t, 0);
            && k < |t| == SLOTS && t' == t[k := t'[k]] && t'[k].used && t'[k].inode == next && t'[k].parent < next
  {
    hide PathOf, Walk, Components, LastSlash, FindChild, FindNode, Leaf, ParentPath, Resolve, Join, Step;
    IsDirBelow(t, next, Resolve(t, cwd, ParentPath(PathOf(absolute, names + [leaf]))));
  }

  // At a proper path: the new node is found there, all other paths lead where
  // they led, and the table is still a tree.
  lemma ProperCreation(t: Table, next: nat, cwd: nat, absolute: bool, names: seq<string>, leaf: string,
                       kind: Kind, asksLeaf: bool)
    requires Tree(t, next) && cwd < next && AllProper(names + [leaf]) && |PathOf(absolute, names + [leaf])| <= 256
    requires Create(t, next, cwd, PathOf(absolute, names + [leaf]), kind, asksLeaf).Made?
    ensures var path := PathOf(absolute, names + [leaf]);
            var t' := Create(t, next, cwd, path, kind, asksLeaf).table;
            && Tree(t', next + 1) && Resolve(t', cwd, path) == next
            && (forall other {:trigger Resolve(t', cwd, other)} ::
                  Resolve(t, cwd, other) >= 0 ==> Resolve(t', cwd, other) == Resolve(t, cwd, other))
  {
    hide PathOf, Walk, Components, LastSlash, FindNode, FindChild, IsDir;
    var path, all := PathOf(absolute, names + [leaf]), names + [leaf];
    assert all[|names|] == leaf && Proper(leaf) by {
      assert Proper(all[|names|]);
    }
    assert AllProper(names) by {
      assert forall i :: 0 <= i < |names| ==> names[i] == all[i];
    }
    ParentAndLeaf(absolute, names, leaf);
    ResolveIsWalk(t, cwd, absolute, names);
    ResolveIsWalk(t, cwd, absolute, all);
    var start := if absolute then ROOT else cwd;
    var parent, k := Walk(t, start, names), FirstFree(t, 0);
    WalkLast(t, start, names, leaf);
    LeafIsNew(t, next, k, parent, leaf);
    CreateKeepsTree(t, next, k, kind, parent, leaf);
    CreatedIsFound(t, next, k, kind, parent, leaf, start, names);
    var t' := WithNode(t, next, k, kind, parent, leaf);
    ResolveIsWalk(t', cwd, absolute, all);
    forall other | Resolve(t, cwd, other) >= 0
      ensures Resolve(t', cwd, other) == Resolve(t, cwd, other)
    {
      ResolveKept(t, next, k, kind, parent, leaf, cwd, other);
    }
  }

  lemma LeafIsNew(t: Table, next: nat, k: nat, parent: nat, leaf: string)
    requires Tree(t, next) && k < |t| && k == FirstFree(t, 0) && IsDir(t, parent) && Step(t, parent, leaf) < 0
    requires Proper(leaf)
    ensures CanCreate(t, next, k, parent, leaf) && k > 0
  {
  }

  lemma ResolveKept(t: Table, next: nat, k: nat, kind: Kind, parent: nat, leaf: string, cwd: nat, path: string)
    requires Tree(t, next) && CanCreate(t, next, k, parent, leaf) && k > 0 && cwd < next && Resolve(t, cwd, path) >= 0
    ensures Resolve(WithNode(t, next, k, kind, parent, leaf), cwd, path) == Resolve(t, cwd, path)
  {
    hide Walk, Components;
    if path != "" {
      var start := if path[0] == '/' then ROOT else cwd;
      WalkKept(t, next, k, kind, parent, leaf, start, Components(if path[0] == '/' then path[1..] else path));
    }
  }

  // ---- leaves of any length ------------------------------------------------

  predicate SlashFree(s: string) {
    forall k :: 0 <= k < |s| ==> s[k] != '/'
  }

  // What a path without slashes is cut into: pieces of 63, and the rest.
  lemma Pieces(path: string)
    requires SlashFree(path) && path != ""
    ensures var c := Components(path);
            && c != [] && c[0] == Cut(path, NAME_MAX - 1)
            && (|path| < NAME_MAX ==> c == [path])
            && (|path| >= NAME_MAX ==> c == [path[..NAME_MAX - 1]] + Components(path[NAME_MAX - 1..]))
  {
    var n := NAME_MAX - 1;
    if |path| < NAME_MAX {
      LengthIs(path, |path|, 0);
      assert AfterComponent(path) == "" && Components("") == [];
    } else {
      LongLength(path, 0);
    }
  }

  lemma {:induction false} PiecesAreSlashFree(path: string)
    requires SlashFree(path)
    ensures forall i :: 0 <= i < |Components(path)| ==> SlashFree(Components(path)[i])
    decreases |path|
  {
    if path != "" {
      Pieces(path);
      if |path| >= NAME_MAX {
        PiecesAreSlashFree(path[NAME_MAX - 1..]);
      }
    }
  }

  lemma SlashFreeRest(path: string, n: nat)
    requires SlashFree(path) && n <= |path|
    ensures SlashFree(path[n..])
  {
  }

  // Only the last piece can be one of the special names.
  lemma {:induction false} OnlyLastIsSpecial(path: string, i: nat)
    requires SlashFree(path) && path != "" && i + 1 < |Components(path)|
    ensures |Components(path)[i]| == NAME_MAX - 1
    decreases |path|
  {
    hide Components, SlashFree;
    Pieces(path);
    var rest := path[NAME_MAX - 1..];
    if i > 0 {
      SlashFreeRest(path, NAME_MAX - 1);
      OnlyLastIsSpecial(rest, i - 1);
    }
  }

  lemma OneStep(t: Table, cur: nat, name: string)
    ensures Walk(t, cur, [name]) == Step(t, cur, name)
  {
    assert [name][1..] == [];
  }

  lemma {:induction false} WalkOn(t: Table, cur: nat, first: seq<string>, last: seq<string>)
    ensures Walk(t, cur, first + last) ==
      if Walk(t, cur, first) < 0 then -1 else Walk(t, Walk(t, cur, first), last)
    decreases |first|
  {
    if first == [] {
      assert first + last == last;
    } else {
      assert (first + last)[1..] == first[1..] + last;
      var next := Step(t, cur, first[0]);
      if next >= 0 {
        WalkOn(t, next, first[1..], last);
      }
    }
  }

  // Proper directories, then the pieces of the last part.
  lemma {:induction false} ComponentsOfPath(names: seq<string>, name: string)
    requires AllProper(names) && SlashFree(name) && name != ""
    ensures Components(Join(names + [name])) == names + Components(name)
    ensures Join(names + [name]) != "" && Join(names + [name])[0] != '/'
    decreases |names|
  {
    hide Components, SlashFree;
    if names == [] {
      assert names + [name] == [name] && names + Components(name) == Components(name);
      FirstChar(name);
    } else {
      var first, rest := names[0], names[1..] + [name];
      assert (names + [name])[1..] == rest && (names + [name])[0] == first;
      var path := Join(names + [name]);
      assert Proper(first);
      assert path == first + "/" + Join(rest);
      FirstOfPath(first, Join(rest));
      ComponentsOfPath(names[1..], name);
      assert names + Components(name) == [first] + (names[1..] + Components(name));
    }
  }

  lemma FirstChar(name: string)
    requires SlashFree(name) && name != ""
    ensures name[0] != '/'
  {
  }

  lemma FirstOfPath(first: string, rest: string)
    requires Proper(first)
    ensures Components(first + "/" + rest) == [first] + Components(rest)
  {
    var path := first + "/" + rest;
    assert forall k :: 0 <= k < |first| ==> path[k] == first[k];
    LengthIs(path, |first|, 0);
    assert path[..|first|] == first && path[|first| + 1..] == rest;
  }

  // A step elsewhere does not see the new node.
  lemma StepElsewhere(t: Table, next: nat, k: nat, node: Node, cur: nat, name: string)
    requires Tree(t, next) && k < SLOTS && !t[k].used && node.used && node.inode == next && cur < next
    requires cur != node.parent || name == "." || name == ".."
    ensures Step(t[k := node], cur, name) == Step(t, cur, name)
  {
    var t' := t[k := node];
    if name == ".." {
      SameNode(t, next, k, node, cur);
      assert FindNode(t, cur, 0) < |t| ==> IsNode(t, FindNode(t, cur, 0), cur);
    } else if name != "." {
      var a, b := FindChild(t, cur, name, 0), FindChild(t', cur, name, 0);
      assert forall x: nat {:trigger IsChild(t, x, cur, name)} {:trigger IsChild(t', x, cur, name)} ::
        IsChild(t, x, cur, name) <==> IsChild(t', x, cur, name);
    }
  }

  // Children are newer than their parents.
  lemma ChildIsNewer(t: Table, next: nat, cur: nat, name: string)
    requires Tree(t, next) && Child(t, cur, name) >= 0 && SlashFree(name)
    ensures cur < Child(t, cur, name) < next
  {
    var a := FindChild(t, cur, name, 0);
    assert Hangs(t, next, a);
    assert !SlashFree("/") by {
      assert "/"[0] == '/';
    }
  }

  // Walking down from a newer node never meets the new one.
  lemma {:induction false} WalkBelow(t: Table, next: nat, k: nat, node: Node, cur: nat, names: seq<string>)
    requires Tree(t, next) && k < SLOTS && !t[k].used && node.used && node.inode == next && node.parent < cur < next
    requires forall i :: 0 <= i < |names| ==> SlashFree(names[i])
    requires forall i :: 0 <= i < |names| - 1 ==> names[i] != "." && names[i] != ".."
    ensures Walk(t[k := node], cur, names) == Walk(t, cur, names)
    decreases |names|
  {
    if names != [] {
      StepElsewhere(t, next, k, node, cur, names[0]);
      var step := Step(t, cur, names[0]);
      if step >= 0 && |names| > 1 {
        ChildIsNewer(t, next, cur, names[0]);
        WalkBelow(t, next, k, node, step, names[1..]);
      }
    }
  }

  // A way down to the parent does not meet the new node either.
  lemma {:induction false} WalkAbove(t: Table, next: nat, k: nat, node: Node, cur: nat, names: seq<string>)
    requires Tree(t, next) && k < SLOTS && !t[k].used && node.used && node.inode == next && cur < next
    requires (forall i :: 0 <= i < |names| ==> SlashFree(names[i])) && ".." !in names
    requires Walk(t, cur, names) == node.parent
    ensures cur <= node.parent && Walk(t[k := node], cur, names) == node.parent
    decreases |names|
  {
    if names != [] {
      var step := Step(t, cur, names[0]);
      assert names[0] in names;
      if names[0] != "." {
        ChildIsNewer(t, next, cur, names[0]);
      }
      WalkAbove(t, next, k, node, step, names[1..]);
      StepElsewhere(t, next, k, node, cur, names[0]);
    }
  }

  // Nothing hangs below a node just made.
  lemma NewIsEmpty(t: Table, next: nat, k: nat, node: Node, name: string)
    requires Tree(t, next) && k < SLOTS && !t[k].used && node.used && node.inode == next && node.parent < next
    requires name != "." && name != ".."
    ensures Step(t[k := node], next, name) < 0
  {
    var t' := t[k := node];
    var b := FindChild(t', next, name, 0);
    assert b < |t'| ==> Hangs(t, next, b);
  }

  lemma ParentOfNew(t: Table, next: nat, k: nat, node: Node)
    requires Tree(t, next) && k < SLOTS && !t[k].used && node.used && node.inode == next
    ensures ParentOf(t[k := node], next) == node.parent
  {
    var t' := t[k := node];
    var b := FindNode(t', next, 0);
    assert IsNode(t', k, next);
    OlderThan2(t, next, if b == k then 0 else b);
  }

  lemma OlderThan2(t: Table, next: nat, i: nat)
    requires Tree(t, next) && i < SLOTS
    ensures t[i].used ==> t[i].inode < next
  {
    assert Hangs(t, next, i);
  }

  // What a path leads to whose last part, `name`, has just been made.
  function LeadsTo(next: nat, parent: nat, name: string): int {
    if |name| < NAME_MAX || name[NAME_MAX - 1..] == "." then next
    else if name[NAME_MAX - 1..] == ".." then parent
    else -1
  }

  // Where the pieces of a long name lead, below the parent of the node made.
  lemma LongNameLeads(t: Table, next: nat, k: nat, node: Node, name: string)
    requires Tree(t, next) && k < SLOTS && !t[k].used && SlashFree(name) && |name| >= NAME_MAX
    requires node.used && node.inode == next && node.parent < next && node.name == name[..NAME_MAX - 1]
    requires Walk(t, node.parent, Components(name)) < 0
    ensures Walk(t[k := node], node.parent, Components(name)) == LeadsTo(next, node.parent, name)
  {
    var t', rest, first := t[k := node], name[NAME_MAX - 1..], name[..NAME_MAX - 1];
    Pieces(name);
    Pieces(rest);
    hide Components, Proper;
    var pieces := Components(rest);
    assert Components(name)[1..] == pieces;
    var a, b := FindChild(t, node.parent, first, 0), FindChild(t', node.parent, first, 0);
    assert IsChild(t', k, node.parent, first);
    PiecesAreSlashFree(rest);
    if b == k {
      assert Step(t', node.parent, first) == next;
      ParentOfNew(t, next, k, node);
      if pieces[0] != "." && pieces[0] != ".." {
        NewIsEmpty(t, next, k, node, pieces[0]);
      } else {
        assert pieces == [rest];
        OneStep(t', next, rest);
      }
    } else {
      assert IsChild(t, b, node.parent, first) && a == b by {
        assert IsChild(t, a, node.parent, first) ==> IsChild(t', a, node.parent, first);
        assert forall x: nat {:trigger IsChild(t', x, node.parent, first)} ::
          x < b ==> !IsChild(t', x, node.parent, first);
      }
      var c := t[a].inode;
      assert Step(t, node.parent, first) == c == Step(t', node.parent, first);
      ChildIsNewer(t, next, node.parent, first);
      forall i | 0 <= i < |pieces| - 1
        ensures pieces[i] != "." && pieces[i] != ".."
      {
        OnlyLastIsSpecial(rest, i);
      }
      WalkBelow(t, next, k, node, c, pieces);
      OneStep(t, c, rest);
    }
  }

  lemma {:induction false} LongLength(path: string, from: nat)
    requires |path| >= NAME_MAX && from < NAME_MAX && forall k :: 0 <= k < |path| ==> path[k] != '/'
    ensures LengthFrom(path, from) == NAME_MAX - 1
    decreases NAME_MAX - from
  {
    if from < NAME_MAX - 1 {
      LongLength(path, from + 1);
    }
  }

  // ---- removal by path -----------------------------------------------------

  predicate HasChild(t: Table, inode: nat, i: nat): (r: bool)
    requires i <= |t|
    ensures r <==> exists k :: i <= k < |t| && t[k].used && t[k].parent == inode
    decreases |t| - i
  {
    i < |t| && ((t[i].used && t[i].parent == inode) || HasChild(t, inode, i + 1))
  }

  // Removing the node at a path: not the root, and no directory with children.
  function Remove(t: Table, cwd: nat, path: string): Made {
    var inode := Resolve(t, cwd, path);
    if inode <= ROOT then Refused
    else
      var k := FindNode(t, inode, 0);
      if k == |t| || (t[k].kind == Dir && HasChild(t, inode, 0)) then Refused else Made(t[k := Gone()])
  }

  lemma GoneIsNotFound(t: Table, next: nat, k: nat)
    requires Tree(t, next) && k < SLOTS && t[k].used
    ensures FindNode(t[k := Gone()], t[k].inode, 0) == SLOTS
  {
    var b := FindNode(t[k := Gone()], t[k].inode, 0);
    var c := if b < SLOTS then b else 0;
    assert Differ(t, c, k);
  }

  // A node can be removed exactly when the path leads to it, it is not the root, and,
  // if it is a directory, nothing is in it; and then its slot alone is given up.
  lemma RemovalIff(t: Table, next: nat, cwd: nat, path: string)
    requires Tree(t, next)
    ensures var inode := Resolve(t, cwd, path);
            Remove(t, cwd, path).Made? <==>
            && inode > ROOT && FindNode(t, inode, 0) < |t|
            && (IsDir(t, inode) ==> forall i :: 0 <= i < |t| && t[i].used ==> t[i].parent != inode)
    ensures Remove(t, cwd, path).Made? ==>
      && var t', k := Remove(t, cwd, path).table, FindNode(t, Resolve(t, cwd, path), 0);
         |t'| == |t| && k < |t| && !t'[k].used && forall i: nat :: i < |t| && i != k ==> t'[i] == t[i]
  {
    hide Resolve, FindNode;
  }

  // The table is still a tree, and every walk that avoids the node goes as before.
  lemma Removal(t: Table, next: nat, cwd: nat, path: string)
    requires Tree(t, next) && Remove(t, cwd, path).Made?
    ensures var t' := Remove(t, cwd, path).table;
            var inode := Resolve(t, cwd, path);
            && Tree(t', next) && FindNode(t', inode, 0) == |t'|
            && forall start: nat, names {:trigger Walk(t', start, names)} ::
                 !Visits(t, start, names, inode) ==> Walk(t', start, names) == Walk(t, start, names)
  {
    hide Resolve, Walk, Visits;
    var inode := Resolve(t, cwd, path);
    var k := FindNode(t, inode, 0);
    var t' := t[k := Gone()];
    assert CanRemove(t, k);
    RemoveKeepsTree(t, next, k);
    GoneIsNotFound(t, next, k);
    forall start: nat, names | !Visits(t, start, names, inode)
      ensures Walk(t', start, names) == Walk(t, start, names)
    {
      WalkKeptGone(t, next, k, start, names);
    }
  }

  // ---- creation with any leaf ----------------------------------------------

  lemma ParentAndAnyLeaf(absolute: bool, names: seq<string>, name: string)
    requires AllProper(names) && SlashFree(name) && name != ""
    ensures ParentPath(PathOf(absolute, names + [name])) == Cut(PathOf(absolute, names), 255)
    ensures Leaf(PathOf(absolute, names + [name])) == Cut(name, NAME_MAX - 1)
  {
    hide Components;
    JoinLast(names, name);
    ComponentsOfJoin(names);
    hide Join, AllProper, LastSlash, Leaf, ParentPath, SlashFree;
    var dir := PathOf(absolute, names);
    var path := PathOf(absolute, names + [name]);
    if names == [] {
      if absolute {
        assert dir == "/" && path == "" + "/" + name;
        AnyLeafAfterSlash("", name);
      } else {
        OnlyLeaf(name);
      }
    } else {
      assert path == dir + "/" + name;
      AnyLeafAfterSlash(dir, name);
    }
  }

  lemma OnlyLeaf(name: string)
    requires SlashFree(name)
    ensures ParentPath(name) == "" && Leaf(name) == Cut(name, NAME_MAX - 1)
  {
    assert LastSlash(name) == -1 && name[0..] == name;
  }

  lemma AnyLeafAfterSlash(dir: string, name: string)
    requires SlashFree(name)
    ensures ParentPath(dir + "/" + name) == (if dir == "" then "/" else Cut(dir, 255))
    ensures Leaf(dir + "/" + name) == Cut(name, NAME_MAX - 1)
  {
    var path := dir + "/" + name;
    assert forall k :: |dir| < k < |path| ==> path[k] == name[k - |dir| - 1];
    LastSlashIs(path, |dir|);
    assert path[|dir| + 1..] == name && path[..|dir|] == dir;
  }

  lemma ResolveIsWalkOn(t: Table, cwd: nat, absolute: bool, names: seq<string>, name: string)
    requires AllProper(names) && SlashFree(name) && name != ""
    ensures Resolve(t, cwd, PathOf(absolute, names + [name])) ==
      Walk(t, if absolute then ROOT else cwd, names + Components(name))
  {
    hide Components, Walk, Join;
    ComponentsOfPath(names, name);
    assert ("/" + Join(names + [name]))[1..] == Join(names + [name]);
  }

  // Directories that a path goes down through, or a leaf nobody there has.
  predicate GoesDown(t: Table, parent: nat, names: seq<string>, leaf: string) {
    ".." !in names || Child(t, parent, leaf) < 0
  }

  // Where the path of a node just made leads, if it is made in the directory that
  // the path names: to the node exactly when the leaf fits the name field, or what
  // does not fit is a single dot.
  lemma CreatedLeaf(t: Table, next: nat, cwd: nat, absolute: bool, names: seq<string>, name: string,
                    kind: Kind, asksLeaf: bool, parent: nat)
    requires Tree(t, next) && cwd < next && AllProper(names) && SlashFree(name) && name != ""
    requires Walk(t, if absolute then ROOT else cwd, names) == parent
    requires Resolve(t, cwd, Cut(PathOf(absolute, names), 255)) == parent
    requires Create(t, next, cwd, PathOf(absolute, names + [name]), kind, asksLeaf).Made?
    requires GoesDown(t, parent, names, Cut(name, NAME_MAX - 1))
    ensures var t' := Create(t, next, cwd, PathOf(absolute, names + [name]), kind, asksLeaf).table;
            && FirstFree(t, 0) < |t| && parent < next
            && t' == WithNode(t, next, FirstFree(t, 0), kind, parent, Cut(name, NAME_MAX - 1))
            && Walk(t', if absolute then ROOT else cwd, names) == parent
            && Resolve(t', cwd, PathOf(absolute, names + [name])) == LeadsTo(next, parent, name)
    ensures var t' := Create(t, next, cwd, PathOf(absolute, names + [name]), kind, asksLeaf).table;
            Resolve(t', cwd, PathOf(absolute, names + [name])) == next
            <==> |name| < NAME_MAX || name[NAME_MAX - 1..] == "."
  {
    hide PathOf, Walk, Components, LastSlash, FindNode, FindChild, Proper, Join, Leaf, ParentPath, Resolve;
    hide AllProper, SlashFree, IsDir, Tree, GoesDown, Step;
    var start, leaf := if absolute then ROOT else cwd, Cut(name, NAME_MAX - 1);
    ParentAndAnyLeaf(absolute, names, name);
    ResolveIsWalk(t, cwd, absolute, names);
    ResolveIsWalkOn(t, cwd, absolute, names, name);
    var k := FirstFree(t, 0);
    var node := Node(true, kind, next, parent, leaf);
    WalkOn(t, start, names, Components(name));
    IsDirBelow(t, next, parent);
    MadeBelow(t, next, k, node, start, names, name);
    ResolveIsWalkOn(t[k := node], cwd, absolute, names, name);
    WalkOn(t[k := node], start, names, Components(name));
  }

  // The parent is still found, and the name leads from there.
  lemma MadeBelow(t: Table, next: nat, k: nat, node: Node, start: nat, names: seq<string>, name: string)
    requires Tree(t, next) && k < |t| && k == FirstFree(t, 0) && start < next && IsDir(t, node.parent)
    requires node.parent < next
    requires SlashFree(name) && name != "" && AllProper(names)
    requires node.used && node.inode == next && node.name == Cut(name, NAME_MAX - 1)
    requires Walk(t, start, names) == node.parent && Walk(t, node.parent, Components(name)) < 0
    requires GoesDown(t, node.parent, names, node.name)
    ensures Walk(t[k := node], start, names) == node.parent
    ensures Walk(t[k := node], node.parent, Components(name)) == LeadsTo(next, node.parent, name)
  {
    hide Walk, FindNode, FindChild, Proper, AllProper, IsDir, GoesDown, Step, Components;
    Pieces(name);
    if |name| < NAME_MAX {
      OneStep(t, node.parent, name);
      ShortNameLeads(t, next, k, node, name);
    } else {
      LongNameLeads(t, next, k, node, name);
    }
    KeepsParent(t, next, k, node, start, names, node.name);
  }

  lemma IsDirBelow(t: Table, next: nat, parent: nat)
    requires Tree(t, next) && IsDir(t, parent)
    ensures parent < next
  {
    OlderThan(t, next, FindNode(t, parent, 0));
    assert IsNode(t, FindNode(t, parent, 0), parent);
  }

  lemma KeepsParent(t: Table, next: nat, k: nat, node: Node, start: nat, names: seq<string>, leaf: string)
    requires Tree(t, next) && k < SLOTS && k == FirstFree(t, 0) && start < next && IsDir(t, node.parent)
    requires node.parent < next
    requires node.used && node.inode == next && node.name == leaf && leaf != "" && |leaf| < NAME_MAX && SlashFree(leaf)
    requires AllProper(names) && Walk(t, start, names) == node.parent && GoesDown(t, node.parent, names, leaf)
    requires Step(t, node.parent, leaf) < 0 || |leaf| == NAME_MAX - 1
    ensures Walk(t[k := node], start, names) == node.parent
  {
    if ".." !in names {
      WalkAbove(t, next, k, node, start, names);
    } else {
      WalkKept(t, next, k, node.kind, node.parent, leaf, start, names);
    }
  }

  lemma ShortNameLeads(t: Table, next: nat, k: nat, node: Node, name: string)
    requires Tree(t, next) && k < SLOTS && !t[k].used && SlashFree(name) && 0 < |name| < NAME_MAX
    requires node.used && node.inode == next && node.parent < next && node.name == name
    requires Walk(t, node.parent, Components(name)) < 0
    ensures Walk(t[k := node], node.parent, Components(name)) == next
  {
    Pieces(name);
    var t' := t[k := node];
    assert Components(name)[1..] == [];
    var b := FindChild(t', node.parent, name, 0);
    assert IsChild(t', k, node.parent, name);
    assert b != k ==> IsChild(t, b, node.parent, name);
    assert Step(t, node.parent, name) < 0;
  }

  // A leaf that does not fit can be made again: two siblings of one name.
  lemma MadeTwice(t: Table, next: nat, cwd: nat, absolute: bool, names: seq<string>, name: string, kind: Kind,
                  parent: nat)
    requires Tree(t, next) && cwd < next && AllProper(names) && SlashFree(name) && |name| >= NAME_MAX
    requires name[NAME_MAX - 1..] != "." && name[NAME_MAX - 1..] != ".."
    requires |PathOf(absolute, names)| <= 255 && Walk(t, if absolute then ROOT else cwd, names) == parent
    requires Create(t, next, cwd, PathOf(absolute, names + [name]), kind, true).Made?
    requires GoesDown(t, parent, names, Cut(name, NAME_MAX - 1))
    ensures var path := PathOf(absolute, names + [name]);
            var t' := Create(t, next, cwd, path, kind, true).table;
            var again := Create(t', next + 1, cwd, path, kind, true);
            && (again.Made? <==> FirstFree(t', 0) < |t'|)
            && (again.Made? ==> !Differ(again.table, FirstFree(t, 0), FirstFree(t', 0)))
  {
    hide PathOf, Walk, Components, LastSlash, FindNode, FindChild, Proper, Join, Leaf, ParentPath, Tree, Resolve;
    hide AllProper, SlashFree, IsDir, GoesDown;
    ResolveIsWalk(t, cwd, absolute, names);
    CreatedLeaf(t, next, cwd, absolute, names, name, kind, true, parent);
    ParentAndAnyLeaf(absolute, names, name);
    var k := FirstFree(t, 0);
    var t' := Create(t, next, cwd, PathOf(absolute, names + [name]), kind, true).table;
    ResolveIsWalk(t, cwd, absolute, names);
    ResolveIsWalk(t', cwd, absolute, names);
    DirStill(t, next, k, t'[k], parent);
  }

  lemma DirStill(t: Table, next: nat, k: nat, node: Node, inode: nat)
    requires Tree(t, next) && k < |t| && !t[k].used && node.used && node.inode == next && inode < next
    requires IsDir(t, inode)
    ensures IsDir(t[k := node], inode)
  {
    ParentIsDirStill(t, next, k, node, inode);
  }
}
