// Creation below parent paths of any length. The buffer for the parent's path
// holds 255 characters, so the node can be made in another directory.
module VfsPaths {
  import opened VfsTree

  // ---- walks that do not go up ---------------------------------------------

  predicate AllSlashFree(names: seq<string>) {
    forall i :: 0 <= i < |names| ==> SlashFree(names[i])
  }

  lemma {:induction false} ComponentsAreSlashFree(path: string)
    ensures AllSlashFree(Components(path))
    decreases |path|
  {
    if path != "" {
      ComponentsAreSlashFree(AfterComponent(path));
    }
  }

  lemma TableSize(t: Table, next: nat)
    requires Tree(t, next)
    ensures |t| == SLOTS
  {
  }

  lemma ParentIsOlder(t: Table, next: nat, inode: nat)
    requires Tree(t, next)
    ensures ParentOf(t, inode) <= inode
  {
    var k := FindNode(t, inode, 0);
    assert k < |t| ==> Hangs(t, next, k);
  }

  lemma ParentOfChild(t: Table, next: nat, cur: nat, name: string)
    requires Tree(t, next) && Child(t, cur, name) >= 0 && SlashFree(name)
    ensures ParentOf(t, Child(t, cur, name)) == cur
  {
    var a := FindChild(t, cur, name, 0);
    NodeIs(t, next, a);
  }

  lemma {:induction false} WalkIsDown(t: Table, next: nat, cur: nat, names: seq<string>)
    requires Tree(t, next) && cur < next && AllSlashFree(names) && ".." !in names && Walk(t, cur, names) >= 0
    ensures cur <= Walk(t, cur, names) < next
    decreases |names|
  {
    if names != [] {
      assert names[0] in names;
      if names[0] != "." {
        ChildIsNewer(t, next, cur, names[0]);
      }
      WalkIsDown(t, next, Step(t, cur, names[0]), names[1..]);
    }
  }

  // ---- paths that are cut --------------------------------------------------

  // Where the first `n` characters of a path lead: where the path leads, or to a
  // directory that does not lie below.
  lemma {:induction false} CutWalk(t: Table, next: nat, cur: nat, names: seq<string>, n: nat)
    requires Tree(t, next) && cur < next && AllProper(names) && ".." !in names && n <= |Join(names)|
    requires Walk(t, cur, Components(Join(names)[..n])) >= 0 && Walk(t, cur, names) >= 0
    ensures var to, all := Walk(t, cur, Components(Join(names)[..n])), Walk(t, cur, names);
            to == all || ParentOf(t, to) < all
    decreases |names|
  {
    hide Components, FindChild, FindNode, Tree, Join, Step;
    if names == [] || n == 0 {
      NoComponents();
      assert Join(names)[..n] == "";
      WalkIsDown(t, next, cur, names);
      ParentIsOlder(t, next, cur);
    } else {
      var first, rest := names[0], names[1..];
      assert Proper(first) && first in names;
      CutOfJoin(names, n);
      if n < |first| {
        CutName(t, next, cur, first, rest, n);
      } else if n <= |first| + 1 {
        OneStep(t, cur, first);
        StepIsDown(t, next, cur, first);
        WalkIsDown(t, next, Step(t, cur, first), rest);
        ParentIsOlder(t, next, Step(t, cur, first));
      } else {
        var m := n - |first| - 1;
        assert ([first] + Components(Join(rest)[..m]))[1..] == Components(Join(rest)[..m]);
        StepIsDown(t, next, cur, first);
        CutWalk(t, next, Step(t, cur, first), rest, m);
      }
    }
  }

  lemma CutOfJoin(names: seq<string>, n: nat)
    requires names != [] && Proper(names[0]) && n <= |Join(names)|
    ensures var first, rest := names[0], names[1..];
            if n < |first| then Join(names)[..n] == first[..n]
            else if n <= |first| + 1 then Components(Join(names)[..n]) == [first]
            else n - |first| - 1 <= |Join(rest)|
                 && Components(Join(names)[..n]) == [first] + Components(Join(rest)[..n - |first| - 1])
  {
    hide Components;
    var first, rest := names[0], names[1..];
    assert Join(names)[..|first|] == first;
    if n > |first| + 1 {
      assert Join(names)[..n] == first + "/" + Join(rest)[..n - |first| - 1];
      FirstOfPath(first, Join(rest)[..n - |first| - 1]);
    } else if n >= |first| {
      OnlyComponent(names, n);
    }
  }

  lemma StepIsDown(t: Table, next: nat, cur: nat, name: string)
    requires Tree(t, next) && cur < next && SlashFree(name) && name != ".." && Step(t, cur, name) >= 0
    ensures cur <= Step(t, cur, name) < next && (name != "." ==> cur < Step(t, cur, name))
  {
    if name != "." {
      ChildIsNewer(t, next, cur, name);
    }
  }

  lemma OnlyComponent(names: seq<string>, n: nat)
    requires names != [] && Proper(names[0]) && |names[0]| <= n <= |names[0]| + 1 && n <= |Join(names)|
    ensures Components(Join(names)[..n]) == [names[0]]
  {
    var first := names[0];
    assert Join(names)[..|first|] == first;
    if n == |first| {
      Pieces(first);
    } else {
      assert Join(names)[..n] == first + "/" + "";
      FirstOfPath(first, "");
    }
  }

  // The last name itself is cut.
  lemma CutName(t: Table, next: nat, cur: nat, first: string, rest: seq<string>, n: nat)
    requires Tree(t, next) && cur < next && Proper(first) && 0 < n < |first| && first != ".."
    requires AllProper(rest) && ".." !in rest && Step(t, cur, first) >= 0 && Walk(t, Step(t, cur, first), rest) >= 0
    requires Walk(t, cur, Components(first[..n])) >= 0
    ensures ParentOf(t, Walk(t, cur, Components(first[..n]))) < Walk(t, Step(t, cur, first), rest)
  {
    var q := first[..n];
    Pieces(q);
    OneStep(t, cur, q);
    StepIsDown(t, next, cur, first);
    WalkIsDown(t, next, Step(t, cur, first), rest);
    ParentIsOlder(t, next, cur);
    if q == ".." {
      ParentIsOlder(t, next, ParentOf(t, cur));
    } else if q != "." {
      ParentOfChild(t, next, cur, q);
    }
  }

  // ---- walks that meet the new node ----------------------------------------

  lemma NewStep(t: Table, next: nat, k: nat, node: Node, cur: nat, name: string)
    requires Tree(t, next) && k < SLOTS && !t[k].used && node.used && node.inode == next && cur < next
    ensures var to := Step(t[k := node], cur, name);
            || to == Step(t, cur, name)
            || (to == next && cur == node.parent && name == node.name && name != "." && name != "..")
  {
    var t' := t[k := node];
    if cur != node.parent || name == "." || name == ".." {
      StepElsewhere(t, next, k, node, cur, name);
    } else {
      var a, b := FindChild(t, cur, name, 0), FindChild(t', cur, name, 0);
      if b != k {
        assert forall x: nat {:trigger IsChild(t, x, cur, name)} {:trigger IsChild(t', x, cur, name)} ::
          x < b ==> (IsChild(t, x, cur, name) ==> x == k || IsChild(t', x, cur, name));
        assert b < |t| ==> IsChild(t, b, cur, name);
        assert a < |t| ==> IsChild(t', a, cur, name);
      }
    }
  }

  // A walk that does not go up leads where it led, or nowhere, or to the new node.
  lemma {:induction false} WalkWithNew(t: Table, next: nat, k: nat, node: Node, cur: nat, names: seq<string>)
    requires Tree(t, next) && k < SLOTS && !t[k].used && node.used && node.inode == next && node.parent < next
    requires cur <= next && AllSlashFree(names) && ".." !in names
    ensures var to := Walk(t[k := node], cur, names);
            if cur == next then to == next || to < 0
            else to == Walk(t, cur, names) || to < 0 || (to == next && node.name != "." && node.name != "..")
    decreases |names|
  {
    if names != [] {
      assert names[0] in names;
      if cur == next {
        if names[0] != "." {
          NewIsEmpty(t, next, k, node, names[0]);
        } else {
          WalkWithNew(t, next, k, node, next, names[1..]);
        }
      } else {
        NewStep(t, next, k, node, cur, names[0]);
        var step := Step(t[k := node], cur, names[0]);
        if Step(t, cur, names[0]) >= 0 {
          StepIsDown(t, next, cur, names[0]);
        }
        if step >= 0 {
          WalkWithNew(t, next, k, node, step, names[1..]);
        }
      }
    }
  }

  // From elsewhere, not above the parent, the pieces of a name do not lead to the new node.
  lemma {:induction false} NotFromElsewhere(t: Table, next: nat, k: nat, node: Node, cur: nat, names: seq<string>)
    requires Tree(t, next) && k < SLOTS && !t[k].used && node.used && node.inode == next && node.parent < next
    requires cur < next && cur != node.parent && ParentOf(t, node.parent) < cur && AllSlashFree(names)
    requires forall i :: 0 <= i < |names| - 1 ==> names[i] != "." && names[i] != ".."
    ensures Walk(t[k := node], cur, names) != next
    decreases |names|
  {
    if names != [] {
      var step := Step(t, cur, names[0]);
      NewStep(t, next, k, node, cur, names[0]);
      if |names| == 1 {
        if names[0] == ".." {
          ParentIsOlder(t, next, cur);
        } else if names[0] != "." && step >= 0 {
          ChildIsNewer(t, next, cur, names[0]);
        }
        OneStep(t[k := node], cur, names[0]);
      } else if step >= 0 {
        ChildIsNewer(t, next, cur, names[0]);
        ParentOfChild(t, next, cur, names[0]);
        NotFromElsewhere(t, next, k, node, step, names[1..]);
      }
    }
  }

  // ---- the theorems --------------------------------------------------------

  // The new node is found at its path exactly when its name fits, or what does not
  // fit is a single dot, and the path of its parent leads to the same directory as
  // the 255 characters of it that are kept.
  lemma FoundIff(t: Table, next: nat, cwd: nat, absolute: bool, names: seq<string>, name: string,
                 kind: Kind, asksLeaf: bool)
    requires Tree(t, next) && cwd < next && AllProper(names) && ".." !in names && SlashFree(name) && name != ""
    requires Create(t, next, cwd, PathOf(absolute, names + [name]), kind, asksLeaf).Made?
    ensures var dir, path := PathOf(absolute, names), PathOf(absolute, names + [name]);
            Resolve(Create(t, next, cwd, path, kind, asksLeaf).table, cwd, path) == next
            <==> (|name| < NAME_MAX || name[NAME_MAX - 1..] == ".")
                 && Resolve(t, cwd, dir) == Resolve(t, cwd, Cut(dir, 255))
  {
    hide PathOf, Walk, Components, LastSlash, FindNode, FindChild, Proper, Join, Leaf, ParentPath, Resolve;
    hide AllProper, SlashFree, IsDir, Tree, Step;
    var start, leaf := if absolute then ROOT else cwd, Cut(name, NAME_MAX - 1);
    var parent := Resolve(t, cwd, Cut(PathOf(absolute, names), 255));
    ParentAndAnyLeaf(absolute, names, name);
    ResolveIsWalk(t, cwd, absolute, names);
    if Walk(t, start, names) == parent {
      CreatedLeaf(t, next, cwd, absolute, names, name, kind, asksLeaf, parent);
    } else {
      var k, node := FirstFree(t, 0), Node(true, kind, next, parent, leaf);
      IsDirBelow(t, next, parent);
      TableSize(t, next);
      ResolveIsWalkOn(t, cwd, absolute, names, name);
      ResolveIsWalkOn(t[k := node], cwd, absolute, names, name);
      WalkOn(t, start, names, Components(name));
      WalkOn(t[k := node], start, names, Components(name));
      MadeElsewhere(t, next, k, node, cwd, absolute, names, name);
    }
  }

  lemma MadeElsewhere(t: Table, next: nat, k: nat, node: Node, cwd: nat, absolute: bool, names: seq<string>,
                      name: string)
    requires Tree(t, next) && cwd < next && AllProper(names) && ".." !in names && SlashFree(name) && name != ""
    requires k < SLOTS && !t[k].used && node.used && node.inode == next && node.parent < next
    requires node.name == Cut(name, NAME_MAX - 1) && Resolve(t, cwd, Cut(PathOf(absolute, names), 255)) == node.parent
    requires var at := Walk(t, if absolute then ROOT else cwd, names);
             at != node.parent && (at >= 0 ==> Walk(t, at, Components(name)) < 0)
    ensures var at := Walk(t[k := node], if absolute then ROOT else cwd, names);
            at >= 0 ==> Walk(t[k := node], at, Components(name)) != next
  {
    hide Walk, Components, FindNode, FindChild, Join, Tree, Step, PathOf, Resolve, SlashFree, AllProper;
    TableSize(t, next);
    var start := if absolute then ROOT else cwd;
    var was, at := Walk(t, start, names), Walk(t[k := node], start, names);
    ProperIsSlashFree(names);
    WalkWithNew(t, next, k, node, start, names);
    if was >= 0 {
      WalkIsDown(t, next, start, names);
    }
    Pieces(name);
    ComponentsAreSlashFree(name);
    if at == next {
      assert Components(name)[0] == node.name;
      FromNew(t, next, k, node, Components(name));
    } else if at >= 0 {
      CutPath(t, next, cwd, absolute, names);
      forall i | 0 <= i < |Components(name)| - 1
        ensures Components(name)[i] != "." && Components(name)[i] != ".."
      {
        OnlyLastIsSpecial(name, i);
      }
      NotFromElsewhere(t, next, k, node, at, Components(name));
    }
  }

  lemma ProperIsSlashFree(names: seq<string>)
    requires AllProper(names)
    ensures AllSlashFree(names)
  {
  }

  lemma FromNew(t: Table, next: nat, k: nat, node: Node, names: seq<string>)
    requires Tree(t, next) && k < SLOTS && !t[k].used && node.used && node.inode == next && node.parent < next
    requires names != [] && names[0] != "." && names[0] != ".."
    ensures Walk(t[k := node], next, names) < 0
  {
    NewIsEmpty(t, next, k, node, names[0]);
  }

  // What is kept of the parent's path, without the slash in front.
  function Kept(absolute: bool, names: seq<string>): string {
    Cut(Join(names), if absolute then 254 else 255)
  }

  lemma ResolveCut(t: Table, cwd: nat, absolute: bool, names: seq<string>)
    requires AllProper(names)
    ensures Resolve(t, cwd, Cut(PathOf(absolute, names), 255)) ==
      Walk(t, if absolute then ROOT else cwd, Components(Kept(absolute, names)))
  {
    hide Components, Walk;
    ComponentsOfJoin(names);
    hide Join, AllProper;
    if absolute {
      assert Cut("/" + Join(names), 255)[1..] == Kept(absolute, names);
    }
    NoComponents();
    WalkNothing(t, cwd);
  }

  lemma CutPath(t: Table, next: nat, cwd: nat, absolute: bool, names: seq<string>)
    requires Tree(t, next) && cwd < next && AllProper(names) && ".." !in names
    requires Resolve(t, cwd, Cut(PathOf(absolute, names), 255)) >= 0
    requires Walk(t, if absolute then ROOT else cwd, names) >= 0
    ensures var to := Resolve(t, cwd, Cut(PathOf(absolute, names), 255));
            var all := Walk(t, if absolute then ROOT else cwd, names);
            to == all || ParentOf(t, to) < all
  {
    hide Components, Walk, FindNode, Tree, Join, AllProper, PathOf, Resolve;
    ResolveCut(t, cwd, absolute, names);
    var kept := Kept(absolute, names);
    assert kept == Join(names)[..|kept|];
    CutWalk(t, next, if absolute then ROOT else cwd, names, |kept|);
  }

  lemma NoComponents()
    ensures Components("") == []
  {
  }

  // What is not found can be made again, and then two siblings have one name.
  lemma MadeAgain(t: Table, next: nat, cwd: nat, absolute: bool, names: seq<string>, name: string,
                  kind: Kind, asksLeaf: bool)
    requires Tree(t, next) && cwd < next && AllProper(names) && SlashFree(name) && name != ""
    requires ".." !in Components(Kept(absolute, names))
    requires Create(t, next, cwd, PathOf(absolute, names + [name]), kind, asksLeaf).Made?
    ensures var path := PathOf(absolute, names + [name]);
            var t' := Create(t, next, cwd, path, kind, asksLeaf).table;
            var again := Create(t', next + 1, cwd, path, kind, asksLeaf);
            && (again.Made? <==> Resolve(t', cwd, path) < 0 && FirstFree(t', 0) < |t'|)
            && (again.Made? ==> !Differ(again.table, FirstFree(t, 0), FirstFree(t', 0)))
  {
    hide PathOf, Walk, Components, LastSlash, FindNode, FindChild, Proper, Join, Leaf, ParentPath, Resolve;
    hide AllProper, SlashFree, IsDir, Tree;
    ParentAndAnyLeaf(absolute, names, name);
    var path, k := PathOf(absolute, names + [name]), FirstFree(t, 0);
    var parent := Resolve(t, cwd, ParentPath(path));
    var node := Node(true, kind, next, parent, Leaf(path));
    IsDirBelow(t, next, parent);
    TableSize(t, next);
    DirStill(t, next, k, node, parent);
    ParentStays(t, next, k, node, cwd, absolute, names);
  }

  lemma ParentStays(t: Table, next: nat, k: nat, node: Node, cwd: nat, absolute: bool, names: seq<string>)
    requires Tree(t, next) && cwd < next && AllProper(names) && node.parent < next
    requires k < SLOTS && !t[k].used && node.used && node.inode == next
    requires ".." !in Components(Kept(absolute, names))
    requires Resolve(t, cwd, Cut(PathOf(absolute, names), 255)) == node.parent
    ensures Resolve(t[k := node], cwd, Cut(PathOf(absolute, names), 255)) == node.parent
  {
    hide Components, Walk, FindNode, Tree, Join, AllProper, PathOf, Resolve, Kept;
    TableSize(t, next);
    ResolveCut(t, cwd, absolute, names);
    ResolveCut(t[k := node], cwd, absolute, names);
    ComponentsAreSlashFree(Kept(absolute, names));
    WalkAbove(t, next, k, node, if absolute then ROOT else cwd, Components(Kept(absolute, names)));
  }
}
