// The file system's node table, changed in place by path operations.
module Vfs {
  import opened VfsTree

  class FileSystem {
    const nodes: array<Node>
    var nextInode: nat
    var cwd: nat

    ghost predicate Valid()
      reads this, nodes
    {
      nodes.Length == SLOTS && Tree(nodes[..], nextInode) && cwd < nextInode
    }

    constructor ()
      ensures Valid() && fresh(nodes) && cwd == ROOT && nextInode == 1
      ensures nodes[..] == [THE_ROOT] + seq(SLOTS - 1, _ => Gone())
    {
      nodes := new Node[SLOTS](_ => Gone());
      nextInode, cwd := 1, ROOT;
      new;
      nodes[0] := THE_ROOT;
      assert nodes[..] == [THE_ROOT] + seq(SLOTS - 1, _ => Gone());
    }

    // The slot of an inode; SLOTS for none.
    method NodeGet(inode: nat) returns (k: nat)
      requires nodes.Length == SLOTS
      ensures k == FindNode(nodes[..], inode, 0)
    {
      k := 0;
      while k < SLOTS
        invariant k <= SLOTS && FindNode(nodes[..], inode, 0) == FindNode(nodes[..], inode, k)
      {
        if nodes[k].used && nodes[k].inode == inode {
          return;
        }
        k := k + 1;
      }
    }

    method ChildGet(parent: nat, name: string) returns (k: nat)
      requires nodes.Length == SLOTS
      ensures k == FindChild(nodes[..], parent, name, 0)
    {
      k := 0;
      while k < SLOTS
        invariant k <= SLOTS && FindChild(nodes[..], parent, name, 0) == FindChild(nodes[..], parent, name, k)
      {
        if nodes[k].used && nodes[k].parent == parent && nodes[k].name == name {
          return;
        }
        k := k + 1;
      }
    }

    method NodeAlloc() returns (k: nat)
      requires nodes.Length == SLOTS
      ensures k == FirstFree(nodes[..], 0)
    {
      k := 0;
      while k < SLOTS
        invariant k <= SLOTS && FirstFree(nodes[..], 0) == FirstFree(nodes[..], k)
      {
        if !nodes[k].used {
          return;
        }
        k := k + 1;
      }
    }

    // Walks a path component by component: the inode, or -1.
    method ResolvePath(path: string) returns (r: int)
      requires nodes.Length == SLOTS
      ensures r == Resolve(nodes[..], cwd, path)
    {
      hide FindNode, FindChild, Components, Walk, LengthFrom, ComponentLength, AfterComponent;
      ghost var t := nodes[..];
      if path == "" {
        return cwd;
      }
      var cur: nat := if path[0] == '/' then ROOT else cwd;
      var i: nat := if path[0] == '/' then 1 else 0;
      assert path[0..] == path;
      while i < |path|
        invariant i <= |path| && Resolve(t, cwd, path) == Walk(t, cur, Components(path[i..]))
        decreases |path| - i
      {
        var component, next := NextComponent(path, i);
        FirstStep(t, cur, path[i..]);
        assert path[next..] == path[i..][next - i..];
        i := next;
        if component == "." {
          continue;
        }
        if component == ".." {
          var n := NodeGet(cur);
          if n < SLOTS {
            cur := nodes[n].parent;
          }
          continue;
        }
        var k := ChildGet(cur, component);
        if k == SLOTS {
          return -1;
        }
        cur := nodes[k].inode;
      }
      assert path[i..] == "";
      NoMore(t, cur);
      r := cur;
    }

    // The component at `i`, and where the next one starts.
    method NextComponent(path: string, i: nat) returns (component: string, next: nat)
      requires i < |path|
      ensures i < next <= |path|
      ensures component == path[i..][..ComponentLength(path[i..])] && path[i..][next - i..] == AfterComponent(path[i..])
    {
      hide LengthFrom;
      ghost var rest := path[i..];
      component, next := "", i;
      LengthHere(rest, 0);
      while next < |path| && path[next] != '/' && |component| < NAME_MAX - 1
        invariant i <= next <= |path| && |component| == next - i < NAME_MAX && component == rest[..next - i]
        invariant ComponentLength(rest) == LengthFrom(rest, next - i)
        decreases |path| - next
      {
        LengthHere(rest, next - i);
        component := component + [path[next]];
        next := next + 1;
      }
      LengthHere(rest, next - i);
      if next < |path| && path[next] == '/' {
        next := next + 1;
      }
    }

    // Splits off the last component: the parent's inode or -1, and the leaf.
    method ResolveParent(path: string) returns (parent: int, leaf: string)
      requires nodes.Length == SLOTS
      ensures parent == Resolve(nodes[..], cwd, ParentPath(path)) && leaf == Leaf(path)
    {
      hide LastSlash, Resolve;
      var slash := -1;
      for i := 0 to |path|
        invariant slash == LastSlash(path[..i])
      {
        SlashStep(path, i);
        if path[i] == '/' {
          slash := i;
        }
      }
      assert path[..|path|] == path;
      if slash < 0 {
        assert path[0..] == path;
        NoPath(nodes[..], cwd);
        return cwd, Cut(path, NAME_MAX - 1);
      }
      var parentPath := if slash == 0 then "/" else path[..if slash >= 256 then 255 else slash];
      leaf := Cut(path[slash + 1..], NAME_MAX - 1);
      assert parentPath == ParentPath(path);
      parent := ResolvePath(parentPath);
    }

    // Makes a node at a path that leads nowhere yet; false when it cannot.
    method CreateNode(path: string, kind: Kind, asksLeaf: bool) returns (ok: bool)
      requires Valid()
      modifies this`nextInode, nodes
      ensures var made := Create(old(nodes[..]), old(nextInode), cwd, path, kind, asksLeaf);
              if ok then made == Made(nodes[..]) && nextInode == old(nextInode) + 1
              else made == Refused && nodes[..] == old(nodes[..]) && nextInode == old(nextInode)
    {
      hide Resolve, FindNode, FirstFree, ParentPath, Leaf, Tree;
      ghost var t := nodes[..];
      var existing := ResolvePath(path);
      if existing >= 0 {
        return false;
      }
      var parent, leaf := ResolveParent(path);
      if parent < 0 || (asksLeaf && leaf == "") {
        return false;
      }
      var pn := NodeGet(parent);
      if pn == SLOTS || nodes[pn].kind != Dir {
        return false;
      }
      var nn := NodeAlloc();
      if nn == SLOTS {
        return false;
      }
      nodes[nn] := Node(true, kind, nextInode, parent, leaf);
      nextInode := nextInode + 1;
      ok := true;
      assert nodes[..] == WithNode(t, old(nextInode), nn, kind, parent, leaf);
    }

    // Creation at a proper path keeps the tree; the node is found there, and
    // every path that led somewhere leads to the same node.
    method CreateAt(absolute: bool, names: seq<string>, leaf: string, kind: Kind, asksLeaf: bool) returns (ok: bool)
      requires Valid() && AllProper(names + [leaf]) && |PathOf(absolute, names + [leaf])| <= 256
      modifies this`nextInode, nodes
      ensures Valid()
      ensures
        var parent := Walk(old(nodes[..]), if absolute then ROOT else cwd, names);
        ok <==> parent >= 0 && IsDir(old(nodes[..]), parent) && Step(old(nodes[..]), parent, leaf) < 0
                && HasRoom(old(nodes[..]))
      ensures ok ==> Resolve(nodes[..], cwd, PathOf(absolute, names + [leaf])) == old(nextInode)
      ensures ok ==> KindIs(nodes[..], old(nextInode), kind)
      ensures ok ==> forall i: nat {:trigger nodes[i]} ::
        i < SLOTS && i != FindNode(nodes[..], old(nextInode), 0) ==> nodes[i] == old(nodes[..])[i]
      ensures forall other {:trigger Resolve(nodes[..], cwd, other)} ::
        Resolve(old(nodes[..]), cwd, other) >= 0 ==>
          Resolve(nodes[..], cwd, other) == Resolve(old(nodes[..]), cwd, other)
    {
      hide Resolve, Tree, Create, PathOf, Walk, IsDir, Step, HasRoom, FindNode;
      ghost var t, next := nodes[..], nextInode;
      ok := CreateNode(PathOf(absolute, names + [leaf]), kind, asksLeaf);
      CreationIff(t, next, cwd, absolute, names, leaf, kind, asksLeaf);
      if ok {
        MadeAsAsked(t, next, cwd, absolute, names, leaf, kind, asksLeaf);
        ProperCreation(t, next, cwd, absolute, names, leaf, kind, asksLeaf);
      }
    }

    // Removes the node at a path; false when it cannot.
    method Unlink(path: string) returns (ok: bool)
      requires Valid()
      modifies nodes
      ensures Valid()
      ensures var made := Remove(old(nodes[..]), cwd, path);
              if ok then made == Made(nodes[..]) else made == Refused && nodes[..] == old(nodes[..])
    {
      hide Resolve, FindNode, Tree;
      ghost var t := nodes[..];
      var inode := ResolvePath(path);
      if inode < 0 {
        return false;
      }
      if inode == ROOT {
        return false;
      }
      var n := NodeGet(inode);
      if n == SLOTS {
        return false;
      }
      if nodes[n].kind == Dir {
        var has := AnyChild(inode);
        if has {
          return false;
        }
      }
      Removal(t, nextInode, cwd, path);
      nodes[n] := Gone();
      ok := true;
      assert nodes[..] == t[n := Gone()];
    }

    method AnyChild(inode: nat) returns (r: bool)
      requires nodes.Length == SLOTS
      ensures r == HasChild(nodes[..], inode, 0)
    {
      var i := 0;
      while i < SLOTS
        invariant i <= SLOTS && HasChild(nodes[..], inode, 0) == HasChild(nodes[..], inode, i)
      {
        if nodes[i].used && nodes[i].parent == inode {
          return true;
        }
        i := i + 1;
      }
      r := false;
    }

    // The path of the current directory, built from its end.
    method GetCwd() returns (path: string)
      requires Valid() && FindNode(nodes[..], cwd, 0) < SLOTS && |PathName(nodes[..], cwd)| <= 1023
      ensures path == PathName(nodes[..], cwd) && Resolve(nodes[..], cwd, path) == cwd
    {
      hide Resolve, FindNode, Tree, Rooted, NamesOf;
      ghost var t := nodes[..];
      PathNameLeadsBack(t, nextInode, cwd, cwd);
      if cwd == ROOT {
        return "/";
      }
      var cur, text, pos := cwd, "", 1023;
      NothingAfter(t, cwd);
      while cur != ROOT
        invariant pos == 1023 - |text| >= 0 && Rooted(NamesOf(t, cwd)) == Rooted(NamesOf(t, cur)) + text
        invariant FindNode(t, cur, 0) < SLOTS && (text == "" ==> cur == cwd)
        decreases cur
      {
        var n := NodeGet(cur);
        LastName(t, nextInode, cur);
        var name := nodes[n].name;
        ghost var above := Rooted(NamesOf(t, nodes[n].parent));
        assert above + "/" + name + text == above + ("/" + name + text);
        pos := pos - |name|;
        pos := pos - 1;
        text := "/" + name + text;
        cur := nodes[n].parent;
      }
      NothingAbove(t);
      path := text;
    }
  }

  lemma NothingAfter(t: Table, inode: nat)
    ensures Rooted(NamesOf(t, inode)) == Rooted(NamesOf(t, inode)) + ""
  {
  }

  lemma NothingAbove(t: Table)
    ensures Rooted(NamesOf(t, ROOT)) == ""
  {
  }

  lemma LastName(t: Table, next: nat, inode: nat)
    requires Tree(t, next) && inode != ROOT && FindNode(t, inode, 0) < |t|
    ensures var n := t[FindNode(t, inode, 0)];
            && n.parent < inode && FindNode(t, n.parent, 0) < |t|
            && Rooted(NamesOf(t, inode)) == Rooted(NamesOf(t, n.parent)) + "/" + n.name
  {
    var k := FindNode(t, inode, 0);
    assert Hangs(t, next, k);
    var names := NamesOf(t, t[k].parent);
    assert (names + [t[k].name])[..|names|] == names;
  }

  lemma LengthHere(path: string, n: nat)
    requires n <= |path| && n < NAME_MAX
    ensures n == 0 ==> ComponentLength(path) == LengthFrom(path, 0)
    ensures LengthFrom(path, n) ==
      if n < |path| && path[n] != '/' && n < NAME_MAX - 1 then LengthFrom(path, n + 1) else n
  {
  }

  // The first component decides the first step.
  lemma FirstStep(t: Table, cur: nat, path: string)
    requires path != ""
    ensures var next := Step(t, cur, path[..ComponentLength(path)]);
            Walk(t, cur, Components(path)) ==
              if next < 0 then -1 else Walk(t, next, Components(AfterComponent(path)))
  {
    hide ComponentLength, AfterComponent;
    var rest := Components(AfterComponent(path));
    assert Components(path) == [path[..ComponentLength(path)]] + rest;
    assert Components(path)[1..] == rest;
  }

  lemma NoMore(t: Table, cur: nat)
    ensures Walk(t, cur, Components("")) == cur
  {
  }

  lemma NoPath(t: Table, cwd: nat)
    ensures Resolve(t, cwd, "") == cwd
  {
  }

  lemma SlashStep(path: string, i: nat)
    requires i < |path|
    ensures LastSlash(path[..i + 1]) == if path[i] == '/' then i else LastSlash(path[..i])
    ensures LastSlash(path[..0]) == -1
  {
    assert path[..i + 1][..i] == path[..i];
  }
}
