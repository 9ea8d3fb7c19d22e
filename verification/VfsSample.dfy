/** A small tree, made by the operations themselves, on which printing paths shows its limits. */
module VfsSample {
  import opened CStrings
  import opened VfsInsert
  import opened VfsPrint
  import opened VfsTree
  import Vfs

  const ROOT: nat := 1
  const A: nat := 2
  const B: nat := 3
  const ABC: nat := 4

  const VFS_FILE: bv64 := 8

  /** The root alone. */
  function Bare(): Nodes { map[ROOT := Node([SLASH], ROOT, 7, [])] }

  function BareDepth(): map<nat, nat> { map[ROOT := 0] }

  /** With a folder "/a". */
  function WithA(): Nodes { Added(Bare(), ROOT, A, [97], VFS_DIRECTORY) }

  /** With a file "/a/b" in it. */
  function WithB(): Nodes
    requires Addable(WithA(), A, B, [98], VFS_FILE)
  {
    Added(WithA(), A, B, [98], VFS_FILE)
  }

  lemma BareTree()
    ensures Tree(Bare(), ROOT, BareDepth())
  {}

  lemma AddA()
    ensures Addable(Bare(), ROOT, A, [97], VFS_DIRECTORY)
  {}

  lemma AddB()
    ensures Addable(WithA(), A, B, [98], VFS_FILE)
  {
    AddA();
    AddedGrows(Bare(), ROOT, A, [97], VFS_DIRECTORY);
  }

  lemma AddABC()
    ensures Addable(WithA(), A, B, [98], VFS_FILE)
    ensures Addable(WithB(), ROOT, ABC, [97, 98, 99], VFS_FILE)
  {
    AddA();
    AddB();
    AddedGrows(Bare(), ROOT, A, [97], VFS_DIRECTORY);
    AddedGrows(WithA(), A, B, [98], VFS_FILE);
    hide Added, Order, Fold;
    var nodes := WithB();
    forall c | c in nodes[ROOT].children ensures c in nodes && !FoldEqual(nodes[c].name, [97, 98, 99]) {
      assert c == A;
      assert nodes[A].(children := []) == WithA()[A].(children := []);
    }
  }

  /** A tree in which node a has this parent, name and path. */
  ghost predicate At(nodes: Nodes, depth: map<nat, nat>, a: nat, parent: nat, name: Text, path: Text) {
    && Tree(nodes, ROOT, depth) && Rooted(nodes, ROOT, depth)
    && a in nodes && nodes[a].parent == parent && nodes[a].name == name && parent in nodes
    && PathOf(nodes, ROOT, depth, a) == path
  }

  lemma AtAdded(nodes: Nodes, depth: map<nat, nat>, d: nat, a: nat, name: CString, flags: bv64)
    requires Tree(nodes, ROOT, depth) && Rooted(nodes, ROOT, depth) && Addable(nodes, d, a, name, flags)
    ensures d in depth
    ensures At(Added(nodes, d, a, name, flags), depth[a := depth[d] + 1], a, d, name,
               Prefix(nodes, ROOT, depth, d) + name)
  {
    AddedGrows(nodes, d, a, name, flags);
    hide Tree, Added, Addable, Prefix, PathOf, Rooted, Linked;
    Vfs.AddedPaths(nodes, ROOT, depth, d, a, name, flags);
  }

  /** A node added to the root. */
  lemma AtTop(nodes: Nodes, depth: map<nat, nat>, a: nat, name: CString, flags: bv64)
    requires Tree(nodes, ROOT, depth) && Rooted(nodes, ROOT, depth) && Addable(nodes, ROOT, a, name, flags)
    ensures ROOT in depth
    ensures At(Added(nodes, ROOT, a, name, flags), depth[a := depth[ROOT] + 1], a, ROOT, name, [SLASH] + name)
  {
    hide Tree, Added, Addable, Rooted, At;
    AtAdded(nodes, depth, ROOT, a, name, flags);
  }

  /** A node added below one at a known path. */
  lemma AtBelow(nodes: Nodes, depth: map<nat, nat>, d: nat, a: nat, name: CString, flags: bv64,
                parent: nat, key: Text, path: Text)
    requires d != ROOT && At(nodes, depth, d, parent, key, path) && Addable(nodes, d, a, name, flags)
    ensures d in depth
    ensures At(Added(nodes, d, a, name, flags), depth[a := depth[d] + 1], a, d, name, path + [SLASH] + name)
  {
    hide Tree, Added, Addable, Rooted, PathOf;
    AtAdded(nodes, depth, d, a, name, flags);
  }

  /** Nodes that were there stay where they are. */
  lemma AtKept(nodes: Nodes, depth: map<nat, nat>, d: nat, a: nat, name: CString, flags: bv64,
               x: nat, parent: nat, key: Text, path: Text)
    requires Addable(nodes, d, a, name, flags) && At(nodes, depth, x, parent, key, path)
    ensures d in depth && At(Added(nodes, d, a, name, flags), depth[a := depth[d] + 1], x, parent, key, path)
  {
    AddedGrows(nodes, d, a, name, flags);
    hide Tree, Added, Addable, Prefix, PathOf, Rooted, Linked;
    Vfs.AddedPaths(nodes, ROOT, depth, d, a, name, flags);
    var nodes' := Added(nodes, d, a, name, flags);
    assert nodes'[x].(children := []) == nodes[x].(children := []);
  }

  lemma SampleA()
    ensures At(WithA(), map[ROOT := 0, A := 1], A, ROOT, [97], [SLASH, 97])
  {
    BareTree();
    AddA();
    hide Tree, Added, Addable, At;
    AtTop(Bare(), BareDepth(), A, [97], VFS_DIRECTORY);
    assert BareDepth()[A := 1] == map[ROOT := 0, A := 1];
    assert [SLASH] + [97] == [SLASH, 97];
  }

  lemma SampleB()
    ensures Addable(WithA(), A, B, [98], VFS_FILE)
    ensures At(WithB(), map[ROOT := 0, A := 1, B := 2], A, ROOT, [97], [SLASH, 97])
    ensures At(WithB(), map[ROOT := 0, A := 1, B := 2], B, A, [98], [SLASH, 97, SLASH, 98])
  {
    SampleA();
    AddB();
    hide WithA, Added, At, IsDir, GoodName, FoldEqual;
    var depth := map[ROOT := 0, A := 1];
    AtBelow(WithA(), depth, A, B, [98], VFS_FILE, ROOT, [97], [SLASH, 97]);
    AtKept(WithA(), depth, A, B, [98], VFS_FILE, A, ROOT, [97], [SLASH, 97]);
    assert depth[B := 2] == map[ROOT := 0, A := 1, B := 2];
    assert [SLASH, 97] + [SLASH] + [98] == [SLASH, 97, SLASH, 98];
  }

  /** The tree with "/a", "/a/b" and "/abc". */
  ghost predicate IsSample(nodes: Nodes, depth: map<nat, nat>) {
    && At(nodes, depth, A, ROOT, [97], [SLASH, 97])
    && At(nodes, depth, B, A, [98], [SLASH, 97, SLASH, 98])
    && At(nodes, depth, ABC, ROOT, [97, 98, 99], [SLASH, 97, 98, 99])
  }

  lemma Together(nodes: Nodes, depth: map<nat, nat>)
    requires At(nodes, depth, A, ROOT, [97], [SLASH, 97])
    requires At(nodes, depth, B, A, [98], [SLASH, 97, SLASH, 98])
    requires At(nodes, depth, ABC, ROOT, [97, 98, 99], [SLASH] + [97, 98, 99])
    ensures IsSample(nodes, depth)
  {
    hide At;
    assert [SLASH] + [97, 98, 99] == [SLASH, 97, 98, 99];
  }

  lemma Sample() returns (nodes: Nodes, depth: map<nat, nat>)
    ensures IsSample(nodes, depth)
  {
    hide Added, At, IsDir, GoodName, FoldEqual, Tree, Rooted, WithA, WithB, IsSample;
    SampleB();
    AddABC();
    var was, before := WithB(), map[ROOT := 0, A := 1, B := 2];
    AtIsTree(was, before, A, ROOT, [97], [SLASH, 97]);
    nodes := Added(was, ROOT, ABC, [97, 98, 99], VFS_FILE);
    AtTop(was, before, ABC, [97, 98, 99], VFS_FILE);
    depth := before[ABC := before[ROOT] + 1];
    AtKept(was, before, ROOT, ABC, [97, 98, 99], VFS_FILE, A, ROOT, [97], [SLASH, 97]);
    AtKept(was, before, ROOT, ABC, [97, 98, 99], VFS_FILE, B, A, [98], [SLASH, 97, SLASH, 98]);
    Together(nodes, depth);
  }

  lemma AtIsTree(nodes: Nodes, depth: map<nat, nat>, a: nat, parent: nat, name: Text, path: Text)
    requires At(nodes, depth, a, parent, name, path)
    ensures Tree(nodes, ROOT, depth) && Rooted(nodes, ROOT, depth)
  {}

  /** Printing "/a/b" with a limit of 256 prints the whole path and writes two bytes too far. */
  lemma LimitBroken()
    ensures exists nodes, depth ::
              && Tree(nodes, ROOT, depth) && Rooted(nodes, ROOT, depth) && B in nodes
              && Shown(nodes, ROOT, depth, B, 256) == B && Extent(nodes, ROOT, depth, B) == 258
              && !KeepsLimit(PathOf(nodes, ROOT, depth, B), 258, 256)
  {
    hide Tree, KeepsLimit;
    var nodes, depth := Sample();
    LimitKept(PathOf(nodes, ROOT, depth, B), 258, 256);
  }

  /** With a limit of 5 the call returns 4 for "/a/b", which is printed, and for "/abc", which is not. */
  lemma NumberDoesNotTell()
    ensures exists nodes, depth ::
              && Tree(nodes, ROOT, depth) && Rooted(nodes, ROOT, depth) && B in nodes && ABC in nodes
              && Fits(nodes, ROOT, depth, B, 5) && !Fits(nodes, ROOT, depth, ABC, 5)
              && Told(nodes, ROOT, depth, B, 5) == Told(nodes, ROOT, depth, ABC, 5) == 4
  {
    hide Tree;
    var nodes, depth := Sample();
    PrintExact(nodes, ROOT, depth, B, 5);
    assert Fits(nodes, ROOT, depth, B, 5);
    assert !Fits(nodes, ROOT, depth, ABC, 5);
    assert Told(nodes, ROOT, depth, ROOT, 5) == 1;
  }
}
