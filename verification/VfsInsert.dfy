/** What adding a file or a folder does to the tree and to the paths in it. */
module VfsInsert {
  import opened CStrings
  import opened VfsTree
  import opened Wrappers
  import SL = SortedLists

  /** The nodes after a new one has been inserted into the sorted children of a directory. */
  function Added(nodes: Nodes, d: nat, a: nat, name: CString, flags: bv64): Nodes
    requires d in nodes && forall c :: c in nodes[d].children ==> c in nodes
  {
    var cs := nodes[d].children;
    var k := SL.Place(NamesOf(nodes, cs), Order, name);
    nodes[d := nodes[d].(children := cs[..k] + [a] + cs[k..])][a := Node(name, d, flags, [])]
  }

  /** What the callers see to: the place is a directory, and the name is good and new there. */
  ghost predicate Addable(nodes: Nodes, d: nat, a: nat, name: CString, flags: bv64) {
    && d in nodes && a !in nodes && IsDir(nodes[d]) && flags & VFS_ROOT == 0 && GoodName(name)
    && forall c :: c in nodes[d].children ==> c in nodes && !FoldEqual(nodes[c].name, name)
  }

  /** One node more, a leaf of d. */
  ghost predicate Grown(nodes: Nodes, nodes': Nodes, d: nat, a: nat) {
    && d in nodes && a !in nodes && nodes'.Keys == nodes.Keys + {a}
    && nodes'[a].parent == d && nodes'[a].children == []
    && (forall x :: x in nodes ==> nodes'[x].(children := []) == nodes[x].(children := []))
    && (forall x :: x in nodes && x != d ==> nodes'[x].children == nodes[x].children)
    && (forall c :: c in nodes'[d].children <==> c in nodes[d].children || c == a)
  }

  lemma AddedGrows(nodes: Nodes, d: nat, a: nat, name: CString, flags: bv64)
    requires Addable(nodes, d, a, name, flags)
    ensures Grown(nodes, Added(nodes, d, a, name, flags), d, a)
    ensures Added(nodes, d, a, name, flags)[a] == Node(name, d, flags, [])
  {
    hide NamesOf, SL.Place, GoodName, FoldEqual;
    var cs := nodes[d].children;
    var k := SL.Place(NamesOf(nodes, cs), Order, name);
    assert cs == cs[..k] + cs[k..];
  }

  lemma NamesKept(nodes: Nodes, nodes': Nodes, cs: seq<nat>)
    requires forall c :: c in cs ==> c in nodes && c in nodes' && nodes'[c].name == nodes[c].name
    ensures NamesOf(nodes', cs) == NamesOf(nodes, cs)
  {
    hide NamesOf;
  }

  lemma FoldSymmetric(a: Text, b: Text)
    ensures FoldEqual(a, b) == FoldEqual(b, a)
  {}

  lemma DistinctWith(names: seq<CString>, k: nat, name: CString)
    requires Distinct(names) && k <= |names| && forall i :: 0 <= i < |names| ==> !FoldEqual(names[i], name)
    ensures Distinct(names[..k] + [name] + names[k..])
  {
    hide FoldEqual;
    var t := names[..k] + [name] + names[k..];
    forall i, j | 0 <= i < j < |t| ensures !FoldEqual(t[i], t[j]) {
      assert t[i] == if i < k then names[i] else if i == k then name else names[i - 1];
      assert t[j] == if j < k then names[j] else if j == k then name else names[j - 1];
      if i == k { FoldSymmetric(t[i], t[j]); }
    }
  }

  lemma AddedNames(nodes: Nodes, nodes': Nodes, cs: seq<nat>, k: nat, a: nat)
    requires k <= |cs| && a in nodes'
    requires forall c :: c in cs ==> c in nodes && c in nodes' && nodes'[c].name == nodes[c].name
    requires forall c :: c in cs[..k] + [a] + cs[k..] ==> c in nodes'
    ensures NamesOf(nodes', cs[..k] + [a] + cs[k..])
            == NamesOf(nodes, cs)[..k] + [nodes'[a].name] + NamesOf(nodes, cs)[k..]
  {
    hide NamesOf;
    var cs' := cs[..k] + [a] + cs[k..];
    var names := NamesOf(nodes, cs);
    var names' := names[..k] + [nodes'[a].name] + names[k..];
    forall i | 0 <= i < |cs'| ensures NamesOf(nodes', cs')[i] == names'[i] {
      assert cs'[i] == if i < k then cs[i] else if i == k then a else cs[i - 1];
      assert i < k ==> names'[i] == names[i];
      assert i > k ==> names'[i] == names[i - 1];
    }
  }

  /** The directory itself stays in order. */
  lemma AddedDirectory(nodes: Nodes, root: nat, d: nat, a: nat, name: CString, flags: bv64)
    requires Addable(nodes, d, a, name, flags) && root in nodes && Directory(nodes, root, d)
    ensures d in Added(nodes, d, a, name, flags) && Directory(Added(nodes, d, a, name, flags), root, d)
  {
    hide NamesOf, SL.Place, SL.Sorted, SL.Comparison, IsDir, GoodName, FoldEqual, Distinct, Order;
    AddedGrows(nodes, d, a, name, flags);
    var nodes' := Added(nodes, d, a, name, flags);
    var cs := nodes[d].children;
    var names := NamesOf(nodes, cs);
    var k := SL.Place(names, Order, name);
    assert nodes'[d].children == cs[..k] + [a] + cs[k..];
    AddedNames(nodes, nodes', cs, k, a);
    OrderCompares();
    SL.InsertedSorted(names, Order, name);
    DistinctWith(names, k, name);
  }

  lemma DirectoryAt(nodes: Nodes, root: nat, depth: map<nat, nat>, d: nat)
    requires Tree(nodes, root, depth) && d in nodes && IsDir(nodes[d])
    ensures Directory(nodes, root, d)
  {}

  lemma OtherDirectory(nodes: Nodes, nodes': Nodes, root: nat, d: nat, a: nat, x: nat)
    requires Grown(nodes, nodes', d, a) && root in nodes && x in nodes' && x != d
    requires x in nodes ==> Directory(nodes, root, x)
    ensures Directory(nodes', root, x)
  {
    if x in nodes {
      hide NamesOf;
      NamesKept(nodes, nodes', nodes[x].children);
    }
  }

  lemma GrownHangs(nodes: Nodes, nodes': Nodes, d: nat, a: nat, x: nat)
    requires Grown(nodes, nodes', d, a) && IsDir(nodes[d]) && GoodName(nodes'[a].name) && !IsRoot(nodes'[a])
    requires x in nodes' && (x in nodes ==> Hangs(nodes, x))
    ensures Hangs(nodes', x)
  {
    hide GoodName, IsDir, IsRoot;
    assert forall y :: y in nodes ==> nodes'[y].flags == nodes[y].flags && nodes'[y].name == nodes[y].name;
    SameKind(nodes[d], nodes'[d]);
    if x in nodes {
      SameKind(nodes[x], nodes'[x]);
      SameKind(nodes[nodes[x].parent], nodes'[nodes[x].parent]);
    }
  }

  lemma SameKind(n: Node, n': Node)
    requires n.flags == n'.flags
    ensures IsDir(n) == IsDir(n') && IsRoot(n) == IsRoot(n')
  {}

  lemma GrownRooted(nodes: Nodes, nodes': Nodes, root: nat, depth: map<nat, nat>, d: nat, a: nat)
    requires Grown(nodes, nodes', d, a) && Rooted(nodes, root, depth)
    ensures Rooted(nodes', root, depth[a := depth[d] + 1])
  {
    var depth' := depth[a := depth[d] + 1];
    forall y | y in nodes' && y != root
      ensures nodes'[y].parent in nodes' && depth'[nodes'[y].parent] < depth'[y]
    {
      if y != a {
        assert nodes'[y].(children := []) == nodes[y].(children := []);
        assert nodes[y].parent != a;
      }
    }
    assert nodes'[root].(children := []) == nodes[root].(children := []);
  }

  /** Adding a node keeps the tree. */
  lemma AddedTree(nodes: Nodes, root: nat, depth: map<nat, nat>, d: nat, a: nat, name: CString, flags: bv64)
    requires Tree(nodes, root, depth) && Addable(nodes, d, a, name, flags)
    ensures Tree(Added(nodes, d, a, name, flags), root, depth[a := depth[d] + 1])
  {
    var nodes' := Added(nodes, d, a, name, flags);
    hide Added, GoodName, FoldEqual, Directory, Hangs, Rooted;
    assert root in nodes by { RootIn(nodes, root, depth); }
    AddedGrows(nodes, d, a, name, flags);
    AddedDirectory(nodes, root, d, a, name, flags);
    GrownRooted(nodes, nodes', root, depth, d, a);
    SameKind(nodes[root], nodes'[root]);
    forall x | x in nodes' && x != root ensures Hangs(nodes', x) {
      GrownHangs(nodes, nodes', d, a, x);
    }
    forall x | x in nodes' && IsDir(nodes'[x]) ensures Directory(nodes', root, x) {
      if x in nodes { SameKind(nodes[x], nodes'[x]); }
      if x != d { OtherDirectory(nodes, nodes', root, d, a, x); }
    }
  }

  lemma RootIn(nodes: Nodes, root: nat, depth: map<nat, nat>)
    requires Tree(nodes, root, depth)
    ensures root in nodes
  {}

  /** No path changes. */
  lemma {:induction false} PathKept(nodes: Nodes, root: nat, depth: map<nat, nat>,
                                      nodes': Nodes, depth': map<nat, nat>, x: nat)
    requires Rooted(nodes, root, depth) && Rooted(nodes', root, depth') && x in nodes
    requires forall y :: y in nodes ==>
                   y in nodes' && nodes'[y].parent == nodes[y].parent && nodes'[y].name == nodes[y].name
    ensures PathOf(nodes', root, depth', x) == PathOf(nodes, root, depth, x)
    decreases depth[x]
  {
    if x != root { PathKept(nodes, root, depth, nodes', depth', nodes[x].parent); }
  }

  /** A lookup that succeeded before succeeds afterwards, with the same result. */
  lemma LookupKept(nodes: Nodes, nodes': Nodes, root: nat, depth: map<nat, nat>, d: nat, a: nat, dir: nat, key: Text)
    requires Grown(nodes, nodes', d, a) && Tree(nodes', root, depth) && Linked(nodes) && Linked(nodes')
    requires dir in nodes && Lookup(nodes, dir, key).Some?
    ensures Lookup(nodes', dir, key) == Lookup(nodes, dir, key)
  {
    hide Tree, GoodName, IsDir, IsRoot, FoldEqual, NamesOf, SL.Sorted, Distinct, FirstChild;
    SameKind(nodes[dir], nodes'[dir]);
    assert nodes'[dir].parent == nodes[dir].parent;
    if IsDir(nodes[dir]) && key != [DOT] && key != [DOT, DOT] {
      DirectoryAt(nodes', root, depth, dir);
      var c := FirstChild(nodes, nodes[dir].children, key).value;
      assert nodes'[c].name == nodes[c].name;
      FirstUnique(nodes', nodes'[dir].children, key, c);
    }
  }

  /** So does a walk. */
  lemma {:induction false} WalkKept(nodes: Nodes, nodes': Nodes, root: nat, depth: map<nat, nat>, d: nat, a: nat,
                                    cur: nat, path: Text, skipFinal: bool)
    requires Grown(nodes, nodes', d, a) && Tree(nodes', root, depth) && Linked(nodes) && Linked(nodes')
    requires cur in nodes && Walk(nodes, cur, path, skipFinal).Some?
    ensures cur in nodes' && Walk(nodes', cur, path, skipFinal) == Walk(nodes, cur, path, skipFinal)
    decreases |path|
  {
    hide Next, Lookup, Linked, Tree;
    assert cur in nodes';
    hide Grown;
    match Next(path)
    case Final(n) =>
      if !skipFinal { LookupKept(nodes, nodes', root, depth, d, a, cur, n); }
    case Inner(n, rest) =>
      LookupKept(nodes, nodes', root, depth, d, a, cur, n);
      WalkKept(nodes, nodes', root, depth, d, a, Lookup(nodes, cur, n).value, rest, skipFinal);
  }

  /** A folder created under a path is what the path then leads to, from the same place. */
  lemma CreatedFound(nodes: Nodes, root: nat, depth: map<nat, nat>, cur: nat, path: Text,
                       d: nat, a: nat, name: CString, flags: bv64)
    requires Tree(nodes, root, depth) && Linked(nodes) && cur in nodes && name == BaseName(path)
    requires Walk(nodes, cur, path, true) == Some(d) && Addable(nodes, d, a, name, flags)
    ensures var nodes' := Added(nodes, d, a, name, flags);
            Linked(nodes') && cur in nodes' && Walk(nodes', cur, path, false) == Some(a)
  {
    hide Lookup, Walk, Linked, BaseName, Directory, Hangs, GoodName;
    var nodes' := Added(nodes, d, a, name, flags);
    var depth' := depth[a := depth[d] + 1];
    RootIn(nodes, root, depth);
    hide Tree, Added;
    AddedTree(nodes, root, depth, d, a, name, flags);
    AddedGrows(nodes, d, a, name, flags);
    hide Addable;
    TreeLinked(nodes', root, depth');
    assert a != root && a in nodes' && nodes'[a].parent == d;
    hide Grown;
    WalkKept(nodes, nodes', root, depth', d, a, cur, path, true);
    FinalStep(nodes', cur, path);
    ChildFound(nodes', root, depth', a);
  }
}
