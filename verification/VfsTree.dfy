/** Directories, paths and what walking a path means. */
module VfsTree {
  import opened Bits
  import opened CStrings
  import opened Wrappers
  import SL = SortedLists

  const VFS_ROOT: bv64 := 1
  const VFS_DIRECTORY: bv64 := 4

  datatype Node = Node(name: CString, parent: nat, flags: bv64, children: seq<nat>)

  /** The nodes in memory, by address. */
  type Nodes = map<nat, Node>

  predicate IsDir(n: Node) { n.flags & VFS_DIRECTORY != 0 }

  predicate IsRoot(n: Node) { n.flags & VFS_ROOT != 0 }

  /** Names that can be printed into a path and found again. */
  ghost predicate GoodName(name: CString) {
    && 1 <= |name| <= 254
    && Lacks(name, SLASH) && Lacks(name, SPACE)
    && name != [DOT] && name != [DOT, DOT]
  }

  ghost predicate Linked(nodes: Nodes) {
    forall a :: a in nodes ==>
      && nodes[a].parent in nodes
      && (IsDir(nodes[a]) ==> forall c :: c in nodes[a].children ==> c in nodes)
  }

  function NamesOf(nodes: Nodes, cs: seq<nat>): (names: seq<CString>)
    requires forall c :: c in cs ==> c in nodes
    ensures |names| == |cs| && forall i :: 0 <= i < |cs| ==> names[i] == nodes[cs[i]].name
  {
    if cs == [] then [] else [nodes[cs[0]].name] + NamesOf(nodes, cs[1..])
  }

  /** No two names are the same up to bit 5 of their characters. */
  ghost predicate Distinct(names: seq<CString>) {
    forall i, j :: 0 <= i < j < |names| ==> !FoldEqual(names[i], names[j])
  }

  /** The children of a directory point back to it, are told apart by name and sorted by name. */
  ghost predicate Directory(nodes: Nodes, root: nat, d: nat)
    requires d in nodes
  {
    var cs := nodes[d].children;
    && (forall c :: c in cs ==> c in nodes && c != root && nodes[c].parent == d)
    && Distinct(NamesOf(nodes, cs))
    && SL.Sorted(NamesOf(nodes, cs), Order)
  }

  /** Every way up ends at the root. */
  ghost predicate Rooted(nodes: Nodes, root: nat, depth: map<nat, nat>) {
    && root in nodes && nodes[root].parent == root
    && depth.Keys == nodes.Keys
    && forall a :: a in nodes && a != root ==> nodes[a].parent in nodes && depth[nodes[a].parent] < depth[a]
  }

  ghost predicate Hangs(nodes: Nodes, a: nat)
    requires a in nodes
  {
    var p := nodes[a].parent;
    && !IsRoot(nodes[a]) && GoodName(nodes[a].name)
    && p in nodes && IsDir(nodes[p]) && a in nodes[p].children
  }

  /** Everything hangs below the one root, which is its own parent. */
  ghost predicate Tree(nodes: Nodes, root: nat, depth: map<nat, nat>) {
    && Rooted(nodes, root, depth) && IsRoot(nodes[root]) && IsDir(nodes[root])
    && (forall a :: a in nodes && a != root ==> Hangs(nodes, a))
    && (forall d :: d in nodes && IsDir(nodes[d]) ==> Directory(nodes, root, d))
  }

  lemma TreeLinked(nodes: Nodes, root: nat, depth: map<nat, nat>)
    requires Tree(nodes, root, depth)
    ensures Linked(nodes)
  {
    hide IsDir, IsRoot, Distinct, GoodName;
  }

  function FirstChild(nodes: Nodes, cs: seq<nat>, name: Text): (r: Option<nat>)
    requires forall c :: c in cs ==> c in nodes
    ensures r.Some? ==> r.value in cs && FoldEqual(nodes[r.value].name, name)
    ensures r.None? ==> forall c :: c in cs ==> !FoldEqual(nodes[c].name, name)
  {
    if cs == [] then None
    else if FoldEqual(nodes[cs[0]].name, name) then Some(cs[0])
    else FirstChild(nodes, cs[1..], name)
  }

  /** What a name stands for in a directory. */
  function Lookup(nodes: Nodes, dir: nat, name: Text): (r: Option<nat>)
    requires Linked(nodes) && dir in nodes
    ensures r.Some? ==> r.value in nodes
  {
    if !IsDir(nodes[dir]) then None
    else if name == [DOT] then Some(dir)
    else if name == [DOT, DOT] then Some(nodes[dir].parent)
    else FirstChild(nodes, nodes[dir].children, name)
  }

  function Skip(s: Text): (r: Text)
    ensures |r| <= |s| && r == s[|s| - |r|..] && (r == [] || r[0] != SLASH)
  {
    if s != [] && s[0] == SLASH then Skip(s[1..]) else s
  }

  /** The next name of a path, and what follows it: nothing, or a path that starts with a slash. */
  datatype Step = Final(name: Text) | Inner(name: Text, rest: Text)

  function Cut(f: Text): (r: Step)
    requires f != [] ==> f[0] != SLASH
    ensures Lacks(r.name, SLASH)
    ensures r.Inner? ==> |r.rest| < |f| && r.rest != [] && r.rest[0] == SLASH
  {
    match Find(f, SLASH)
    case None => Final(f)
    case Some(t) => Inner(f[..t], f[t..])
  }

  function Next(path: Text): (r: Step)
    ensures Lacks(r.name, SLASH)
    ensures r.Inner? ==> |r.rest| < |path| && r.rest != [] && r.rest[0] == SLASH
  {
    Cut(Skip(path))
  }

  /** Where a path leads, or with `skipFinal`, where all of it but the last name leads. */
  function Walk(nodes: Nodes, cur: nat, path: Text, skipFinal: bool): (r: Option<nat>)
    requires Linked(nodes) && cur in nodes
    ensures r.Some? ==> r.value in nodes
    decreases |path|
  {
    match Next(path)
    case Final(name) => if skipFinal then Some(cur) else Lookup(nodes, cur, name)
    case Inner(name, rest) =>
      match Lookup(nodes, cur, name)
      case None => None
      case Some(next) => Walk(nodes, next, rest, skipFinal)
  }

  /** Every name copied fits its 256 bytes; the last one goes through the copy that pads. */
  predicate NamesFit(path: Text, skipFinal: bool)
    decreases |path|
  {
    match Next(path)
    case Final(name) => skipFinal || |name| <= 254
    case Inner(name, rest) => |name| <= 255 && NamesFit(rest, skipFinal)
  }

  /** The last name of a path. */
  function BaseName(path: Text): (r: Text)
    ensures Lacks(r, SLASH) && |r| <= |path| && r == path[|path| - |r|..]
    ensures |r| < |path| ==> path[|path| - |r| - 1] == SLASH
  {
    if Lacks(path, SLASH) then path else BaseName(path[1..])
  }

  /** Cutting off a beginning up to some slash leaves the last name. */
  lemma {:induction false} BaseOfSuffix(path: Text, k: nat, j: nat)
    requires k <= |path| && (k > 0 ==> k - 1 <= j < |path| && path[j] == SLASH)
    ensures BaseName(path[k..]) == BaseName(path)
  {
    if k > 0 {
      assert path[1..][k - 1..] == path[k..];
      BaseOfSuffix(path[1..], k - 1, if j > 0 then j - 1 else 0);
    } else {
      assert path[0..] == path;
    }
  }

  lemma {:induction false} SkipKeepsBase(path: Text)
    ensures BaseName(Skip(path)) == BaseName(path)
  {
    if path != [] && path[0] == SLASH {
      SkipKeepsBase(path[1..]);
    }
  }

  lemma NextKeepsBase(path: Text)
    ensures BaseName(path) == match Next(path) case Final(name) => name case Inner(_, rest) => BaseName(rest)
  {
    SkipKeepsBase(path);
    var f := Skip(path);
    hide Skip;
    match Find(f, SLASH)
    case None =>
    case Some(t) =>
      BaseOfSuffix(f, t, t);
  }

  /** Leaving out the final name stops one lookup early: looking the last name up from there is the
      whole walk. */
  lemma {:induction false} FinalStep(nodes: Nodes, cur: nat, path: Text)
    requires Linked(nodes) && cur in nodes
    ensures Walk(nodes, cur, path, false) ==
            match Walk(nodes, cur, path, true)
            case None => None
            case Some(d) => Lookup(nodes, d, BaseName(path))
    decreases |path|
  {
    hide Lookup, Linked, Next, BaseName;
    NextKeepsBase(path);
    match Next(path)
    case Final(name) =>
    case Inner(name, rest) =>
      match Lookup(nodes, cur, name)
      case None =>
      case Some(next) => FinalStep(nodes, next, rest);
  }

  // ---- paths that are printed ----

  /** The path of a node from the root. */
  ghost function PathOf(nodes: Nodes, root: nat, depth: map<nat, nat>, a: nat): Text
    requires Rooted(nodes, root, depth) && a in nodes
    decreases depth[a], 0
  {
    if a == root then [SLASH] else Prefix(nodes, root, depth, nodes[a].parent) + nodes[a].name
  }

  /** What comes before the name of a child in its path. */
  ghost function Prefix(nodes: Nodes, root: nat, depth: map<nat, nat>, d: nat): Text
    requires Rooted(nodes, root, depth) && d in nodes
    decreases depth[d], 1
  {
    if d == root then [SLASH] else PathOf(nodes, root, depth, d) + [SLASH]
  }

  /** Only the path of the root ends with a slash. */
  lemma PathShape(nodes: Nodes, root: nat, depth: map<nat, nat>, a: nat)
    requires Tree(nodes, root, depth) && a in nodes
    ensures var path := PathOf(nodes, root, depth, a);
            && path != []
            && (a == root ==> path == [SLASH])
            && (a != root ==> path[|path| - 1] != SLASH)
  {
    hide Directory, IsDir, IsRoot;
    if a != root {
      assert Hangs(nodes, a);
    }
  }

  /** At most one child of a directory matches a name. */
  lemma FirstUnique(nodes: Nodes, cs: seq<nat>, name: Text, c: nat)
    requires forall x :: x in cs ==> x in nodes
    requires Distinct(NamesOf(nodes, cs)) && c in cs && FoldEqual(nodes[c].name, name)
    ensures FirstChild(nodes, cs, name) == Some(c)
  {
    hide Fold, NamesOf;
    var r := FirstChild(nodes, cs, name);
    hide FirstChild;
    var i :| 0 <= i < |cs| && cs[i] == r.value;
    var j :| 0 <= j < |cs| && cs[j] == c;
    var names := NamesOf(nodes, cs);
    assert FoldEqual(names[i], names[j]) && FoldEqual(names[j], names[i]);
  }

  /** A node is found in its parent under its name. */
  lemma ChildFound(nodes: Nodes, root: nat, depth: map<nat, nat>, a: nat)
    requires Tree(nodes, root, depth) && a in nodes && a != root && Linked(nodes)
    ensures Lookup(nodes, nodes[a].parent, nodes[a].name) == Some(a)
  {
    hide IsDir, IsRoot;
    assert Hangs(nodes, a);
    var p := nodes[a].parent;
    assert Directory(nodes, root, p);
    assert FoldEqual(nodes[a].name, nodes[a].name);
    FirstUnique(nodes, nodes[p].children, nodes[a].name, a);
  }

  lemma {:induction false} FindAppend(s: Text, t: Text, c: Byte)
    ensures Find(s + [c] + t, c) == match Find(s, c) case None => Some(|s|) case Some(k) => Some(k)
  {
    var u: Text := s + [c] + t;
    if s != [] {
      assert u[1..] == s[1..] + [c] + t;
      FindAppend(s[1..], t, c);
    }
  }

  lemma SkipFirst(s: Text)
    requires s != []
    ensures Skip(s) == if s[0] == SLASH then Skip(s[1..]) else s
  {}

  lemma {:induction false} SkipAppend(s: Text, t: Text)
    requires s != [] && s[|s| - 1] != SLASH
    ensures Skip(s) != [] && Skip(s)[|Skip(s)| - 1] != SLASH && Skip(s + t) == Skip(s) + t
  {
    hide Skip;
    SkipFirst(s);
    SkipFirst(s + t);
    if s[0] == SLASH {
      assert (s + t)[1..] == s[1..] + t;
      SkipAppend(s[1..], t);
    }
  }

  lemma CutAppend(f: Text, name: Text)
    requires f != [] && f[0] != SLASH && f[|f| - 1] != SLASH
    ensures Cut(f).Inner? ==> Cut(f).rest[|Cut(f).rest| - 1] != SLASH
    ensures Cut(f + [SLASH] + name) ==
            match Cut(f)
            case Final(n) => Inner(n, [SLASH] + name)
            case Inner(n, rest) => Inner(n, rest + [SLASH] + name)
  {
    hide Find, Lacks;
    var g := f + [SLASH] + name;
    FindAppend(f, name, SLASH);
    match Find(f, SLASH)
    case None => assert g[..|f|] == f && g[|f|..] == [SLASH] + name;
    case Some(t) => assert g[..t] == f[..t] && g[t..] == f[t..] + [SLASH] + name;
  }

  /** A name added at the end of a path leaves its other names as they were. */
  lemma NextAppend(path: Text, name: Text)
    requires path != [] && path[|path| - 1] != SLASH
    ensures Next(path).Inner? ==> Next(path).rest[|Next(path).rest| - 1] != SLASH
    ensures Next(path + [SLASH] + name) ==
            match Next(path)
            case Final(n) => Inner(n, [SLASH] + name)
            case Inner(n, rest) => Inner(n, rest + [SLASH] + name)
  {
    hide Skip, Cut;
    var tail: Text := [SLASH] + name;
    SkipAppend(path, tail);
    CutAppend(Skip(path), name);
    assert path + [SLASH] + name == path + tail;
    assert Skip(path) + [SLASH] + name == Skip(path) + tail;
  }

  lemma OneName(name: Text)
    requires name != [] && Lacks(name, SLASH)
    ensures Next([SLASH] + name) == Final(name)
  {
    hide Find;
    SkipOne(name);
  }

  lemma SkipOne(name: Text)
    requires name != [] && name[0] != SLASH
    ensures Skip([SLASH] + name) == name
  {
    assert ([SLASH] + name)[1..] == name;
    assert Skip(name) == name;
  }

  /** One more name at the end of a path is one more lookup at the end of the walk. */
  lemma {:induction false} WalkAppend(nodes: Nodes, cur: nat, path: Text, name: Text, skipFinal: bool)
    requires Linked(nodes) && cur in nodes && path != [] && path[|path| - 1] != SLASH
    requires name != [] && Lacks(name, SLASH)
    ensures Walk(nodes, cur, path + [SLASH] + name, skipFinal) ==
            match Walk(nodes, cur, path, false)
            case None => None
            case Some(d) => if skipFinal then Some(d) else Lookup(nodes, d, name)
    decreases |path|
  {
    hide Lookup, Linked, Next;
    NextAppend(path, name);
    OneName(name);
    match Next(path)
    case Final(n) =>
    case Inner(n, rest) =>
      match Lookup(nodes, cur, n)
      case None =>
      case Some(next) => WalkAppend(nodes, next, rest, name, skipFinal);
  }

  lemma {:induction false} FitsAppend(path: Text, name: Text)
    requires path != [] && path[|path| - 1] != SLASH && NamesFit(path, false)
    requires name != [] && Lacks(name, SLASH) && |name| <= 254
    ensures NamesFit(path + [SLASH] + name, false)
    decreases |path|
  {
    hide Next;
    NextAppend(path, name);
    OneName(name);
    match Next(path)
    case Final(n) =>
    case Inner(n, rest) => FitsAppend(rest, name);
  }

  /** The printed path of a node leads from the root back to it, and without its last name to its
      parent. */
  lemma {:induction false} RoundTrip(nodes: Nodes, root: nat, depth: map<nat, nat>, a: nat)
    requires Tree(nodes, root, depth) && Linked(nodes) && a in nodes && a != root
    ensures Walk(nodes, root, PathOf(nodes, root, depth, a), false) == Some(a)
    ensures Walk(nodes, root, PathOf(nodes, root, depth, a), true) == Some(nodes[a].parent)
    ensures NamesFit(PathOf(nodes, root, depth, a), false)
    decreases depth[a]
  {
    assert Hangs(nodes, a);
    var p, name := nodes[a].parent, nodes[a].name;
    ChildFound(nodes, root, depth, a);
    PathShape(nodes, root, depth, p);
    hide Lookup, Linked, Tree, Hangs, Next;
    if p == root {
      OneName(name);
      assert PathOf(nodes, root, depth, a) == [SLASH] + name;
    } else {
      RoundTrip(nodes, root, depth, p);
      var path := PathOf(nodes, root, depth, p);
      assert PathOf(nodes, root, depth, a) == path + [SLASH] + name;
      WalkAppend(nodes, root, path, name, false);
      WalkAppend(nodes, root, path, name, true);
      FitsAppend(path, name);
    }
  }

  /** One more name after the path of any node, the root included, is one lookup in that node. */
  lemma PathThen(nodes: Nodes, root: nat, depth: map<nat, nat>, a: nat, name: Text)
    requires Tree(nodes, root, depth) && Linked(nodes) && a in nodes && name != [] && Lacks(name, SLASH)
    ensures Walk(nodes, root, PathOf(nodes, root, depth, a) + [SLASH] + name, false) == Lookup(nodes, a, name)
  {
    PathShape(nodes, root, depth, a);
    if a != root { RoundTrip(nodes, root, depth, a); }
    hide Lookup, Linked, Next, Walk, PathOf, Hangs, Directory, Rooted;
    if a == root {
      RootThen(nodes, root, name);
    } else {
      WalkAppend(nodes, root, PathOf(nodes, root, depth, a), name, false);
    }
  }

  lemma RootThen(nodes: Nodes, root: nat, name: Text)
    requires Linked(nodes) && root in nodes && name != [] && Lacks(name, SLASH)
    ensures Walk(nodes, root, [SLASH] + [SLASH] + name, false) == Lookup(nodes, root, name)
  {
    hide Lookup, Linked, Next;
    assert [SLASH] + [SLASH] + name == [SLASH] + ([SLASH] + name);
    OneName(name);
    SkipSlash([SLASH] + name);
  }

  lemma SkipSlash(path: Text)
    ensures Next([SLASH] + path) == Next(path)
  {
    hide Cut;
    assert ([SLASH] + path)[1..] == path;
  }

  /** What ".." means, by paths: from a directory it leads where the path of the directory leads when its
      last name is left out, and so to the node whose path the directory's continues; from the root it leads
      to the root. */
  lemma UpWalk(nodes: Nodes, root: nat, depth: map<nat, nat>, a: nat)
    requires Tree(nodes, root, depth) && Linked(nodes) && a in nodes && IsDir(nodes[a])
    ensures var path := PathOf(nodes, root, depth, a);
            && Walk(nodes, root, path + [SLASH] + [DOT, DOT], false) ==
               (if a == root then Some(root) else Walk(nodes, root, path, true))
            && Walk(nodes, a, [DOT, DOT], false) == Walk(nodes, root, path + [SLASH] + [DOT, DOT], false)
            && var p := Walk(nodes, a, [DOT, DOT], false);
               && p.Some? && IsDir(nodes[p.value])
               && (a == root ==> p.value == root)
               && (a != root ==> path == Prefix(nodes, root, depth, p.value) + nodes[a].name)
  {
    var dots: Text := [DOT, DOT];
    NoSlash();
    hide IsRoot, Directory, GoodName, Walk, Skip, Cut, Find, Lacks, Linked;
    PathThen(nodes, root, depth, a, dots);
    OnlyName(nodes, a, dots);
    if a != root {
      RoundTrip(nodes, root, depth, a);
      assert Hangs(nodes, a);
    }
  }

  /** And "." leads from a directory to itself. */
  lemma DotWalk(nodes: Nodes, root: nat, depth: map<nat, nat>, a: nat)
    requires Tree(nodes, root, depth) && Linked(nodes) && a in nodes && IsDir(nodes[a])
    ensures Walk(nodes, root, PathOf(nodes, root, depth, a) + [SLASH] + [DOT], false) == Some(a)
    ensures Walk(nodes, a, [DOT], false) == Some(a)
  {
    var dot: Text := [DOT];
    PathThen(nodes, root, depth, a, dot);
    hide Walk, PathOf, IsDir;
    OnlyName(nodes, a, dot);
  }

  lemma NoSlash()
    ensures Lacks([DOT, DOT], SLASH) && Lacks([DOT], SLASH)
  {}

  /** A path of one name. */
  lemma OnlyName(nodes: Nodes, cur: nat, name: Text)
    requires Linked(nodes) && cur in nodes && name != [] && Lacks(name, SLASH)
    ensures Walk(nodes, cur, name, false) == Lookup(nodes, cur, name)
  {
    hide Lookup, Linked;
    assert Skip(name) == name;
    assert Next(name) == Final(name);
  }

  /** Every other name leads exactly to the nodes below the directory that it names, of which there is at
      most one.  No name leads anywhere from what is no directory. */
  lemma EntryExact(nodes: Nodes, root: nat, depth: map<nat, nat>, a: nat, name: Text, c: nat)
    requires Tree(nodes, root, depth) && Linked(nodes) && a in nodes && name != [] && Lacks(name, SLASH)
    ensures var path := PathOf(nodes, root, depth, a) + [SLASH] + name;
            && (!IsDir(nodes[a]) ==> Walk(nodes, root, path, false) == None)
            && (IsDir(nodes[a]) && name != [DOT] && name != [DOT, DOT] ==>
                  (Walk(nodes, root, path, false) == Some(c)
                   <==> c in nodes && c != root && nodes[c].parent == a && FoldEqual(nodes[c].name, name)))
  {
    PathThen(nodes, root, depth, a, name);
    if IsDir(nodes[a]) && name != [DOT] && name != [DOT, DOT] {
      assert Directory(nodes, root, a);
      if c in nodes && c != root && nodes[c].parent == a && FoldEqual(nodes[c].name, name) {
        assert Hangs(nodes, c);
        hide IsDir, Walk, PathOf, Tree, Fold;
        FirstUnique(nodes, nodes[a].children, name, c);
      }
    }
  }

  /** Different nodes have different paths. */
  lemma PathsDiffer(nodes: Nodes, root: nat, depth: map<nat, nat>, a: nat, b: nat)
    requires Tree(nodes, root, depth) && a in nodes && b in nodes && a != b
    ensures PathOf(nodes, root, depth, a) != PathOf(nodes, root, depth, b)
  {
    hide Directory, Hangs, Lookup, Walk, Linked;
    TreeLinked(nodes, root, depth);
    PathShape(nodes, root, depth, a);
    PathShape(nodes, root, depth, b);
    if a != root { RoundTrip(nodes, root, depth, a); }
    if b != root { RoundTrip(nodes, root, depth, b); }
  }
}
