/** The virtual file system's tree in memory, and the code that walks and prints paths. */
module Vfs {
  import opened Bits
  import opened CStrings
  import opened VfsInsert
  import opened VfsPrint
  import opened VfsTree
  import opened Wrappers
  import SL = SortedLists

  class FileSystem {
    var nodes: Nodes
    const root: nat
    /** How far below the root each node is. */
    ghost var depth: map<nat, nat>

    ghost predicate Valid()
      reads this
    {
      Tree(nodes, root, depth) && Linked(nodes)
    }

    /** vfs_create_root, with the node at the address given. */
    constructor (a: nat)
      ensures Valid() && root == a && nodes.Keys == {a} && nodes[a].children == []
    {
      root := a;
      nodes := map[a := Node([SLASH], a, 7, [])];
      depth := map[a := 0];
    }

    /** vfs_get_single_entry_from_dir */
    method GetSingleEntryFromDir(dir: nat, filename: seq<Byte>) returns (entry: Option<nat>)
      requires Valid() && dir in nodes && 0 in filename
      ensures entry == Lookup(nodes, dir, Content(filename))
    {
      hide Tree, Linked, FoldEqual, Order, End, Content, FirstChild;
      ghost var name := Content(filename);
      if !IsDir(nodes[dir]) {
        return None;
      }
      OrderZero(name, [DOT]);
      var c := Strcmp(filename, Stored([DOT]));
      if c == 0 {
        return Some(dir);
      }
      OrderZero(name, [DOT, DOT]);
      c := Strcmp(filename, Stored([DOT, DOT]));
      if c == 0 {
        return Some(nodes[dir].parent);
      }
      ChildrenIn(nodes, root, depth, dir);
      entry := SearchChildren(nodes[dir].children, filename);
    }

    /** The loop over the children of a directory. */
    method SearchChildren(cs: seq<nat>, filename: seq<Byte>) returns (entry: Option<nat>)
      requires Valid() && 0 in filename && forall c :: c in cs ==> c in nodes && c != root
      ensures entry == FirstChild(nodes, cs, Content(filename))
    {
      hide FoldEqual, End, Content, IsDir, IsRoot, Directory;
      var i := 0;
      while i < |cs|
        invariant 0 <= i <= |cs|
        invariant FirstChild(nodes, cs[i..], Content(filename)) == FirstChild(nodes, cs, Content(filename))
      {
        assert cs[i] in cs && Hangs(nodes, cs[i]);
        assert cs[i..][1..] == cs[i + 1..];
        var name := nodes[cs[i]].name;
        ghost var k := Compared(name, filename);
        var c := Strcasecmp(Stored(name), filename, k);
        if c == 0 {
          return Some(cs[i]);
        }
        i := i + 1;
      }
      return None;
    }

    /** vfs_navigate_to */
    method NavigateTo(start: nat, filepath: seq<Byte>, skipFinal: bool) returns (entry: Option<nat>)
      requires Valid() && start in nodes && 0 in filepath && NamesFit(Content(filepath), skipFinal)
      ensures entry == Walk(nodes, start, Content(filepath), skipFinal)
    {
      hide Tree, Linked, Lookup, End, Content, Find, Skip, Lacks, Walk, Onward, NamesFit, UpTo;
      ghost var path := Content(filepath);
      ghost var goal := Walk(nodes, start, path, skipFinal);
      Starts(nodes, start, path, skipFinal);
      var curFileName := new Byte[256](_ => 0);
      var cur := start;
      var f: Option<nat> := Some(0);
      while f.Some?
        invariant cur in nodes && (f.Some? ==> f.value <= |path|)
        invariant Onward(nodes, cur, path, f, skipFinal, goal)
        decreases match f case Some(at) => |path| - at + 1 case None => 0
      {
        var at := SkipSlashes(filepath, f.value);
        Round(nodes, cur, path, f.value, at, skipFinal, goal);
        Tail(filepath, at);
        var end := Strchr(filepath[at..], SLASH);
        if skipFinal && end.None? {
          return Some(cur);
        }
        CopyName(curFileName, filepath[at..], end);
        f := if end.Some? then Some(at + end.value) else None;
        var next := GetSingleEntryFromDir(cur, curFileName[..]);
        if next.None? {
          return None;
        }
        cur := next.value;
      }
      Arrives(nodes, cur, path, skipFinal, goal);
      return Some(cur);
    }

    /** The name up to the next slash, or the rest of the path, copied to a buffer of its own. */
    method CopyName(buf: array<Byte>, from: seq<Byte>, end: Option<nat>)
      requires 0 in from && buf.Length == 256
      requires if end.Some? then end.value <= |Content(from)| && end.value <= 255 else |Content(from)| <= 254
      modifies buf
      ensures 0 in buf[..] && Content(buf[..]) == UpTo(Content(from), end)
    {
      hide Content, End;
      Memset(buf, 0, 256);
      Strncpy(buf, 0, from, if end.Some? then end.value else 256);
      NameCopied(buf[..], Content(from), end);
    }

    /** The loop over the slashes before a name. */
    method SkipSlashes(filepath: seq<Byte>, f: nat) returns (at: nat)
      requires 0 in filepath && f <= |Content(filepath)|
      ensures f <= at <= |Content(filepath)| && Content(filepath)[at..] == Skip(Content(filepath)[f..])
    {
      hide End, Content, Skip;
      Reads(filepath);
      ghost var path := Content(filepath);
      at := f;
      while filepath[at] == SLASH
        invariant f <= at <= |path| && forall i :: f <= i < at ==> path[i] == SLASH
        decreases |path| - at
      {
        at := at + 1;
      }
      SkipTo(path, f, at);
    }

    /** vfs_get_full_filepath, for every limit.  The limit bounds the path and not what is written: the
        copy of the last name shown is padded, and the buffer must have room for that. */
    method GetFullFilepath(node: nat, buf: array<Byte>, maxSize: nat) returns (index: nat)
      requires Valid() && node in nodes
      requires Extent(nodes, root, depth, Shown(nodes, root, depth, node, maxSize)) <= buf.Length
      modifies buf
      ensures index == Told(nodes, root, depth, node, maxSize)
      ensures var shown := Shown(nodes, root, depth, node, maxSize);
              Printed(old(buf[..]), buf[..], PathOf(nodes, root, depth, shown), Extent(nodes, root, depth, shown))
      decreases depth[node]
    {
      hide Tree, Linked, IsRoot, PathOf, Fits, Shown, Told, Extent, Printed;
      RootFlag(nodes, root, depth, node);
      TreeRooted(nodes, root, depth);
      PrintRoot(nodes, root, depth, maxSize);
      ghost var before := buf[..];
      if IsRoot(nodes[node]) {
        buf[0] := SLASH;
        buf[1] := 0;
        PrintedRoot(before, buf[..]);
        return 1;
      }
      var name, parent := nodes[node].name, nodes[node].parent;
      ParentOf(nodes, root, depth, node);
      PrintBelow(nodes, root, depth, node, maxSize);
      index := GetFullFilepath(parent, buf, maxSize);
      var n := Strlen(Stored(name));
      if index + 1 + n < maxSize {
        ghost var path, extent := PathOf(nodes, root, depth, parent), Extent(nodes, root, depth, parent);
        ghost var between := buf[..];
        PrintedStart(before, between, path, extent);
        index := Append(buf, index, name, parent, path);
        PrintedThen(before, between, buf[..], path, extent,
                    PathOf(nodes, root, depth, node), Extent(nodes, root, depth, node));
      }
      return index + n;
    }

    /** The slash, if it takes one, and the name. */
    method Append(buf: array<Byte>, printed: nat, name: CString, parent: nat, ghost path: Text) returns (index: nat)
      requires parent in nodes && |name| <= 254
      requires printed <= buf.Length && buf[..printed] == path
      requires |path| + (if IsRoot(nodes[parent]) then 0 else 1) + 255 <= buf.Length
      modifies buf
      ensures var prefix := if IsRoot(nodes[parent]) then path else path + [SLASH];
              index == |prefix| && Printed(old(buf[..]), buf[..], prefix + name, |prefix| + 255)
    {
      hide IsRoot, End, Content;
      index := printed;
      if !IsRoot(nodes[parent]) {
        buf[index] := SLASH;
        index := index + 1;
      }
      ghost var prefix := buf[..index];
      Strncpy(buf, index, Stored(name), 256);
      assert forall i :: 0 <= i < index ==> buf[i] == prefix[i];
      assert forall i :: index <= i < index + 255 ==> buf[i] == Char(name, i - index);
    }

    /** The binary search of sorted_list_insert among the children, by name. */
    method PlaceOf(cs: seq<nat>, name: CString) returns (at: nat)
      requires forall c :: c in cs ==> c in nodes
      ensures at == SL.Place(NamesOf(nodes, cs), Order, name)
    {
      at := SL.SearchIn(NamesOf(nodes, cs), name, Order);
    }

    /** A node filled in and put among the children of its parent. */
    method Attach(dir: nat, name: CString, flags: bv64, n: nat)
      requires Valid() && Addable(nodes, dir, n, name, flags)
      modifies this`nodes, this`depth
      ensures Valid() && nodes == Added(old(nodes), dir, n, name, flags)
      ensures forall x :: x in old(nodes) ==> PathOf(nodes, root, depth, x) == old(PathOf(nodes, root, depth, x))
      ensures PathOf(nodes, root, depth, n) == old(Prefix(nodes, root, depth, dir)) + name
    {
      hide Tree, Linked, Added, Addable, PathOf, Prefix, Rooted, SL.Place, NamesOf;
      AddedPaths(nodes, root, depth, dir, n, name, flags);
      AddedSteps(nodes, dir, n, name, flags);
      nodes := nodes[n := Node(name, dir, flags, [])];
      var cs := nodes[dir].children;
      var k := PlaceOf(cs, name);
      nodes := nodes[dir := nodes[dir].(children := cs[..k] + [n] + cs[k..])];
      depth := depth[n := depth[dir] + 1];
    }

    /** vfs_insert_file: a new entry that is no directory, at the address given. */
    method InsertFile(dir: nat, filename: seq<Byte>, flags: bv64, n: nat)
      requires Valid() && 0 in filename && Addable(nodes, dir, n, Content(filename), flags)
      requires flags & VFS_DIRECTORY == 0
      modifies this`nodes, this`depth
      ensures Valid() && nodes == Added(old(nodes), dir, n, Content(filename), flags)
      ensures forall x :: x in old(nodes) ==> PathOf(nodes, root, depth, x) == old(PathOf(nodes, root, depth, x))
      ensures PathOf(nodes, root, depth, n) == old(Prefix(nodes, root, depth, dir)) + Content(filename)
      ensures n in nodes && nodes[n] == Node(Content(filename), dir, flags, []) && Others(old(nodes), nodes, dir)
    {
      hide Tree, Linked, Added, PathOf, Prefix, Content, End, Rooted, Lacks, IsDir, FoldEqual;
      var buf := new Byte[256];
      Strcpy(buf, filename);
      StoredIn(buf[..], Content(filename));
      var len := Strlen(buf[..]);
      AddedNode(nodes, dir, n, Content(filename), flags);
      Attach(dir, buf[..len], flags, n);
    }

    /** vfs_create_folder: the folder that a path names but for which only the directories above it
        exist. */
    method CreateFolder(cur: nat, dirname: seq<Byte>, extraFlags: bv64, n: nat) returns (ok: bool)
      requires Valid() && cur in nodes && 0 in dirname && NamesFit(Content(dirname), true) && extraFlags & VFS_ROOT == 0
      requires match Walk(nodes, cur, Content(dirname), true)
               case None => true
               case Some(d) => Addable(nodes, d, n, BaseName(Content(dirname)), VFS_DIRECTORY | extraFlags)
      modifies this`nodes, this`depth
      ensures Valid() && (ok <==> old(Walk(nodes, cur, Content(dirname), true)).Some?)
      ensures !ok ==> nodes == old(nodes)
      ensures ok ==> n in nodes && IsDir(nodes[n]) && n !in old(nodes) && cur in nodes
      ensures ok ==> Walk(nodes, cur, Content(dirname), false) == Some(n)
      ensures ok ==> var d := old(Walk(nodes, cur, Content(dirname), true)).value;
                     && nodes[n] == Node(BaseName(Content(dirname)), d, VFS_DIRECTORY | extraFlags, [])
                     && Others(old(nodes), nodes, d)
      ensures ok ==> forall x :: x in old(nodes) ==>
                    x in nodes && PathOf(nodes, root, depth, x) == old(PathOf(nodes, root, depth, x))
    {
      hide Tree, Linked, End, Walk, NamesFit, Addable, BaseName, GoodName;
      ghost var path := Content(dirname);
      var dir := NavigateTo(cur, dirname, true);
      if dir.None? {
        return false;
      }
      var ending := Strrchr(dirname, SLASH);
      var from := if ending.Some? then ending.value + 1 else 0;
      BaseFrom(path, from);
      Tail(dirname, from);
      DirectoryFlag(extraFlags);
      CreatedFound(nodes, root, depth, cur, path, dir.value, n, BaseName(path), VFS_DIRECTORY | extraFlags);
      ghost var was := nodes;
      AddedNode(nodes, dir.value, n, BaseName(path), VFS_DIRECTORY | extraFlags);
      NewNode(nodes, dir.value, n, BaseName(path), VFS_DIRECTORY | extraFlags);
      var name := FolderName(dirname[from..]);
      Attach(dir.value, name, VFS_DIRECTORY | extraFlags, n);
      return true;
    }
  }

  /** A name as strncpy leaves it in a node, whatever was in the node's memory. */
  method FolderName(from: seq<Byte>) returns (name: CString)
    requires 0 in from && |Content(from)| <= 254
    ensures name == Content(from)
  {
    hide Content, End;
    var buf := new Byte[256];
    Strncpy(buf, 0, from, 256);
    StoredIn(buf[..], Content(from));
    var len := Strlen(buf[..]);
    name := buf[..len];
  }

  /** Apart from the children of d, no node that was there has changed. */
  ghost predicate Others(nodes: Nodes, nodes': Nodes, d: nat) {
    forall x :: x in nodes ==>
      && x in nodes'
      && nodes'[x] == (if x == d then nodes[x].(children := nodes'[x].children) else nodes[x])
  }

  lemma AddedNode(nodes: Nodes, d: nat, a: nat, name: CString, flags: bv64)
    requires Addable(nodes, d, a, name, flags)
    ensures var nodes' := Added(nodes, d, a, name, flags);
            a in nodes' && nodes'[a] == Node(name, d, flags, []) && Others(nodes, nodes', d)
  {
    hide NamesOf, SL.Place, GoodName, FoldEqual, IsDir;
  }

  lemma StoredIn(buf: seq<Byte>, s: CString)
    requires |s| < |buf| && forall i :: 0 <= i <= |s| ==> buf[i] == Char(s, i)
    ensures 0 in buf && Content(buf) == s && buf[..|s|] == s
  {
    hide Content, End;
    ContentIs(buf, s);
  }

  /** The fields of the new node, then the place among the children. */
  lemma AddedSteps(nodes: Nodes, d: nat, a: nat, name: CString, flags: bv64)
    requires Addable(nodes, d, a, name, flags)
    ensures d in nodes && forall c :: c in nodes[d].children ==> c in nodes
    ensures var cs := nodes[d].children;
            var nodes1 := nodes[a := Node(name, d, flags, [])];
            && nodes1[d].children == cs && (forall c :: c in cs ==> c in nodes1)
            && var k := SL.Place(NamesOf(nodes1, cs), Order, name);
               k <= |cs| &&
               Added(nodes, d, a, name, flags) == nodes1[d := nodes1[d].(children := cs[..k] + [a] + cs[k..])]
  {
    hide IsDir, GoodName, FoldEqual, NamesOf, SL.Place;
    NamesKept(nodes, nodes[a := Node(name, d, flags, [])], nodes[d].children);
  }

  lemma ParentOf(nodes: Nodes, root: nat, depth: map<nat, nat>, a: nat)
    requires Tree(nodes, root, depth) && a in nodes && a != root
    ensures Rooted(nodes, root, depth)
    ensures nodes[a].parent in nodes && depth[nodes[a].parent] < depth[a] && |nodes[a].name| <= 254
    ensures IsRoot(nodes[nodes[a].parent]) <==> nodes[a].parent == root
  {
    hide Directory, IsDir, IsRoot;
    assert Hangs(nodes, a);
    RootFlag(nodes, root, depth, nodes[a].parent);
  }

  lemma PrintedRoot(before: seq<Byte>, after: seq<Byte>)
    requires |before| >= 2 && after == before[0 := SLASH][1 := 0]
    ensures Printed(before, after, [SLASH], 2)
  {}

  lemma PrintedStart(before: seq<Byte>, after: seq<Byte>, path: Text, extent: nat)
    requires Printed(before, after, path, extent)
    ensures |path| <= |after| == |before| && after[..|path|] == path
  {}

  /** A longer path printed over a shorter one. */
  lemma PrintedThen(a: seq<Byte>, b: seq<Byte>, c: seq<Byte>, path: Text, extent: nat, path': Text, extent': nat)
    requires Printed(a, b, path, extent) && Printed(b, c, path', extent') && extent <= extent'
    ensures Printed(a, c, path', extent')
  {
    assert b[extent'..] == b[extent..][extent' - extent..] == a[extent..][extent' - extent..] == a[extent'..];
  }

  /** A name without spaces is compared within the memory of the other string. */
  lemma Compared(name: CString, filename: seq<Byte>) returns (k: nat)
    requires Lacks(name, SPACE) && 0 in filename
    ensures Ends(Stored(name), filename, k) && !Overruns(Stored(name), filename)
  {
    OverrunsExact(Stored(name), filename);
    hide Overruns, Content, Ends;
    EndsInTime(Stored(name), filename);
    k :| Ends(Stored(name), filename, k);
  }

  lemma TreeRooted(nodes: Nodes, root: nat, depth: map<nat, nat>)
    requires Tree(nodes, root, depth)
    ensures Rooted(nodes, root, depth)
  {}

  lemma ChildrenIn(nodes: Nodes, root: nat, depth: map<nat, nat>, d: nat)
    requires Tree(nodes, root, depth) && d in nodes && IsDir(nodes[d])
    ensures forall c :: c in nodes[d].children ==> c in nodes && c != root
  {
    hide NamesOf, IsDir, IsRoot, Hangs;
    assert Directory(nodes, root, d);
  }

  lemma {:induction false} SkipTo(path: Text, f: nat, at: nat)
    requires f <= at <= |path| && forall i :: f <= i < at ==> path[i] == SLASH
    requires at < |path| ==> path[at] != SLASH
    ensures Skip(path[f..]) == path[at..]
    decreases at - f
  {
    if f < at {
      SkipTo(path, f + 1, at);
      assert path[f..][1..] == path[f + 1..];
    }
  }

  lemma NewNode(nodes: Nodes, d: nat, a: nat, name: CString, flags: bv64)
    requires Addable(nodes, d, a, name, flags)
    ensures a !in nodes && a in Added(nodes, d, a, name, flags) && Added(nodes, d, a, name, flags)[a].flags == flags
    ensures nodes.Keys <= Added(nodes, d, a, name, flags).Keys && |name| <= 254
  {
    AddedGrows(nodes, d, a, name, flags);
  }

  lemma DirectoryFlag(extra: bv64)
    ensures (VFS_DIRECTORY | extra) & VFS_DIRECTORY != 0
  {}

  /** The characters behind the last slash are the last name. */
  lemma BaseFrom(path: Text, from: nat)
    requires from <= |path| && (from > 0 ==> path[from - 1] == SLASH)
    requires forall i :: from <= i < |path| ==> path[i] != SLASH
    ensures BaseName(path) == path[from..]
  {
    BaseOfSuffix(path, from, if from > 0 then from - 1 else 0);
    assert Lacks(path[from..], SLASH);
  }

  lemma NextAt(path: Text, f: nat, at: nat)
    requires f <= at <= |path| && path[at..] == Skip(path[f..])
    ensures Next(path[f..]) == match Find(path[at..], SLASH)
                               case None => Final(path[at..])
                               case Some(t) => Inner(path[at..][..t], path[at + t..])
    ensures Find(path[at..], SLASH).Some? ==> Find(path[at..], SLASH).value > 0
  {
    hide Skip, Find, Lacks;
    match Find(path[at..], SLASH)
    case None =>
    case Some(t) => assert path[at..][t..] == path[at + t..];
  }

  /** The next name of a path without slashes in front. */
  function UpTo(path: Text, end: Option<nat>): Text {
    if end.Some? && end.value <= |path| then path[..end.value] else path
  }

  /** The walk from here on leads to the goal of the whole walk. */
  ghost predicate Onward(nodes: Nodes, cur: nat, path: Text, f: Option<nat>, skipFinal: bool, goal: Option<nat>)
    requires Linked(nodes) && cur in nodes
  {
    match f
    case None => goal == Some(cur)
    case Some(at) => at <= |path| && NamesFit(path[at..], skipFinal) && goal == Walk(nodes, cur, path[at..], skipFinal)
  }

  lemma Starts(nodes: Nodes, cur: nat, path: Text, skipFinal: bool)
    requires Linked(nodes) && cur in nodes && NamesFit(path, skipFinal)
    ensures Onward(nodes, cur, path, Some(0), skipFinal, Walk(nodes, cur, path, skipFinal))
  {
    assert path[0..] == path;
  }

  lemma Arrives(nodes: Nodes, cur: nat, path: Text, skipFinal: bool, goal: Option<nat>)
    requires Linked(nodes) && cur in nodes && Onward(nodes, cur, path, None, skipFinal, goal)
    ensures goal == Some(cur)
  {}

  /** One round of the loop over the names of a path. */
  lemma Round(nodes: Nodes, cur: nat, path: Text, f: nat, at: nat, skipFinal: bool, goal: Option<nat>)
    requires Linked(nodes) && cur in nodes && Onward(nodes, cur, path, Some(f), skipFinal, goal)
    requires f <= at <= |path| && path[at..] == Skip(path[f..])
    ensures var end := Find(path[at..], SLASH);
            var name := UpTo(path[at..], end);
            var next := Lookup(nodes, cur, name);
            && (end.Some? ==> 0 < end.value)
            && if end.None? && skipFinal then goal == Some(cur)
               else
                 && (if end.Some? then end.value <= 255 else |path[at..]| <= 254)
                 && if next.None? then goal == None
                    else Onward(nodes, next.value, path, if end.Some? then Some(at + end.value) else None,
                                skipFinal, goal)
  {
    hide Next, Skip, Find, Lacks, Lookup, Linked;
    NextAt(path, f, at);
  }

  /** Exactly when the copy of a name stays within the 256-byte buffer and leaves a terminator in it. */
  lemma NameFitsExact(from: CString, end: Option<nat>)
    requires end.Some? ==> end.value <= |from| && end.value < W64
    ensures CopyFits(from, if end.Some? then end.value else 256)
       <==> if end.Some? then end.value <= 255 else |from| <= 254
  {
    var last := Char(from, 255);
    var n := if end.Some? then end.value else 256;
    assert end.None? && |from| <= 254 ==> Char(from, |from|) == 0;
    assert n <= 255 ==> Written(from, n) <= 255;
  }

  /** A copy into 256 zeroed bytes that leaves a string there. */
  ghost predicate CopyFits(from: CString, n: nat) {
    && Written(from, n) <= 256
    && exists i :: 0 <= i < 256 && (i < Written(from, n) ==> Char(from, i) == 0)
  }

  /** A last name of 255 letters. */
  lemma LongNameSpills()
    ensures !CopyFits(seq(255, _ => 97), 256)
  {
    NameFitsExact(seq(255, _ => 97), None);
  }

  /** The 256-byte buffer holds exactly the name. */
  lemma NameCopied(buf: seq<Byte>, path: CString, end: Option<nat>)
    requires |buf| == 256 && (end.Some? ==> end.value <= |path| && end.value <= 255) && (end.None? ==> |path| <= 254)
    requires var n := if end.Some? then end.value else 255;
             && (forall i :: 0 <= i < n ==> buf[i] == Char(path, i))
             && (forall i :: n <= i < 256 ==> buf[i] == 0)
    ensures 0 in buf && Content(buf) == if end.Some? then path[..end.value] else path
  {
    hide Content, End;
    ContentIs(buf, if end.Some? then path[..end.value] else path);
  }

  lemma RootFlag(nodes: Nodes, root: nat, depth: map<nat, nat>, a: nat)
    requires Tree(nodes, root, depth) && a in nodes
    ensures IsRoot(nodes[a]) <==> a == root
  {
    hide IsRoot, IsDir, Directory;
    if a != root { assert Hangs(nodes, a); }
  }

  /** A new leaf keeps the tree and changes no path, and its own path starts with that of its
      directory. */
  lemma AddedPaths(nodes: Nodes, root: nat, depth: map<nat, nat>, d: nat, a: nat, name: CString, flags: bv64)
    requires Tree(nodes, root, depth) && Addable(nodes, d, a, name, flags)
    ensures d in depth && Rooted(nodes, root, depth)
    ensures var nodes' := Added(nodes, d, a, name, flags);
            var depth' := depth[a := depth[d] + 1];
            && Tree(nodes', root, depth') && Linked(nodes') && Rooted(nodes', root, depth')
            && (forall x :: x in nodes ==>
                 x in nodes' && PathOf(nodes', root, depth', x) == PathOf(nodes, root, depth, x))
            && a in nodes' && PathOf(nodes', root, depth', a) == Prefix(nodes, root, depth, d) + name
  {
    hide IsDir, IsRoot, Directory, Hangs, GoodName;
    TreeRooted(nodes, root, depth);
    var nodes' := Added(nodes, d, a, name, flags);
    var depth' := depth[a := depth[d] + 1];
    hide Tree, Added;
    AddedTree(nodes, root, depth, d, a, name, flags);
    AddedGrows(nodes, d, a, name, flags);
    TreeLinked(nodes', root, depth');
    TreeRooted(nodes', root, depth');
    hide Addable;
    forall y | y in nodes ensures nodes'[y].parent == nodes[y].parent && nodes'[y].name == nodes[y].name {
      assert nodes'[y].(children := []) == nodes[y].(children := []);
    }
    forall x | x in nodes ensures PathOf(nodes', root, depth', x) == PathOf(nodes, root, depth, x) {
      PathKept(nodes, root, depth, nodes', depth', x);
    }
  }

  lemma {:induction false} PathHasNoZero(nodes: Nodes, root: nat, depth: map<nat, nat>, a: nat)
    requires Rooted(nodes, root, depth) && a in nodes
    ensures Lacks(PathOf(nodes, root, depth, a), 0)
    decreases depth[a]
  {
    if a != root { PathHasNoZero(nodes, root, depth, nodes[a].parent); }
  }

  /** What vfs_get_full_filepath leaves in a buffer is a path that vfs_navigate_to can take from the
      root, and that leads back to the node, or to its parent when the final name is left out. */
  lemma PrintedLeadsBack(nodes: Nodes, root: nat, depth: map<nat, nat>, a: nat, buf: seq<Byte>, index: nat)
    requires Tree(nodes, root, depth) && Linked(nodes) && a in nodes && a != root
    requires index < |buf| && buf[..index] == PathOf(nodes, root, depth, a) && buf[index] == 0
    ensures 0 in buf && NamesFit(Content(buf), false)
    ensures Walk(nodes, root, Content(buf), false) == Some(a)
    ensures Walk(nodes, root, Content(buf), true) == Some(nodes[a].parent)
  {
    hide Content, End, Walk, NamesFit, Linked, Directory, Hangs;
    TreeRooted(nodes, root, depth);
    PathHasNoZero(nodes, root, depth, a);
    RoundTrip(nodes, root, depth, a);
    hide Tree, Rooted;
    ContentIs(buf, buf[..index]);
  }
}
