/** What printing a path leaves in a buffer of limited size. */
module VfsPrint {
  import opened Bits
  import opened CStrings
  import opened VfsTree

  /** The test vfs_get_full_filepath makes before it appends the name of a node. */
  ghost predicate Fits(nodes: Nodes, root: nat, depth: map<nat, nat>, a: nat, maxSize: nat)
    requires Rooted(nodes, root, depth) && a in nodes
  {
    a == root || |PathOf(nodes, root, depth, nodes[a].parent)| + 1 + |nodes[a].name| < maxSize
  }

  /** The node whose path is left in the buffer: the nearest one on the way up that fits. */
  ghost function Shown(nodes: Nodes, root: nat, depth: map<nat, nat>, a: nat, maxSize: nat): (s: nat)
    requires Rooted(nodes, root, depth) && a in nodes
    ensures s in nodes && Fits(nodes, root, depth, s, maxSize) && depth[s] <= depth[a]
    decreases depth[a]
  {
    if Fits(nodes, root, depth, a, maxSize) then a else Shown(nodes, root, depth, nodes[a].parent, maxSize)
  }

  /** The number returned: names that did not fit are counted, but not their slashes. */
  ghost function Told(nodes: Nodes, root: nat, depth: map<nat, nat>, a: nat, maxSize: nat): nat
    requires Rooted(nodes, root, depth) && a in nodes
    decreases depth[a]
  {
    if Fits(nodes, root, depth, a, maxSize) then |PathOf(nodes, root, depth, a)|
    else Told(nodes, root, depth, nodes[a].parent, maxSize) + |nodes[a].name|
  }

  /** How many bytes are written for a path: the copy of the last name is padded to 255 bytes. */
  ghost function Extent(nodes: Nodes, root: nat, depth: map<nat, nat>, a: nat): nat
    requires Rooted(nodes, root, depth) && a in nodes
  {
    if a == root then 2 else |Prefix(nodes, root, depth, nodes[a].parent)| + 255
  }

  /** What printing does to a buffer: path, padding, and the old rest. */
  ghost predicate Printed(before: seq<Byte>, after: seq<Byte>, path: Text, extent: nat) {
    && |path| < extent <= |before| == |after|
    && after[..|path|] == path
    && (forall i :: |path| <= i < extent ==> after[i] == 0)
    && after[extent..] == before[extent..]
  }

  lemma PathGrows(nodes: Nodes, root: nat, depth: map<nat, nat>, a: nat)
    requires Rooted(nodes, root, depth) && a in nodes && a != root
    ensures var p := nodes[a].parent;
            && |PathOf(nodes, root, depth, a)| == |Prefix(nodes, root, depth, p)| + |nodes[a].name|
            && |PathOf(nodes, root, depth, p)| <= |Prefix(nodes, root, depth, p)|
            && |PathOf(nodes, root, depth, p)| >= 1
  {}

  /** A node that fits has a parent that fits, so its whole path is printed. */
  lemma FitsUp(nodes: Nodes, root: nat, depth: map<nat, nat>, a: nat, maxSize: nat)
    requires Rooted(nodes, root, depth) && a in nodes && a != root && Fits(nodes, root, depth, a, maxSize)
    ensures Fits(nodes, root, depth, nodes[a].parent, maxSize)
  {
    var p := nodes[a].parent;
    if p != root {
      PathGrows(nodes, root, depth, p);
      PathGrows(nodes, root, depth, a);
    }
  }

  /** Once a name did not fit, no name below it does, whatever its length. */
  lemma {:induction false} StaysShort(nodes: Nodes, root: nat, depth: map<nat, nat>, a: nat, maxSize: nat)
    requires Rooted(nodes, root, depth) && a in nodes && !Fits(nodes, root, depth, a, maxSize)
    ensures Told(nodes, root, depth, a, maxSize) + 1 >= maxSize
    decreases depth[a]
  {
    var p := nodes[a].parent;
    if !Fits(nodes, root, depth, p, maxSize) { StaysShort(nodes, root, depth, p, maxSize); }
  }

  /** The code's test on the number returned for the parent is the test on the parent's path. */
  lemma SameTest(nodes: Nodes, root: nat, depth: map<nat, nat>, a: nat, maxSize: nat)
    requires Rooted(nodes, root, depth) && a in nodes && a != root
    ensures var p := nodes[a].parent;
            Told(nodes, root, depth, p, maxSize) + 1 + |nodes[a].name| < maxSize
            <==> Fits(nodes, root, depth, a, maxSize)
  {
    var p := nodes[a].parent;
    if Fits(nodes, root, depth, a, maxSize) { FitsUp(nodes, root, depth, a, maxSize); }
    if !Fits(nodes, root, depth, p, maxSize) { StaysShort(nodes, root, depth, p, maxSize); }
  }

  lemma {:induction false} ExtentGrows(nodes: Nodes, root: nat, depth: map<nat, nat>, a: nat)
    requires Rooted(nodes, root, depth) && a in nodes && a != root
    ensures Extent(nodes, root, depth, nodes[a].parent) <= Extent(nodes, root, depth, a)
  {
    var p := nodes[a].parent;
    PathGrows(nodes, root, depth, a);
    if p != root { PathGrows(nodes, root, depth, p); }
  }

  /** In terms of bytes: printing leaves everything from the limit on alone, whatever the buffer holds,
      exactly when what is written ends below the limit. */
  lemma LimitKept(path: Text, extent: nat, maxSize: nat)
    requires |path| < extent
    ensures KeepsLimit(path, extent, maxSize) <==> extent <= maxSize
  {
    if extent <= maxSize {
      forall before, after | Printed(before, after, path, extent) && |before| >= maxSize
        ensures after[maxSize..] == before[maxSize..]
      {
        assert after[maxSize..] == after[extent..][maxSize - extent..];
        assert before[maxSize..] == before[extent..][maxSize - extent..];
      }
    } else {
      var after := path + seq(extent - |path|, _ => 0);
      var before := after[extent - 1 := 1];
      assert Printed(before, after, path, extent);
      assert before[maxSize..][extent - 1 - maxSize] != after[maxSize..][extent - 1 - maxSize];
    }
  }

  ghost predicate KeepsLimit(path: Text, extent: nat, maxSize: nat) {
    forall before, after :: Printed(before, after, path, extent) && |before| >= maxSize ==>
                              after[maxSize..] == before[maxSize..]
  }

  /** What a caller can check beforehand, going up from the node: each path on the way that will be
      printed leaves room for the padding. */
  ghost predicate RoomOnTheWay(nodes: Nodes, root: nat, depth: map<nat, nat>, a: nat, maxSize: nat)
    requires Rooted(nodes, root, depth) && a in nodes
    decreases depth[a]
  {
    && (Fits(nodes, root, depth, a, maxSize) ==> Extent(nodes, root, depth, a) <= maxSize)
    && (a != root ==> RoomOnTheWay(nodes, root, depth, nodes[a].parent, maxSize))
  }

  lemma {:induction false} RoomIsEnough(nodes: Nodes, root: nat, depth: map<nat, nat>, a: nat, maxSize: nat)
    requires Rooted(nodes, root, depth) && a in nodes
    ensures Extent(nodes, root, depth, Shown(nodes, root, depth, a, maxSize)) <= maxSize
       <==> RoomOnTheWay(nodes, root, depth, a, maxSize)
    decreases depth[a]
  {
    if a != root {
      RoomIsEnough(nodes, root, depth, nodes[a].parent, maxSize);
      if Fits(nodes, root, depth, a, maxSize) {
        FitsUp(nodes, root, depth, a, maxSize);
        ExtentGrows(nodes, root, depth, a);
      }
    }
  }

  /** Exactly when a call leaves alone what lies at the limit and beyond, for every node and limit. */
  lemma WritesBelowLimit(nodes: Nodes, root: nat, depth: map<nat, nat>, a: nat, maxSize: nat)
    requires Tree(nodes, root, depth) && Rooted(nodes, root, depth) && a in nodes
    ensures var s := Shown(nodes, root, depth, a, maxSize);
            (KeepsLimit(PathOf(nodes, root, depth, s), Extent(nodes, root, depth, s), maxSize) <==>
             RoomOnTheWay(nodes, root, depth, a, maxSize))
  {
    hide KeepsLimit, RoomOnTheWay, Shown, Fits;
    var s := Shown(nodes, root, depth, a, maxSize);
    PathBelowExtent(nodes, root, depth, s);
    RoomIsEnough(nodes, root, depth, a, maxSize);
    LimitKept(PathOf(nodes, root, depth, s), Extent(nodes, root, depth, s), maxSize);
  }

  lemma PathBelowExtent(nodes: Nodes, root: nat, depth: map<nat, nat>, a: nat)
    requires Tree(nodes, root, depth) && Rooted(nodes, root, depth) && a in nodes
    ensures |PathOf(nodes, root, depth, a)| < Extent(nodes, root, depth, a)
    ensures a != root ==> 1 <= |nodes[a].name| <= 254
  {
    hide Directory, IsDir, IsRoot;
    if a != root {
      assert Hangs(nodes, a);
      PathGrows(nodes, root, depth, a);
    }
  }

  /** Exactly when a whole path is printed and nothing is written at the limit or beyond: the path with
      its last name padded must not be longer than the limit.  One case is off by one, because the test
      counts a slash that a child of the root does not take. */
  lemma WholeAndBelow(nodes: Nodes, root: nat, depth: map<nat, nat>, a: nat, maxSize: nat)
    requires Tree(nodes, root, depth) && Rooted(nodes, root, depth) && a in nodes && a != root
    ensures Fits(nodes, root, depth, a, maxSize) && Extent(nodes, root, depth, a) <= maxSize
       <==> && |PathOf(nodes, root, depth, a)| - |nodes[a].name| + 255 <= maxSize
            && !(nodes[a].parent == root && |nodes[a].name| == 254 && maxSize == 256)
  {
    PathBelowExtent(nodes, root, depth, a);
    hide Tree;
    PathGrows(nodes, root, depth, a);
  }

  /** Printing the root. */
  lemma PrintRoot(nodes: Nodes, root: nat, depth: map<nat, nat>, maxSize: nat)
    requires Rooted(nodes, root, depth)
    ensures Shown(nodes, root, depth, root, maxSize) == root && Told(nodes, root, depth, root, maxSize) == 1
    ensures PathOf(nodes, root, depth, root) == [SLASH] && Extent(nodes, root, depth, root) == 2
  {}

  /** Printing a node after its parent has been printed. */
  lemma PrintBelow(nodes: Nodes, root: nat, depth: map<nat, nat>, a: nat, maxSize: nat)
    requires Rooted(nodes, root, depth) && a in nodes && a != root
    ensures var p, name := nodes[a].parent, nodes[a].name;
            var path := PathOf(nodes, root, depth, p);
            var prefix := if p == root then path else path + [SLASH];
            var fits := Told(nodes, root, depth, p, maxSize) + 1 + |name| < maxSize;
            && (fits ==> Shown(nodes, root, depth, p, maxSize) == p && Told(nodes, root, depth, p, maxSize) == |path|)
            && Shown(nodes, root, depth, a, maxSize) == (if fits then a else Shown(nodes, root, depth, p, maxSize))
            && Told(nodes, root, depth, a, maxSize)
               == (if fits then |prefix| else Told(nodes, root, depth, p, maxSize)) + |name|
            && PathOf(nodes, root, depth, a) == prefix + name
            && Extent(nodes, root, depth, p) <= Extent(nodes, root, depth, a) == |prefix| + 255
  {
    SameTest(nodes, root, depth, a, maxSize);
    ExtentGrows(nodes, root, depth, a);
    if Fits(nodes, root, depth, a, maxSize) { FitsUp(nodes, root, depth, a, maxSize); }
  }

  /** The names on the way to a node that are left out. */
  ghost function LeftOut(nodes: Nodes, root: nat, depth: map<nat, nat>, a: nat, maxSize: nat): nat
    requires Rooted(nodes, root, depth) && a in nodes
    decreases depth[a]
  {
    if a == Shown(nodes, root, depth, a, maxSize) then 0 else 1 + LeftOut(nodes, root, depth, nodes[a].parent, maxSize)
  }

  /** The number returned is the length of the whole path less one for each name left out, because their
      slashes are not counted; the slash of the root is part of what is printed. */
  lemma {:induction false} ToldExact(nodes: Nodes, root: nat, depth: map<nat, nat>, a: nat, maxSize: nat)
    requires Rooted(nodes, root, depth) && a in nodes
    ensures var shown, n := Shown(nodes, root, depth, a, maxSize), LeftOut(nodes, root, depth, a, maxSize);
            Told(nodes, root, depth, a, maxSize) + n
            == |PathOf(nodes, root, depth, a)| + if n > 0 && shown == root then 1 else 0
    decreases depth[a]
  {
    if !Fits(nodes, root, depth, a, maxSize) {
      var p := nodes[a].parent;
      PathGrows(nodes, root, depth, a);
      ShownAbove(nodes, root, depth, a, maxSize);
      hide Fits;
      ToldExact(nodes, root, depth, p, maxSize);
    }
  }

  /** What is shown lies on the way up, and only what fits is shown in full. */
  lemma ShownAbove(nodes: Nodes, root: nat, depth: map<nat, nat>, a: nat, maxSize: nat)
    requires Rooted(nodes, root, depth) && a in nodes && !Fits(nodes, root, depth, a, maxSize)
    ensures var p := nodes[a].parent;
            && Shown(nodes, root, depth, a, maxSize) == Shown(nodes, root, depth, p, maxSize) != a
            && (LeftOut(nodes, root, depth, p, maxSize) == 0 <==> Shown(nodes, root, depth, p, maxSize) == p)
  {}

  /** The whole path is printed exactly when the parent's path, one more and the name are shorter than
      the limit.  The number returned is the length of the path then.  Below `maxSize - 1` it means that
      the path is whole and from `maxSize` on that it is not; in between it does not tell. */
  lemma PrintExact(nodes: Nodes, root: nat, depth: map<nat, nat>, a: nat, maxSize: nat)
    requires Tree(nodes, root, depth) && Rooted(nodes, root, depth) && a in nodes
    ensures PathOf(nodes, root, depth, Shown(nodes, root, depth, a, maxSize)) == PathOf(nodes, root, depth, a)
       <==> Fits(nodes, root, depth, a, maxSize)
    ensures var told := Told(nodes, root, depth, a, maxSize);
            && (Fits(nodes, root, depth, a, maxSize) ==> told == |PathOf(nodes, root, depth, a)|)
            && (told + 1 < maxSize ==> Fits(nodes, root, depth, a, maxSize))
            && (a != root && told >= maxSize ==> !Fits(nodes, root, depth, a, maxSize))
            && (a == root ==> told == 1 && Fits(nodes, root, depth, a, maxSize))
  {
    hide Tree;
    if Fits(nodes, root, depth, a, maxSize) {
      if a != root { PathGrows(nodes, root, depth, a); }
    } else {
      StaysShort(nodes, root, depth, a, maxSize);
      PathsDiffer(nodes, root, depth, a, Shown(nodes, root, depth, a, maxSize));
    }
  }
}
