/** How many frames a mapping takes, whoever makes it.  navigate_to_PL1 does not look whether it was
    given a frame, so this is the line beyond which its result cannot be a mapping. */
module PagingLimits {
  import opened Counting
  import opened PageEntry
  import opened PageTables
  import opened Paging
  import opened Wrappers
  import Frames

  ghost function FreeFrames(used: seq<bool>): set<nat> {
    set i | 0 <= i < |used| && !used[i]
  }

  lemma AvailableStep(used: seq<bool>)
    ensures used == [] ==> Frames.Available(used) == 0
    ensures used != [] ==> var last := |used| - 1;
                           Frames.Available(used) == Frames.Available(used[..last]) + if used[last] then 0 else 1
  {}

  lemma {:induction false} FreeCount(used: seq<bool>)
    ensures |FreeFrames(used)| == Frames.Available(used)
  {
    hide Frames.Available;
    AvailableStep(used);
    if used == [] {
      assert FreeFrames(used) == {};
    } else {
      var last := |used| - 1;
      var less := used[..last];
      FreeCount(less);
      assert FreeFrames(used) == FreeFrames(less) + if used[last] then {} else {last};
      assert last !in FreeFrames(less);
    }
  }

  /** The table on the way to v is registered for the slot on the way to v in the table above. */
  lemma RegisteredFor(m: Memory, root: nat, tables: Tables, v: nat, j: nat)
    requires Tree(m, root, tables) && 1 <= j <= 3 && TableAt(m, root, 4, v, j).Some?
    ensures TableAt(m, root, 4, v, j + 1).Some?
    ensures var t := TableAt(m, root, 4, v, j).value;
            t in tables && tables[t] == Node(j, TableAt(m, root, 4, v, j + 1).value, Offset(v, j + 1))
  {
    hide TableAt, Offset, Target, Plain;
    TableAtStep(m, root, tables, root, v, j);
    TableAtLevel(m, root, tables, root, v, j + 1);
    assert SlotOk(m, tables, TableAt(m, root, 4, v, j + 1).value, Offset(v, j + 1));
  }

  /** A table registered for that slot is the one found through it. */
  lemma FoundThrough(m: Memory, root: nat, tables: Tables, v: nat, j: nat, p: nat, t: nat)
    requires Tree(m, root, tables) && 1 <= j <= 3 && t in tables && tables[t] == Node(j, p, Offset(v, j + 1))
    ensures p in tables
    ensures TableAt(m, root, 4, v, j + 1) == Some(p) ==> TableAt(m, root, 4, v, j) == Some(t)
  {
    hide TableAt, Offset, Target, Plain;
    assert Hangs(m, tables, t);
    TableAtStep(m, root, tables, root, v, j);
  }

  /** A table on the way to v that was there before is on the way to v before. */
  lemma {:induction false} OldTable(m: Memory, used: seq<bool>, tables: Tables,
                                    m': Memory, used': seq<bool>, tables': Tables, root: nat, v: nat, j: nat)
    requires Tree(m, root, tables) && Tree(m', root, tables') && Extends(m, used, tables, m', used', tables')
    requires 1 <= j <= 4 && TableAt(m', root, 4, v, j).Some? && TableAt(m', root, 4, v, j).value in tables
    ensures TableAt(m, root, 4, v, j) == TableAt(m', root, 4, v, j)
    decreases 4 - j
  {
    if j == 4 {
      StartAtRoot(m, root, tables, v);
      StartAtRoot(m', root, tables', v);
    } else {
      var t := TableAt(m', root, 4, v, j).value;
      hide TableAt, Tree, Offset;
      RegisteredFor(m', root, tables', v, j);
      FoundThrough(m, root, tables, v, j, tables[t].parent, t);
      OldTable(m, used, tables, m', used', tables', root, v, j + 1);
    }
  }

  /** A table that was lacking is a frame that was free. */
  lemma NewTable(m: Memory, used: seq<bool>, tables: Tables, m': Memory, used': seq<bool>, tables': Tables,
                 root: nat, v: nat, j: nat)
    requires Tree(m, root, tables) && Tree(m', root, tables') && Extends(m, used, tables, m', used', tables')
    requires 1 <= j <= 3 && TableAt(m, root, 4, v, j).None? && TableAt(m', root, 4, v, j).Some?
    ensures var t := TableAt(m', root, 4, v, j).value;
            t in FreeFrames(used) && t in tables' && tables'[t].level == j
  {
    hide TableAt;
    TableAtLevel(m', root, tables', root, v, j);
    if TableAt(m', root, 4, v, j).value in tables {
      OldTable(m, used, tables, m', used', tables', root, v, j);
    }
  }

  /** A translated page has all its tables. */
  lemma {:induction false} TranslatedHasTables(m: Memory, root: nat, tables: Tables, v: nat, j: nat)
    requires Tree(m, root, tables) && Walk(m, root, 4, v).Leaf? && 1 <= j <= 4
    ensures TableAt(m, root, 4, v, j).Some?
    decreases j
  {
    hide Walk, TableAt, Offset, Target;
    if j == 1 {
      WalkByTable(m, root, tables, root, v);
    } else {
      TranslatedHasTables(m, root, tables, v, j - 1);
      TableAtStep(m, root, tables, root, v, j - 1);
    }
  }

  /** The table for all addresses that x stands for is in frame t. */
  ghost predicate Became(m': Memory, root: nat, vs: seq<nat>, x: (nat, nat), t: nat) {
    && 1 <= x.0 <= 3
    && exists i :: 0 <= i < |vs| && x.1 == Prefix(vs[i], x.0) && TableAt(m', root, 4, vs[i], x.0) == Some(t)
  }

  ghost function FrameOf(m': Memory, root: nat, vs: seq<nat>, x: (nat, nat)): nat {
    if t: nat :| Became(m', root, vs, x, t) then t else 0
  }

  /** A table that was lacking became a frame that was free and holds none of the pages. */
  lemma BecameFree(m: Memory, used: seq<bool>, tables: Tables, m': Memory, used': seq<bool>, tables': Tables,
                   root: nat, vs: seq<nat>, x: (nat, nat))
    requires Tree(m, root, tables) && Tree(m', root, tables') && Extends(m, used, tables, m', used', tables')
    requires forall i, j :: 0 <= i < |vs| && 1 <= j <= 3 ==> TableAt(m', root, 4, vs[i], j).Some?
    requires x in Lacking(m, root, vs)
    ensures var t := FrameOf(m', root, vs, x);
            Became(m', root, vs, x, t) && t in FreeFrames(used) && t in tables'
  {
    hide TableAt, Prefix, Tree, Extends;
    var k :| 0 <= k < |vs| && 1 <= x.0 <= 3 && TableAt(m, root, 4, vs[k], x.0).None? && x.1 == Prefix(vs[k], x.0);
    assert Became(m', root, vs, x, TableAt(m', root, 4, vs[k], x.0).value);
    var t := FrameOf(m', root, vs, x);
    var i :| 0 <= i < |vs| && x.1 == Prefix(vs[i], x.0) && TableAt(m', root, 4, vs[i], x.0) == Some(t);
    if TableAt(m, root, 4, vs[i], x.0).Some? { Meet(m, root, tables, vs[i], vs[k], x.0); }
    NewTable(m, used, tables, m', used', tables', root, vs[i], x.0);
  }

  /** Different tables are in different frames. */
  lemma BecameDiffer(m': Memory, root: nat, tables': Tables, vs: seq<nat>, x: (nat, nat), y: (nat, nat), t: nat)
    requires Tree(m', root, tables') && Became(m', root, vs, x, t) && Became(m', root, vs, y, t)
    ensures x == y
  {
    hide TableAt, Prefix;
    var i :| 0 <= i < |vs| && x.1 == Prefix(vs[i], x.0) && TableAt(m', root, 4, vs[i], x.0) == Some(t);
    var k :| 0 <= k < |vs| && y.1 == Prefix(vs[k], y.0) && TableAt(m', root, 4, vs[k], y.0) == Some(t);
    TableAtLevel(m', root, tables', root, vs[i], x.0);
    TableAtLevel(m', root, tables', root, vs[k], y.0);
    Meet(m', root, tables', vs[i], vs[k], x.0);
  }

  /** No mapping that keeps the frames in use, and finds its tables and the frames of its pages among
      the free ones, can do with fewer free frames than tables are lacking and pages are asked for.  So
      `MapMem`, `MapPages` (no page frames) and `RequestMappedPages` can keep their promise exactly
      when what they require holds. */
  lemma MappingNeedsFrames(m: Memory, used: seq<bool>, tables: Tables, m': Memory, used': seq<bool>, tables': Tables,
                           root: nat, vs: seq<nat>, ps: seq<Word>, pages: seq<nat>)
    requires Tree(m, root, tables) && Tree(m', root, tables') && Extends(m, used, tables, m', used', tables')
    requires |vs| == |ps| && Translates(m, m', root, vs, ps) && Fresh(used, used', tables', pages)
    ensures |Lacking(m, root, vs)| + |pages| <= Frames.Available(used)
  {
    hide TableAt, Walk, Tree, Prefix, Extends, Lacking, Became, FrameOf, Frames.Available;
    forall i, j | 0 <= i < |vs| && 1 <= j <= 3
      ensures TableAt(m', root, 4, vs[i], j).Some?
    {
      TranslatedHasTables(m', root, tables', vs[i], j);
    }
    var lacking, free := Lacking(m, root, vs), FreeFrames(used);
    var taken := Elements(pages);
    var f := map x | x in lacking :: FrameOf(m', root, vs, x);
    forall x | x in lacking
      ensures f[x] in free - taken && Became(m', root, vs, x, f[x])
    {
      BecameFree(m, used, tables, m', used', tables', root, vs, x);
    }
    forall x, y | x in lacking && y in lacking && x != y
      ensures f[x] != f[y]
    {
      if f[x] == f[y] { BecameDiffer(m', root, tables', vs, x, y, f[x]); }
    }
    Injects(lacking, free - taken, f);
    DistinctCount(pages);
    FreeCount(used);
    assert taken <= free;
  }

  /** The tables on the way to v stay there. */
  lemma {:induction false} TableStays(m: Memory, used: seq<bool>, tables: Tables,
                                      m': Memory, used': seq<bool>, tables': Tables, root: nat, v: nat, j: nat)
    requires Tree(m, root, tables) && Tree(m', root, tables') && Extends(m, used, tables, m', used', tables')
    requires 1 <= j <= 4 && TableAt(m, root, 4, v, j).Some?
    ensures TableAt(m', root, 4, v, j) == TableAt(m, root, 4, v, j)
    decreases 4 - j
  {
    if j == 4 {
      StartAtRoot(m, root, tables, v);
      StartAtRoot(m', root, tables', v);
    } else {
      var t := TableAt(m, root, 4, v, j).value;
      hide TableAt, Tree, Offset;
      RegisteredFor(m, root, tables, v, j);
      TableStays(m, used, tables, m', used', tables', root, v, j + 1);
      FoundThrough(m', root, tables', v, j, tables[t].parent, t);
    }
  }

  lemma FirstLacks(m: Memory, root: nat, first: seq<nat>, rest: seq<nat>)
    ensures Lacking(m, root, first) <= Lacking(m, root, first + rest)
    ensures |Lacking(m, root, first)| <= |Lacking(m, root, first + rest)|
  {
    hide TableAt, Prefix;
    var all := first + rest;
    forall x | x in Lacking(m, root, first)
      ensures x in Lacking(m, root, all)
    {
      var i, j :| 0 <= i < |first| && 1 <= j <= 3 && TableAt(m, root, 4, first[i], j).None?
                  && x == (j, Prefix(first[i], j));
      assert all[i] == first[i];
    }
    SubsetSize(Lacking(m, root, first), Lacking(m, root, all));
  }

  /** After the first pages of a range are mapped, the rest lacks no table that the first ones needed. */
  lemma RestLacks(m: Memory, used: seq<bool>, tables: Tables, m': Memory, used': seq<bool>, tables': Tables,
                  root: nat, first: seq<nat>, rest: seq<nat>)
    requires Tree(m, root, tables) && Tree(m', root, tables') && Extends(m, used, tables, m', used', tables')
    requires forall i :: 0 <= i < |first| ==> Walk(m', root, 4, first[i]).Leaf?
    ensures |Lacking(m', root, rest)| + |Lacking(m, root, first)| <= |Lacking(m, root, first + rest)|
  {
    hide TableAt, Walk, Tree, Prefix, Extends;
    var all := first + rest;
    var now, before, mapped := Lacking(m', root, rest), Lacking(m, root, all), Lacking(m, root, first);
    FirstLacks(m, root, first, rest);
    forall x | x in now ensures x in before - mapped {
      var i, j :| 0 <= i < |rest| && 1 <= j <= 3 && TableAt(m', root, 4, rest[i], j).None?
                  && x == (j, Prefix(rest[i], j));
      assert all[|first| + i] == rest[i];
      if TableAt(m, root, 4, rest[i], j).Some? {
        TableStays(m, used, tables, m', used', tables', root, rest[i], j);
      }
      if x in mapped {
        var k :| 0 <= k < |first| && TableAt(m, root, 4, first[k], j).None? && x == (j, Prefix(first[k], j));
        TranslatedHasTables(m', root, tables', first[k], j);
        Meet(m', root, tables', first[k], rest[i], j);
      }
    }
    SubsetSize(now, before - mapped);
  }

  /** Two frames, both in use, one of them the root: three tables are lacking for every address. */
  lemma NoRoomToMap(v: nat)
    ensures var m: Memory := [ZeroTable(), ZeroTable()];
            && Tree(m, 1, map[1 := Node(4, 0, 0)])
            && |Lacking(m, 1, [v])| == 3 > Frames.Available([true, true])
  {
    hide Offset, Prefix;
    var m: Memory, tables := [ZeroTable(), ZeroTable()], map[1 := Node(4, 0, 0)];
    forall o | 0 <= o < WORDS_PER_TABLE ensures SlotOk(m, tables, 1, o) {
      assert m[1][o] == 0;
    }
    forall j | 1 <= j <= 3 ensures TableAt(m, 1, 4, v, j).None? {
      assert m[1][Offset(v, 4)] == 0;
    }
    assert [v][0] == v;
    var lacking := {(1, Prefix(v, 1)), (2, Prefix(v, 2)), (3, Prefix(v, 3))};
    assert Lacking(m, 1, [v]) == lacking;
    assert FreeFrames([true, true]) == {};
    FreeCount([true, true]);
  }
}
