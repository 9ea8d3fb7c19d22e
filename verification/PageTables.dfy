/** The four-level page tables as they lie in physical memory, and what the processor's walk makes
    of them (Intel SDM volume 3A, sections 4.5 and 4.6). */
module PageTables {
  import opened Counting
  import opened PageEntry
  import opened Wrappers

  type Table = s: seq<Word> | |s| == WORDS_PER_TABLE witness ZeroTable()

  /** Physical memory, one element per 4096-byte frame. */
  type Memory = seq<Table>

  const MAX_FRAMES: nat := 0x10_0000_0000

  function ZeroTable(): (s: seq<Word>)
    ensures |s| == WORDS_PER_TABLE
    ensures forall o :: 0 <= o < WORDS_PER_TABLE ==> s[o] == 0
  {
    seq(WORDS_PER_TABLE, _ => 0)
  }

  /** The entry that ends a walk, and what the entries on the way allow together. */
  datatype Translation =
    | Fault
    | Leaf(entry: Word, writable: bool, user: bool)
    | Large(level: nat, entry: Word, writable: bool, user: bool)

  /** Access needs the right at every level: an entry further up takes away what it does not grant. */
  function Under(e: Word, x: Translation): Translation {
    match x
    case Fault => Fault
    case Leaf(f, w, u) => Leaf(f, w && Writable(e), u && User(e))
    case Large(k, f, w, u) => Large(k, f, w && Writable(e), u && User(e))
  }

  /** The processor's walk for v, from the level-k table in frame t. */
  function Walk(m: Memory, t: nat, k: nat, v: nat): Translation
    requires 1 <= k <= 4
    decreases k
  {
    if t >= |m| then Fault
    else
      var e := m[t][Offset(v, k)];
      if !Present(e) then Fault
      else if k == 1 then Leaf(e, Writable(e), User(e))
      else if k < 4 && LargePage(e) then Large(k, e, Writable(e), User(e))
      else Under(e, Walk(m, Target(e), k - 1, v))
  }

  /** The frame of the level-j table on the way to v, if it has been built. */
  function TableAt(m: Memory, t: nat, k: nat, v: nat, j: nat): Option<nat>
    requires 1 <= j <= k <= 4
    decreases k
  {
    if t >= |m| then None
    else if k == j then Some(t)
    else
      var e := m[t][Offset(v, k)];
      if Present(e) then TableAt(m, Target(e), k - 1, v, j) else None
  }

  /** Where a table sits in the tree: its level and the slot that points to it. */
  datatype Node = Node(level: nat, parent: nat, slot: nat)

  type Tables = map<nat, Node>

  /** A present entry of an upper table points to the table registered for that very slot, and takes away
      no right. */
  ghost predicate SlotOk(m: Memory, tables: Tables, t: nat, o: nat)
    requires t in tables && t < |m| && o < WORDS_PER_TABLE
  {
    var e := m[t][o];
    tables[t].level > 1 ==>
      && Plain(e)
      && (Present(e) ==> Writable(e) && User(e)
                         && Target(e) in tables && tables[Target(e)] == Node(tables[t].level - 1, t, o))
  }

  /** Every table but the root is pointed to by the slot it is registered for. */
  ghost predicate Hangs(m: Memory, tables: Tables, t: nat)
    requires t in tables
  {
    var Node(level, p, o) := tables[t];
    && level < 4 && p in tables && p < |m| && o < WORDS_PER_TABLE
    && tables[p].level == level + 1
    && Present(m[p][o]) && Target(m[p][o]) == t
  }

  /** The tables reachable from the root form a tree: one slot points to each, and they are all
      distinct frames of memory. */
  ghost predicate Tree(m: Memory, root: nat, tables: Tables) {
    && |m| <= MAX_FRAMES
    && root in tables && tables[root].level == 4
    && (forall t | t in tables :: t < |m| && 1 <= tables[t].level <= 4)
    && (forall t, o | t in tables && 0 <= o < WORDS_PER_TABLE :: SlotOk(m, tables, t, o))
    && (forall t | t in tables && t != root :: Hangs(m, tables, t))
  }

  lemma TreeSlot(m: Memory, root: nat, tables: Tables, t: nat, o: nat)
    requires Tree(m, root, tables) && t in tables && o < WORDS_PER_TABLE
    ensures t < |m| <= MAX_FRAMES && 1 <= tables[t].level <= 4 && SlotOk(m, tables, t, o)
  {}

  /** What a walk reads at the end. */
  function LeafOf(e: Word): Translation {
    if Present(e) then Leaf(e, Writable(e), User(e)) else Fault
  }

  /** The leaf entry of v's page, zero where its table has not been built. */
  function SlotOf(m: Memory, root: nat, v: nat): Word {
    var t := TableAt(m, root, 4, v, 1);
    if t.Some? && t.value < |m| then m[t.value][Offset(v, 1)] else 0
  }

  /** An entry that grants both rights takes none away. */
  lemma UnderOpen(e: Word, x: Translation)
    requires Writable(e) && User(e)
    ensures Under(e, x) == x
  {}

  /** A walk faults where a table is missing and otherwise reads one slot of a level-1 table. */
  lemma {:induction false} WalkByTable(m: Memory, root: nat, tables: Tables, t: nat, v: nat)
    requires Tree(m, root, tables) && t in tables
    ensures var k := tables[t].level;
            && 1 <= k <= 4
            && var x := TableAt(m, t, k, v, 1);
            && (x.Some? ==> x.value in tables && tables[x.value].level == 1)
            && Walk(m, t, k, v) == (if x.Some? then LeafOf(m[x.value][Offset(v, 1)]) else Fault)
    decreases tables[t].level
  {
    hide Offset, Target, Plain, Writable, User, LargePage, Under;
    var k := tables[t].level;
    var e := m[t][Offset(v, k)];
    assert SlotOk(m, tables, t, Offset(v, k));
    if k > 1 && Present(e) {
      PlainNotLarge(e);
      UnderOpen(e, Walk(m, Target(e), k - 1, v));
      WalkByTable(m, root, tables, Target(e), v);
    }
  }

  lemma {:induction false} TableAtLevel(m: Memory, root: nat, tables: Tables, t: nat, v: nat, j: nat)
    requires Tree(m, root, tables) && t in tables && 1 <= j <= tables[t].level
    ensures var x := TableAt(m, t, tables[t].level, v, j);
            x.Some? ==> x.value in tables && tables[x.value].level == j
    decreases tables[t].level
  {
    var k := tables[t].level;
    var e := m[t][Offset(v, k)];
    assert SlotOk(m, tables, t, Offset(v, k));
    if k > j && Present(e) {
      TableAtLevel(m, root, tables, Target(e), v, j);
    }
  }

  /** One more level of the path. */
  lemma {:induction false} TableAtStep(m: Memory, root: nat, tables: Tables, t: nat, v: nat, j: nat)
    requires Tree(m, root, tables) && t in tables && 1 <= j < tables[t].level
    ensures var k := tables[t].level;
            var x := TableAt(m, t, k, v, j + 1);
            && (x.Some? ==> x.value < |m|)
            && TableAt(m, t, k, v, j) ==
               if x.Some? && Present(m[x.value][Offset(v, j + 1)])
               then Some(Target(m[x.value][Offset(v, j + 1)])) else None
    decreases tables[t].level
  {
    var k := tables[t].level;
    var e := m[t][Offset(v, k)];
    assert SlotOk(m, tables, t, Offset(v, k));
    if Present(e) {
      if k > j + 1 { TableAtStep(m, root, tables, Target(e), v, j); }
      else { assert TableAt(m, Target(e), j, v, j) == Some(Target(e)); }
    }
  }

  /** Two addresses meet in a table of level j exactly when they agree on everything above it. */
  lemma {:induction false} Meet(m: Memory, root: nat, tables: Tables, v: nat, w: nat, j: nat)
    requires Tree(m, root, tables) && 1 <= j <= 4
    requires TableAt(m, root, 4, v, j).Some?
    ensures TableAt(m, root, 4, w, j) == TableAt(m, root, 4, v, j) <==> Prefix(w, j) == Prefix(v, j)
    decreases 4 - j
  {
    if j < 4 {
      TableAtStep(m, root, tables, root, v, j);
      TableAtStep(m, root, tables, root, w, j);
      Meet(m, root, tables, v, w, j + 1);
      SamePrefix(v, w, j);
      TableAtLevel(m, root, tables, root, v, j + 1);
      TableAtLevel(m, root, tables, root, w, j + 1);
      var x, y := TableAt(m, root, 4, v, j + 1), TableAt(m, root, 4, w, j + 1);
      assert SlotOk(m, tables, x.value, Offset(v, j + 1));
      if y.Some? { assert SlotOk(m, tables, y.value, Offset(w, j + 1)); }
    }
  }

  /** What the processor finds is the leaf entry, if it is present. */
  lemma WalkReadsSlot(m: Memory, root: nat, tables: Tables, v: nat)
    requires Tree(m, root, tables)
    ensures Walk(m, root, 4, v) == LeafOf(SlotOf(m, root, v))
  {
    WalkByTable(m, root, tables, root, v);
  }

  /** Memory after a fresh, zeroed table in frame c is hung on slot o of the table in frame t. */
  function Link(m: Memory, t: nat, o: nat, c: nat): Memory
    requires t < |m| && c < |m| <= MAX_FRAMES && o < WORDS_PER_TABLE
  {
    m[c := ZeroTable()][t := m[t][o := TableEntry(m[t][o], c)]]
  }

  ghost predicate CanLink(m: Memory, root: nat, tables: Tables, t: nat, o: nat, c: nat) {
    && Tree(m, root, tables)
    && t in tables && tables[t].level > 1 && o < WORDS_PER_TABLE && !Present(m[t][o])
    && c < |m| && c !in tables
  }

  ghost function LinkTables(tables: Tables, t: nat, o: nat, c: nat): Tables
    requires t in tables && tables[t].level > 1
  {
    tables[c := Node(tables[t].level - 1, t, o)]
  }

  lemma LinkSlot(m: Memory, root: nat, tables: Tables, t: nat, o: nat, c: nat, s: nat, q: nat)
    requires CanLink(m, root, tables, t, o, c)
    requires (s == c || s in tables) && q < WORDS_PER_TABLE && s < |m|
    ensures SlotOk(Link(m, t, o, c), LinkTables(tables, t, o, c), s, q)
  {
    hide Offset, Target, TableEntry, Tree, Hangs;
    TreeSlot(m, root, tables, t, o);
    if s == t && q == o {
      TableEntryFields(m[t][o], c);
    } else if s != c {
      TreeSlot(m, root, tables, s, q);
    }
  }

  lemma LinkHangs(m: Memory, root: nat, tables: Tables, t: nat, o: nat, c: nat, s: nat)
    requires CanLink(m, root, tables, t, o, c)
    requires (s == c || s in tables) && s != root
    ensures Hangs(Link(m, t, o, c), LinkTables(tables, t, o, c), s)
  {
    hide Offset, Target, Plain, Writable, User, TableEntry;
    assert SlotOk(m, tables, t, o);
    TableEntryFields(m[t][o], c);
    if s != c { assert Hangs(m, tables, s); }
  }

  lemma LinkTree(m: Memory, root: nat, tables: Tables, t: nat, o: nat, c: nat)
    requires CanLink(m, root, tables, t, o, c)
    ensures Tree(Link(m, t, o, c), root, LinkTables(tables, t, o, c))
  {
    hide Offset, Target, Plain, Writable, User, TableEntry;
    var m', tables' := Link(m, t, o, c), LinkTables(tables, t, o, c);
    forall s, q | s in tables' && 0 <= q < WORDS_PER_TABLE
      ensures SlotOk(m', tables', s, q)
    {
      LinkSlot(m, root, tables, t, o, c, s, q);
    }
    forall s | s in tables' && s != root
      ensures Hangs(m', tables', s)
    {
      LinkHangs(m, root, tables, t, o, c, s);
    }
  }

  /** Linking builds the one table it is meant to build, and moves none. */
  lemma {:induction false} LinkTableAt(m: Memory, root: nat, tables: Tables, t: nat, o: nat, c: nat,
                                      s: nat, w: nat, j: nat)
    requires CanLink(m, root, tables, t, o, c)
    requires s in tables && 1 <= j <= tables[s].level
    ensures var k, level := tables[s].level, tables[t].level;
            TableAt(Link(m, t, o, c), s, k, w, j) ==
            if TableAt(m, s, k, w, j).Some? then TableAt(m, s, k, w, j)
            else if j + 1 == level <= k && TableAt(m, s, k, w, level) == Some(t) && Offset(w, level) == o then Some(c)
            else None
    decreases tables[s].level
  {
    hide Offset, Target, Plain, Writable, User, TableEntry, LargePage, Tree, Hangs;
    TreeSlot(m, root, tables, t, o);
    TreeSlot(m, root, tables, s, 0);
    var m' := Link(m, t, o, c);
    var k, level := tables[s].level, tables[t].level;
    var q := Offset(w, k);
    TreeSlot(m, root, tables, s, q);
    if j < k {
      if s == t && q == o {
        TableEntryFields(m[t][o], c);
        assert TableAt(m', s, k, w, j) == TableAt(m', c, k - 1, w, j);
        if j < k - 1 { assert m'[c][Offset(w, k - 1)] == 0; }
      } else {
        assert m'[s][q] == m[s][q];
        if Present(m[s][q]) {
          LinkTableAt(m, root, tables, t, o, c, Target(m[s][q]), w, j);
          if level == k { assert Target(m[s][q]) != t; }
        }
      }
    }
  }

  /** Linking an empty table changes no page's leaf entry. */
  lemma LinkSlots(m: Memory, root: nat, tables: Tables, t: nat, o: nat, c: nat, w: nat)
    requires CanLink(m, root, tables, t, o, c)
    ensures SlotOf(Link(m, t, o, c), root, w) == SlotOf(m, root, w)
  {
    hide TableAt, Offset, Target, Plain, Writable, User, TableEntry, LargePage;
    var m' := Link(m, t, o, c);
    TableAtLevel(m, root, tables, root, w, 1);
    LinkTableAt(m, root, tables, t, o, c, root, w, 1);
    var x := TableAt(m, root, 4, w, 1);
    if x.Some? {
      assert m'[x.value] == m[x.value];
    } else {
      assert m'[c] == ZeroTable();
    }
  }

  /** Memory after entry o of the level-1 table in frame t is overwritten. */
  function SetLeaf(m: Memory, t: nat, o: nat, e: Word): Memory
    requires t < |m| && o < WORDS_PER_TABLE
  {
    m[t := m[t][o := e]]
  }

  lemma SetLeafTree(m: Memory, root: nat, tables: Tables, t: nat, o: nat, e: Word)
    requires Tree(m, root, tables) && t in tables && tables[t].level == 1 && o < WORDS_PER_TABLE
    ensures Tree(SetLeaf(m, t, o, e), root, tables)
  {
    var m' := SetLeaf(m, t, o, e);
    forall s, q | s in tables && 0 <= q < WORDS_PER_TABLE
      ensures SlotOk(m', tables, s, q)
    {
      assert SlotOk(m, tables, s, q);
    }
    forall s | s in tables && s != root
      ensures Hangs(m', tables, s)
    {
      assert Hangs(m, tables, s);
    }
  }

  lemma {:induction false} SetLeafTableAt(m: Memory, root: nat, tables: Tables, t: nat, o: nat, e: Word,
                                         s: nat, w: nat, j: nat)
    requires Tree(m, root, tables) && t in tables && tables[t].level == 1 && o < WORDS_PER_TABLE
    requires s in tables && 1 <= j <= tables[s].level
    ensures TableAt(SetLeaf(m, t, o, e), s, tables[s].level, w, j) == TableAt(m, s, tables[s].level, w, j)
    decreases tables[s].level
  {
    hide Offset, Target, Plain, Writable, User, LargePage;
    var q := Offset(w, tables[s].level);
    assert SlotOk(m, tables, s, q);
    if j < tables[s].level && Present(m[s][q]) {
      SetLeafTableAt(m, root, tables, t, o, e, Target(m[s][q]), w, j);
    }
  }

  /** Writing the leaf slot of v's page changes that page's entry and no other of the 2^36. */
  lemma SetLeafSlots(m: Memory, root: nat, tables: Tables, v: nat, e: Word, w: nat)
    requires Tree(m, root, tables) && TableAt(m, root, 4, v, 1).Some?
    ensures var t := TableAt(m, root, 4, v, 1).value;
            && t in tables && tables[t].level == 1
            && SlotOf(SetLeaf(m, t, Offset(v, 1), e), root, w) == if Page(w) == Page(v) then e else SlotOf(m, root, w)
  {
    hide TableAt, Offset, Target, Plain, Writable, User, LargePage;
    var t, o := TableAt(m, root, 4, v, 1).value, Offset(v, 1);
    TableAtLevel(m, root, tables, root, v, 1);
    TableAtLevel(m, root, tables, root, w, 1);
    SetLeafTableAt(m, root, tables, t, o, e, root, w, 1);
    Meet(m, root, tables, v, w, 1);
    SamePrefix(v, w, 0);
  }

  /** The tables a walk for some address of vs still lacks, by level and by the addresses they serve. */
  ghost function Lacking(m: Memory, root: nat, vs: seq<nat>): set<(nat, nat)> {
    set i, j | 0 <= i < |vs| && 1 <= j <= 3 && TableAt(m, root, 4, vs[i], j).None? :: (j, Prefix(vs[i], j))
  }

  /** The tables down to level `low` on the way to v exist, and no other path was gained or lost. */
  ghost predicate Built(m: Memory, m': Memory, root: nat, v: nat, low: nat) {
    && (forall j | 1 <= j <= 3 && low <= j :: TableAt(m', root, 4, v, j).Some?)
    && (forall w, j | 1 <= j <= 3 :: TableAt(m', root, 4, w, j).Some?
          <==> TableAt(m, root, 4, w, j).Some? || (low <= j && Prefix(w, j) == Prefix(v, j)))
  }

  lemma BuiltStart(m: Memory, root: nat, v: nat)
    ensures Built(m, m, root, v, 4)
  {}

  /** Following an entry that is present already. */
  lemma BuiltFollow(m: Memory, m': Memory, root: nat, tables: Tables, v: nat, low: nat)
    requires Tree(m', root, tables) && 2 <= low <= 4 && Built(m, m', root, v, low)
    requires TableAt(m', root, 4, v, low - 1).Some?
    ensures Built(m, m', root, v, low - 1)
  {
    hide TableAt, Prefix;
    forall w, j | 1 <= j <= 3
      ensures TableAt(m', root, 4, w, j).Some?
         <==> TableAt(m, root, 4, w, j).Some? || (low - 1 <= j && Prefix(w, j) == Prefix(v, j))
    {
      if j == low - 1 { Meet(m', root, tables, v, w, j); }
    }
  }

  /** Which paths a link adds: those of the addresses that share the new table with v. */
  lemma LinkPaths(m: Memory, root: nat, tables: Tables, v: nat, low: nat, c: nat, w: nat, j: nat)
    requires 2 <= low <= 4 && TableAt(m, root, 4, v, low).Some?
    requires CanLink(m, root, tables, TableAt(m, root, 4, v, low).value, Offset(v, low), c)
    requires tables[TableAt(m, root, 4, v, low).value].level == low && 1 <= j <= 3
    ensures var t := TableAt(m, root, 4, v, low).value;
            TableAt(Link(m, t, Offset(v, low), c), root, 4, w, j) ==
            if TableAt(m, root, 4, w, j).Some? then TableAt(m, root, 4, w, j)
            else if j + 1 == low && Prefix(w, j) == Prefix(v, j) then Some(c) else None
    ensures TableAt(m, root, 4, v, low - 1).None?
  {
    hide TableAt, Prefix, Offset, Target, Plain, Writable, User, TableEntry;
    var t := TableAt(m, root, 4, v, low).value;
    LinkTableAt(m, root, tables, t, Offset(v, low), c, root, w, j);
    Meet(m, root, tables, v, w, low);
    SamePrefix(v, w, low - 1);
    TableAtStep(m, root, tables, root, v, low - 1);
  }

  lemma BuiltLink(m: Memory, m': Memory, root: nat, tables: Tables, v: nat, low: nat, c: nat)
    requires 2 <= low <= 4 && Built(m, m', root, v, low)
    requires TableAt(m', root, 4, v, low).Some?
    requires CanLink(m', root, tables, TableAt(m', root, 4, v, low).value, Offset(v, low), c)
    requires tables[TableAt(m', root, 4, v, low).value].level == low
    ensures var m'' := Link(m', TableAt(m', root, 4, v, low).value, Offset(v, low), c);
            && Built(m, m'', root, v, low - 1)
            && TableAt(m'', root, 4, v, low - 1) == Some(c)
            && |Lacking(m'', root, [v])| == |Lacking(m', root, [v])| - 1
  {
    hide TableAt, Prefix, Offset, Link;
    var m'' := Link(m', TableAt(m', root, 4, v, low).value, Offset(v, low), c);
    forall w, j | 1 <= j <= 3
      ensures TableAt(m'', root, 4, w, j) ==
              if TableAt(m', root, 4, w, j).Some? then TableAt(m', root, 4, w, j)
              else if j + 1 == low && Prefix(w, j) == Prefix(v, j) then Some(c) else None
    {
      LinkPaths(m', root, tables, v, low, c, w, j);
    }
    LinkPaths(m', root, tables, v, low, c, v, low - 1);
    var x := (low - 1, Prefix(v, low - 1));
    assert x in Lacking(m', root, [v]) by { assert [v][0] == v; }
    assert Lacking(m'', root, [v]) == Lacking(m', root, [v]) - {x};
  }

  lemma LackingOne(m: Memory, root: nat, v: nat, vs: seq<nat>)
    requires v in vs
    ensures Lacking(m, root, [v]) <= Lacking(m, root, vs)
    ensures |Lacking(m, root, [v])| <= |Lacking(m, root, vs)|
  {
    hide TableAt, Prefix;
    var k :| 0 <= k < |vs| && vs[k] == v;
    forall x | x in Lacking(m, root, [v])
      ensures x in Lacking(m, root, vs)
    {
      assert TableAt(m, root, 4, vs[k], x.0).None?;
    }
    SubsetSize(Lacking(m, root, [v]), Lacking(m, root, vs));
  }

  /** Building the whole path to one address serves exactly the addresses it shares tables with. */
  lemma BuiltLacking(m: Memory, m': Memory, root: nat, tables: Tables, v: nat, vs: seq<nat>)
    requires Tree(m, root, tables) && Built(m, m', root, v, 1) && v in vs
    ensures Lacking(m', root, vs) == Lacking(m, root, vs) - Lacking(m, root, [v])
    ensures |Lacking(m', root, vs)| == |Lacking(m, root, vs)| - |Lacking(m, root, [v])|
  {
    hide TableAt, Prefix, Tree;
    var now, before, one := Lacking(m', root, vs), Lacking(m, root, vs), Lacking(m, root, [v]);
    LackingOne(m, root, v, vs);
    forall x | x in before - one
      ensures x in now
    {
      var i, j :| 0 <= i < |vs| && 1 <= j <= 3 && TableAt(m, root, 4, vs[i], j).None? && x == (j, Prefix(vs[i], j));
      assert TableAt(m, root, 4, v, j).None? ==> (j, Prefix(v, j)) in one by { assert [v][0] == v; }
      if TableAt(m, root, 4, v, j).Some? { Meet(m, root, tables, v, vs[i], j); }
    }
    assert now == before - one;
  }
}
