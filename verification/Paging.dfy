/** The kernel's address space: mapping virtual pages through tables taken from the frames it manages. */
module Paging {
  import opened Bits
  import opened Wrappers
  import opened PageEntry
  import opened PageTables
  import Frames

  /** PT_RW | PT_Present | PT_UserSuper */
  const PT_ALL: Word := 0x7

  /** Largest range whose last byte offset fits the C loops' 32-bit `i * 4096`. */
  const MAX_PAGES: nat := 0x8_0000

  /** Pointer arithmetic on a 64-bit address. */
  function Advance(adr: nat, pages: nat): Word {
    (adr + pages * PAGE_SIZE) % W64
  }

  /** What a mapping operation leaves alone: frames in use stay in use, tables stay where they are,
      new tables come from free frames, and used frames that are not tables keep their contents. */
  ghost predicate Extends(m: Memory, used: seq<bool>, tables: Tables, m': Memory, used': seq<bool>, tables': Tables) {
    && |m'| == |m| == |used| == |used'|
    && (forall f :: 0 <= f < |used| && used[f] ==> used'[f])
    && (forall t :: t in tables ==> t in tables' && tables'[t] == tables[t])
    && (forall t :: t in tables' && t !in tables ==> t < |used| && !used[t])
    && (forall f :: 0 <= f < |m| && used[f] && f !in tables' ==> m'[f] == m[f])
  }

  /** No page's leaf entry changed. */
  ghost predicate SameSlots(m: Memory, m': Memory, root: nat) {
    forall w :: SlotOf(m', root, w) == SlotOf(m, root, w)
  }

  /** The pages of vs got the addresses ps, one by one; the leaf entry of every other page is as before. */
  ghost predicate Mapped(m: Memory, m': Memory, root: nat, vs: seq<nat>, ps: seq<Word>, flags: Word)
    requires |vs| == |ps|
  {
    && (forall i :: 0 <= i < |vs| ==> SlotOf(m', root, vs[i]) == SetAdr(SetFlag(SlotOf(m, root, vs[i]), flags), ps[i]))
    && (forall w :: (forall i :: 0 <= i < |vs| ==> Page(vs[i]) != Page(w))
              ==> SlotOf(m', root, w) == SlotOf(m, root, w))
  }

  lemma ExtendsTwice(m: Memory, used: seq<bool>, tables: Tables, m': Memory, used': seq<bool>, tables': Tables,
                     m'': Memory, used'': seq<bool>, tables'': Tables)
    requires Extends(m, used, tables, m', used', tables') && Extends(m', used', tables', m'', used'', tables'')
    ensures Extends(m, used, tables, m'', used'', tables'')
  {}

  lemma ExtendsThen(m: Memory, used: seq<bool>, tables: Tables, m': Memory, used': seq<bool>, tables': Tables,
                    m'': Memory, used'': seq<bool>, tables'': Tables, root: nat)
    requires SameSlots(m, m', root) && SameSlots(m', m'', root)
    requires Extends(m, used, tables, m', used', tables') && Extends(m', used', tables', m'', used'', tables'')
    ensures SameSlots(m, m'', root) && Extends(m, used, tables, m'', used'', tables'')
  {}

  /** Reading a present upper entry: kernel and processor agree on a registered table. */
  lemma FollowEntry(m: Memory, root: nat, tables: Tables, v: nat, level: nat)
    requires Tree(m, root, tables) && 2 <= level <= 4 && TableAt(m, root, 4, v, level).Some?
    ensures var t := TableAt(m, root, 4, v, level).value;
            && t in tables && t < |m| && tables[t].level == level && Plain(m[t][Offset(v, level)])
            && var e := m[t][Offset(v, level)];
               Present(e) ==> TableAt(m, root, 4, v, level - 1) == Some(Target(e)) && GetAdr(e) == Target(e) * PAGE_SIZE
  {
    hide TableAt, Offset, Target, Present, GetAdr, Plain, Writable, User;
    TableAtLevel(m, root, tables, root, v, level);
    TableAtStep(m, root, tables, root, v, level - 1);
    var t := TableAt(m, root, 4, v, level).value;
    var e := m[t][Offset(v, level)];
    assert SlotOk(m, tables, t, Offset(v, level));
    if Present(e) { KernelAgrees(e); }
  }

  lemma StartAtRoot(m: Memory, root: nat, tables: Tables, v: nat)
    requires Tree(m, root, tables)
    ensures TableAt(m, root, 4, v, 4) == Some(root)
  {}

  lemma ExtendsSame(m: Memory, used: seq<bool>, tables: Tables, root: nat)
    requires |m| == |used|
    ensures SameSlots(m, m, root) && Extends(m, used, tables, m, used, tables)
  {}

  lemma PresentNow(m: Memory, root: nat, tables: Tables, v: nat, level: nat)
    requires Tree(m, root, tables) && 2 <= level <= 4
    requires TableAt(m, root, 4, v, level).Some? && TableAt(m, root, 4, v, level - 1).Some?
    ensures var t := TableAt(m, root, 4, v, level).value; t < |m| && Present(m[t][Offset(v, level)])
  {
    TableAtStep(m, root, tables, root, v, level - 1);
  }

  /** Linking below a table leaves the path to it in place. */
  lemma LinkRoot(m: Memory, root: nat, tables: Tables, v: nat, level: nat, c: nat)
    requires 2 <= level <= 4 && TableAt(m, root, 4, v, level).Some?
    requires CanLink(m, root, tables, TableAt(m, root, 4, v, level).value, Offset(v, level), c)
    ensures TableAt(Link(m, TableAt(m, root, 4, v, level).value, Offset(v, level), c), root, 4, v, level)
         == TableAt(m, root, 4, v, level)
  {
    LinkTableAt(m, root, tables, TableAt(m, root, 4, v, level).value, Offset(v, level), c, root, v, level);
  }

  /** A missing entry means that a table is still lacking. */
  lemma LacksNext(m: Memory, root: nat, tables: Tables, v: nat, level: nat)
    requires Tree(m, root, tables) && 2 <= level <= 4 && TableAt(m, root, 4, v, level).Some?
    requires var t := TableAt(m, root, 4, v, level).value; t < |m| && !Present(m[t][Offset(v, level)])
    ensures |Lacking(m, root, [v])| > 0
  {
    hide TableAt, Offset, Target, Present, Prefix;
    TableAtStep(m, root, tables, root, v, level - 1);
    assert (level - 1, Prefix(v, level - 1)) in Lacking(m, root, [v]) by { assert [v][0] == v; }
  }

  lemma RequestedValue(s: Frames.State)
    requires Frames.Request(s).1.Some?
    ensures Frames.RequestedAdr(s) == Frames.Request(s).1.value * PAGE_SIZE
  {}

  /** All that hanging the free frame c below the level-`level` table on the way to v does. */
  lemma LinkEffect(start: Memory, m: Memory, used: seq<bool>, root: nat, tables: Tables, v: nat, level: nat, c: nat)
    requires Tree(m, root, tables) && |m| == |used| && forall t :: t in tables ==> t < |used| && used[t]
    requires c < |used| && !used[c]
    requires 2 <= level <= 4 && TableAt(m, root, 4, v, level).Some? && Built(start, m, root, v, level)
    requires var t := TableAt(m, root, 4, v, level).value; t < |m| && !Present(m[t][Offset(v, level)])
    ensures var t := TableAt(m, root, 4, v, level).value;
            && t in tables && tables[t].level == level && t != c
            && var m' := Link(m, t, Offset(v, level), c);
               var tables' := LinkTables(tables, t, Offset(v, level), c);
               && Tree(m', root, tables')
               && (forall f :: f in tables' ==> f < |used| && used[c := true][f])
               && Built(start, m', root, v, level - 1)
               && TableAt(m', root, 4, v, level) == Some(t) && TableAt(m', root, 4, v, level - 1).Some?
               && |Lacking(m', root, [v])| == |Lacking(m, root, [v])| - 1
               && SameSlots(m, m', root)
               && Extends(m, used, tables, m', used[c := true], tables')
  {
    hide TableAt, SlotOf, Offset, Built, Lacking, Target, Plain, Writable, User, TableEntry, SameSlots;
    var t, o := TableAt(m, root, 4, v, level).value, Offset(v, level);
    TableAtLevel(m, root, tables, root, v, level);
    BuiltLink(start, m, root, tables, v, level, c);
    LinkRoot(m, root, tables, v, level, c);
    LinkTree(m, root, tables, t, o, c);
    LinkSameSlots(m, root, tables, t, o, c);
  }

  lemma LinkSameSlots(m: Memory, root: nat, tables: Tables, t: nat, o: nat, c: nat)
    requires CanLink(m, root, tables, t, o, c)
    ensures SameSlots(m, Link(m, t, o, c), root)
  {
    hide SlotOf, TableEntry;
    forall w ensures SlotOf(Link(m, t, o, c), root, w) == SlotOf(m, root, w) {
      LinkSlots(m, root, tables, t, o, c, w);
    }
  }

  lemma BuiltAll(m: Memory, m': Memory, root: nat, v: nat)
    requires Built(m, m', root, v, 1)
    ensures Lacking(m', root, [v]) == {}
  {}

  /** What writing the leaf entry adds to a completed navigation. */
  lemma MapEffect(m0: Memory, m: Memory, used0: seq<bool>, used: seq<bool>, root: nat, ts: Tables, tables: Tables,
                  v: Word, adr: Word, flags: Word)
    requires Tree(m, root, tables) && TableAt(m, root, 4, v, 1).Some?
    requires Built(m0, m, root, v, 1) && SameSlots(m0, m, root) && Extends(m0, used0, ts, m, used, tables)
    ensures var t, o := TableAt(m, root, 4, v, 1).value, Offset(v, 1);
            && t in tables && t < |m|
            && var m' := SetLeaf(m, t, o, SetAdr(SetFlag(m[t][o], flags), adr));
               && Tree(m', root, tables)
               && Mapped(m0, m', root, [v], [adr], flags)
               && Built(m0, m', root, v, 1)
               && Extends(m0, used0, ts, m', used, tables)
  {
    hide TableAt, Offset, SetAdr, SetFlag, Page, Prefix, Plain, Writable, User, Present, Target;
    var t, o := TableAt(m, root, 4, v, 1).value, Offset(v, 1);
    TableAtLevel(m, root, tables, root, v, 1);
    var e := SetAdr(SetFlag(m[t][o], flags), adr);
    var m' := SetLeaf(m, t, o, e);
    SetLeafTree(m, root, tables, t, o, e);
    assert m[t][o] == SlotOf(m, root, v);
    forall w
      ensures SlotOf(m', root, w) == if Page(w) == Page(v) then e else SlotOf(m, root, w)
    {
      SetLeafSlots(m, root, tables, v, e, w);
    }
    forall w, j | 1 <= j <= 3
      ensures TableAt(m', root, 4, w, j) == TableAt(m, root, 4, w, j)
    {
      SetLeafTableAt(m, root, tables, t, o, e, root, w, j);
    }
    assert [v][0] == v;
  }

  /** What the processor sees of a mapping: each page translates to the frame given for it, and may be
      written and used by user programs; every other virtual page, mapped or not, translates as before,
      with the rights it had. */
  ghost predicate Translates(m: Memory, m': Memory, root: nat, vs: seq<nat>, ps: seq<Word>)
    requires |vs| == |ps|
  {
    && (forall i :: 0 <= i < |vs| ==>
          var x := Walk(m', root, 4, vs[i]);
          x.Leaf? && Target(x.entry) == ps[i] / PAGE_SIZE % 0x100_0000_0000 && x.writable && x.user)
    && (forall w :: (forall i :: 0 <= i < |vs| ==> Page(vs[i]) != Page(w))
              ==> Walk(m', root, 4, w) == Walk(m, root, 4, w))
  }

  lemma MappedOne(m: Memory, m': Memory, root: nat, v: nat, p: Word)
    requires Mapped(m, m', root, [v], [p], PT_ALL)
    ensures SlotOf(m', root, v) == SetAdr(SetFlag(SlotOf(m, root, v), 7), p)
  {
    hide SlotOf, SetAdr, SetFlag;
    assert [v][0] == v && [p][0] == p;
  }

  lemma MappedTranslates(m: Memory, m': Memory, root: nat, ts: Tables, ts': Tables,
                           vs: seq<nat>, ps: seq<Word>, flags: Word)
    requires Tree(m, root, ts) && Tree(m', root, ts') && |vs| == |ps|
    requires Mapped(m, m', root, vs, ps, flags) && Present(flags) && Writable(flags) && User(flags)
    ensures Translates(m, m', root, vs, ps)
  {
    hide Tree, Walk, SlotOf, SetAdr, SetFlag, Target, Present, Writable, User, Page;
    forall w
      ensures Walk(m, root, 4, w) == LeafOf(SlotOf(m, root, w)) && Walk(m', root, 4, w) == LeafOf(SlotOf(m', root, w))
    {
      WalkReadsSlot(m, root, ts, w);
      WalkReadsSlot(m', root, ts', w);
    }
    forall i | 0 <= i < |vs|
      ensures var x := Walk(m', root, 4, vs[i]);
              x.Leaf? && Target(x.entry) == ps[i] / PAGE_SIZE % 0x100_0000_0000 && x.writable && x.user
    {
      LeafEntry(SlotOf(m, root, vs[i]), flags, ps[i]);
    }
  }

  /** Consecutive pages are distinct pages. */
  lemma AdvancePage(v: nat, i: nat)
    requires i <= MAX_PAGES
    ensures Page(Advance(v, i)) == (v / PAGE_SIZE + i) % 0x10_0000_0000
  {
    var a := v + i * PAGE_SIZE;
    var q, r := a / W64, a % W64;
    Divides(a, PAGE_SIZE, v / PAGE_SIZE + i, v % PAGE_SIZE);
    Divides(a, PAGE_SIZE, q * 0x10_0000_0000_0000 + r / PAGE_SIZE, r % PAGE_SIZE);
    Rotate(q, r / PAGE_SIZE);
  }

  lemma Rotate(q: nat, p: nat)
    ensures (q * 0x10_0000_0000_0000 + p) % 0x10_0000_0000 == p % 0x10_0000_0000
  {
    Divides(q * 0x10_0000_0000_0000 + p, 0x10_0000_0000, q * 0x1_0000 + p / 0x10_0000_0000, p % 0x10_0000_0000);
  }

  lemma PagesDistinct(v: nat, i: nat, j: nat)
    requires i < j <= MAX_PAGES
    ensures Page(Advance(v, i)) != Page(Advance(v, j))
  {
    hide Page, Advance;
    AdvancePage(v, i);
    AdvancePage(v, j);
    var p := v / PAGE_SIZE;
    assert (p + i) % 0x10_0000_0000 != (p + j) % 0x10_0000_0000;
  }

  function Range(adr: nat, pages: nat): (s: seq<Word>)
    ensures |s| == pages && forall i :: 0 <= i < pages ==> s[i] == Advance(adr, i)
  {
    seq(pages, i requires 0 <= i < pages => Advance(adr, i))
  }

  lemma RangeStep(adr: nat, i: nat)
    ensures Range(adr, i + 1) == Range(adr, i) + [Advance(adr, i)]
  {}

  /** One more page of a range. */
  lemma MappedStep(m0: Memory, m1: Memory, m2: Memory, root: nat, v: nat, i: nat, ps: seq<Word>, p: Word, flags: Word)
    requires |ps| == i < MAX_PAGES
    requires Mapped(m0, m1, root, Range(v, i), ps, flags) && Mapped(m1, m2, root, [Advance(v, i)], [p], flags)
    ensures Mapped(m0, m2, root, Range(v, i + 1), ps + [p], flags)
  {
    hide SlotOf, SetAdr, SetFlag, Page, Advance;
    var vs, x := Range(v, i), Advance(v, i);
    RangeStep(v, i);
    assert [x][0] == x;
    forall k | 0 <= k < i
      ensures Page(vs[k]) != Page(x)
    {
      PagesDistinct(v, k, i);
    }
    forall w | forall k :: 0 <= k < i + 1 ==> Page((vs + [x])[k]) != Page(w)
      ensures SlotOf(m2, root, w) == SlotOf(m0, root, w)
    {
      assert (vs + [x])[i] == x;
      forall k | 0 <= k < i ensures Page(vs[k]) != Page(w) { assert (vs + [x])[k] == vs[k]; }
    }
  }

  lemma NothingMapped(m: Memory, used: seq<bool>, ts: Tables, root: nat, v: nat, p: nat)
    requires |m| == |used|
    ensures Mapped(m, m, root, Range(v, 0), Range(p, 0), PT_ALL)
    ensures Extends(m, used, ts, m, used, ts)
  {}

  /** All tables for v exist. */
  ghost predicate Reachable(m: Memory, root: nat, v: nat) {
    forall j | 1 <= j <= 3 :: TableAt(m, root, 4, v, j).Some?
  }

  lemma BuiltReachable(m: Memory, m': Memory, root: nat, v: nat, vs: seq<nat>, i: nat)
    requires Built(m, m', root, v, 1) && i < |vs| && vs[i] == v
    requires forall k :: 0 <= k < i ==> Reachable(m, root, vs[k])
    ensures forall k :: 0 <= k < i + 1 ==> Reachable(m', root, vs[k])
  {}

  lemma AllReachable(m: Memory, root: nat, vs: seq<nat>)
    requires forall k :: 0 <= k < |vs| ==> Reachable(m, root, vs[k])
    ensures |Lacking(m, root, vs)| == 0
  {
    assert Lacking(m, root, vs) == {};
  }

  /** The C loop's byte counter is a 32-bit int. */
  const MAX_BYTES: nat := 0x7fff_f000

  function PageCount(bytes: nat): nat {
    (bytes + PAGE_SIZE - 1) / PAGE_SIZE
  }

  function PointerAdd(adr: nat, bytes: nat): Word {
    (adr + bytes) % W64
  }

  lemma PointerAdvance(adr: nat, k: nat)
    ensures PointerAdd(adr, k * PAGE_SIZE) == Advance(adr, k)
  {}

  /** The physical addresses of frames. */
  function Addresses(pages: seq<nat>): (s: seq<Word>)
    ensures |s| == |pages|
  {
    seq(|pages|, i requires 0 <= i < |pages| => pages[i] * PAGE_SIZE % W64)
  }

  lemma AddressesStep(pages: seq<nat>, c: nat)
    requires c < MAX_FRAMES
    ensures Addresses(pages + [c]) == Addresses(pages) + [c * PAGE_SIZE]
  {}

  /** The frames were free before, are pairwise distinct, are in use now and hold no page table. */
  ghost predicate Fresh(used: seq<bool>, used': seq<bool>, tables: Tables, pages: seq<nat>)
    requires |used| == |used'|
  {
    && (forall i :: 0 <= i < |pages| ==> pages[i] < |used| && !used[pages[i]] && used'[pages[i]] && pages[i] !in tables)
    && (forall i, j :: 0 <= i < j < |pages| ==> pages[i] != pages[j])
  }

  lemma NothingRequested(m: Memory, used: seq<bool>, ts: Tables, root: nat, v: nat)
    requires |m| == |used|
    ensures Mapped(m, m, root, Range(v, 0), Addresses([]), PT_ALL)
    ensures Extends(m, used, ts, m, used, ts) && Fresh(used, used, ts, [])
  {}

  /** Taking one more frame for data. */
  lemma TakeFresh(m: Memory, used: seq<bool>, ts: Tables, m1: Memory, used1: seq<bool>, ts1: Tables,
                    pages: seq<nat>, c: nat)
    requires Extends(m, used, ts, m1, used1, ts1) && Fresh(used, used1, ts1, pages)
    requires c < |used1| && !used1[c] && forall t :: t in ts1 ==> t < |used1| && used1[t]
    ensures Extends(m, used, ts, m1, used1[c := true], ts1) && Fresh(used, used1[c := true], ts1, pages + [c])
  {}

  /** Tables built later come from free frames, so they are never data frames. */
  lemma KeepFresh(m1: Memory, used: seq<bool>, used1: seq<bool>, ts1: Tables,
                    m2: Memory, used2: seq<bool>, ts2: Tables, pages: seq<nat>)
    requires |used| == |used1| && Extends(m1, used1, ts1, m2, used2, ts2) && Fresh(used, used1, ts1, pages)
    ensures Fresh(used, used2, ts2, pages)
  {}

  class AddressSpace {
    const frames: Frames.FrameAllocator
    const mem: array<Table>
    const kernelPL4: nat
    ghost var tables: Tables

    ghost function Root(): nat {
      kernelPL4 / PAGE_SIZE
    }

    ghost predicate Valid()
      reads this, frames, frames.pagesUsed, mem
    {
      && frames.Valid()
      && 0 < mem.Length == frames.pagesUsed.Length <= MAX_FRAMES && frames.pagesUsed[0]
      && Tree(mem[..], Root(), tables)
      && kernelPL4 % PAGE_SIZE == 0
      && forall t :: t in tables ==> t < mem.Length && frames.pagesUsed[t]
    }

    /** Frames this operation needs for tables: one for each table the addresses lack. */
    ghost function Needs(vs: seq<nat>): nat
      reads this, mem
    {
      |Lacking(mem[..], Root(), vs)|
    }

    ghost function Free(): nat
      reads frames, frames.pagesUsed
    {
      Frames.Available(frames.pagesUsed[..])
    }

    /** What the processor finds for virtual address v. */
    ghost function Translate(v: nat): Translation
      reads this, mem
    {
      Walk(mem[..], Root(), 4, v)
    }

    /** The kernel's root table, as INIT_PAGING requests and clears it: no page is mapped. */
    constructor (frames: Frames.FrameAllocator, mem: array<Table>)
      requires frames.Valid() && mem.Length == frames.pagesUsed.Length <= MAX_FRAMES
      requires 0 < mem.Length && frames.pagesUsed[0]
      requires Frames.Available(frames.pagesUsed[..]) > 0
      modifies frames, frames.pagesUsed, mem
      ensures Valid() && this.frames == frames && this.mem == mem
      ensures tables.Keys == {Root()} && !old(frames.pagesUsed[..])[Root()]
      ensures forall v :: Translate(v) == Fault
      ensures Free() == old(Frames.Available(frames.pagesUsed[..])) - 1
    {
      ghost var s := frames.Model();
      Frames.RequestTakes(s);
      var root := frames.RequestPage();
      RequestedValue(s);
      mem[root / PAGE_SIZE] := ZeroTable();
      this.frames, this.mem, kernelPL4 := frames, mem, root;
      tables := map[root / PAGE_SIZE := Node(4, 0, 0)];
    }

    /** Clear the new table and point the entry to it. */
    method HangTable(pl: nat, o: nat, temp: nat)
      requires pl / PAGE_SIZE < mem.Length && temp / PAGE_SIZE < mem.Length <= MAX_FRAMES && o < WORDS_PER_TABLE
      requires pl / PAGE_SIZE != temp / PAGE_SIZE && temp % PAGE_SIZE == 0
      modifies mem
      ensures mem[..] == Link(old(mem[..]), pl / PAGE_SIZE, o, temp / PAGE_SIZE)
    {
      hide SetFlag, SetAdr;
      var t := pl / PAGE_SIZE;
      mem[temp / PAGE_SIZE] := ZeroTable();
      mem[t] := mem[t][o := SetFlag(mem[t][o], PT_ALL)];
      mem[t] := mem[t][o := SetAdr(mem[t][o], temp)];
      ghost var e := SetAdr(SetFlag(old(mem[t])[o], PT_ALL), temp);
      assert mem[t] == old(mem[t])[o := e];
    }

    /** The branch of the navigation loop that creates a missing table. */
    method CreateTable(virtadr: Word, pl: nat, o: nat, level: nat, ghost start: Memory)
      requires Valid() && Needs([virtadr]) <= Free()
      requires 2 <= level <= 4 && o == Offset(virtadr, level)
      requires TableAt(mem[..], Root(), 4, virtadr, level) == Some(pl / PAGE_SIZE)
      requires Built(start, mem[..], Root(), virtadr, level)
      requires pl / PAGE_SIZE < mem.Length && !Present(mem[pl / PAGE_SIZE][o])
      modifies this`tables, frames, frames.pagesUsed, mem
      ensures Valid() && TableAt(mem[..], Root(), 4, virtadr, level - 1).Some?
      ensures TableAt(mem[..], Root(), 4, virtadr, level) == Some(pl / PAGE_SIZE)
      ensures Built(start, mem[..], Root(), virtadr, level - 1)
      ensures SameSlots(old(mem[..]), mem[..], Root())
      ensures Free() - Needs([virtadr]) == old(Free() - Needs([virtadr]))
      ensures Extends(old(mem[..]), old(frames.pagesUsed[..]), old(tables), mem[..], frames.pagesUsed[..], tables)
    {
      hide TableAt, Walk, Offset, Built, Lacking, Tree, Link, LinkTables, Extends, SameSlots;
      hide Frames.Inv, Frames.Request, Frames.RequestedAdr, Frames.Available;
      ghost var m, s, t := mem[..], frames.Model(), pl / PAGE_SIZE;
      LacksNext(m, Root(), tables, virtadr, level);
      Frames.RequestTakes(s);
      ghost var c := Frames.Request(s).1.value;
      LinkEffect(start, m, s.used, Root(), tables, virtadr, level, c);
      var temp := frames.RequestPage();
      RequestedValue(s);
      HangTable(pl, o, temp);
      assert mem[..] == Link(m, t, o, c);
      assert frames.pagesUsed[..] == s.used[c := true];
      tables := LinkTables(tables, t, o, c);
    }

    /** The walk for v has reached the level-`level` table at pl, having built what was lacking above. */
    ghost predicate Reached(m: Memory, used: seq<bool>, ts: Tables, spare: nat, v: Word, level: nat, pl: nat)
      reads this, frames, frames.pagesUsed, mem
      requires 1 <= level <= 4
    {
      && Valid() && pl % PAGE_SIZE == 0
      && TableAt(mem[..], Root(), 4, v, level) == Some(pl / PAGE_SIZE)
      && Built(m, mem[..], Root(), v, level)
      && Free() == spare + Needs([v])
      && SameSlots(m, mem[..], Root())
      && Extends(m, used, ts, mem[..], frames.pagesUsed[..], tables)
    }

    /** One round of the navigation loop: follow entry o of the level-`level` table, creating the next
        table if the entry is absent. */
    method Descend(virtadr: Word, pl: nat, o: nat, level: nat,
                   ghost m: Memory, ghost used: seq<bool>, ghost ts: Tables, ghost spare: nat) returns (next: nat)
      requires 2 <= level <= 4 && o == KernelOffset(virtadr, level)
      requires Reached(m, used, ts, spare, virtadr, level, pl)
      modifies this`tables, frames, frames.pagesUsed, mem
      ensures Reached(m, used, ts, spare, virtadr, level - 1, next)
    {
      hide TableAt, SlotOf, Offset, KernelOffset, Target, Plain, Writable, User, Built, Lacking;
      hide GetAdr, GetFlag, Tree, Extends, SameSlots;
      hide Frames.Inv, Frames.Available;
      FollowEntry(mem[..], Root(), tables, virtadr, level);
      KernelOffsetField(virtadr, level);
      var e := mem[pl / PAGE_SIZE][o];
      PresentFlag(e);
      if !GetFlag(e, PT_PRESENT) {
        ghost var m1, used1, ts1 := mem[..], frames.pagesUsed[..], tables;
        CreateTable(virtadr, pl, o, level, m);
        ExtendsThen(m, used, ts, m1, used1, ts1, mem[..], frames.pagesUsed[..], tables, Root());
        FollowEntry(mem[..], Root(), tables, virtadr, level);
        PresentNow(mem[..], Root(), tables, virtadr, level);
      } else {
        BuiltFollow(m, mem[..], Root(), tables, virtadr, level);
      }
      next := GetAdr(mem[pl / PAGE_SIZE][o]);
    }

    method NavigateToPL1(virtadr: Word) returns (pl1: nat)
      requires Valid() && Needs([virtadr]) <= Free()
      modifies this`tables, frames, frames.pagesUsed, mem
      ensures Valid() && pl1 % PAGE_SIZE == 0
      ensures TableAt(mem[..], Root(), 4, virtadr, 1) == Some(pl1 / PAGE_SIZE)
      ensures Built(old(mem[..]), mem[..], Root(), virtadr, 1)
      ensures SameSlots(old(mem[..]), mem[..], Root())
      ensures Free() == old(Free()) - old(Needs([virtadr]))
      ensures Extends(old(mem[..]), old(frames.pagesUsed[..]), old(tables), mem[..], frames.pagesUsed[..], tables)
    {
      hide TableAt, KernelOffset, Built, Lacking, Tree, Extends, SameSlots, Frames.Inv, Frames.Available;
      var offsets := [KernelOffset(virtadr, 4), KernelOffset(virtadr, 3), KernelOffset(virtadr, 2)];
      pl1 := kernelPL4;
      ghost var m, used, ts := mem[..], frames.pagesUsed[..], tables;
      ghost var spare: nat := Free() - Needs([virtadr]);
      StartAtRoot(m, Root(), tables, virtadr);
      BuiltStart(m, Root(), virtadr);
      ExtendsSame(m, used, ts, Root());
      for i := 0 to 3
        invariant Reached(m, used, ts, spare, virtadr, 4 - i, pl1)
      {
        assert offsets[i] == KernelOffset(virtadr, 4 - i);
        pl1 := Descend(virtadr, pl1, offsets[i], 4 - i, m, used, ts, spare);
      }
      BuiltAll(m, mem[..], Root(), virtadr);
    }

    method MapMemWithFlags(virtadr: Word, physadr: Word, flags: Word)
      requires Valid() && Needs([virtadr]) <= Free()
      modifies this`tables, frames, frames.pagesUsed, mem
      ensures Valid()
      ensures Mapped(old(mem[..]), mem[..], Root(), [virtadr], [physadr], flags)
      ensures Built(old(mem[..]), mem[..], Root(), virtadr, 1)
      ensures Free() == old(Free()) - old(Needs([virtadr]))
      ensures Extends(old(mem[..]), old(frames.pagesUsed[..]), old(tables), mem[..], frames.pagesUsed[..], tables)
    {
      hide TableAt, SlotOf, Offset, KernelOffset, Built, Lacking, Tree, Extends, SameSlots, Mapped, SetAdr, SetFlag;
      hide Frames.Inv, Frames.Available;
      ghost var m0, used, ts := mem[..], frames.pagesUsed[..], tables;
      var o := KernelOffset(virtadr, 1);
      KernelOffsetField(virtadr, 1);
      var pl1 := NavigateToPL1(virtadr);
      ghost var m1, used1 := mem[..], frames.pagesUsed[..];
      var t := pl1 / PAGE_SIZE;
      MapEffect(m0, m1, used, used1, Root(), ts, tables, virtadr, physadr, flags);
      mem[t] := mem[t][o := SetFlag(mem[t][o], flags)];
      mem[t] := mem[t][o := SetAdr(mem[t][o], physadr)];
      ghost var e := SetAdr(SetFlag(m1[t][o], flags), physadr);
      assert mem[t] == m1[t][o := e];
      assert mem[..] == SetLeaf(m1, t, o, e);
    }

    method MapMem(virtadr: Word, physadr: Word)
      requires Valid() && Needs([virtadr]) <= Free()
      modifies this`tables, frames, frames.pagesUsed, mem
      ensures Valid()
      ensures Mapped(old(mem[..]), mem[..], Root(), [virtadr], [physadr], PT_ALL)
      ensures Translates(old(mem[..]), mem[..], Root(), [virtadr], [physadr])
      ensures SlotOf(mem[..], Root(), virtadr) == Opened(old(SlotOf(mem[..], Root(), virtadr)), physadr)
      ensures Built(old(mem[..]), mem[..], Root(), virtadr, 1)
      ensures Free() == old(Free()) - old(Needs([virtadr]))
      ensures Extends(old(mem[..]), old(frames.pagesUsed[..]), old(tables), mem[..], frames.pagesUsed[..], tables)
    {
      hide Tree, Translates, Mapped, Lacking, Built, Extends, Frames.Inv, Frames.Available;
      ghost var m, ts := mem[..], tables;
      MapMemWithFlags(virtadr, physadr, PT_ALL);
      StoredEntry(SlotOf(m, Root(), virtadr), physadr);
      MappedOne(m, mem[..], Root(), virtadr, physadr);
      MappedTranslates(m, mem[..], Root(), ts, tables, [virtadr], [physadr], PT_ALL);
    }

    /** Maps consecutive pages to consecutive frames. */
    method MapPages(virtadr: Word, physadr: Word, pages: nat)
      requires Valid() && pages <= MAX_PAGES && Needs(Range(virtadr, pages)) <= Free()
      modifies this`tables, frames, frames.pagesUsed, mem
      ensures Valid()
      ensures Mapped(old(mem[..]), mem[..], Root(), Range(virtadr, pages), Range(physadr, pages), PT_ALL)
      ensures Translates(old(mem[..]), mem[..], Root(), Range(virtadr, pages), Range(physadr, pages))
      ensures Free() == old(Free()) - old(Needs(Range(virtadr, pages))) && Needs(Range(virtadr, pages)) == 0
      ensures Extends(old(mem[..]), old(frames.pagesUsed[..]), old(tables), mem[..], frames.pagesUsed[..], tables)
    {
      hide Tree, Translates, Mapped, Lacking, Built, Extends, Advance, SlotOf, Opened, Frames.Inv, Frames.Available;
      ghost var m, used, ts := mem[..], frames.pagesUsed[..], tables;
      ghost var vs := Range(virtadr, pages);
      ghost var spare: nat := Free() - Needs(vs);
      NothingMapped(m, used, ts, Root(), virtadr, physadr);
      for i := 0 to pages
        invariant Valid() && Free() == spare + Needs(vs)
        invariant Mapped(m, mem[..], Root(), Range(virtadr, i), Range(physadr, i), PT_ALL)
        invariant Extends(m, used, ts, mem[..], frames.pagesUsed[..], tables)
        invariant forall k :: 0 <= k < i ==> Reachable(mem[..], Root(), vs[k])
      {
        ghost var m1, used1, ts1 := mem[..], frames.pagesUsed[..], tables;
        var v, p := Advance(virtadr, i), Advance(physadr, i);
        assert vs[i] == v;
        LackingOne(m1, Root(), v, vs);
        MapMem(v, p);
        BuiltLacking(m1, mem[..], Root(), ts1, v, vs);
        MappedStep(m, m1, mem[..], Root(), virtadr, i, Range(physadr, i), p, PT_ALL);
        RangeStep(physadr, i);
        ExtendsTwice(m, used, ts, m1, used1, ts1, mem[..], frames.pagesUsed[..], tables);
        BuiltReachable(m1, mem[..], Root(), v, vs, i);
      }
      AllReachable(mem[..], Root(), vs);
      MappedTranslates(m, mem[..], Root(), ts, tables, vs, Range(physadr, pages), PT_ALL);
    }

    /** Backs a range of virtual memory with frames of its own: `pages` are the frames it took. */
    method RequestMappedPages(virtadr: Word, bytes: nat) returns (ghost pages: seq<nat>)
      requires Valid() && bytes <= MAX_BYTES
      requires Needs(Range(virtadr, PageCount(bytes))) + PageCount(bytes) <= Free()
      modifies this`tables, frames, frames.pagesUsed, mem
      ensures Valid() && |pages| == PageCount(bytes)
      ensures Fresh(old(frames.pagesUsed[..]), frames.pagesUsed[..], tables, pages)
      ensures Mapped(old(mem[..]), mem[..], Root(), Range(virtadr, |pages|), Addresses(pages), PT_ALL)
      ensures Translates(old(mem[..]), mem[..], Root(), Range(virtadr, |pages|), Addresses(pages))
      ensures Free() == old(Free()) - |pages| - old(Needs(Range(virtadr, PageCount(bytes))))
      ensures Extends(old(mem[..]), old(frames.pagesUsed[..]), old(tables), mem[..], frames.pagesUsed[..], tables)
    {
      hide Tree, Translates, Mapped, Lacking, Built, Extends, Advance, Fresh, Addresses, Reachable, SlotOf, Opened;
      hide Frames.Inv, Frames.Available, Frames.Request, Frames.RequestedAdr;
      ghost var m, used, ts := mem[..], frames.pagesUsed[..], tables;
      ghost var n := PageCount(bytes);
      ghost var vs := Range(virtadr, n);
      ghost var spare: nat := Free() - n - Needs(vs);
      pages := [];
      NothingRequested(m, used, ts, Root(), virtadr);
      var i := 0;
      while i < bytes
        invariant i == |pages| * PAGE_SIZE && |pages| <= n
        invariant Valid() && Free() == spare + Needs(vs) + (n - |pages|)
        invariant Mapped(m, mem[..], Root(), Range(virtadr, |pages|), Addresses(pages), PT_ALL)
        invariant Extends(m, used, ts, mem[..], frames.pagesUsed[..], tables)
        invariant Fresh(used, frames.pagesUsed[..], tables, pages)
        invariant forall k :: 0 <= k < |pages| ==> Reachable(mem[..], Root(), vs[k])
      {
        ghost var k := |pages|;
        ghost var m1, used1, ts1 := mem[..], frames.pagesUsed[..], tables;
        ghost var s := frames.Model();
        Frames.RequestTakes(s);
        RequestedValue(s);
        ghost var c := Frames.Request(s).1.value;
        TakeFresh(m, used, ts, m1, used1, ts1, pages, c);
        var adr := frames.RequestPage();
        ghost var used2 := frames.pagesUsed[..];
        assert used2 == used1[c := true];
        var v := PointerAdd(virtadr, i);
        assert v == vs[k] by { PointerAdvance(virtadr, k); }
        LackingOne(m1, Root(), v, vs);
        MapMem(v, adr);
        BuiltLacking(m1, mem[..], Root(), ts1, v, vs);
        MappedStep(m, m1, mem[..], Root(), virtadr, k, Addresses(pages), adr, PT_ALL);
        AddressesStep(pages, c);
        KeepFresh(m1, used, used2, ts1, mem[..], frames.pagesUsed[..], tables, pages + [c]);
        ExtendsTwice(m, used, ts, m1, used2, ts1, mem[..], frames.pagesUsed[..], tables);
        BuiltReachable(m1, mem[..], Root(), v, vs, k);
        pages := pages + [c];
        i := i + PAGE_SIZE;
      }
      AllReachable(mem[..], Root(), vs);
      MappedTranslates(m, mem[..], Root(), ts, tables, vs, Addresses(pages), PT_ALL);
    }
  }
}
