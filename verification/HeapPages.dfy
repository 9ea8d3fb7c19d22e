/** The heap in virtual memory: the pages it grows into, and the frames behind them. */
module HeapPages {
  import opened Bits
  import opened HeapSegments
  import opened PageEntry
  import opened PageTables
  import opened Paging
  import opened Wrappers
  import Frames
  import KernelHeap
  import PagingLimits

  /** Beyond this, addresses name pages again. */
  const TOP: nat := 0x1_0000_0000_0000

  /** Page i of the heap translates to frame pages[i]; the frames are in use, hold no page table, and no
      two pages share one. */
  ghost predicate Backed(m: Memory, used: seq<bool>, root: nat, tables: Tables, start: nat, pages: seq<nat>)
    requires |m| == |used|
  {
    && (forall i :: 0 <= i < |pages| ==> BackedAt(m, used, root, tables, start + i * PAGE, pages[i]))
    && (forall i, j :: 0 <= i < j < |pages| ==> pages[i] != pages[j])
  }

  /** The page is there, in that frame, to be read, written and used. */
  ghost predicate Grants(x: Translation, frame: nat) {
    x.Leaf? && Target(x.entry) == frame && x.writable && x.user
  }

  ghost predicate BackedAt(m: Memory, used: seq<bool>, root: nat, tables: Tables, v: nat, frame: nat)
    requires |m| == |used|
  {
    && frame < |used| && used[frame] && frame !in tables
    && Grants(Walk(m, root, 4, v), frame)
  }

  /** Different heap pages are different pages. */
  lemma PagesApart(start: nat, i: nat, j: nat)
    requires start % PAGE == 0 && i < j && start + j * PAGE < TOP
    ensures Page(start + i * PAGE) != Page(start + j * PAGE)
  {
    PageNumber(start, i);
    PageNumber(start, j);
    assert start / PAGE + j < 0x10_0000_0000 by { Divides(start + j * PAGE, PAGE, start / PAGE + j, 0); }
  }

  lemma PageNumber(start: nat, i: nat)
    requires start % PAGE == 0
    ensures Page(start + i * PAGE) == (start / PAGE + i) % 0x10_0000_0000
  {
    Divides(start + i * PAGE, PAGE, start / PAGE + i, 0);
  }

  lemma InRange(end: nat, count: nat, k: nat)
    requires k < count && end + count * PAGE <= TOP
    ensures Range(end, count)[k] == end + k * PAGE
  {
    assert k * PAGE < count * PAGE;
  }

  /** Pages mapped behind the end of the heap leave the pages of the heap where they are. */
  lemma BackedKept(m: Memory, used: seq<bool>, tables: Tables, m': Memory, used': seq<bool>, tables': Tables,
                   root: nat, start: nat, pages: seq<nat>, count: nat, ps: seq<Word>)
    requires |m| == |used| && Backed(m, used, root, tables, start, pages)
    requires Extends(m, used, tables, m', used', tables') && |ps| == count
    requires start % PAGE == 0 && start + (|pages| + count) * PAGE <= TOP
    requires Translates(m, m', root, Range(start + |pages| * PAGE, count), ps)
    ensures Backed(m', used', root, tables', start, pages)
  {
    hide Walk, Page, Target, Range, Translates, BackedAt;
    var vs := Range(start + |pages| * PAGE, count);
    forall i | 0 <= i < |pages| ensures BackedAt(m', used', root, tables', start + i * PAGE, pages[i]) {
      forall k | 0 <= k < count ensures Page(vs[k]) != Page(start + i * PAGE) {
        NewPage(start, |pages|, count, k);
        Below(start, |pages| + k, |pages| + count);
        PagesApart(start, i, |pages| + k);
      }
      StillThere(m, used, tables, m', used', tables', root, vs, ps, start + i * PAGE, pages[i]);
    }
  }

  lemma StillThere(m: Memory, used: seq<bool>, tables: Tables, m': Memory, used': seq<bool>, tables': Tables,
                   root: nat, vs: seq<nat>, ps: seq<Word>, v: nat, frame: nat)
    requires |m| == |used| && BackedAt(m, used, root, tables, v, frame)
    requires Extends(m, used, tables, m', used', tables') && |vs| == |ps| && Translates(m, m', root, vs, ps)
    requires forall k :: 0 <= k < |vs| ==> Page(vs[k]) != Page(v)
    ensures BackedAt(m', used', root, tables', v, frame)
  {
    hide Walk, Page, Target;
  }

  lemma SamePlace(start: nat, n: nat, k: nat)
    ensures start + n * PAGE + k * PAGE == start + (n + k) * PAGE
  {}

  lemma Below(start: nat, j: nat, n: nat)
    requires j < n && start + n * PAGE <= TOP
    ensures start + j * PAGE < TOP
  {}

  /** The new pages are backed by the frames they were given. */
  lemma BackedNew(m: Memory, used: seq<bool>, m': Memory, used': seq<bool>, tables': Tables,
                  root: nat, start: nat, n: nat, fresh': seq<nat>)
    requires |m'| == |used'| == |used| <= MAX_FRAMES && start + (n + |fresh'|) * PAGE <= TOP
    requires Fresh(used, used', tables', fresh')
    requires Translates(m, m', root, Range(start + n * PAGE, |fresh'|), Addresses(fresh'))
    ensures forall k :: 0 <= k < |fresh'| ==> BackedAt(m', used', root, tables', start + (n + k) * PAGE, fresh'[k])
  {
    hide Walk, Target, Range, Addresses;
    forall k | 0 <= k < |fresh'| ensures BackedAt(m', used', root, tables', start + (n + k) * PAGE, fresh'[k]) {
      NewPage(start, n, |fresh'|, k);
      NewFrame(fresh', k);
    }
  }

  lemma NewPage(start: nat, n: nat, count: nat, k: nat)
    requires k < count && start + (n + count) * PAGE <= TOP
    ensures Range(start + n * PAGE, count)[k] == start + (n + k) * PAGE
  {
    hide Range;
    SamePlace(start, n, count);
    InRange(start + n * PAGE, count, k);
    SamePlace(start, n, k);
  }

  lemma NewFrame(frames: seq<nat>, k: nat)
    requires k < |frames| && frames[k] < MAX_FRAMES
    ensures Addresses(frames)[k] / PAGE_SIZE % 0x100_0000_0000 == frames[k]
  {
    FrameNumber(frames[k]);
  }

  lemma FrameNumber(p: nat)
    requires p < MAX_FRAMES
    ensures p * PAGE_SIZE % W64 / PAGE_SIZE % 0x100_0000_0000 == p
  {}

  lemma BackedTogether(m: Memory, used0: seq<bool>, used: seq<bool>, root: nat, tables: Tables, start: nat,
                       pages: seq<nat>, more: seq<nat>)
    requires |m| == |used| == |used0| && Backed(m, used, root, tables, start, pages)
    requires forall k :: 0 <= k < |more| ==> BackedAt(m, used, root, tables, start + (|pages| + k) * PAGE, more[k])
    requires Fresh(used0, used, tables, more)
    requires forall i :: 0 <= i < |pages| ==> pages[i] < |used0| && used0[pages[i]]
    ensures Backed(m, used, root, tables, start, pages + more)
  {
    hide BackedAt;
    var all := pages + more;
    forall i | 0 <= i < |all| ensures BackedAt(m, used, root, tables, start + i * PAGE, all[i]) {
      if i >= |pages| {
        var k := i - |pages|;
        assert all[i] == more[k];
        assert start + i * PAGE == start + (|pages| + k) * PAGE;
      }
    }
  }

  class MappedHeap {
    const heap: KernelHeap.Heap
    const space: AddressSpace
    /** The frames behind the heap, page by page. */
    ghost var pages: seq<nat>

    ghost predicate Valid()
      reads this, heap, space, space.frames, space.frames.pagesUsed, space.mem
    {
      && heap.Valid() && space.Valid()
      && heap.heapStart % PAGE == 0 && heap.heapEnd == heap.heapStart + |pages| * PAGE <= TOP
      && Backed(space.mem[..], space.frames.pagesUsed[..], space.Root(), space.tables, heap.heapStart, pages)
    }

    /** INIT_HEAP: the pages are requested and mapped, and the heap is one free segment. */
    constructor (space: AddressSpace, adr: nat, count: nat)
      requires space.Valid() && 0 < adr && adr % PAGE == 0 && adr + count * PAGE <= TOP
      requires 0 < count && count * PAGE <= MAX_BYTES
      requires space.Needs(Range(adr, count)) + count <= space.Free()
      modifies space`tables, space.frames, space.frames.pagesUsed, space.mem
      ensures Valid() && this.space == space && fresh(heap) && |pages| == count
      ensures heap.heapStart == adr && heap.segs == [Seg(adr, PAGE * count - HEADER, true)]
    {
      hide Tree, Walk, Translates, Mapped, Lacking, Extends, Fresh, Addresses, Backed, Frames.Inv, Frames.Available;
      ghost var m, used, ts := space.mem[..], space.frames.pagesUsed[..], space.tables;
      WholePages(count);
      NothingBacked(m, used, space.Root(), ts, adr);
      ghost var taken := space.RequestMappedPages(adr, PAGE * count);
      BackedGrown(m, used, ts, space.mem[..], space.frames.pagesUsed[..], space.tables, space.Root(), adr, [], taken);
      this.space := space;
      heap := new KernelHeap.Heap(adr, count);
      pages := taken;
      new;
      assert [] + taken == taken;
    }

    /** EXPAND_HEAP: as many whole pages as fit the size are requested and mapped behind the heap, which
        then ends behind them.  What was mapped before stays mapped as it was. */
    method ExpandHeap(size: nat)
      requires Valid() && size < KernelHeap.MAX_SIZE && heap.heapEnd + size / PAGE * PAGE <= TOP
      requires space.Needs(Range(heap.heapEnd, size / PAGE)) + size / PAGE <= space.Free()
      modifies heap`hdrs, heap`heapEnd, heap`segs, this`pages
      modifies space`tables, space.frames, space.frames.pagesUsed, space.mem
      ensures Valid() && heap.segs == Expand(old(heap.segs), size)
      ensures |pages| == old(|pages|) + size / PAGE
      ensures Grew(old(pages), old(space.frames.pagesUsed[..]), pages)
      ensures heap.heapEnd == old(heap.heapEnd) + size / PAGE * PAGE
      ensures KernelHeap.ChangedOnly(old(heap.hdrs), heap.hdrs, KernelHeap.Adrs(heap.segs))
      ensures KernelHeap.Adrs(heap.segs) == KernelHeap.Adrs(old(heap.segs))
      ensures space.Free() == old(space.Free()) - size / PAGE - old(space.Needs(Range(heap.heapEnd, size / PAGE)))
      ensures Extends(old(space.mem[..]), old(space.frames.pagesUsed[..]), old(space.tables),
                      space.mem[..], space.frames.pagesUsed[..], space.tables)
    {
      hide Tree, Walk, Translates, Mapped, Lacking, Extends, Fresh, Addresses, Backed, Frames.Inv, Frames.Available;
      hide WellFormed, Tiles, KernelHeap.Describes;
      ghost var m, used, ts := space.mem[..], space.frames.pagesUsed[..], space.tables;
      ghost var was := pages;
      var count := size / PAGE;
      WholePages(count);
      assert heap.heapStart + (|was| + count) * PAGE <= TOP;
      ghost var taken := space.RequestMappedPages(heap.heapEnd, PAGE * count);
      BackedGrown(m, used, ts, space.mem[..], space.frames.pagesUsed[..], space.tables,
                  space.Root(), heap.heapStart, was, taken);
      FreshWere(used, space.frames.pagesUsed[..], space.tables, taken);
      heap.ExpandHeap(size);
      pages := was + taken;
    }

    /** What kmalloc asks for: some segment fits in the end, and the pages the heap grows by on the way
        have addresses of their own, and frames for themselves and the tables they lack. */
    ghost predicate RoomFor(size: nat)
      requires Valid()
      reads this, heap, space, space.frames, space.frames.pagesUsed, space.mem
    {
      size == 0 || (Try(heap.segs, size, 3).Some? && RoomToGrow(Try(heap.segs, size, 3).value.grown / PAGE))
    }

    ghost predicate RoomToGrow(n: nat)
      reads heap, space, space.frames, space.frames.pagesUsed, space.mem
    {
      heap.heapEnd + n * PAGE <= TOP && space.Needs(Range(heap.heapEnd, n)) + n <= space.Free()
    }

    /** kmalloc, growing through mapped pages as often as it takes.  The block is new, and each of its
        bytes is there; what was mapped before stays mapped as it was. */
    method Kmalloc(size: nat) returns (adr: nat)
      requires Valid() && size < KernelHeap.MAX_SIZE && RoomFor(size)
      modifies heap`hdrs, heap`heapEnd, heap`lastHdr, heap`segs, this`pages
      modifies space`tables, space.frames, space.frames.pagesUsed, space.mem
      ensures Valid() && Grew(old(pages), old(space.frames.pagesUsed[..]), pages)
      ensures size == 0 ==> adr == 0 && heap.segs == old(heap.segs) && pages == old(pages)
      ensures size > 0 ==> var p := Try(old(heap.segs), size, 3).value;
                           heap.segs == p.segs && adr == p.adr && heap.heapEnd == old(heap.heapEnd) + p.grown
      ensures size > 0 ==> (adr, size) !in Live(old(heap.segs))
                           && Live(heap.segs) == Live(old(heap.segs)) + {(adr, size)}
      ensures forall a :: adr <= a < adr + size ==> ByteBacked(a)
      ensures KernelHeap.ChangedOnly(old(heap.hdrs), heap.hdrs, KernelHeap.Adrs(heap.segs))
      ensures KernelHeap.Adrs(old(heap.segs)) <= KernelHeap.Adrs(heap.segs)
      ensures KernelHeap.Respects(old(heap.hdrs), heap.hdrs, Live(heap.segs))
      ensures Extends(old(space.mem[..]), old(space.frames.pagesUsed[..]), old(space.tables),
                      space.mem[..], space.frames.pagesUsed[..], space.tables)
      decreases var last := heap.segs[|heap.segs| - 1].len;
                if last > size + HEADER then 0 else size + HEADER + 1 - last
    {
      assert heap.segs != [];
      hide Tree, Walk, Translates, Lacking, Extends, Range, Backed, Frames.Inv, RoomFor, Valid, ByteBacked, Grew;
      hide Grants, Target, Place, KernelHeap.Heap.Linked, KernelHeap.Heap.Valid, Fits;
      hide Frames.Available, WellFormed, Tiles, Live, Try, Expand, FirstFit;
      hide KernelHeap.Describes, KernelHeap.ChangedOnly, KernelHeap.Adrs, KernelHeap.Respects;
      ghost var m, used, ts := space.mem[..], space.frames.pagesUsed[..], space.tables;
      ghost var segs, was, hdrs := heap.segs, pages, heap.hdrs;
      if size == 0 {
        Nothing(m, used, ts, was);
        KernelHeap.ChangedNothing(hdrs, KernelHeap.Adrs(segs));
        HeadersRespect(hdrs);
        return 0;
      }
      var found, cur, k := heap.FindFit(size);
      if found {
        Nothing(m, used, ts, was);
        adr := PlaceAt(cur, size, k);
        return;
      }
      TryLive(size);
      Nearer(size);
      GrowFor(size);
      ghost var m1, used1, ts1 := space.mem[..], space.frames.pagesUsed[..], space.tables;
      ghost var pages1, h1 := pages, heap.hdrs;
      adr := Kmalloc(size);
      ExtendsTwice(m, used, ts, m1, used1, ts1, space.mem[..], space.frames.pagesUsed[..], space.tables);
      GrewTwice(m, used, ts, m1, used1, ts1, was, pages1, pages);
      KernelHeap.ChangedThen(hdrs, h1, heap.hdrs, KernelHeap.Adrs(segs), KernelHeap.Adrs(heap.segs));
      HeadersRespect(hdrs);
    }

    lemma Nearer(size: nat)
      requires Valid() && 0 < size && RoomFor(size) && FirstFit(heap.segs, size, 0).None?
      ensures var segs' := Expand(heap.segs, size);
              && segs' != [] && Try(segs', size, 3).Some?
              && var p, p' := Try(heap.segs, size, 3).value, Try(segs', size, 3).value;
              && p.segs == p'.segs && p.adr == p'.adr && p.grown == p'.grown + size / PAGE * PAGE
              && heap.segs[|heap.segs| - 1].len < segs'[|segs'| - 1].len
              && heap.segs[|heap.segs| - 1].len <= size + HEADER
    {
      assert heap.segs != [];
      hide Try, Expand, FirstFit, RoomToGrow, Tree, Backed, Frames.Inv, KernelHeap.Describes, WellFormed, Tiles;
      Retrying(heap.segs, heap.heapStart, heap.heapEnd, size);
    }

    lemma TryLive(size: nat)
      requires Valid() && size > 0 && Try(heap.segs, size, 3).Some?
      ensures var p := Try(heap.segs, size, 3).value;
              (p.adr, size) !in Live(heap.segs) && Live(p.segs) == Live(heap.segs) + {(p.adr, size)}
    {
      TryKeeps(heap.segs, heap.heapStart, heap.heapEnd, size, 3);
    }

    lemma HeadersRespect(hdrs: KernelHeap.Headers)
      requires Valid() && KernelHeap.ChangedOnly(hdrs, heap.hdrs, KernelHeap.Adrs(heap.segs))
      ensures KernelHeap.Respects(hdrs, heap.hdrs, Live(heap.segs))
    {
      KernelHeap.HeaderWrites(hdrs, heap.hdrs, heap.segs, heap.heapStart, heap.heapEnd);
    }

    /** One round of retrying: the room asked for is still there after the heap has grown. */
    method GrowFor(size: nat)
      requires Valid() && 0 < size < KernelHeap.MAX_SIZE && RoomFor(size) && FirstFit(heap.segs, size, 0).None?
      modifies heap`hdrs, heap`heapEnd, heap`segs, this`pages
      modifies space`tables, space.frames, space.frames.pagesUsed, space.mem
      ensures Valid() && RoomFor(size) && heap.segs == Expand(old(heap.segs), size)
      ensures heap.heapEnd == old(heap.heapEnd) + size / PAGE * PAGE
      ensures Grew(old(pages), old(space.frames.pagesUsed[..]), pages)
      ensures KernelHeap.ChangedOnly(old(heap.hdrs), heap.hdrs, KernelHeap.Adrs(heap.segs))
      ensures KernelHeap.Adrs(heap.segs) == KernelHeap.Adrs(old(heap.segs))
      ensures Extends(old(space.mem[..]), old(space.frames.pagesUsed[..]), old(space.tables),
                      space.mem[..], space.frames.pagesUsed[..], space.tables)
    {
      hide Tree, Walk, Lacking, Extends, Range, Frames.Inv, Backed, Grew, RoomFor;
      hide Frames.Available, WellFormed, Tiles, Live, Try, Expand, FirstFit;
      hide KernelHeap.Describes, KernelHeap.ChangedOnly, KernelHeap.Adrs;
      ghost var m, used, ts := space.mem[..], space.frames.pagesUsed[..], space.tables;
      ghost var n, q := |pages|, size / PAGE;
      ghost var more := RoomSplit(size);
      ExpandHeap(size);
      RoomAfter(m, used, ts, space.mem[..], space.frames.pagesUsed[..], space.tables, space.Root(),
                heap.heapStart, pages, n, q, more);
      RoomNow(size, more);
    }

    lemma RoomSplit(size: nat) returns (more: nat)
      requires Valid() && 0 < size && RoomFor(size) && FirstFit(heap.segs, size, 0).None?
      ensures RoomToGrow(size / PAGE) && RoomToGrow(size / PAGE + more)
      ensures var segs' := Expand(heap.segs, size);
              segs' != [] && Try(segs', size, 3).Some? && Try(segs', size, 3).value.grown / PAGE == more
    {
      hide Tree, Backed, Frames.Inv, KernelHeap.Describes, Try, Expand, FirstFit, Range, Lacking, Frames.Available;
      Retrying(heap.segs, heap.heapStart, heap.heapEnd, size);
      more := Try(Expand(heap.segs, size), size, 3).value.grown / PAGE;
      RoomFirst(space.mem[..], space.Root(), heap.heapEnd, size / PAGE, more);
    }

    lemma RoomNow(size: nat, more: nat)
      requires Valid() && RoomToGrow(more)
      requires Try(heap.segs, size, 3).Some? && Try(heap.segs, size, 3).value.grown / PAGE == more
      ensures RoomFor(size)
    {}

    /** kmalloc's success branch. */
    method PlaceAt(cur: nat, size: nat, ghost k: nat) returns (adr: nat)
      requires Valid() && 0 < size && FirstFit(heap.segs, size, 0) == Some(k) && cur == heap.segs[k].adr
      modifies heap`hdrs, heap`lastHdr, heap`segs
      ensures Valid()
      ensures Try(old(heap.segs), size, 3) == Some(Placement(heap.segs, adr, 0))
      ensures (adr, size) !in Live(old(heap.segs)) && Live(heap.segs) == Live(old(heap.segs)) + {(adr, size)}
      ensures forall a :: adr <= a < adr + size ==> ByteBacked(a)
      ensures KernelHeap.ChangedOnly(old(heap.hdrs), heap.hdrs, KernelHeap.Adrs(heap.segs))
      ensures KernelHeap.Adrs(old(heap.segs)) <= KernelHeap.Adrs(heap.segs)
      ensures KernelHeap.Respects(old(heap.hdrs), heap.hdrs, Live(heap.segs))
    {
      hide Tree, Backed, Frames.Inv, Frames.Available, WellFormed, Tiles, Live, Try, FirstFit, ByteBacked;
      hide KernelHeap.Describes, KernelHeap.ChangedOnly, KernelHeap.Adrs, KernelHeap.Respects, Place;
      ghost var hdrs := heap.hdrs;
      Fitting(heap.segs, size);
      TryLive(size);
      adr := heap.PlaceAt(cur, size, k);
      HeadersRespect(hdrs);
      BlockBacked(adr, size);
    }

    /** A block of the heap is backed, byte by byte. */
    lemma BlockBacked(adr: nat, size: nat)
      requires Valid() && (adr, size) in Live(heap.segs)
      ensures forall a :: adr <= a < adr + size ==> ByteBacked(a)
    {
      hide Walk, Target, Backed, KernelHeap.Describes, Live, Coalesced;
      forall a | adr <= a < adr + size
        ensures ByteBacked(a)
      {
        InHeap(heap.segs, heap.heapStart, heap.heapEnd, (adr, size), a);
        BlocksBacked(space.mem[..], space.frames.pagesUsed[..], space.Root(), space.tables,
                     heap.segs, heap.heapStart, heap.heapEnd, pages, (adr, size), a);
      }
    }

    /** Address a translates to the frame behind its heap page, and that is in use. */
    ghost predicate ByteBacked(a: nat)
      reads this, heap, space, space.frames, space.frames.pagesUsed, space.mem
    {
      heap.heapStart <= a &&
      var i, t := (a - heap.heapStart) / PAGE, space.Translate(a);
      && i < |pages| && pages[i] < space.frames.pagesUsed.Length && space.frames.pagesUsed[pages[i]]
      && Grants(t, pages[i])
    }
  }

  /** The pages of the heap stay where they are, and new ones get frames that were free. */
  ghost predicate Grew(was: seq<nat>, used: seq<bool>, pages: seq<nat>) {
    && was <= pages
    && forall i :: |was| <= i < |pages| ==> pages[i] < |used| && !used[pages[i]]
  }

  lemma Nothing(m: Memory, used: seq<bool>, tables: Tables, pages: seq<nat>)
    requires |m| == |used|
    ensures Extends(m, used, tables, m, used, tables) && Grew(pages, used, pages)
  {}

  lemma GrewTwice(m: Memory, used: seq<bool>, tables: Tables, m': Memory, used': seq<bool>, tables': Tables,
                  p: seq<nat>, p': seq<nat>, p'': seq<nat>)
    requires Extends(m, used, tables, m', used', tables') && Grew(p, used, p') && Grew(p', used', p'')
    ensures Grew(p, used, p'')
  {}

  lemma Fitting(segs: Segs, n: nat)
    requires segs != [] && FirstFit(segs, n, 0).Some?
    ensures var k := FirstFit(segs, n, 0).value;
            && Fits(segs[k], n) && Try(segs, n, 3) == Some(Placement(Place(segs, k, n), segs[k].Payload(), 0))
  {}

  /** One retry of kmalloc: what it then grows by, and that the last segment is nearer to a fit. */
  lemma Retrying(segs: Segs, start: nat, end: nat, n: nat)
    requires WellFormed(segs, start, end) && Try(segs, n, 3).Some? && FirstFit(segs, n, 0).None?
    ensures var segs' := Expand(segs, n);
            && segs' != [] && Try(segs', n, 3).Some?
            && var p, p' := Try(segs, n, 3).value, Try(segs', n, 3).value;
            && p.segs == p'.segs && p.adr == p'.adr && p.grown == p'.grown + n / PAGE * PAGE
            && p.grown / PAGE == n / PAGE + p'.grown / PAGE
            && segs[|segs| - 1].len < segs'[|segs'| - 1].len && segs[|segs| - 1].len <= n + HEADER
  {
    TryEnds(segs, start, end, n, 3);
    KernelHeap.RetryFits(segs, start, end, n);
    Grows(segs, n);
    assert !Fits(segs[|segs| - 1], n);
    hide Try, FirstFit, Expand;
    var g := Try(Expand(segs, n), n, 3).value.grown;
    Divides(g + n / PAGE * PAGE, PAGE, n / PAGE + g / PAGE, g % PAGE);
  }

  lemma RangeSplit(end: nat, q: nat, n: nat)
    ensures Range(end, q + n) == Range(end, q) + Range(end + q * PAGE, n)
  {
    var mid := end + q * PAGE;
    forall i | 0 <= i < n
      ensures Advance(mid, i) == Advance(end, q + i)
    {
      SamePlace(end, q, i);
    }
  }

  /** The last q pages of the heap are there. */
  lemma NewPagesFound(m: Memory, used: seq<bool>, root: nat, tables: Tables, start: nat, pages: seq<nat>, n: nat,
                      q: nat)
    requires |m| == |used| && Backed(m, used, root, tables, start, pages) && |pages| == n + q
    requires start + (n + q) * PAGE <= TOP
    ensures var vs := Range(start + n * PAGE, q); forall i :: 0 <= i < |vs| ==> Walk(m, root, 4, vs[i]).Leaf?
  {
    hide Walk, Target;
    var vs := Range(start + n * PAGE, q);
    forall i | 0 <= i < q
      ensures Walk(m, root, 4, vs[i]).Leaf?
    {
      NewPage(start, n, q, i);
      assert BackedAt(m, used, root, tables, start + (n + i) * PAGE, pages[n + i]);
    }
  }

  lemma RoomFirst(m: Memory, root: nat, end: nat, q: nat, more: nat)
    ensures |Lacking(m, root, Range(end, q))| <= |Lacking(m, root, Range(end, q + more))|
  {
    hide Lacking, Range;
    RangeSplit(end, q, more);
    PagingLimits.FirstLacks(m, root, Range(end, q), Range(end + q * PAGE, more));
  }

  /** Once q more pages are mapped, the pages behind them need none of the tables that those needed. */
  lemma RoomAfter(m: Memory, used: seq<bool>, tables: Tables, m': Memory, used': seq<bool>, tables': Tables,
                  root: nat, start: nat, pages: seq<nat>, n: nat, q: nat, more: nat)
    requires Tree(m, root, tables) && Tree(m', root, tables') && Extends(m, used, tables, m', used', tables')
    requires |m'| == |used'| && Backed(m', used', root, tables', start, pages) && |pages| == n + q
    requires start + (n + q) * PAGE <= TOP
    ensures var end := start + n * PAGE;
            |Lacking(m', root, Range(end + q * PAGE, more))| + |Lacking(m, root, Range(end, q))|
            <= |Lacking(m, root, Range(end, q + more))|
  {
    hide Tree, Walk, Lacking, Range, Backed, Extends;
    var end := start + n * PAGE;
    RangeSplit(end, q, more);
    NewPagesFound(m', used', root, tables', start, pages, n, q);
    PagingLimits.RestLacks(m, used, tables, m', used', tables', root, Range(end, q), Range(end + q * PAGE, more));
  }

  lemma WholePages(count: nat)
    ensures PageCount(PAGE * count) == count
  {
    Divides(PAGE * count + (PAGE - 1), PAGE, count, PAGE - 1);
  }

  lemma NothingBacked(m: Memory, used: seq<bool>, root: nat, tables: Tables, start: nat)
    requires |m| == |used|
    ensures Backed(m, used, root, tables, start, [])
  {}

  lemma FreshWere(used: seq<bool>, used': seq<bool>, tables: Tables, pages: seq<nat>)
    requires |used| == |used'| && Fresh(used, used', tables, pages)
    ensures forall i :: 0 <= i < |pages| ==> pages[i] < |used| && !used[pages[i]]
  {}

  /** A heap that grew by the pages taken is backed by the frames it had and the new ones. */
  lemma BackedGrown(m: Memory, used: seq<bool>, tables: Tables, m': Memory, used': seq<bool>, tables': Tables,
                    root: nat, start: nat, pages: seq<nat>, taken: seq<nat>)
    requires |m| == |used| <= MAX_FRAMES && Backed(m, used, root, tables, start, pages)
    requires Extends(m, used, tables, m', used', tables') && Fresh(used, used', tables', taken)
    requires start % PAGE == 0 && start + (|pages| + |taken|) * PAGE <= TOP
    requires Translates(m, m', root, Range(start + |pages| * PAGE, |taken|), Addresses(taken))
    ensures |m'| == |used'| && Backed(m', used', root, tables', start, pages + taken)
  {
    hide Walk, Translates, Fresh;
    BackedKept(m, used, tables, m', used', tables', root, start, pages, |taken|, Addresses(taken));
    BackedNew(m, used, m', used', tables', root, start, |pages|, taken);
    BackedTogether(m', used, used', root, tables', start, pages, taken);
  }

  /** The offsets depend on the page alone. */
  lemma SameOffset(v: nat, w: nat, k: nat)
    requires v / 0x1000 == w / 0x1000 && 1 <= k <= 4
    ensures Offset(v, k) == Offset(w, k)
  {
    DivTwice(v, 0x1000);
    DivTwice(w, 0x1000);
    DivTwice(v, 0x20_0000);
    DivTwice(w, 0x20_0000);
    DivTwice(v, 0x4000_0000);
    DivTwice(w, 0x4000_0000);
  }

  lemma {:induction false} SameWalk(m: Memory, t: nat, k: nat, v: nat, w: nat)
    requires v / 0x1000 == w / 0x1000 && 1 <= k <= 4
    ensures Walk(m, t, k, v) == Walk(m, t, k, w)
    decreases k
  {
    hide Offset, Target, Present, Writable, User, LargePage;
    SameOffset(v, w, k);
    if k > 1 && t < |m| { SameWalk(m, Target(m[t][Offset(v, k)]), k - 1, v, w); }
  }

  /** Every byte of every block is there: its address translates to the frame behind its heap page. */
  lemma BlocksBacked(m: Memory, used: seq<bool>, root: nat, tables: Tables, segs: Segs, start: nat, end: nat,
                     pages: seq<nat>, b: (nat, nat), a: nat)
    requires |m| == |used| && Backed(m, used, root, tables, start, pages)
    requires start % PAGE == 0 && Tiles(segs, start, end) && end == start + |pages| * PAGE
    requires b in Live(segs) && b.0 <= a < b.0 + b.1
    ensures var i := (a - start) / PAGE;
            && 0 <= i < |pages| && pages[i] < |used| && used[pages[i]]
            && Grants(Walk(m, root, 4, a), pages[i])
  {
    hide Walk, Target;
    InHeap(segs, start, end, b, a);
    var i := (a - start) / PAGE;
    PageOf(start, a);
    assert BackedAt(m, used, root, tables, start + i * PAGE, pages[i]);
    SameWalk(m, root, 4, a, start + i * PAGE);
  }

  lemma InHeap(segs: Segs, start: nat, end: nat, b: (nat, nat), a: nat)
    requires Tiles(segs, start, end) && b in Live(segs) && b.0 <= a < b.0 + b.1
    ensures start <= a < end
  {
    var k :| 0 <= k < |segs| && !segs[k].free && b == (segs[k].Payload(), segs[k].len);
    BlocksDisjoint(segs, start, end, k, k);
  }

  lemma PageOf(start: nat, a: nat)
    requires start % PAGE == 0 && start <= a
    ensures a / PAGE == (start + (a - start) / PAGE * PAGE) / PAGE
  {
    var i := (a - start) / PAGE;
    Divides(start + i * PAGE, PAGE, start / PAGE + i, 0);
    Divides(a, PAGE, start / PAGE + i, (a - start) % PAGE);
  }
}
