/** The kernel heap as memory.c keeps it: headers linked in both directions at the addresses of the
    segments they describe. */
module KernelHeap {
  import opened Wrappers
  import opened HeapSegments

  /** HEAP_SEG_HEADER; address 0 is NULL. */
  datatype Header = Header(prev: nat, next: nat, len: nat, free: bool)

  type Headers = map<nat, Header>

  /** Payload bytes by address. */
  type Bytes = map<nat, bv8>

  function At(bytes: Bytes, a: nat): bv8 {
    if a in bytes then bytes[a] else 0
  }

  /** kmalloc's size limit: the growth loop counts pages with a 32-bit int and multiplies by 0x1000. */
  const MAX_SIZE: nat := 0x8000_0000

  /** The linked headers describe exactly these segments. */
  ghost predicate Describes(hdrs: Headers, segs: Segs) {
    forall i :: 0 <= i < |segs| ==> HeaderOk(hdrs, segs, i)
  }

  ghost predicate HeaderOk(hdrs: Headers, segs: Segs, i: nat)
    requires i < |segs|
  {
    && segs[i].adr in hdrs
    && hdrs[segs[i].adr] == Header(
         if i == 0 then 0 else segs[i - 1].adr,
         if i + 1 == |segs| then 0 else segs[i + 1].adr,
         segs[i].len,
         segs[i].free)
  }

  type Blocks = set<(nat, nat)>

  /** A header stored at adr would overlap the block. */
  predicate Overlaps(adr: nat, block: (nat, nat)) {
    adr < block.0 + block.1 && block.0 < adr + HEADER
  }

  ghost predicate SameAt(hdrs: Headers, hdrs': Headers, a: nat) {
    (a in hdrs' <==> a in hdrs) && (a in hdrs ==> hdrs'[a] == hdrs[a])
  }

  /** No header inside, or partly inside, one of the blocks was written. */
  ghost predicate Respects(hdrs: Headers, hdrs': Headers, blocks: Blocks) {
    forall b, a :: b in blocks && Overlaps(a, b) ==> SameAt(hdrs, hdrs', a)
  }

  /** What the owners of the blocks may do to memory: anything inside them. */
  ghost predicate ClientWrites(hdrs: Headers, hdrs': Headers, blocks: Blocks) {
    forall a :: (forall b :: b in blocks ==> !Overlaps(a, b)) ==> SameAt(hdrs, hdrs', a)
  }

  lemma HeaderOutsideBlocks(segs: Segs, start: nat, end: nat, j: nat, b: (nat, nat))
    requires Tiles(segs, start, end) && j < |segs| && b in Live(segs)
    ensures !Overlaps(segs[j].adr, b)
  {
    var i :| 0 <= i < |segs| && !segs[i].free && b == (segs[i].Payload(), segs[i].len);
    BlocksDisjoint(segs, start, end, i, j);
  }

  lemma HeadersOutside(segs: Segs, start: nat, end: nat, b: (nat, nat))
    requires WellFormed(segs, start, end) && b in Live(segs)
    ensures forall a :: a in Adrs(segs) ==> !Overlaps(a, b)
  {
    hide Tiles, Live, Overlaps;
    forall a | a in Adrs(segs) ensures !Overlaps(a, b) {
      var j :| 0 <= j < |segs| && segs[j].adr == a;
      HeaderOutsideBlocks(segs, start, end, j, b);
    }
  }

  lemma RespectsTwice(h0: Headers, h1: Headers, h2: Headers, blocks: Blocks, kept: Blocks)
    requires Respects(h0, h1, blocks) && Respects(h1, h2, blocks) && kept <= blocks
    ensures Respects(h0, h2, kept)
  {
    hide Overlaps;
  }

  /** Writing inside blocks in use never damages the list. */
  lemma ClientWritesHarmless(hdrs: Headers, hdrs': Headers, segs: Segs, start: nat, end: nat)
    requires Tiles(segs, start, end) && Describes(hdrs, segs) && ClientWrites(hdrs, hdrs', Live(segs))
    ensures Describes(hdrs', segs)
  {
    hide Tiles, Overlaps, Live;
    forall j | 0 <= j < |segs|
      ensures HeaderOk(hdrs', segs, j)
    {
      assert HeaderOk(hdrs, segs, j);
      forall b | b in Live(segs)
        ensures !Overlaps(segs[j].adr, b)
      {
        HeaderOutsideBlocks(segs, start, end, j, b);
      }
      assert SameAt(hdrs, hdrs', segs[j].adr);
    }
  }

  lemma Distinct(segs: Segs, start: nat, end: nat, i: nat, j: nat)
    requires Tiles(segs, start, end) && i < |segs| && j < |segs| && i != j
    ensures segs[i].adr != segs[j].adr
  {
    if i < j { Ordered(segs, start, end, i, j); } else { Ordered(segs, start, end, j, i); }
  }

  // ----- the header updates, and the segment lists they amount to

  function SplitHeaders(hdrs: Headers, seg: nat, length: nat): Headers
    requires seg in hdrs && hdrs[seg].len >= length + HEADER
    requires hdrs[seg].next == 0 || hdrs[seg].next in hdrs
  {
    var nHdr, next := seg + HEADER + length, hdrs[seg].next;
    var h := hdrs[nHdr := Header(seg, next, hdrs[seg].len - length - HEADER, true)]
                 [seg := hdrs[seg].(next := nHdr, len := length)];
    if next != 0 then h[next := h[next].(prev := nHdr)] else h
  }

  lemma SplitDescribes(hdrs: Headers, segs: Segs, start: nat, end: nat, k: nat, length: nat)
    requires 0 < start && Tiles(segs, start, end) && Describes(hdrs, segs)
    requires k < |segs| && segs[k].len >= length + HEADER
    ensures var seg := segs[k].adr;
            && seg in hdrs && hdrs[seg].len == segs[k].len && (hdrs[seg].next == 0 || hdrs[seg].next in hdrs)
            && Describes(SplitHeaders(hdrs, seg, length), Split(segs, k, length))
  {
    hide Tiles;
    assert HeaderOk(hdrs, segs, k);
    if k + 1 < |segs| {
      assert HeaderOk(hdrs, segs, k + 1);
      NextStart(segs, start, end, k);
      Positive(segs, start, end, k + 1);
    }
    var segs', hdrs' := Split(segs, k, length), SplitHeaders(hdrs, segs[k].adr, length);
    forall j | 0 <= j < |segs'|
      ensures HeaderOk(hdrs', segs', j)
    {
      if j < k {
        assert HeaderOk(hdrs, segs, j);
        OtherHeader(segs, start, end, j, k);
      } else if j > k + 1 {
        assert HeaderOk(hdrs, segs, j - 1);
        OtherHeader(segs, start, end, j - 1, k);
      }
    }
  }

  lemma NextStart(segs: Segs, start: nat, end: nat, k: nat)
    requires Tiles(segs, start, end) && k + 1 < |segs|
    ensures segs[k + 1].adr == segs[k].End()
  {}

  lemma Positive(segs: Segs, start: nat, end: nat, k: nat)
    requires 0 < start && Tiles(segs, start, end) && k < |segs|
    ensures segs[k].adr > 0
  {
    Within(segs, start, end, k);
  }

  /** A header other than k lies outside segment k. */
  lemma OtherHeader(segs: Segs, start: nat, end: nat, j: nat, k: nat)
    requires Tiles(segs, start, end) && j < |segs| && k < |segs| && j != k
    ensures segs[j].adr + HEADER <= segs[k].adr || segs[k].End() <= segs[j].adr
    ensures k + 1 < |segs| && j != k + 1 ==> segs[j].adr != segs[k + 1].adr
  {
    if j < k { Ordered(segs, start, end, j, k); } else { Ordered(segs, start, end, k, j); }
    if k + 1 < |segs| && j != k + 1 { Distinct(segs, start, end, j, k + 1); }
  }

  function JoinHeaders(hdrs: Headers, seg: nat): Headers
    requires seg in hdrs && hdrs[seg].next in hdrs
    requires hdrs[hdrs[seg].next].next == 0 || hdrs[hdrs[seg].next].next in hdrs
  {
    var nHdr := hdrs[seg].next;
    var after := hdrs[nHdr].next;
    var h := if after != 0 then hdrs[after := hdrs[after].(prev := seg)] else hdrs;
    h[seg := h[seg].(next := h[nHdr].next, len := h[seg].len + h[nHdr].len + HEADER)]
  }

  lemma JoinDescribes(hdrs: Headers, segs: Segs, start: nat, end: nat, k: nat)
    requires 0 < start && Tiles(segs, start, end) && Describes(hdrs, segs) && k + 1 < |segs|
    ensures var seg := segs[k].adr;
            && seg in hdrs && hdrs[seg].next == segs[k + 1].adr && hdrs[seg].next in hdrs
            && (hdrs[hdrs[seg].next].next == 0 || hdrs[hdrs[seg].next].next in hdrs)
            && (hdrs[hdrs[seg].next].next == 0 <==> k + 2 == |segs|)
            && Describes(JoinHeaders(hdrs, seg), Join(segs, k))
  {
    hide Tiles;
    assert HeaderOk(hdrs, segs, k) && HeaderOk(hdrs, segs, k + 1);
    Positive(segs, start, end, k + 1);
    Distinct(segs, start, end, k, k + 1);
    if k + 2 < |segs| {
      assert HeaderOk(hdrs, segs, k + 2);
      Positive(segs, start, end, k + 2);
      Distinct(segs, start, end, k, k + 2);
      Distinct(segs, start, end, k + 1, k + 2);
    }
    var segs', hdrs' := Join(segs, k), JoinHeaders(hdrs, segs[k].adr);
    forall j | 0 <= j < |segs'|
      ensures HeaderOk(hdrs', segs', j)
    {
      if j < k {
        assert HeaderOk(hdrs, segs, j);
        OtherHeader(segs, start, end, j, k);
        OtherHeader(segs, start, end, j, k + 1);
      } else if j > k {
        assert HeaderOk(hdrs, segs, j + 1);
        OtherHeader(segs, start, end, j + 1, k);
        OtherHeader(segs, start, end, j + 1, k + 1);
      }
    }
  }

  /** Only the headers at these addresses changed. */
  ghost predicate ChangedOnly(hdrs: Headers, hdrs': Headers, adrs: set<nat>) {
    forall a :: a !in adrs ==> SameAt(hdrs, hdrs', a)
  }

  /** The addresses of the list's headers. */
  ghost function Adrs(segs: Segs): set<nat> {
    set i | 0 <= i < |segs| :: segs[i].adr
  }

  /** Headers of the list may be written without touching any block. */
  lemma HeaderWrites(hdrs: Headers, hdrs': Headers, segs: Segs, start: nat, end: nat)
    requires Tiles(segs, start, end) && ChangedOnly(hdrs, hdrs', Adrs(segs))
    ensures Respects(hdrs, hdrs', Live(segs))
  {
    hide Tiles, Live, Overlaps;
    forall b, a | b in Live(segs) && Overlaps(a, b)
      ensures SameAt(hdrs, hdrs', a)
    {
      if a in Adrs(segs) {
        var j :| 0 <= j < |segs| && segs[j].adr == a;
        HeaderOutsideBlocks(segs, start, end, j, b);
      }
    }
  }

  lemma ChangedWider(hdrs: Headers, hdrs': Headers, a: set<nat>, b: set<nat>)
    requires ChangedOnly(hdrs, hdrs', a) && a <= b
    ensures ChangedOnly(hdrs, hdrs', b)
  {}

  lemma JoinAdrs(segs: Segs, k: nat)
    requires k + 1 < |segs|
    ensures Adrs(Join(segs, k)) <= Adrs(segs)
  {
    var segs' := Join(segs, k);
    forall x | x in Adrs(segs')
      ensures x in Adrs(segs)
    {
      var i :| 0 <= i < |segs'| && segs'[i].adr == x;
      assert segs[if i <= k then i else i + 1].adr == x;
    }
  }

  lemma ChangedThen(h0: Headers, h1: Headers, h2: Headers, a: set<nat>, b: set<nat>)
    requires ChangedOnly(h0, h1, a) && ChangedOnly(h1, h2, b) && a <= b
    ensures ChangedOnly(h0, h2, b)
  {}

  /** The effect of a split on list and headers, in one step. */
  lemma SplitEffect(hdrs: Headers, segs: Segs, start: nat, end: nat, k: nat, length: nat)
    requires 0 < start && Tiles(segs, start, end) && Describes(hdrs, segs)
    requires k < |segs| && segs[k].len >= length + HEADER
    ensures var seg := segs[k].adr;
            && seg in hdrs && hdrs[seg].len == segs[k].len && (hdrs[seg].next == 0 || hdrs[seg].next in hdrs)
            && Tiles(Split(segs, k, length), start, end)
            && Describes(SplitHeaders(hdrs, seg, length), Split(segs, k, length))
            && ChangedOnly(hdrs, SplitHeaders(hdrs, seg, length), Adrs(Split(segs, k, length)))
  {
    hide Tiles, Describes;
    var seg, segs' := segs[k].adr, Split(segs, k, length);
    SplitDescribes(hdrs, segs, start, end, k, length);
    SplitTiles(segs, start, end, k, length);
    assert segs'[k].adr == seg && segs'[k + 1].adr == seg + HEADER + length;
    if k + 1 < |segs| { assert segs'[k + 2] == segs[k + 1]; }
    NextHeader(hdrs, segs, k);
  }

  lemma SplitAdrs(segs: Segs, k: nat, n: nat)
    requires k < |segs| && segs[k].len >= n + HEADER
    ensures Adrs(segs) <= Adrs(Split(segs, k, n))
  {
    var segs' := Split(segs, k, n);
    forall x | x in Adrs(segs)
      ensures x in Adrs(segs')
    {
      var i :| 0 <= i < |segs| && segs[i].adr == x;
      assert segs'[if i <= k then i else i + 1].adr == x;
    }
  }

  /** After an expansion the retry succeeds with less fuel, and so does the whole. */
  lemma RetryFits(segs: Segs, start: nat, end: nat, size: nat)
    requires WellFormed(segs, start, end) && FirstFit(segs, size, 0).None? && size >= PAGE
    ensures var p := Try(Expand(segs, size), size, 3);
            && p.Some? && Try(segs, size, 3) == Some(p.value.(grown := p.value.grown + size / PAGE * PAGE))
  {
    TryEnds(segs, start, end, size, 3);
    TryMonotone(Expand(segs, size), size, 2);
  }

  /** What following the links of segment k finds. */
  lemma Follow(hdrs: Headers, segs: Segs, start: nat, end: nat, k: nat)
    requires 0 < start && Tiles(segs, start, end) && Describes(hdrs, segs) && k < |segs|
    ensures var h := segs[k].adr;
            && h in hdrs
            && (hdrs[h].next != 0 <==> k + 1 < |segs|)
            && (k + 1 < |segs| ==> hdrs[h].next == segs[k + 1].adr && hdrs[h].next in hdrs
                                   && hdrs[hdrs[h].next].free == segs[k + 1].free)
            && (hdrs[h].prev != 0 <==> k > 0)
            && (k > 0 ==> hdrs[h].prev == segs[k - 1].adr && hdrs[h].prev in hdrs
                          && hdrs[hdrs[h].prev].free == segs[k - 1].free)
  {
    hide Tiles;
    NextHeader(hdrs, segs, k);
    if k + 1 < |segs| { NextHeader(hdrs, segs, k + 1); Positive(segs, start, end, k + 1); }
    if k > 0 { NextHeader(hdrs, segs, k - 1); Positive(segs, start, end, k - 1); }
  }

  ghost function BlockAt(segs: Segs, adr: nat): (k: nat)
    requires exists n :: (adr, n) in Live(segs)
    ensures IsBlock(segs, k, adr)
  {
    var k: nat :| k < |segs| && !segs[k].free && segs[k].Payload() == adr;
    k
  }

  lemma FreeTiles(segs: Segs, start: nat, end: nat, k: nat)
    requires Tiles(segs, start, end) && k < |segs|
    ensures Tiles(SetFree(segs, k, true), start, end)
  {}

  lemma BlockIn(segs: Segs, k: nat)
    requires k < |segs| && !segs[k].free
    ensures (segs[k].Payload(), segs[k].len) in Live(segs)
  {}

  /** Any two blocks in use are the same or do not overlap. */
  lemma LiveApart(segs: Segs, start: nat, end: nat)
    requires Tiles(segs, start, end)
    ensures forall b, c :: b in Live(segs) && c in Live(segs) && b != c ==>
                b.0 + b.1 + HEADER <= c.0 || c.0 + c.1 + HEADER <= b.0
  {
    forall b, c | b in Live(segs) && c in Live(segs) && b != c
      ensures b.0 + b.1 + HEADER <= c.0 || c.0 + c.1 + HEADER <= b.0
    {
      var i :| 0 <= i < |segs| && !segs[i].free && b == (segs[i].Payload(), segs[i].len);
      var j :| 0 <= j < |segs| && !segs[j].free && c == (segs[j].Payload(), segs[j].len);
      if i < j { Ordered(segs, start, end, i, j); } else { Ordered(segs, start, end, j, i); }
    }
  }

  lemma ChangedNothing(hdrs: Headers, a: set<nat>)
    ensures ChangedOnly(hdrs, hdrs, a)
  {}

  lemma NextHeader(hdrs: Headers, segs: Segs, k: nat)
    requires Describes(hdrs, segs) && k < |segs|
    ensures HeaderOk(hdrs, segs, k)
  {}

  /** Overwriting one header, keeping its links. */
  lemma HeaderUpdate(hdrs: Headers, segs: Segs, start: nat, end: nat, k: nat, s: Seg)
    requires Tiles(segs, start, end) && Describes(hdrs, segs) && k < |segs| && s.adr == segs[k].adr
    ensures HeaderOk(hdrs, segs, k)
    ensures var hdrs' := hdrs[s.adr := hdrs[s.adr].(len := s.len, free := s.free)];
            && Describes(hdrs', segs[k := s])
            && ChangedOnly(hdrs, hdrs', Adrs(segs))
            && Adrs(segs[k := s]) == Adrs(segs)
  {
    hide Tiles;
    var hdrs' := hdrs[s.adr := hdrs[s.adr].(len := s.len, free := s.free)];
    assert HeaderOk(hdrs, segs, k);
    var segs' := segs[k := s];
    forall j | 0 <= j < |segs|
      ensures HeaderOk(hdrs', segs', j)
    {
      assert HeaderOk(hdrs, segs, j);
      if j != k { Distinct(segs, start, end, j, k); }
    }
    forall x | x in Adrs(segs)
      ensures x in Adrs(segs')
    {
      var j :| 0 <= j < |segs| && segs[j].adr == x;
      assert segs'[j].adr == x;
    }
  }

  class Heap {
    var heapStart: nat
    var heapEnd: nat
    var lastHdr: nat
    var hdrs: Headers
    var bytes: Bytes
    ghost var segs: Segs

    ghost predicate Linked()
      reads this
    {
      && 0 < heapStart
      && Tiles(segs, heapStart, heapEnd)
      && Describes(hdrs, segs)
      && lastHdr == segs[|segs| - 1].adr
    }

    ghost predicate Valid()
      reads this
    {
      Linked() && WellFormed(segs, heapStart, heapEnd)
    }

    constructor (adr: nat, pages: nat)
      requires 0 < adr && 0 < pages
      ensures Valid() && heapStart == adr && heapEnd == adr + PAGE * pages
      ensures segs == [Seg(adr, PAGE * pages - HEADER, true)]
    {
      heapStart, heapEnd, lastHdr := adr, adr + PAGE * pages, adr;
      hdrs := map[adr := Header(0, 0, PAGE * pages - HEADER, true)];
      bytes := map[];
      segs := [Seg(adr, PAGE * pages - HEADER, true)];
    }

    /** Cut the segment whose header is at seg; k is its place in the list. */
    method SplitHeapSegment(seg: nat, length: nat, ghost k: nat)
      requires Linked() && k < |segs| && seg == segs[k].adr && segs[k].len >= length + HEADER
      modifies this`hdrs, this`lastHdr, this`segs
      ensures Linked() && segs == Split(old(segs), k, length)
      ensures ChangedOnly(old(hdrs), hdrs, Adrs(segs))
    {
      SplitEffect(hdrs, segs, heapStart, heapEnd, k, length);
      if k + 1 < |segs| { Distinct(segs, heapStart, heapEnd, k, |segs| - 1); }
      ghost var h := SplitHeaders(hdrs, seg, length);
      var nHdr := seg + HEADER + length;
      var next := hdrs[seg].next;
      hdrs := hdrs[nHdr := Header(seg, next, hdrs[seg].len - length - HEADER, true)];
      hdrs := hdrs[seg := hdrs[seg].(next := nHdr, len := length)];
      if next != 0 {
        hdrs := hdrs[next := hdrs[next].(prev := nHdr)];
      }
      assert hdrs == h;
      if seg == lastHdr {
        lastHdr := nHdr;
      }
      segs := Split(segs, k, length);
    }

    /** Let the segment whose header is at seg swallow the next one. */
    method JoinHeapNextSegment(seg: nat, ghost k: nat)
      requires Linked() && k + 1 < |segs| && seg == segs[k].adr
      modifies this`hdrs, this`lastHdr, this`segs
      ensures Linked() && segs == Join(old(segs), k)
      ensures ChangedOnly(old(hdrs), hdrs, Adrs(old(segs)))
    {
      JoinDescribes(hdrs, segs, heapStart, heapEnd, k);
      JoinTiles(segs, heapStart, heapEnd, k);
      ghost var h, segs' := JoinHeaders(hdrs, seg), Join(segs, k);
      assert HeaderOk(hdrs, segs, k + 1);
      var nHdr := hdrs[seg].next;
      if hdrs[nHdr].next != 0 {
        hdrs := hdrs[hdrs[nHdr].next := hdrs[hdrs[nHdr].next].(prev := seg)];
      }
      hdrs := hdrs[seg := hdrs[seg].(next := hdrs[nHdr].next)];
      hdrs := hdrs[seg := hdrs[seg].(len := hdrs[seg].len + hdrs[nHdr].len + HEADER)];
      assert hdrs == h;
      if hdrs[nHdr].next == 0 {
        lastHdr := seg;
      }
      segs := segs';
    }

    /** The first loop of free: swallow free segments to the right, of which there is at most one. */
    method JoinRight(cur: nat, ghost k: nat)
      requires Linked() && Merging(segs, heapStart, heapEnd, k, true, true) && cur == segs[k].adr
      modifies this`hdrs, this`lastHdr, this`segs
      ensures Linked() && Merging(segs, heapStart, heapEnd, k, true, false) && cur == segs[k].adr
      ensures var was := old(segs);
              segs == if k + 1 < |was| && was[k + 1].free then Join(was, k) else was
      ensures ChangedOnly(old(hdrs), hdrs, Adrs(old(segs)))
    {
      hide Describes, Tiles, Adrs, ChangedOnly;
      ghost var was, h := segs, hdrs;
      ghost var joined := false;
      ChangedNothing(hdrs, Adrs(segs));
      Follow(hdrs, segs, heapStart, heapEnd, k);
      while hdrs[cur].next != 0 && hdrs[hdrs[cur].next].free
        invariant Linked() && k < |segs| && cur == segs[k].adr && cur in hdrs
        invariant Merging(segs, heapStart, heapEnd, k, true, !joined)
        invariant joined ==> k + 1 < |was| && was[k + 1].free && segs == Join(was, k)
        invariant !joined ==> segs == was && hdrs == h
        invariant hdrs[cur].next != 0 <==> k + 1 < |segs|
        invariant k + 1 < |segs| ==> hdrs[cur].next in hdrs && hdrs[hdrs[cur].next].free == segs[k + 1].free
        invariant ChangedOnly(h, hdrs, Adrs(was))
        decreases |segs|
      {
        JoinMerging(segs, heapStart, heapEnd, k, true);
        JoinHeapNextSegment(cur, k);
        joined := true;
        Follow(hdrs, segs, heapStart, heapEnd, k);
      }
    }

    /** The second loop of free: let free segments to the left swallow this one. */
    method JoinLeft(seg: nat, ghost k: nat)
      requires Linked() && Merging(segs, heapStart, heapEnd, k, true, false) && seg == segs[k].adr
      modifies this`hdrs, this`lastHdr, this`segs
      ensures Linked()
      ensures var was := old(segs);
              segs == if k > 0 && was[k - 1].free then Join(was, k - 1) else was
      ensures ChangedOnly(old(hdrs), hdrs, Adrs(old(segs)))
    {
      hide Describes, Tiles, Adrs, ChangedOnly;
      var cur := seg;
      ghost var was, h, j := segs, hdrs, k;
      ghost var joined := false;
      ChangedNothing(hdrs, Adrs(segs));
      Follow(hdrs, segs, heapStart, heapEnd, k);
      while hdrs[cur].prev != 0 && hdrs[hdrs[cur].prev].free
        invariant 0 <= j < |segs| && Linked() && cur == segs[j].adr && cur in hdrs
        invariant Merging(segs, heapStart, heapEnd, j, !joined, false)
        invariant if joined then k > 0 && j == k - 1 && was[j].free && segs == Join(was, j)
                            else j == k && segs == was && hdrs == h
        invariant hdrs[cur].prev != 0 <==> j > 0
        invariant j > 0 ==> hdrs[cur].prev in hdrs && hdrs[cur].prev == segs[j - 1].adr
                            && hdrs[hdrs[cur].prev].free == segs[j - 1].free
        invariant ChangedOnly(h, hdrs, Adrs(was))
        decreases |segs|
      {
        j := j - 1;
        cur := hdrs[cur].prev;
        JoinMerging(segs, heapStart, heapEnd, j, false);
        JoinHeapNextSegment(cur, j);
        joined := true;
        Follow(hdrs, segs, heapStart, heapEnd, j);
      }
    }

    /** Grow the heap by size / 0x1000 pages.  The error branch of the source cannot be reached. */
    method ExpandHeap(size: nat)
      requires Valid() && size < MAX_SIZE
      modifies this`hdrs, this`heapEnd, this`segs
      ensures Valid() && segs == Expand(old(segs), size)
      ensures heapEnd == old(heapEnd) + size / PAGE * PAGE
      ensures ChangedOnly(old(hdrs), hdrs, Adrs(segs)) && Adrs(segs) == Adrs(old(segs))
    {
      hide Describes, Adrs, ChangedOnly;
      var bytes := PAGE * (size / PAGE);
      ghost var last := |segs| - 1;
      HeaderUpdate(hdrs, segs, heapStart, heapEnd, last, segs[last].(len := segs[last].len + bytes));
      ExpandWellFormed(segs, heapStart, heapEnd, size);
      if hdrs[lastHdr].free {
        hdrs := hdrs[lastHdr := hdrs[lastHdr].(len := hdrs[lastHdr].len + bytes)];
      } else {
        assert false;
      }
      heapEnd := heapEnd + bytes;
      segs := Expand(segs, size);
    }

    /** kmalloc's loop: the first free segment that is long enough, if any; k is its place in the list. */
    method FindFit(size: nat) returns (found: bool, cur: nat, ghost k: nat)
      requires Valid()
      ensures found <==> FirstFit(segs, size, 0).Some?
      ensures found ==> k == FirstFit(segs, size, 0).value && cur == segs[k].adr
    {
      hide Describes;
      ghost var fit := FirstFit(segs, size, 0);
      cur, k := heapStart, 0;
      while true
        invariant k < |segs| && cur == segs[k].adr && FirstFit(segs, size, k) == fit
        decreases |segs| - k
      {
        NextHeader(hdrs, segs, k);
        if hdrs[cur].free {
          if hdrs[cur].len > size + HEADER {
            return true, cur, k;
          }
        }
        assert FirstFit(segs, size, k + 1) == fit;
        if k + 1 < |segs| { Positive(segs, heapStart, heapEnd, k + 1); }
        if hdrs[cur].next == 0 {
          assert k + 1 == |segs|;
          return false, cur, k;
        }
        cur := hdrs[cur].next;
        k := k + 1;
      }
    }

    /** Returns NULL for size 0, and otherwise the first segment that fits, growing the heap if none
        does.  Sizes below a page must fit somewhere: for them the source never returns otherwise. */
    method Kmalloc(size: nat) returns (adr: nat)
      requires Valid() && size < MAX_SIZE
      requires size == 0 || FirstFit(segs, size, 0).Some? || size >= PAGE
      modifies this`hdrs, this`heapEnd, this`lastHdr, this`segs
      ensures Valid()
      ensures size == 0 ==> adr == 0 && segs == old(segs) && heapEnd == old(heapEnd)
      ensures size > 0 ==> Try(old(segs), size, 3).Some? &&
                           var p := Try(old(segs), size, 3).value;
                           segs == p.segs && adr == p.adr && heapEnd == old(heapEnd) + p.grown
      ensures size > 0 ==> (adr, size) !in Live(old(segs)) && Live(segs) == Live(old(segs)) + {(adr, size)}
      ensures ChangedOnly(old(hdrs), hdrs, Adrs(segs)) && Adrs(old(segs)) <= Adrs(segs)
      ensures Respects(old(hdrs), hdrs, Live(segs))
      decreases if segs[|segs| - 1].len > size + HEADER then 0 else size + HEADER + 1 - segs[|segs| - 1].len
    {
      hide Live, Respects, Describes, Place, Adrs, ChangedOnly;
      ChangedNothing(hdrs, Adrs(segs));
      HeaderWrites(hdrs, hdrs, segs, heapStart, heapEnd);
      if size == 0 {
        return 0;
      }
      TryEnds(segs, heapStart, heapEnd, size, 3);
      TryKeeps(segs, heapStart, heapEnd, size, 3);
      var found, cur, k := FindFit(size);
      if found {
        adr := PlaceAt(cur, size, k);
        HeaderWrites(old(hdrs), hdrs, segs, heapStart, heapEnd);
        return;
      }
      Grows(segs, size);
      RetryFits(segs, heapStart, heapEnd, size);
      ghost var h := hdrs;
      ExpandHeap(size);
      ghost var h1, a1 := hdrs, Adrs(segs);
      adr := Kmalloc(size);
      ChangedThen(h, h1, hdrs, a1, Adrs(segs));
      HeaderWrites(h, hdrs, segs, heapStart, heapEnd);
    }

    /** kmalloc's success branch. */
    method PlaceAt(cur: nat, size: nat, ghost k: nat) returns (adr: nat)
      requires Valid() && 0 < size && k < |segs| && cur == segs[k].adr && Fits(segs[k], size)
      modifies this`hdrs, this`lastHdr, this`segs
      ensures Valid() && segs == Place(old(segs), k, size) && adr == old(segs)[k].Payload()
      ensures ChangedOnly(old(hdrs), hdrs, Adrs(segs)) && Adrs(old(segs)) <= Adrs(segs)
    {
      hide Describes, ChangedOnly, Adrs;
      PlaceWellFormed(segs, heapStart, heapEnd, k, size);
      SplitAdrs(segs, k, size);
      ghost var h := hdrs;
      SplitHeapSegment(cur, size, k);
      ghost var h1 := hdrs;
      HeaderUpdate(hdrs, segs, heapStart, heapEnd, k, segs[k].(free := false));
      hdrs := hdrs[cur := hdrs[cur].(free := false)];
      segs := SetFree(segs, k, false);
      ChangedThen(h, h1, hdrs, Adrs(segs), Adrs(segs));
      adr := cur + HEADER;
    }

    /** Frees the block whose payload is at adr; k is its place in the list. */
    method Free(adr: nat) returns (ghost k: nat)
      requires Valid() && exists n :: (adr, n) in Live(segs)
      modifies this`hdrs, this`lastHdr, this`segs
      ensures Valid() && IsBlock(old(segs), k, adr) && segs == Release(old(segs), k)
      ensures Live(segs) == Live(old(segs)) - {(adr, old(segs)[k].len)}
      ensures Respects(old(hdrs), hdrs, Live(old(segs)))
    {
      hide Describes, Live, Tiles, Adrs, ChangedOnly;
      k := BlockAt(segs, adr);
      ghost var freed := SetFree(segs, k, true);
      HeaderUpdate(hdrs, segs, heapStart, heapEnd, k, segs[k].(free := true));
      FreeTiles(segs, heapStart, heapEnd, k);
      FreeMerging(segs, heapStart, heapEnd, k);
      ReleaseWellFormed(segs, heapStart, heapEnd, k);
      ReleaseLive(segs, heapStart, heapEnd, k);
      var cur := adr - HEADER;
      hdrs := hdrs[cur := hdrs[cur].(free := true)];
      segs := freed;
      ghost var a, h1 := Adrs(segs), hdrs;
      JoinRight(cur, k);
      ghost var h2, right := hdrs, segs;
      JoinLeft(cur, k);
      if k + 1 < |freed| { JoinAdrs(freed, k); }
      ChangedThen(old(hdrs), h1, h2, a, a);
      ChangedWider(h2, hdrs, Adrs(right), a);
      ChangedThen(old(hdrs), h2, hdrs, a, a);
      HeaderWrites(old(hdrs), hdrs, old(segs), heapStart, heapEnd);
    }

    method Memset(dest: nat, val: bv8, len: nat)
      modifies this`bytes
      ensures forall a: nat {:trigger At(bytes, a)} :: At(bytes, a) ==
                if dest <= a < dest + len then val else At(old(bytes), a)
    {
      var ptr, n := dest, len;
      while n > 0
        invariant 0 <= n <= len && ptr == dest + (len - n)
        invariant forall a: nat {:trigger At(bytes, a)} :: At(bytes, a) ==
                    if dest <= a < ptr then val else At(old(bytes), a)
      {
        ghost var was := bytes;
        bytes := bytes[ptr := val];
        assert forall a: nat :: At(bytes, a) == if a == ptr then val else At(was, a);
        ptr, n := ptr + 1, n - 1;
      }
    }

    /** Copying from the front on, which an overlap with a later source does not disturb. */
    method Memcpy(dest: nat, src: nat, len: nat)
      requires src + len <= dest || dest <= src
      modifies this`bytes
      ensures forall a: nat {:trigger At(bytes, a)} :: At(bytes, a) ==
                if dest <= a < dest + len then At(old(bytes), src + (a - dest)) else At(old(bytes), a)
    {
      var i := 0;
      while i < len
        invariant 0 <= i <= len
        invariant forall a: nat {:trigger At(bytes, a)} :: At(bytes, a) ==
                    if dest <= a < dest + i then At(old(bytes), src + (a - dest)) else At(old(bytes), a)
      {
        ghost var was := bytes;
        bytes := bytes[dest + i := At(bytes, src + i)];
        assert forall a: nat :: At(bytes, a) == if a == dest + i then At(was, src + i) else At(was, a);
        i := i + 1;
      }
    }

    /** A cleared block. */
    method Kcalloc(size: nat) returns (adr: nat)
      requires Valid() && size < MAX_SIZE
      requires size == 0 || FirstFit(segs, size, 0).Some? || size >= PAGE
      modifies this`hdrs, this`heapEnd, this`lastHdr, this`segs, this`bytes
      ensures Valid()
      ensures size == 0 ==> adr == 0 && segs == old(segs)
      ensures size > 0 ==> (adr, size) !in Live(old(segs)) && Live(segs) == Live(old(segs)) + {(adr, size)}
      ensures forall a: nat {:trigger At(bytes, a)} :: At(bytes, a) ==
                if adr <= a < adr + size then 0 else At(old(bytes), a)
      ensures Respects(old(hdrs), hdrs, Live(segs))
    {
      hide Live, Describes, WellFormed, Tiles, Respects;
      adr := Kmalloc(size);
      Memset(adr, 0, size);
    }

    /** A block of the new size with the old contents, cut off or zero-extended; every other block
        keeps its place and its bytes, no header is written into any block, and none lies in the new
        one. */
    method Krealloc(adr: nat, size: nat) returns (loc: nat, ghost len: nat)
      requires Valid() && size < MAX_SIZE && exists n :: (adr, n) in Live(segs)
      requires size == 0 || FirstFit(segs, size, 0).Some? || size >= PAGE
      modifies this`hdrs, this`heapEnd, this`lastHdr, this`segs, this`bytes
      ensures Valid() && (adr, len) in Live(old(segs))
      ensures size == 0 ==> loc == 0
      ensures size > 0 ==> (loc, size) !in Live(old(segs))
      ensures Live(segs) == Live(old(segs)) - {(adr, len)} + if size > 0 then {(loc, size)} else {}
      ensures forall a: nat :: loc <= a < loc + size ==>
                At(bytes, a) == if a - loc < len then At(old(bytes), adr + (a - loc)) else 0
      ensures forall b, a: nat {:trigger b in Live(old(segs)), At(bytes, a)} ::
                b in Live(old(segs)) && b.0 <= a < b.0 + b.1 ==> At(bytes, a) == At(old(bytes), a)
      ensures Respects(old(hdrs), hdrs, Live(old(segs)))
      ensures size > 0 ==> forall a :: a in Adrs(segs) ==> !Overlaps(a, (loc, size))
    {
      hide Describes, WellFormed, Tiles, Live, Release, Respects, Overlaps, Adrs;
      ghost var hdrs0 := hdrs;
      ghost var segs0 := segs;
      len := segs[BlockAt(segs, adr)].len;
      BlockIn(segs, BlockAt(segs, adr));
      loc := Kcalloc(size);
      LiveApart(segs, heapStart, heapEnd);
      ghost var segs1, hdrs1 := segs, hdrs;
      ghost var k := BlockAt(segs, adr);
      BlockIn(segs, k);
      NextHeader(hdrs, segs, k);
      var cur := adr - HEADER;
      var n := if size < hdrs[cur].len then size else hdrs[cur].len;
      if size > 0 { assert (loc, size) in Live(segs); }
      Memcpy(loc, adr, n);
      forall b, a: nat | b in Live(segs0) && b.0 <= a < b.0 + b.1
        ensures At(bytes, a) == At(old(bytes), a)
      {
        assert b in Live(segs1);
        if size > 0 {
          var c := (loc, size);
          assert c in Live(segs1) && b != c;
          assert !(loc <= a < loc + size);
        }
      }
      ghost var j := Free(adr);
      BlockIn(segs1, j);
      RespectsTwice(hdrs0, hdrs1, hdrs, Live(segs1), Live(segs0));
      if size > 0 { HeadersOutside(segs, heapStart, heapEnd, (loc, size)); }
    }
  }
}
