/** The kernel heap as a list of segments: headers of 32 bytes, each followed by its payload. */
module HeapSegments {
  import opened Wrappers

  /** sizeof(HEAP_SEG_HEADER): two pointers, a length, and a padded flag. */
  const HEADER: nat := 32

  const PAGE: nat := 0x1000

  /** A segment: the address of its header, the length of its payload, whether it is free. */
  datatype Seg = Seg(adr: nat, len: nat, free: bool) {
    function Payload(): nat { adr + HEADER }

    function End(): nat { adr + HEADER + len }
  }

  type Segs = seq<Seg>

  /** The segments fill [start, end) without gap or overlap. */
  ghost predicate Tiles(segs: Segs, start: nat, end: nat) {
    && segs != [] && segs[0].adr == start && segs[|segs| - 1].End() == end
    && forall i :: 0 < i < |segs| ==> segs[i].adr == segs[i - 1].End()
  }

  /** No two neighbours are both free. */
  ghost predicate Coalesced(segs: Segs) {
    forall i :: 0 < i < |segs| ==> !(segs[i - 1].free && segs[i].free)
  }

  /** What holds of the segment list in every reachable heap state. */
  ghost predicate WellFormed(segs: Segs, start: nat, end: nat) {
    && Tiles(segs, start, end)
    && Coalesced(segs)
    && segs[|segs| - 1].free
    && forall i :: 0 <= i < |segs| ==> segs[i].len > 0
  }

  /** kmalloc's test: the comparison is strict, so the remainder always has a payload. */
  predicate Fits(s: Seg, n: nat) {
    s.free && s.len > n + HEADER
  }

  /** First fit. */
  function FirstFit(segs: Segs, n: nat, from: nat): (k: Option<nat>)
    requires from <= |segs|
    ensures k.None? ==> forall i :: from <= i < |segs| ==> !Fits(segs[i], n)
    ensures k.Some? ==> from <= k.value < |segs| && Fits(segs[k.value], n)
    ensures k.Some? ==> forall i :: from <= i < k.value ==> !Fits(segs[i], n)
    decreases |segs| - from
  {
    if from == |segs| then None
    else if Fits(segs[from], n) then Some(from)
    else FirstFit(segs, n, from + 1)
  }

  /** Cut segment k after n payload bytes; the second part is free. */
  function Split(segs: Segs, k: nat, n: nat): Segs
    requires k < |segs| && segs[k].len >= n + HEADER
  {
    var s := segs[k];
    segs[..k] + [s.(len := n), Seg(s.adr + HEADER + n, s.len - n - HEADER, true)] + segs[k + 1..]
  }

  /** Let segment k swallow its successor. */
  function Join(segs: Segs, k: nat): Segs
    requires k + 1 < |segs|
  {
    segs[..k] + [segs[k].(len := segs[k].len + HEADER + segs[k + 1].len)] + segs[k + 2..]
  }

  function SetFree(segs: Segs, k: nat, free: bool): Segs
    requires k < |segs|
  {
    segs[k := segs[k].(free := free)]
  }

  /** Growing the heap by whole pages, rounded down, lengthens the last segment. */
  function Expand(segs: Segs, n: nat): Segs
    requires segs != []
  {
    var last := |segs| - 1;
    segs[last := segs[last].(len := segs[last].len + n / PAGE * PAGE)]
  }

  function Place(segs: Segs, k: nat, n: nat): Segs
    requires k < |segs| && segs[k].len >= n + HEADER
  {
    SetFree(Split(segs, k, n), k, false)
  }

  /** Releasing block k merges it with its free neighbours. */
  function Release(segs: Segs, k: nat): Segs
    requires k < |segs|
  {
    var freed := SetFree(segs, k, true);
    var right := if k + 1 < |segs| && segs[k + 1].free then Join(freed, k) else freed;
    if k > 0 && segs[k - 1].free then Join(right, k - 1) else right
  }

  datatype Placement = Placement(segs: Segs, adr: nat, grown: nat)

  /** kmalloc for n > 0: first fit, and on failure grow the heap and try again, at most `fuel` times. */
  function Try(segs: Segs, n: nat, fuel: nat): Option<Placement>
    requires segs != []
    decreases fuel
  {
    match FirstFit(segs, n, 0)
    case Some(k) => Some(Placement(Place(segs, k, n), segs[k].Payload(), 0))
    case None =>
      if fuel == 0 then None
      else match Try(Expand(segs, n), n, fuel - 1)
           case None => None
           case Some(p) => Some(p.(grown := p.grown + n / PAGE * PAGE))
  }

  /** Exactly when kmalloc's retry recursion ends; three expansions always do if any number does. */
  lemma TryEnds(segs: Segs, start: nat, end: nat, n: nat, fuel: nat)
    requires WellFormed(segs, start, end) && fuel >= 3
    ensures Try(segs, n, fuel).Some? <==> FirstFit(segs, n, 0).Some? || n >= PAGE
  {
    if n >= PAGE {
      Grown(segs, n, fuel, 3);
    } else if FirstFit(segs, n, 0).None? {
      Stuck(segs, n, fuel);
    }
  }

  /** Each retry finds the last segment longer by at least a page. */
  lemma {:induction false} Grown(segs: Segs, n: nat, fuel: nat, rounds: nat)
    requires segs != [] && segs[|segs| - 1].free && n >= PAGE && rounds <= 3 && rounds <= fuel
    requires segs[|segs| - 1].len + rounds * (n / PAGE * PAGE) > n + HEADER
    ensures Try(segs, n, fuel).Some?
    decreases rounds
  {
    Grows(segs, n);
    if FirstFit(segs, n, 0).None? {
      assert !Fits(segs[|segs| - 1], n);
      Grown(Expand(segs, n), n, fuel - 1, rounds - 1);
    }
  }

  /** More fuel changes no outcome. */
  lemma {:induction false} TryMonotone(segs: Segs, n: nat, fuel: nat)
    requires segs != [] && Try(segs, n, fuel).Some?
    ensures Try(segs, n, fuel + 1) == Try(segs, n, fuel)
    decreases fuel
  {
    if FirstFit(segs, n, 0).None? { TryMonotone(Expand(segs, n), n, fuel - 1); }
  }

  /** Below a page, growing the heap changes nothing, and kmalloc recurses for ever. */
  lemma {:induction false} Stuck(segs: Segs, n: nat, fuel: nat)
    requires segs != [] && n < PAGE && FirstFit(segs, n, 0).None?
    ensures Expand(segs, n) == segs && Try(segs, n, fuel).None?
  {
    if fuel > 0 { Stuck(segs, n, fuel - 1); }
  }

  /** The heap of one page, as it is set up, and a request for 4040 bytes. */
  lemma StuckHeap(start: nat)
    ensures var segs := [Seg(start, PAGE - HEADER, true)];
            && WellFormed(segs, start, start + PAGE)
            && forall fuel: nat :: Try(segs, 4040, fuel).None?
  {
    var segs := [Seg(start, PAGE - HEADER, true)];
    assert FirstFit(segs, 4040, 1).None?;
    forall fuel: nat ensures Try(segs, 4040, fuel).None? {
      Stuck(segs, 4040, fuel);
    }
  }

  lemma Grows(segs: Segs, n: nat)
    requires segs != [] && n >= PAGE && segs[|segs| - 1].free
    ensures var segs' := Expand(segs, n);
            && |segs'| == |segs| && segs'[|segs| - 1].free
            && segs'[|segs| - 1].len == segs[|segs| - 1].len + n / PAGE * PAGE
            && n / PAGE * PAGE >= PAGE && n < n / PAGE * PAGE + PAGE
  {}

  // ----- the list stays well formed

  lemma SplitTiles(segs: Segs, start: nat, end: nat, k: nat, n: nat)
    requires Tiles(segs, start, end) && k < |segs| && segs[k].len >= n + HEADER
    ensures Tiles(Split(segs, k, n), start, end)
  {
    var segs' := Split(segs, k, n);
    assert forall i :: 0 <= i < k ==> segs'[i] == segs[i];
    assert forall i :: k + 2 <= i < |segs'| ==> segs'[i] == segs[i - 1];
  }

  lemma PlaceTiles(segs: Segs, start: nat, end: nat, k: nat, n: nat)
    requires Tiles(segs, start, end) && k < |segs| && Fits(segs[k], n)
    ensures Tiles(Place(segs, k, n), start, end)
  {
    SplitTiles(segs, start, end, k, n);
  }

  lemma PlaceWellFormed(segs: Segs, start: nat, end: nat, k: nat, n: nat)
    requires WellFormed(segs, start, end) && k < |segs| && Fits(segs[k], n) && n > 0
    ensures WellFormed(Place(segs, k, n), start, end)
  {
    hide Tiles;
    var segs' := Place(segs, k, n);
    PlaceTiles(segs, start, end, k, n);
    assert segs'[k] == Seg(segs[k].adr, n, false) && segs'[k + 1].free && segs'[k + 1].len > 0;
    assert forall i :: 0 <= i < k ==> segs'[i] == segs[i];
    assert forall i :: k + 2 <= i < |segs'| ==> segs'[i] == segs[i - 1];
  }

  /** kmalloc's test is exact: a free segment with room for the block and one more header may be cut
      exactly if it passes, because otherwise a segment without payload is left. */
  lemma PlaceExact(segs: Segs, start: nat, end: nat, k: nat, n: nat)
    requires WellFormed(segs, start, end) && k < |segs| && n > 0
    requires segs[k].free && segs[k].len >= n + HEADER
    ensures Fits(segs[k], n) <==> WellFormed(Place(segs, k, n), start, end)
  {
    if Fits(segs[k], n) {
      PlaceWellFormed(segs, start, end, k, n);
    } else {
      assert Place(segs, k, n)[k + 1].len == 0;
    }
  }

  lemma ExpandWellFormed(segs: Segs, start: nat, end: nat, n: nat)
    requires WellFormed(segs, start, end)
    ensures WellFormed(Expand(segs, n), start, end + n / PAGE * PAGE)
  {}

  lemma JoinTiles(segs: Segs, start: nat, end: nat, k: nat)
    requires Tiles(segs, start, end) && k + 1 < |segs|
    ensures Tiles(Join(segs, k), start, end)
  {
    var segs' := Join(segs, k);
    assert forall i :: 0 <= i < k ==> segs'[i] == segs[i];
    assert forall i :: k + 1 <= i < |segs'| ==> segs'[i] == segs[i + 1];
  }

  /** Well formed, except that the free segment k may have a free neighbour to its left or right. */
  ghost predicate Merging(segs: Segs, start: nat, end: nat, k: nat, left: bool, right: bool) {
    && Tiles(segs, start, end) && k < |segs| && segs[k].free
    && segs[|segs| - 1].free
    && (forall i :: 0 <= i < |segs| ==> segs[i].len > 0)
    && (forall i :: 0 < i < |segs| && segs[i - 1].free && segs[i].free ==> (left && i == k) || (right && i == k + 1))
  }

  lemma FreeMerging(segs: Segs, start: nat, end: nat, k: nat)
    requires WellFormed(segs, start, end) && k < |segs|
    ensures Merging(SetFree(segs, k, true), start, end, k, true, true)
  {}

  lemma JoinMerging(segs: Segs, start: nat, end: nat, k: nat, left: bool)
    requires Merging(segs, start, end, k, left, true) && k + 1 < |segs| && segs[k + 1].free
    ensures Merging(Join(segs, k), start, end, k, left, false)
  {
    var segs' := Join(segs, k);
    JoinTiles(segs, start, end, k);
    assert forall i :: 0 <= i < k ==> segs'[i] == segs[i];
    assert forall i :: k + 1 <= i < |segs'| ==> segs'[i] == segs[i + 1];
  }

  lemma MergedWellFormed(segs: Segs, start: nat, end: nat, k: nat, left: bool)
    requires Merging(segs, start, end, k, left, false) && (left && k > 0 ==> !segs[k - 1].free)
    ensures WellFormed(segs, start, end)
  {}

  lemma ReleaseWellFormed(segs: Segs, start: nat, end: nat, k: nat)
    requires WellFormed(segs, start, end) && k < |segs|
    ensures WellFormed(Release(segs, k), start, end)
  {
    var freed := SetFree(segs, k, true);
    FreeMerging(segs, start, end, k);
    hide Tiles, WellFormed, Merging;
    var right := if k + 1 < |segs| && segs[k + 1].free then Join(freed, k) else freed;
    assert Merging(right, start, end, k, true, false) by {
      if k + 1 < |segs| && segs[k + 1].free { JoinMerging(freed, start, end, k, true); }
      else { NothingRight(freed, start, end, k); }
    }
    assert k > 0 ==> right[k - 1] == segs[k - 1];
    if k > 0 && segs[k - 1].free {
      ShiftLeft(right, start, end, k);
      JoinMerging(right, start, end, k - 1, false);
      MergedWellFormed(Join(right, k - 1), start, end, k - 1, false);
    } else {
      MergedWellFormed(right, start, end, k, true);
    }
  }

  lemma NothingRight(segs: Segs, start: nat, end: nat, k: nat)
    requires Merging(segs, start, end, k, true, true) && (k + 1 < |segs| ==> !segs[k + 1].free)
    ensures Merging(segs, start, end, k, true, false)
  {}

  /** A free left neighbour sees the merged segment as its right neighbour. */
  lemma ShiftLeft(segs: Segs, start: nat, end: nat, k: nat)
    requires Merging(segs, start, end, k, true, false) && k > 0 && segs[k - 1].free
    ensures Merging(segs, start, end, k - 1, false, true)
  {}

  // ----- live blocks

  /** The blocks in use: payload address and length. */
  ghost function Live(segs: Segs): set<(nat, nat)> {
    set i | 0 <= i < |segs| && !segs[i].free :: (segs[i].Payload(), segs[i].len)
  }

  lemma {:induction false} Ordered(segs: Segs, start: nat, end: nat, i: nat, j: nat)
    requires Tiles(segs, start, end) && i < j < |segs|
    ensures segs[i].End() <= segs[j].adr
    decreases j - i
  {
    if i + 1 < j { Ordered(segs, start, end, i, j - 1); }
  }

  lemma Within(segs: Segs, start: nat, end: nat, i: nat)
    requires Tiles(segs, start, end) && i < |segs|
    ensures start <= segs[i].adr && segs[i].End() <= end
  {
    if i > 0 { Ordered(segs, start, end, 0, i); }
    if i < |segs| - 1 { Ordered(segs, start, end, i, |segs| - 1); }
  }

  /** Blocks lie inside the heap, never overlap one another, and never overlap a header. */
  lemma BlocksDisjoint(segs: Segs, start: nat, end: nat, i: nat, j: nat)
    requires Tiles(segs, start, end) && i < |segs| && j < |segs|
    ensures start <= segs[i].Payload() && segs[i].End() <= end
    ensures i != j ==> segs[i].End() <= segs[j].Payload() || segs[j].End() <= segs[i].Payload()
    ensures segs[j].adr + HEADER <= segs[i].Payload() || segs[i].End() <= segs[j].adr
  {
    Within(segs, start, end, i);
    if i < j { Ordered(segs, start, end, i, j); }
    if j < i { Ordered(segs, start, end, j, i); }
  }

  /** Allocating adds one block, of exactly the size asked for, and disturbs no other. */
  lemma PlaceLive(segs: Segs, start: nat, end: nat, k: nat, n: nat)
    requires WellFormed(segs, start, end) && k < |segs| && Fits(segs[k], n)
    ensures (segs[k].Payload(), n) !in Live(segs)
    ensures Live(Place(segs, k, n)) == Live(segs) + {(segs[k].Payload(), n)}
  {
    var segs', new_ := Place(segs, k, n), (segs[k].Payload(), n);
    forall i | 0 <= i < |segs| && !segs[i].free
      ensures segs[i].Payload() != segs[k].Payload()
      ensures (segs[i].Payload(), segs[i].len) in Live(segs')
    {
      BlocksDisjoint(segs, start, end, i, k);
      assert segs'[if i < k then i else i + 1] == segs[i];
    }
    assert segs'[k] == Seg(segs[k].adr, n, false);
    forall i | 0 <= i < |segs'| && !segs'[i].free
      ensures (segs'[i].Payload(), segs'[i].len) in Live(segs) + {new_}
    {
      if i < k { assert segs'[i] == segs[i]; }
      if i > k + 1 { assert segs'[i] == segs[i - 1]; }
    }
  }

  lemma ExpandLive(segs: Segs, n: nat)
    requires segs != [] && segs[|segs| - 1].free
    ensures Live(Expand(segs, n)) == Live(segs)
  {
    var segs' := Expand(segs, n);
    assert forall i :: 0 <= i < |segs| ==> segs'[i] == segs[i] || (segs'[i].free && segs[i].free);
    assert forall i :: 0 <= i < |segs| && !segs[i].free ==> (segs'[i].Payload(), segs'[i].len) in Live(segs');
  }

  lemma JoinLive(segs: Segs, k: nat)
    requires k + 1 < |segs| && segs[k].free && segs[k + 1].free
    ensures Live(Join(segs, k)) == Live(segs)
  {
    var segs' := Join(segs, k);
    assert forall i :: 0 <= i < k ==> segs'[i] == segs[i];
    forall i | 0 <= i < |segs| && !segs[i].free
      ensures (segs[i].Payload(), segs[i].len) in Live(segs')
    {
      assert segs'[if i < k then i else i - 1] == segs[i];
    }
    forall i | 0 <= i < |segs'| && !segs'[i].free
      ensures (segs'[i].Payload(), segs'[i].len) in Live(segs)
    {
      assert segs[if i < k then i else i + 1] == segs'[i];
    }
  }

  /** Releasing a block removes it and disturbs no other. */
  lemma ReleaseLive(segs: Segs, start: nat, end: nat, k: nat)
    requires WellFormed(segs, start, end) && k < |segs| && !segs[k].free
    ensures Live(Release(segs, k)) == Live(segs) - {(segs[k].Payload(), segs[k].len)}
  {
    var freed := SetFree(segs, k, true);
    assert Live(freed) == Live(segs) - {(segs[k].Payload(), segs[k].len)} by {
      forall i | 0 <= i < |segs| && i != k
        ensures segs[i].Payload() != segs[k].Payload() && freed[i] == segs[i]
      {
        BlocksDisjoint(segs, start, end, i, k);
      }
    }
    var right := if k + 1 < |segs| && segs[k + 1].free then Join(freed, k) else freed;
    if k + 1 < |segs| && segs[k + 1].free { JoinLive(freed, k); }
    if k > 0 && segs[k - 1].free {
      assert right[k - 1] == segs[k - 1] && right[k].free;
      JoinLive(right, k - 1);
    }
  }

  // ----- no lasting fragmentation

  /** Freeing what was just allocated, without growth, restores the exact segment list. */
  lemma ReleaseUndoesPlace(segs: Segs, start: nat, end: nat, k: nat, n: nat)
    requires WellFormed(segs, start, end) && k < |segs| && Fits(segs[k], n)
    ensures Release(Place(segs, k, n), k) == segs
  {
    var segs' := Place(segs, k, n);
    assert k > 0 ==> segs'[k - 1] == segs[k - 1];
    var freed := SetFree(segs', k, true);
    assert Join(freed, k) == segs;
  }

  lemma AllFree(segs: Segs)
    requires Live(segs) == {}
    ensures forall i :: 0 <= i < |segs| ==> segs[i].free
  {
    forall i | 0 <= i < |segs|
      ensures segs[i].free
    {
      assert (segs[i].Payload(), segs[i].len) !in Live(segs);
    }
  }

  lemma Neighbours(segs: Segs, i: nat)
    requires Coalesced(segs) && 0 < i < |segs|
    ensures !segs[i - 1].free || !segs[i].free
  {}

  /** With no block in use the heap is one free segment. */
  lemma EmptyHeap(segs: Segs, start: nat, end: nat)
    requires WellFormed(segs, start, end) && Live(segs) == {}
    ensures |segs| == 1 && segs[0].adr == start && segs[0].free && segs[0].len + HEADER == end - start
  {
    AllFree(segs);
    if |segs| > 1 { Neighbours(segs, 1); }
  }

  // ----- whole runs

  datatype Op = Malloc(n: nat) | Free(adr: nat)

  /** The index of the block with payload address adr. */
  ghost predicate IsBlock(segs: Segs, k: nat, adr: nat) {
    k < |segs| && !segs[k].free && segs[k].Payload() == adr
  }

  datatype Heap = Heap(segs: Segs, start: nat, end: nat)

  /** A call and the heap it leaves.  A kmalloc that never returns, or a free of something that is not
      a block, has no next heap. */
  ghost predicate Step(h: Heap, op: Op, h': Heap) {
    && h.segs != []
    && match op
       case Malloc(n) =>
         if n == 0 then h' == h
         else exists fuel: nat ::
           var r := Try(h.segs, n, fuel);
           r.Some? && h' == Heap(r.value.segs, h.start, h.end + r.value.grown)
       case Free(adr) => exists k: nat :: IsBlock(h.segs, k, adr) && h' == Heap(Release(h.segs, k), h.start, h.end)
  }

  ghost predicate Reachable(run: seq<Heap>, ops: seq<Op>, start: nat, pages: nat) {
    && |run| == |ops| + 1 && pages > 0
    && run[0] == Heap([Seg(start, PAGE * pages - HEADER, true)], start, start + PAGE * pages)
    && forall i :: 0 <= i < |ops| ==> Step(run[i], ops[i], run[i + 1])
  }

  lemma {:induction false} TryKeeps(segs: Segs, start: nat, end: nat, n: nat, fuel: nat)
    requires WellFormed(segs, start, end) && n > 0 && Try(segs, n, fuel).Some?
    ensures var p := Try(segs, n, fuel).value;
            && WellFormed(p.segs, start, end + p.grown)
            && (p.adr, n) !in Live(segs) && Live(p.segs) == Live(segs) + {(p.adr, n)}
    decreases fuel
  {
    match FirstFit(segs, n, 0)
    case Some(k) =>
      PlaceWellFormed(segs, start, end, k, n);
      PlaceLive(segs, start, end, k, n);
    case None =>
      ExpandWellFormed(segs, start, end, n);
      ExpandLive(segs, n);
      TryKeeps(Expand(segs, n), start, end + n / PAGE * PAGE, n, fuel - 1);
  }

  lemma StepKeeps(h: Heap, op: Op, h': Heap)
    requires WellFormed(h.segs, h.start, h.end) && Step(h, op, h')
    ensures h'.start == h.start && WellFormed(h'.segs, h'.start, h'.end)
  {
    match op
    case Malloc(n) =>
      if n > 0 {
        var fuel: nat :| Try(h.segs, n, fuel).Some? &&
          h' == Heap(Try(h.segs, n, fuel).value.segs, h.start, h.end + Try(h.segs, n, fuel).value.grown);
        TryKeeps(h.segs, h.start, h.end, n, fuel);
      }
    case Free(adr) =>
      var k: nat :| IsBlock(h.segs, k, adr) && h' == Heap(Release(h.segs, k), h.start, h.end);
      ReleaseWellFormed(h.segs, h.start, h.end, k);
  }

  /** Over every run of kmalloc and free the list stays well formed, and whenever no block is in use
      the whole heap is a single free segment again, whatever the order of the frees. */
  lemma {:induction false} RunKeeps(run: seq<Heap>, ops: seq<Op>, start: nat, pages: nat, i: nat)
    requires Reachable(run, ops, start, pages) && i < |run|
    ensures run[i].start == start && WellFormed(run[i].segs, start, run[i].end)
    ensures Live(run[i].segs) == {} ==> |run[i].segs| == 1 && run[i].segs[0].len + HEADER == run[i].end - start
    decreases i
  {
    if i > 0 {
      RunKeeps(run, ops, start, pages, i - 1);
      StepKeeps(run[i - 1], ops[i - 1], run[i]);
    }
    if Live(run[i].segs) == {} { EmptyHeap(run[i].segs, start, run[i].end); }
  }
}
