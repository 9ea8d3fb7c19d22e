/** Physical frames: the byte map `pages_used`, its search hint and the three memory counters. */
module Frames {
  import opened Bits
  import opened Wrappers

  const FRAME_SIZE: nat := 4096

  /** Largest batch whose byte offset still fits the C loop's 32-bit `i * 4096`. */
  const MAX_BATCH: nat := 0x8_0000

  datatype Op = Lock | Free | Reserve | Unreserve

  datatype State = State(used: seq<bool>, hint: nat, freeMemory: nat, usedMemory: nat, reservedMemory: nat)

  /** 64-bit addition and subtraction wrap. */
  function Add(a: nat, b: nat): nat { (a + b) % W64 }

  function Sub(a: nat, b: nat): nat { (a - b) % W64 }

  /** One page operation; each is a no-op when the page already is as asked. */
  function Apply(s: State, op: Op, page: nat): State
    requires page < |s.used|
  {
    match op
    case Lock =>
      if s.used[page] then s
      else s.(used := s.used[page := true], freeMemory := Sub(s.freeMemory, FRAME_SIZE),
              usedMemory := Add(s.usedMemory, FRAME_SIZE))
    case Reserve =>
      if s.used[page] then s
      else s.(used := s.used[page := true], freeMemory := Sub(s.freeMemory, FRAME_SIZE),
              reservedMemory := Add(s.reservedMemory, FRAME_SIZE))
    case Free =>
      if !s.used[page] then s
      else s.(used := s.used[page := false], freeMemory := Add(s.freeMemory, FRAME_SIZE),
              usedMemory := Sub(s.usedMemory, FRAME_SIZE), hint := Min(s.hint, page))
    case Unreserve =>
      if !s.used[page] then s
      else s.(used := s.used[page := false], freeMemory := Add(s.freeMemory, FRAME_SIZE),
              reservedMemory := Sub(s.reservedMemory, FRAME_SIZE), hint := Min(s.hint, page))
  }

  /** The same operation on `count` consecutive pages, in order. */
  function ApplyRange(s: State, op: Op, first: nat, count: nat): (s': State)
    requires first + count <= |s.used|
    ensures |s'.used| == |s.used|
  {
    if count == 0 then s else Apply(ApplyRange(s, op, first, count - 1), op, first + count - 1)
  }

  /** The lowest free page at or after `from`, by a full scan. */
  function LowestFree(used: seq<bool>, from: nat): (p: Option<nat>)
    requires from <= |used|
    ensures p.None? ==> forall i :: from <= i < |used| ==> used[i]
    ensures p.Some? ==> from <= p.value < |used| && !used[p.value]
    ensures p.Some? ==> forall i :: from <= i < p.value ==> used[i]
    decreases |used| - from
  {
    if from == |used| then None else if used[from] then LowestFree(used, from + 1) else Some(from)
  }

  /** Requesting a page takes the lowest free page of all. */
  function Request(s: State): (State, Option<nat>) {
    match LowestFree(s.used, 0)
    case None => (s.(hint := |s.used|), None)
    case Some(p) => (Apply(s.(hint := p), Lock, p), Some(p))
  }

  function Used(used: seq<bool>): (n: nat)
    ensures n <= |used|
  {
    if used == [] then 0 else Used(used[..|used| - 1]) + Bit(used[|used| - 1])
  }

  function Available(used: seq<bool>): nat { |used| - Used(used) }

  lemma {:induction false} UsedUpdate(used: seq<bool>, i: nat, b: bool)
    requires i < |used|
    ensures Used(used[i := b]) == Used(used) - Bit(used[i]) + Bit(b)
  {
    var last := |used| - 1;
    if i == last {
      assert used[i := b][..last] == used[..last];
    } else {
      UsedUpdate(used[..last], i, b);
      assert used[i := b][..last] == used[..last][i := b];
    }
  }

  lemma {:induction false} UsedAll(used: seq<bool>)
    requires forall i :: 0 <= i < |used| ==> used[i]
    ensures Used(used) == |used|
  {
    if used != [] { UsedAll(used[..|used| - 1]); }
  }

  /** What the counters mean, modulo their 64-bit width: free, used and reserved memory add up to
      all memory, and used plus reserved memory is the size of the frames marked used. */
  ghost predicate Balanced(s: State, total: nat) {
    && (s.freeMemory + s.usedMemory + s.reservedMemory) % W64 == total % W64
    && (s.usedMemory + s.reservedMemory) % W64 == (Used(s.used) * FRAME_SIZE) % W64
  }

  /** No page below the hint is free. */
  ghost predicate Hinted(s: State) {
    s.hint <= |s.used| && forall i :: 0 <= i < s.hint ==> s.used[i]
  }

  ghost predicate Inv(s: State, total: nat) {
    Balanced(s, total) && Hinted(s)
  }

  lemma Wraps(a: nat, b: nat, d: nat)
    requires d <= W64
    ensures (Add(a, d) + b) % W64 == (a + b + d) % W64
    ensures (Sub(a, d) + b) % W64 == (a + b + (W64 - d)) % W64
  {
    Congruent(a + d, b);
    Congruent(a + (W64 - d), b);
    assert (a - d) % W64 == (a + (W64 - d)) % W64;
  }

  lemma Congruent(x: nat, b: nat)
    ensures (x % W64 + b) % W64 == (x + b) % W64
  {
    assert x + b == x / W64 * W64 + (x % W64 + b);
  }

  lemma Shift(x: nat, y: nat, d: nat)
    requires x % W64 == y % W64
    ensures (x + d) % W64 == (y + d) % W64
  {
    Congruent(x, d);
    Congruent(y, d);
  }

  /** Moving d bytes from one counter to another keeps their sum, and shifts the sum of either with
      a third by d. */
  lemma Move(a: nat, b: nat, c: nat, d: nat)
    requires d <= W64
    ensures (Sub(a, d) + Add(b, d) + c) % W64 == (a + b + c) % W64
    ensures (Add(b, d) + c) % W64 == (b + c + d) % W64
    ensures (Sub(a, d) + c) % W64 == (a + c + (W64 - d)) % W64
  {
    hide Add, Sub;
    assert (Sub(a, d) + Add(b, d) + c) % W64 == (a + b + c) % W64 by {
      Wraps(a, Add(b, d) + c, d);
      Wraps(b, a + c + (W64 - d), d);
      Congruent(W64, a + b + c);
    }
    Wraps(b, c, d);
    Wraps(a, c, d);
  }

  lemma TakeBalanced(s: State, s': State, page: nat, total: nat)
    requires Balanced(s, total) && page < |s.used| && !s.used[page]
    requires s'.used == s.used[page := true] && s'.freeMemory == Sub(s.freeMemory, FRAME_SIZE)
    requires (s'.usedMemory + s'.reservedMemory) % W64 == (s.usedMemory + s.reservedMemory + FRAME_SIZE) % W64
    requires (s'.freeMemory + s'.usedMemory + s'.reservedMemory) % W64
          == (s.freeMemory + s.usedMemory + s.reservedMemory) % W64
    ensures Balanced(s', total)
  {
    UsedUpdate(s.used, page, true);
    Shift(s.usedMemory + s.reservedMemory, Used(s.used) * FRAME_SIZE, FRAME_SIZE);
  }

  lemma Borrowed(n: nat)
    ensures (n + (W64 - FRAME_SIZE)) % W64 == (n - FRAME_SIZE) % W64
  {
    assert n + (W64 - FRAME_SIZE) == n - FRAME_SIZE + W64;
  }

  lemma GiveBalanced(s: State, s': State, page: nat, total: nat)
    requires Balanced(s, total) && page < |s.used| && s.used[page]
    requires s'.used == s.used[page := false] && s'.freeMemory == Add(s.freeMemory, FRAME_SIZE)
    requires (s'.usedMemory + s'.reservedMemory) % W64
          == (s.usedMemory + s.reservedMemory + (W64 - FRAME_SIZE)) % W64
    requires (s'.freeMemory + s'.usedMemory + s'.reservedMemory) % W64
          == (s.freeMemory + s.usedMemory + s.reservedMemory) % W64
    ensures Balanced(s', total)
  {
    var n := Used(s.used) * FRAME_SIZE;
    UsedUpdate(s.used, page, false);
    Shift(s.usedMemory + s.reservedMemory, n, W64 - FRAME_SIZE);
    Borrowed(n);
  }

  lemma ApplyBalanced(s: State, op: Op, page: nat, total: nat)
    requires Balanced(s, total) && page < |s.used|
    ensures Balanced(Apply(s, op, page), total)
  {
    hide Balanced, Add, Sub;
    var free, used, reserved := s.freeMemory, s.usedMemory, s.reservedMemory;
    var s' := Apply(s, op, page);
    if s' != s {
      match op {
        case Lock => Move(free, used, reserved, FRAME_SIZE); TakeBalanced(s, s', page, total);
        case Reserve => Move(free, reserved, used, FRAME_SIZE); TakeBalanced(s, s', page, total);
        case Free => Move(used, free, reserved, FRAME_SIZE); GiveBalanced(s, s', page, total);
        case Unreserve => Move(reserved, free, used, FRAME_SIZE); GiveBalanced(s, s', page, total);
      }
    }
  }

  lemma ApplyInv(s: State, op: Op, page: nat, total: nat)
    requires Inv(s, total) && page < |s.used|
    ensures Inv(Apply(s, op, page), total)
  {
    ApplyBalanced(s, op, page, total);
  }

  lemma RequestInv(s: State, total: nat)
    requires Inv(s, total)
    ensures Inv(Request(s).0, total)
  {
    var p := LowestFree(s.used, 0);
    if p.Some? { ApplyBalanced(s.(hint := p.value), Lock, p.value, total); }
  }

  /** The hint loses nothing: searching from it finds the lowest free page of all. */
  lemma {:induction false} HintedSearch(s: State, total: nat)
    requires Inv(s, total)
    ensures s.hint <= |s.used| && LowestFree(s.used, s.hint) == LowestFree(s.used, 0)
  {
    SearchFrom(s.used, 0, s.hint);
  }

  lemma {:induction false} SearchFrom(used: seq<bool>, from: nat, hint: nat)
    requires from <= hint <= |used| && forall i :: from <= i < hint ==> used[i]
    ensures LowestFree(used, from) == LowestFree(used, hint)
    decreases hint - from
  {
    if from < hint { SearchFrom(used, from + 1, hint); }
  }

  datatype Event = Batch(op: Op, first: nat, count: nat) | RequestOne

  function Step(s: State, e: Event): State {
    match e
    case Batch(op, first, count) => if first + count <= |s.used| then ApplyRange(s, op, first, count) else s
    case RequestOne => Request(s).0
  }

  function Run(s: State, events: seq<Event>): State
    decreases |events|
  {
    if events == [] then s else Run(Step(s, events[0]), events[1..])
  }

  lemma {:induction false} RangeInv(s: State, op: Op, first: nat, count: nat, total: nat)
    requires Inv(s, total) && first + count <= |s.used|
    ensures Inv(ApplyRange(s, op, first, count), total)
    decreases count
  {
    if count > 0 {
      RangeInv(s, op, first, count - 1, total);
      ApplyInv(ApplyRange(s, op, first, count - 1), op, first + count - 1, total);
    }
  }

  /** Over every run the memory accounting balances, and the search from the hint still finds what a
      request should get: the lowest free page, or nothing exactly when none is free. */
  lemma {:induction false} RunKeepsAccounting(s: State, events: seq<Event>, total: nat)
    requires Inv(s, total)
    ensures Inv(Run(s, events), total)
    ensures var s' := Run(s, events);
            && Request(s').1 == LowestFree(s'.used, s'.hint) == LowestFree(s'.used, 0)
            && (Request(s').1.None? <==> Available(s'.used) == 0)
    decreases |events|
  {
    if events == [] {
      HintedSearch(s, total);
      RequestFails(s);
    } else {
      match events[0] {
        case Batch(op, first, count) =>
          if first + count <= |s.used| { RangeInv(s, op, first, count, total); }
        case RequestOne => RequestInv(s, total);
      }
      RunKeepsAccounting(Step(s, events[0]), events[1..], total);
    }
  }

  /** What a range operation does to the map: exactly the range changes. */
  lemma {:induction false} RangeMap(s: State, op: Op, first: nat, count: nat)
    requires first + count <= |s.used|
    ensures var used' := ApplyRange(s, op, first, count).used;
            && |used'| == |s.used|
            && forall i :: 0 <= i < |s.used| ==>
                 used'[i] == if first <= i < first + count then op == Lock || op == Reserve else s.used[i]
    decreases count
  {
    if count > 0 { RangeMap(s, op, first, count - 1); }
  }

  // ----- what the counters count

  /** How a frame was taken: locked, as requests do, or reserved. */
  datatype Owner = Nobody | Locked | Reserved

  function Held(owners: seq<Owner>, k: Owner): nat {
    if owners == [] then 0 else Held(owners[..|owners| - 1], k) + Bit(owners[|owners| - 1] == k)
  }

  lemma {:induction false} HeldUpdate(owners: seq<Owner>, i: nat, x: Owner, k: Owner)
    requires i < |owners|
    ensures Held(owners[i := x], k) == Held(owners, k) - Bit(owners[i] == k) + Bit(x == k)
  {
    var last := |owners| - 1;
    if i == last {
      assert owners[i := x][..last] == owners[..last];
    } else {
      HeldUpdate(owners[..last], i, x, k);
      assert owners[i := x][..last] == owners[..last][i := x];
    }
  }

  lemma {:induction false} HeldNone(owners: seq<Owner>)
    requires forall i :: 0 <= i < |owners| ==> owners[i] == Nobody
    ensures Held(owners, Locked) == 0 == Held(owners, Reserved)
  {
    if owners != [] { HeldNone(owners[..|owners| - 1]); }
  }

  /** Used memory is that of the locked frames, reserved memory that of the reserved ones. */
  ghost predicate Counted(s: State, owners: seq<Owner>) {
    && |owners| == |s.used| && (forall i :: 0 <= i < |owners| ==> (s.used[i] <==> owners[i] != Nobody))
    && s.usedMemory % W64 == Held(owners, Locked) * FRAME_SIZE % W64
    && s.reservedMemory % W64 == Held(owners, Reserved) * FRAME_SIZE % W64
  }

  function Own(owners: seq<Owner>, op: Op, page: nat): seq<Owner>
    requires page < |owners|
  {
    match op
    case Lock => if owners[page] == Nobody then owners[page := Locked] else owners
    case Reserve => if owners[page] == Nobody then owners[page := Reserved] else owners
    case _ => owners[page := Nobody]
  }

  /** A frame is given back by the operation that belongs to how it was taken. */
  ghost predicate Matches(owners: seq<Owner>, op: Op, page: nat)
    requires page < |owners|
  {
    (op == Free ==> owners[page] != Reserved) && (op == Unreserve ==> owners[page] != Locked)
  }

  lemma OwnCounted(s: State, owners: seq<Owner>, op: Op, page: nat)
    requires Counted(s, owners) && page < |s.used| && Matches(owners, op, page)
    ensures Counted(Apply(s, op, page), Own(owners, op, page))
  {
    hide Held, Add, Sub;
    var x := Own(owners, op, page)[page];
    HeldUpdate(owners, page, x, Locked);
    HeldUpdate(owners, page, x, Reserved);
    CounterMoves(s.usedMemory, Held(owners, Locked));
    CounterMoves(s.reservedMemory, Held(owners, Reserved));
  }

  lemma CounterMoves(a: nat, n: nat)
    requires a % W64 == n * FRAME_SIZE % W64
    ensures Add(a, FRAME_SIZE) % W64 == (n + 1) * FRAME_SIZE % W64
    ensures n > 0 ==> Sub(a, FRAME_SIZE) % W64 == (n - 1) * FRAME_SIZE % W64
  {
    Wraps(a, 0, FRAME_SIZE);
    Shift(a, n * FRAME_SIZE, FRAME_SIZE);
    Shift(a, n * FRAME_SIZE, W64 - FRAME_SIZE);
    if n > 0 { Borrowed(n * FRAME_SIZE); }
  }

  function OwnRange(owners: seq<Owner>, op: Op, first: nat, count: nat): (r: seq<Owner>)
    requires first + count <= |owners|
    ensures |r| == |owners| && forall i :: first + count <= i < |owners| ==> r[i] == owners[i]
  {
    if count == 0 then owners else Own(OwnRange(owners, op, first, count - 1), op, first + count - 1)
  }

  lemma {:induction false} OwnRangeCounted(s: State, owners: seq<Owner>, op: Op, first: nat, count: nat)
    requires Counted(s, owners) && first + count <= |s.used|
    requires forall i :: first <= i < first + count ==> Matches(owners, op, i)
    ensures Counted(ApplyRange(s, op, first, count), OwnRange(owners, op, first, count))
    decreases count
  {
    assert |owners| == |s.used|;
    hide Counted, Apply, Own;
    if count > 0 {
      OwnRangeCounted(s, owners, op, first, count - 1);
      assert Matches(owners, op, first + count - 1);
      OwnCounted(ApplyRange(s, op, first, count - 1), OwnRange(owners, op, first, count - 1), op, first + count - 1);
    }
  }

  lemma NothingHeld(s: State, owners: seq<Owner>)
    requires |owners| == |s.used| && s.usedMemory == 0 == s.reservedMemory
    requires forall i :: 0 <= i < |owners| ==> owners[i] == Nobody && !s.used[i]
    ensures Counted(s, owners)
  {
    HeldNone(owners);
  }

  /** Reserving the first megabyte of a memory that is all free. */
  lemma FirstMegabyte(s: State)
    requires |s.used| >= 0x100 && s.usedMemory == 0 == s.reservedMemory
    requires forall i :: 0 <= i < |s.used| ==> !s.used[i]
    ensures var s' := ApplyRange(s, Reserve, 0, 0x100);
            && (forall i :: 0 <= i < |s'.used| ==> s'.used[i] == (i < 0x100))
            && exists owners :: Counted(s', owners)
  {
    hide Held, Own, Apply, Counted;
    RangeMap(s, Reserve, 0, 0x100);
    var owners := seq(|s.used|, _ => Nobody);
    NothingHeld(s, owners);
    OwnRangeCounted(s, owners, Reserve, 0, 0x100);
  }

  /** Who has which frame after an event. */
  function OwnStep(s: State, owners: seq<Owner>, e: Event): seq<Owner>
    requires |owners| == |s.used|
  {
    match e
    case Batch(op, first, count) => if first + count <= |s.used| then OwnRange(owners, op, first, count) else owners
    case RequestOne => if LowestFree(s.used, 0).None? then owners else Own(owners, Lock, LowestFree(s.used, 0).value)
  }

  lemma StepCounted(s: State, owners: seq<Owner>, e: Event)
    requires Counted(s, owners)
    requires e.Batch? && e.first + e.count <= |s.used| ==>
               forall i :: e.first <= i < e.first + e.count ==> Matches(owners, e.op, i)
    ensures Counted(Step(s, e), OwnStep(s, owners, e))
  {
    match e
    case Batch(op, first, count) =>
      if first + count <= |s.used| { OwnRangeCounted(s, owners, op, first, count); }
    case RequestOne =>
      var p := LowestFree(s.used, 0);
      if p.Some? { OwnCounted(s.(hint := p.value), owners, Lock, p.value); }
  }

  /** Over the run, frames are given back by the operation that belongs to how they were taken. */
  ghost predicate WellMatched(s: State, owners: seq<Owner>, events: seq<Event>)
    requires |owners| == |s.used|
    decreases |events|
  {
    events != [] ==>
      var e := events[0];
      && (e.Batch? && e.first + e.count <= |s.used| ==>
            forall i :: e.first <= i < e.first + e.count ==> Matches(owners, e.op, i))
      && |Step(s, e).used| == |OwnStep(s, owners, e)|
      && WellMatched(Step(s, e), OwnStep(s, owners, e), events[1..])
  }

  /** Then used memory is always that of the locked frames and reserved memory that of the reserved ones. */
  lemma {:induction false} RunCounted(s: State, owners: seq<Owner>, events: seq<Event>) returns (owners': seq<Owner>)
    requires Counted(s, owners) && WellMatched(s, owners, events)
    ensures Counted(Run(s, events), owners')
    decreases |events|
  {
    assert |owners| == |s.used|;
    hide Counted, Step, OwnStep, Matches;
    owners' := owners;
    if events != [] {
      StepCounted(s, owners, events[0]);
      owners' := RunCounted(Step(s, events[0]), OwnStep(s, owners, events[0]), events[1..]);
    }
  }

  class FrameAllocator {
    const pagesUsed: array<bool>
    var pageIndex: nat
    var freeMemory: nat
    var usedMemory: nat
    var reservedMemory: nat
    ghost const total: nat

    ghost function Model(): State
      reads this, pagesUsed
    {
      State(pagesUsed[..], pageIndex, freeMemory, usedMemory, reservedMemory)
    }

    ghost predicate Valid()
      reads this, pagesUsed
    {
      Inv(Model(), total) && pagesUsed.Length * FRAME_SIZE < W64
    }

    /** The map as INIT_PAGING sets it up: one byte per frame of a memory of the given size, all
        free but the first megabyte. */
    constructor (totalMemory: nat)
      requires 0x100 * FRAME_SIZE <= totalMemory < 0x1_0000_0000_0000 - FRAME_SIZE
      ensures Valid() && fresh(pagesUsed) && total == totalMemory
      ensures pagesUsed.Length == totalMemory / FRAME_SIZE + 1
      ensures forall i :: 0 <= i < pagesUsed.Length ==> pagesUsed[i] == (i < 0x100)
      ensures exists owners :: Counted(Model(), owners)
    {
      pagesUsed := new bool[totalMemory / FRAME_SIZE + 1](_ => false);
      pageIndex := 0;
      freeMemory, usedMemory, reservedMemory := totalMemory, 0, 0;
      total := totalMemory;
      new;
      hide Counted, Apply;
      UsedNone(pagesUsed[..]);
      FirstMegabyte(Model());
      ReservePages(0, 0x100);
    }

    method LockPage(adr: nat)
      requires Valid() && adr / FRAME_SIZE < pagesUsed.Length
      modifies this, pagesUsed
      ensures Valid() && Model() == Apply(old(Model()), Lock, adr / FRAME_SIZE)
    {
      hide Inv;
      var page := adr / FRAME_SIZE;
      ApplyInv(Model(), Lock, page, total);
      if !pagesUsed[page] {
        pagesUsed[page] := true;
        freeMemory := Sub(freeMemory, FRAME_SIZE);
        usedMemory := Add(usedMemory, FRAME_SIZE);
      }
    }

    method FreePage(adr: nat)
      requires Valid() && adr / FRAME_SIZE < pagesUsed.Length
      modifies this, pagesUsed
      ensures Valid() && Model() == Apply(old(Model()), Free, adr / FRAME_SIZE)
    {
      hide Inv;
      var page := adr / FRAME_SIZE;
      ApplyInv(Model(), Free, page, total);
      if pagesUsed[page] {
        pagesUsed[page] := false;
        freeMemory := Add(freeMemory, FRAME_SIZE);
        usedMemory := Sub(usedMemory, FRAME_SIZE);
        pageIndex := Min(pageIndex, page);
      }
    }

    method ReservePage(adr: nat)
      requires Valid() && adr / FRAME_SIZE < pagesUsed.Length
      modifies this, pagesUsed
      ensures Valid() && Model() == Apply(old(Model()), Reserve, adr / FRAME_SIZE)
    {
      hide Inv;
      var page := adr / FRAME_SIZE;
      ApplyInv(Model(), Reserve, page, total);
      if !pagesUsed[page] {
        pagesUsed[page] := true;
        freeMemory := Sub(freeMemory, FRAME_SIZE);
        reservedMemory := Add(reservedMemory, FRAME_SIZE);
      }
    }

    method UnreservePage(adr: nat)
      requires Valid() && adr / FRAME_SIZE < pagesUsed.Length
      modifies this, pagesUsed
      ensures Valid() && Model() == Apply(old(Model()), Unreserve, adr / FRAME_SIZE)
    {
      hide Inv;
      var page := adr / FRAME_SIZE;
      ApplyInv(Model(), Unreserve, page, total);
      if pagesUsed[page] {
        pagesUsed[page] := false;
        freeMemory := Add(freeMemory, FRAME_SIZE);
        reservedMemory := Sub(reservedMemory, FRAME_SIZE);
        pageIndex := Min(pageIndex, page);
      }
    }

    method LockPages(adr: nat, count: nat)
      requires Valid() && adr / FRAME_SIZE + count <= pagesUsed.Length && count <= MAX_BATCH
      modifies this, pagesUsed
      ensures Valid() && Model() == ApplyRange(old(Model()), Lock, adr / FRAME_SIZE, count)
    {
      hide Inv, Apply;
      for i := 0 to count
        invariant Valid() && Model() == ApplyRange(old(Model()), Lock, adr / FRAME_SIZE, i)
      {
        LockPage(adr + i * FRAME_SIZE);
      }
    }

    method FreePages(adr: nat, count: nat)
      requires Valid() && adr / FRAME_SIZE + count <= pagesUsed.Length && count <= MAX_BATCH
      modifies this, pagesUsed
      ensures Valid() && Model() == ApplyRange(old(Model()), Free, adr / FRAME_SIZE, count)
    {
      hide Inv, Apply;
      for i := 0 to count
        invariant Valid() && Model() == ApplyRange(old(Model()), Free, adr / FRAME_SIZE, i)
      {
        FreePage(adr + i * FRAME_SIZE);
      }
    }

    method ReservePages(adr: nat, count: nat)
      requires Valid() && adr / FRAME_SIZE + count <= pagesUsed.Length && count <= MAX_BATCH
      modifies this, pagesUsed
      ensures Valid() && Model() == ApplyRange(old(Model()), Reserve, adr / FRAME_SIZE, count)
    {
      hide Inv, Apply;
      for i := 0 to count
        invariant Valid() && Model() == ApplyRange(old(Model()), Reserve, adr / FRAME_SIZE, i)
      {
        ReservePage(adr + i * FRAME_SIZE);
      }
    }

    method UnreservePages(adr: nat, count: nat)
      requires Valid() && adr / FRAME_SIZE + count <= pagesUsed.Length && count <= MAX_BATCH
      modifies this, pagesUsed
      ensures Valid() && Model() == ApplyRange(old(Model()), Unreserve, adr / FRAME_SIZE, count)
    {
      hide Inv, Apply;
      for i := 0 to count
        invariant Valid() && Model() == ApplyRange(old(Model()), Unreserve, adr / FRAME_SIZE, i)
      {
        UnreservePage(adr + i * FRAME_SIZE);
      }
    }

    /** Hands out the lowest free frame, or NULL when there is none. */
    method RequestPage() returns (adr: nat)
      requires Valid()
      modifies this, pagesUsed
      ensures Valid() && Model() == Request(old(Model())).0
      ensures adr == RequestedAdr(old(Model()))
    {
      hide Inv, LowestFree;
      ghost var s := Model();
      ghost var lowest := LowestFree(s.used, 0);
      RequestInv(s, total);
      HintedSearch(s, total);
      while pageIndex < pagesUsed.Length
        invariant pageIndex <= pagesUsed.Length
        invariant Model() == s.(hint := pageIndex)
        invariant LowestFree(s.used, pageIndex) == lowest
      {
        SearchStep(s.used, pageIndex);
        if !pagesUsed[pageIndex] {
          HintInv(s, pageIndex, total);
          LockPage(pageIndex * FRAME_SIZE);
          return pageIndex * FRAME_SIZE;
        }
        pageIndex := pageIndex + 1;
      }
      SearchStep(s.used, pageIndex);
      return 0;
    }
  }

  lemma SearchStep(used: seq<bool>, from: nat)
    requires from <= |used|
    ensures LowestFree(used, from) ==
      if from == |used| then None else if used[from] then LowestFree(used, from + 1) else Some(from)
  {}

  lemma HintInv(s: State, p: nat, total: nat)
    requires Inv(s, total) && LowestFree(s.used, 0) == Some(p)
    ensures Inv(s.(hint := p), total)
  {}

  lemma {:induction false} UsedNone(used: seq<bool>)
    requires forall i :: 0 <= i < |used| ==> !used[i]
    ensures Used(used) == 0
  {
    if used != [] { UsedNone(used[..|used| - 1]); }
  }

  /** With a frame available, a request takes exactly one, and it was free. */
  lemma RequestTakes(s: State)
    requires Available(s.used) > 0
    ensures var (s', p) := Request(s);
            && p.Some? && p.value < |s.used| && !s.used[p.value]
            && s'.used == s.used[p.value := true]
            && Available(s'.used) == Available(s.used) - 1
  {
    RequestFails(s);
    UsedUpdate(s.used, Request(s).1.value, true);
  }

  lemma {:induction false} UsedSome(used: seq<bool>, i: nat)
    requires i < |used| && !used[i]
    ensures Used(used) < |used|
  {
    var last := |used| - 1;
    if i < last { UsedSome(used[..last], i); }
  }

  /** A request fails exactly when no frame is free. */
  lemma RequestFails(s: State)
    ensures Request(s).1.None? <==> Available(s.used) == 0
  {
    var p := LowestFree(s.used, 0);
    if p.Some? { UsedSome(s.used, p.value); } else { UsedAll(s.used); }
  }

  /** The address a request returns, 0 standing for failure. */
  function RequestedAdr(s: State): nat {
    var p := Request(s).1;
    if p.Some? then p.value * FRAME_SIZE else 0
  }

  /** A NULL result means that memory is exhausted exactly when frame 0 is kept out of circulation. */
  lemma NullMeansExhausted(s: State)
    requires |s.used| > 0
    ensures (RequestedAdr(s) == 0 <==> Available(s.used) == 0) <==> s.used[0]
  {
    RequestFails(s);
  }

  /** With frame 0 free and nothing else, a request succeeds and looks like a failure. */
  lemma FrameZeroLooksLikeNull()
    ensures var s := State([false], 0, FRAME_SIZE, 0, 0);
            Balanced(s, FRAME_SIZE) && RequestedAdr(s) == 0 && Request(s).1 == Some(0) && Available(s.used) == 1
  {
    assert Used([]) == 0;
    assert [false][..0] == [];
  }
}
