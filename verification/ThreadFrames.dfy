/** Where threads come from.  The first one is the code that was already running: the first tick takes a
    structure for it from the heap, outside the frames that are managed, and it never ends.  new_thread
    puts every other one on a frame of its own, and destroy_thread gives the frame of a dead one back.  So
    addresses are used again, and it must be shown that no thread in the system is ever mistaken for a new
    one. */
module ThreadFrames {
  import opened Wrappers
  import Frames
  import RingBuffer
  import Scheduler
  import SM = SchedulerModel

  /** Where the kernel puts its heap, and the largest memory whose frames all lie below. */
  const HEAP_START: nat := 0x800_0000_0000

  const MAX_MAP: nat := 0x8000_0000

  datatype Machine = Machine(frames: Frames.State, sched: SM.State)

  /** What the threads do, and what other users of the frames do in between. */
  datatype Event = Timer(stack: nat) | NewThread(stack: nat) | Exit | Take | Other(op: Frames.Op, page: nat)

  /** The frame a thread structure lies in. */
  function Frame(t: SM.Tid): nat { t / Frames.FRAME_SIZE }

  function Step(m: Machine, e: Event): Machine {
    match e
    case Timer(stack) => Machine(FreedBy(m), SM.Tick(m.sched, stack))
    case NewThread(stack) =>
      var (frames, p) := Frames.Request(m.frames);
      if p.None? then m
      else Machine(frames, SM.Step(m.sched, SM.Spawn(p.value * Frames.FRAME_SIZE, stack)))
    case Exit => m.(sched := SM.Step(m.sched, SM.Exit))
    case Take => m.(frames := Frames.Request(m.frames).0)
    case Other(op, page) =>
      if page < |m.frames.used| then m.(frames := Frames.Apply(m.frames, op, page)) else m
  }

  /** A tick frees the frame of the current thread if that is dead. */
  function FreedBy(m: Machine): Frames.State {
    if m.sched.current in m.sched.dead && Frame(m.sched.current) < |m.frames.used|
    then Frames.Apply(m.frames, Frames.Free, Frame(m.sched.current))
    else m.frames
  }

  /** The current thread and the waiting ones lie in different frames, and those that are managed are in
      use. */
  ghost predicate Holds(m: Machine) {
    var used, pool, current := m.frames.used, m.sched.pool, m.sched.current;
    && NotFree(used, current)
    && (forall i :: 0 <= i < |pool| ==> NotFree(used, pool[i]) && Frame(pool[i]) != Frame(current))
    && (forall i, j :: 0 <= i < j < |pool| ==> Frame(pool[i]) != Frame(pool[j]))
  }

  ghost predicate NotFree(used: seq<bool>, t: SM.Tid) {
    Frame(t) < |used| ==> used[Frame(t)]
  }

  /** The first thread is in the system, and alive. */
  ghost predicate Here(s: SM.State, boot: SM.Tid) {
    boot !in s.dead && (s.current == boot || boot in s.pool)
  }

  /** The first thread lies outside the managed frames, and every other one in them. */
  ghost predicate Placed(m: Machine, boot: SM.Tid) {
    && Frame(boot) >= |m.frames.used|
    && (m.sched.current != boot ==> Frame(m.sched.current) < |m.frames.used|)
    && (forall t :: t in m.sched.pool && t != boot ==> Frame(t) < |m.frames.used|)
  }

  /** What is true from the first tick on. */
  ghost predicate Kernel(m: Machine, boot: SM.Tid) {
    Holds(m) && SM.Inv(m.sched) && Here(m.sched, boot) && Placed(m, boot)
  }

  lemma FrameOf(p: nat)
    ensures Frame(p * Frames.FRAME_SIZE) == p
  {}

  /** The heap lies behind all frames of a memory of less than eight terabytes. */
  lemma HeapIsElsewhere(boot: nat, n: nat)
    requires HEAP_START <= boot && n <= MAX_MAP
    ensures Frame(boot) >= n
  {}

  // ----- what each event keeps

  /** A tick keeps the threads on frames of their own exactly as long as some thread is alive or the
      current one is the first. */
  lemma TickHolds(m: Machine, stack: nat)
    requires Holds(m) && SM.Inv(m.sched)
    ensures Holds(Step(m, Timer(stack))) <==>
            SM.Living(m.sched) != {} || Frame(m.sched.current) >= |m.frames.used|
  {
    var s := m.sched;
    SM.LivingAre(s);
    var queue := if s.current !in s.dead then SM.Enqueue(s.pool, s.current) else s.pool;
    if s.current !in s.dead {
      assert s.current in SM.Living(s);
      TickMoves(m, queue);
    } else if s.pool != [] {
      assert s.pool[0] in SM.Living(s);
    } else {
      assert SM.Living(s) == {};
    }
  }

  /** Rotating the pool gives no two threads the same frame. */
  lemma TickMoves(m: Machine, queue: seq<SM.Tid>)
    requires Holds(m) && m.sched.current !in m.sched.dead && queue == SM.Enqueue(m.sched.pool, m.sched.current)
    ensures queue != []
    ensures forall i :: 0 <= i < |queue| ==> NotFree(m.frames.used, queue[i])
    ensures forall i, j :: 0 <= i < j < |queue| ==> Frame(queue[i]) != Frame(queue[j])
  {}

  /** With the first thread in the system and room in the pool, a tick keeps everything. */
  lemma TickKeeps(m: Machine, boot: SM.Tid, stack: nat)
    requires Kernel(m, boot) && SM.Alive(m.sched) <= SM.POOL_SIZE
    ensures Kernel(Step(m, Timer(stack)), boot)
  {
    var s, s' := m.sched, SM.Tick(m.sched, stack);
    SM.LivingAre(s);
    assert boot in SM.Living(s);
    TickHolds(m, stack);
    SM.TickInv(s, stack);
    SM.TickConserves(s, stack);
    SM.LivingAre(s');
    TickStays(s, stack);
    hide SM.Tick, SM.Inv, SM.Living, Holds;
  }

  /** A tick brings no thread into the system, and changes which are dead of none. */
  lemma TickStays(s: SM.State, stack: nat)
    ensures var s' := SM.Tick(s, stack);
            && s'.dead == s.dead
            && (s'.current == s.current || s'.current in s.pool)
            && forall t :: t in s'.pool ==> t in s.pool || t == s.current
  {}

  /** A new thread gets a frame that no thread in the system has. */
  lemma NewThreadHolds(m: Machine, stack: nat)
    requires Holds(m) && Frames.Available(m.frames.used) > 0
    ensures var p := Frames.Request(m.frames).1;
            && p.Some? && p.value < |m.frames.used|
            && p.value * Frames.FRAME_SIZE != m.sched.current && p.value * Frames.FRAME_SIZE !in m.sched.pool
    ensures Holds(Step(m, NewThread(stack)))
  {
    hide Frames.Apply, Frames.LowestFree, Frames.Available, Frame;
    Frames.RequestTakes(m.frames);
    FrameOf(Frames.Request(m.frames).1.value);
  }

  lemma NewThreadKeeps(m: Machine, boot: SM.Tid, stack: nat)
    requires Kernel(m, boot) && Frames.Available(m.frames.used) > 0
    ensures Kernel(Step(m, NewThread(stack)), boot)
  {
    hide Frames.Apply, Frames.LowestFree, Frames.Available, Frame, Frames.Request, Holds, SM.Inv;
    NewThreadHolds(m, stack);
    Frames.RequestTakes(m.frames);
    var p := Frames.Request(m.frames).1.value;
    FrameOf(p);
    var e := SM.Spawn(p * Frames.FRAME_SIZE, stack);
    assert [e][0] == e && [e][1..] == [];
    SM.StepInv(m.sched, e);
  }

  lemma ExitKeeps(m: Machine, boot: SM.Tid)
    requires Kernel(m, boot) && m.sched.current != boot
    ensures Kernel(Step(m, Exit), boot)
  {}

  /** Others may take frames, and give back those that no thread lies in. */
  lemma TakeKeeps(m: Machine, boot: SM.Tid)
    requires Kernel(m, boot)
    ensures Kernel(Step(m, Take), boot)
  {
    hide SM.Inv, Frames.LowestFree, Frame;
  }

  lemma OtherKeeps(m: Machine, boot: SM.Tid, op: Frames.Op, page: nat)
    requires Kernel(m, boot) && page < |m.frames.used|
    requires op.Free? || op.Unreserve? ==>
               page != Frame(m.sched.current) && forall t :: t in m.sched.pool ==> page != Frame(t)
    ensures Kernel(Step(m, Other(op, page)), boot)
  {
    hide SM.Inv, Frame;
  }

  // ----- the state after the first tick

  /** The code that runs when the heap is there, seen as the first thread, which it is from the first tick
      on.  No code looks at the current thread before that, so all that happens until then, like the start
      of other threads, is a run from here. */
  function AtStart(frames: Frames.State, boot: SM.Tid): Machine {
    Machine(frames, SM.State(boot, [], {}, map[]))
  }

  lemma AtStartIsKernel(frames: Frames.State, boot: SM.Tid)
    requires HEAP_START <= boot && |frames.used| <= MAX_MAP
    ensures Kernel(AtStart(frames, boot), boot) && SM.Alive(AtStart(frames, boot).sched) == 1
  {
    HeapIsElsewhere(boot, |frames.used|);
  }

  /** start_scheduler makes one thread. */
  function Booted(frames: Frames.State, boot: SM.Tid, stack: nat): Machine {
    Step(AtStart(frames, boot), NewThread(stack))
  }

  lemma BootedIsKernel(frames: Frames.State, boot: SM.Tid, stack: nat)
    requires Frames.Available(frames.used) > 0 && HEAP_START <= boot && |frames.used| <= MAX_MAP
    ensures Kernel(Booted(frames, boot, stack), boot) && SM.Alive(Booted(frames, boot, stack).sched) == 2
    ensures var t := Frames.RequestedAdr(frames);
            Booted(frames, boot, stack) == Machine(Frames.Request(frames).0, SM.State(boot, [t], {}, map[t := stack]))
  {
    hide Frames.LowestFree, Frames.Available, Frames.Apply, Kernel;
    AtStartIsKernel(frames, boot);
    NewThreadKeeps(AtStart(frames, boot), boot, stack);
    Frames.RequestTakes(frames);
  }

  // ----- runs

  /** What must be true for the machine to go on: at most 256 threads are alive, the first one does not
      end, there is a frame for each new thread, and nobody gives back the frame of a thread. */
  ghost predicate CanGoOn(m: Machine, boot: SM.Tid, es: seq<Event>)
    decreases |es|
  {
    es != [] ==>
      && SM.Alive(m.sched) <= SM.POOL_SIZE
      && Allowed(m, boot, es[0])
      && CanGoOn(Step(m, es[0]), boot, es[1..])
  }

  ghost predicate Allowed(m: Machine, boot: SM.Tid, e: Event) {
    && (e.NewThread? ==> Frames.Available(m.frames.used) > 0)
    && (e.Exit? ==> m.sched.current != boot)
    && (e.Other? ==> e.page < |m.frames.used|)
    && (e.Other? && (e.op.Free? || e.op.Unreserve?) ==>
          e.page != Frame(m.sched.current) && forall t :: t in m.sched.pool ==> e.page != Frame(t))
  }

  lemma StepKeeps(m: Machine, boot: SM.Tid, e: Event)
    requires Kernel(m, boot) && Allowed(m, boot, e) && SM.Alive(m.sched) <= SM.POOL_SIZE
    ensures Kernel(Step(m, e), boot)
  {
    hide Kernel, Step;
    match e
    case Timer(stack) => TickKeeps(m, boot, stack);
    case NewThread(stack) => NewThreadKeeps(m, boot, stack);
    case Exit => ExitKeeps(m, boot);
    case Take => TakeKeeps(m, boot);
    case Other(op, page) => OtherKeeps(m, boot, op, page);
  }

  function Run(m: Machine, es: seq<Event>): Machine
    decreases |es|
  {
    if es == [] then m else Run(Step(m, es[0]), es[1..])
  }

  // ----- frames in use

  /** A tick gives back the frame of a dead current thread, and touches no other. */
  lemma TickFrees(m: Machine, boot: SM.Tid, stack: nat)
    requires Kernel(m, boot)
    ensures var used, used', t := m.frames.used, Step(m, Timer(stack)).frames.used, m.sched.current;
            if t in m.sched.dead
            then && Frame(t) < |used| && used[Frame(t)] && used' == used[Frame(t) := false]
                 && Frames.Available(used') == Frames.Available(used) + 1
            else used' == used
  {
    hide SM.Tick, SM.Inv, Frames.Used;
    var used, t := m.frames.used, m.sched.current;
    if t in m.sched.dead { Frames.UsedUpdate(used, Frame(t), false); }
  }

  /** What each event does to the number of frames in use. */
  function Uses(m: Machine, e: Event): int {
    match e
    case Timer(_) => if m.sched.current in m.sched.dead then -1 else 0
    case NewThread(_) => 1
    case Exit => 0
    case Take => if Frames.Available(m.frames.used) > 0 then 1 else 0
    case Other(_, _) => 0
  }

  lemma StepUses(m: Machine, boot: SM.Tid, e: Event)
    requires Kernel(m, boot) && Allowed(m, boot, e) && !e.Other?
    ensures Frames.Available(Step(m, e).frames.used) == Frames.Available(m.frames.used) - Uses(m, e)
  {
    match e
    case Timer(stack) => TickFrees(m, boot, stack);
    case NewThread(stack) => Frames.RequestTakes(m.frames);
    case Exit =>
    case Take =>
      if Frames.Available(m.frames.used) > 0 { Frames.RequestTakes(m.frames); } else { TakeNothing(m.frames); }
    case Other(_, _) =>
  }

  lemma TakeNothing(s: Frames.State)
    requires Frames.Available(s.used) == 0
    ensures Frames.Request(s).0.used == s.used
  {
    Frames.RequestFails(s);
  }

  /** Ticks at which the current thread is dead: the ended threads that are gone. */
  function Gone(m: Machine, es: seq<Event>): nat
    decreases |es|
  {
    if es == [] then 0
    else (if es[0].Timer? && m.sched.current in m.sched.dead then 1 else 0) + Gone(Step(m, es[0]), es[1..])
  }

  /** Frames that others got. */
  function Taken(m: Machine, es: seq<Event>): nat
    decreases |es|
  {
    if es == [] then 0
    else (if es[0].Take? && Frames.Available(m.frames.used) > 0 then 1 else 0) + Taken(Step(m, es[0]), es[1..])
  }

  function Started(es: seq<Event>): nat
    decreases |es|
  {
    if es == [] then 0 else (if es[0].NewThread? then 1 else 0) + Started(es[1..])
  }

  /** No frame is lost and none comes back twice: over every run in which others only take frames, those
      in use are the ones in use before, the ones taken and those of the new threads, without those of the
      ended threads that are gone. */
  lemma {:induction false} RunUses(m: Machine, boot: SM.Tid, es: seq<Event>)
    requires Kernel(m, boot) && CanGoOn(m, boot, es) && forall e :: e in es ==> !e.Other?
    ensures var used, used' := m.frames.used, Run(m, es).frames.used;
            |used'| == |used| &&
            Frames.Used(used') == Frames.Used(used) + Taken(m, es) + Started(es) - Gone(m, es)
    decreases |es|
  {
    hide Kernel, Step, Allowed, Frames.Used;
    if es != [] {
      var e := es[0];
      assert e in es;
      StepKeeps(m, boot, e);
      StepUses(m, boot, e);
      StepSize(m, e);
      RunUses(Step(m, e), boot, es[1..]);
    }
  }

  lemma StepSize(m: Machine, e: Event)
    ensures |Step(m, e).frames.used| == |m.frames.used|
  {
    hide SM.Tick, SM.Step;
  }

  /** What each event does to the number of waiting threads, while the pool has room for new ones. */
  lemma StepWaits(m: Machine, boot: SM.Tid, e: Event)
    requires Kernel(m, boot) && Allowed(m, boot, e) && SM.Alive(m.sched) <= SM.POOL_SIZE
    requires e.NewThread? ==> |m.sched.pool| < SM.POOL_SIZE
    ensures |Step(m, e).sched.pool| == |m.sched.pool| + if e.Take? then 0 else Uses(m, e)
  {
    hide Frames.Apply, Frames.Available, Frames.Used, Holds, Placed;
    if e.NewThread? {
      hide Kernel;
      Frames.RequestTakes(m.frames);
    } else if e.Timer? && m.sched.current in m.sched.dead {
      assert boot in m.sched.pool;
    }
  }

  /** The frames of ended threads are used again: apart from the frames that others took, the number in use
      goes up and down with the number of threads, over every run in which the pool has room for each new
      thread. */
  lemma {:induction false} NoLeak(m: Machine, boot: SM.Tid, es: seq<Event>)
    requires Kernel(m, boot) && CanGoOn(m, boot, es) && RoomForAll(m, es) && forall e :: e in es ==> !e.Other?
    ensures var m' := Run(m, es);
            Frames.Used(m'.frames.used) - |m'.sched.pool| == Frames.Used(m.frames.used) - |m.sched.pool| + Taken(m, es)
    decreases |es|
  {
    hide Kernel, Step, Allowed, Frames.Used;
    if es != [] {
      var e := es[0];
      assert e in es;
      StepKeeps(m, boot, e);
      StepUses(m, boot, e);
      StepSize(m, e);
      StepWaits(m, boot, e);
      NoLeak(Step(m, e), boot, es[1..]);
    }
  }

  ghost predicate RoomForAll(m: Machine, es: seq<Event>)
    decreases |es|
  {
    es != [] ==> (es[0].NewThread? ==> |m.sched.pool| < SM.POOL_SIZE) && RoomForAll(Step(m, es[0]), es[1..])
  }

  /** What the scheduler sees of an event, with the address that the frame allocator gave. */
  function SeenOne(m: Machine, e: Event): seq<SM.Event> {
    match e
    case Timer(stack) => [SM.Timer(stack)]
    case NewThread(stack) =>
      var p := Frames.Request(m.frames).1;
      if p.None? then [] else [SM.Spawn(p.value * Frames.FRAME_SIZE, stack)]
    case Exit => [SM.Exit]
    case Take => []
    case Other(_, _) => []
  }

  function Seen(m: Machine, es: seq<Event>): seq<SM.Event>
    decreases |es|
  {
    if es == [] then [] else SeenOne(m, es[0]) + Seen(Step(m, es[0]), es[1..])
  }

  function Ticks(es: seq<Event>): nat
    decreases |es|
  {
    if es == [] then 0 else (if es[0].Timer? then 1 else 0) + Ticks(es[1..])
  }

  lemma {:induction false} SeenTicks(m: Machine, es: seq<Event>)
    ensures SM.Ticks(Seen(m, es)) == Ticks(es)
    decreases |es|
  {
    hide Step;
    if es != [] {
      var one, rest := SeenOne(m, es[0]), Seen(Step(m, es[0]), es[1..]);
      SeenTicks(Step(m, es[0]), es[1..]);
      if one == [] { assert one + rest == rest; } else { assert (one + rest)[1..] == rest; }
    }
  }

  /** Every run of the machine is a run of the scheduler in which new threads have new addresses, and the
      first thread stays in the system. */
  lemma {:induction false} RunIsFresh(m: Machine, boot: SM.Tid, es: seq<Event>)
    requires Kernel(m, boot) && CanGoOn(m, boot, es)
    ensures SM.FreshSpawns(m.sched, Seen(m, es)) && Run(m, es).sched == SM.Run(m.sched, Seen(m, es))
    ensures Kernel(Run(m, es), boot)
    decreases |es|
  {
    hide Kernel, Step, SeenOne, Allowed;
    if es != [] {
      var m1, rest := Step(m, es[0]), Seen(Step(m, es[0]), es[1..]);
      StepKeeps(m, boot, es[0]);
      RunIsFresh(m1, boot, es[1..]);
      OneSeen(m, boot, es[0], rest);
    }
  }

  lemma OneSeen(m: Machine, boot: SM.Tid, e: Event, rest: seq<SM.Event>)
    requires Kernel(m, boot) && Allowed(m, boot, e)
    ensures SM.FreshSpawns(Step(m, e).sched, rest) ==> SM.FreshSpawns(m.sched, SeenOne(m, e) + rest)
    ensures SM.Run(m.sched, SeenOne(m, e) + rest) == SM.Run(Step(m, e).sched, rest)
  {
    hide SM.Tick, SM.Inv, Holds, Frames.Request, Frames.Available, Frames.Apply;
    var one := SeenOne(m, e);
    if e.NewThread? { NewThreadHolds(m, e.stack); }
    if one == [] { assert one + rest == rest; } else { assert (one + rest)[1..] == rest; }
  }

  /** Bounded waiting for the kernel from its first tick on: the thread at place k of the pool is current
      after exactly k + 1 ticks, whatever threads start and end, and whoever takes and gives frames. */
  lemma MachineWait(m: Machine, boot: SM.Tid, es: seq<Event>, k: nat)
    requires Kernel(m, boot) && CanGoOn(m, boot, es)
    requires k < |m.sched.pool| && Ticks(es) == k + 1
    ensures var s', t := Run(m, es).sched, m.sched.pool[k];
            s'.current == t && t in s'.rsp && t in m.sched.rsp && s'.rsp[t] == m.sched.rsp[t]
  {
    RunIsFresh(m, boot, es);
    SeenTicks(m, es);
    hide Holds, Placed, Here, Step, Run, Seen, CanGoOn;
    SM.BoundedWait(m.sched, Seen(m, es), k);
    hide SM.Run;
  }

  /** A scheduler with one thread started, and then its first tick. */
  method FirstTick(t: nat, boot: nat, stack: nat, stackPtr: nat) returns (s: Scheduler.Scheduler)
    ensures fresh(s) && fresh(s.threadPool) && fresh(s.threadPool.data) && s.Valid()
    ensures s.Model() == SM.State(boot, [t], {}, map[t := stack])
  {
    hide RingBuffer.CircularBuffer.Contents, RingBuffer.CircularBuffer.Valid;
    s := new Scheduler.Scheduler();
    s.Spawn(t, stack);
    s.Start();
    var sp := s.GetNextThread(stackPtr, boot);
  }

  /** A new thread runs for the first time after exactly as many ticks as threads are before it, with the
      stack it was given. */
  lemma NewThreadRuns(m: Machine, boot: SM.Tid, stack: nat, es: seq<Event>)
    requires Kernel(m, boot) && Frames.Available(m.frames.used) > 0 && |m.sched.pool| < SM.POOL_SIZE
    requires CanGoOn(Step(m, NewThread(stack)), boot, es) && Ticks(es) == |m.sched.pool| + 1
    ensures var s', t := Run(Step(m, NewThread(stack)), es).sched, Frames.RequestedAdr(m.frames);
            s'.current == t && t in s'.rsp && s'.rsp[t] == stack
  {
    hide Holds, SM.Inv, Run, CanGoOn, Frames.Apply, Frames.LowestFree, Frames.Available, Ticks;
    Frames.RequestTakes(m.frames);
    NewThreadKeeps(m, boot, stack);
    MachineWait(Step(m, NewThread(stack)), boot, es, |m.sched.pool|);
  }

  /** The frame allocator and the scheduler working on the same threads. */
  class ThreadSystem {
    const frames: Frames.FrameAllocator
    const scheduler: Scheduler.Scheduler
    /** The first thread. */
    const boot: nat

    ghost predicate Valid()
      reads frames, frames.pagesUsed, scheduler, scheduler.threadPool, scheduler.threadPool.data
    {
      frames.Valid() && scheduler.Valid() && Kernel(Model(), boot)
    }

    ghost function Model(): Machine
      requires frames.Valid() && scheduler.Valid()
      reads frames, frames.pagesUsed, scheduler, scheduler.threadPool, scheduler.threadPool.data
    {
      Machine(frames.Model(), scheduler.Model())
    }

    /** From the heap being there to the first tick: start_scheduler makes one thread, and the first tick
        adopts the running code, with the structure at the address given. */
    constructor (frames: Frames.FrameAllocator, boot: nat, stack: nat, stackPtr: nat)
      requires frames.Valid() && frames.pagesUsed.Length <= MAX_MAP && HEAP_START <= boot
      requires Frames.Available(frames.pagesUsed[..]) > 0
      modifies frames, frames.pagesUsed
      ensures Valid() && this.frames == frames && this.boot == boot && fresh(scheduler)
      ensures Model() == Booted(old(frames.Model()), boot, stack)
    {
      hide Frames.Inv, Frames.Apply, Frames.Available, Frames.LowestFree, Kernel;
      BootedIsKernel(frames.Model(), boot, stack);
      Frames.RequestTakes(frames.Model());
      var t := frames.RequestPage();
      this.frames, this.boot := frames, boot;
      var s := FirstTick(t, boot, stack, stackPtr);
      scheduler := s;
    }

    /** A timer tick, with destroy_thread. */
    method Tick(stackPtr: nat) returns (sp: nat)
      requires Valid() && SM.Alive(Model().sched) <= SM.POOL_SIZE
      modifies frames, frames.pagesUsed, scheduler`first, scheduler`currentThread, scheduler`rsp, scheduler`state
      modifies scheduler.threadPool, scheduler.threadPool.data
      ensures Valid() && Model() == Step(old(Model()), Timer(stackPtr))
      ensures scheduler.currentThread in scheduler.rsp && sp == scheduler.rsp[scheduler.currentThread]
      ensures var t := old(scheduler.currentThread);
              if t in old(scheduler.Dead())
              then && Frame(t) < frames.pagesUsed.Length && old(frames.pagesUsed[..])[Frame(t)]
                   && frames.pagesUsed[..] == old(frames.pagesUsed[..])[Frame(t) := false]
              else frames.pagesUsed[..] == old(frames.pagesUsed[..])
    {
      hide Frames.Inv, Frames.Apply, SM.Tick, Holds, SM.Inv;
      TickKeeps(Model(), boot, stackPtr);
      TickFrees(Model(), boot, stackPtr);
      if scheduler.state[scheduler.currentThread] != 0 {
        frames.FreePage(scheduler.currentThread);
      }
      sp := scheduler.GetNextThread(stackPtr, 0);
    }

    /** new_thread and the push of the new thread. */
    method Start(stack: nat) returns (t: nat)
      requires Valid() && Frames.Available(frames.Model().used) > 0
      modifies frames, frames.pagesUsed, scheduler`rsp, scheduler`state, scheduler.threadPool, scheduler.threadPool.data
      ensures Valid() && Model() == Step(old(Model()), NewThread(stack))
      ensures t == Frames.RequestedAdr(old(frames.Model()))
    {
      hide Frames.Inv, Frames.Apply, Kernel;
      NewThreadKeeps(Model(), boot, stack);
      Frames.RequestTakes(frames.Model());
      t := frames.RequestPage();
      scheduler.Spawn(t, stack);
    }

    /** thread_exit. */
    method End()
      requires Valid() && scheduler.currentThread != boot
      modifies scheduler`state
      ensures Valid() && Model() == Step(old(Model()), Exit)
    {
      hide Kernel;
      ExitKeeps(Model(), boot);
      scheduler.ThreadExit();
    }

    /** REQUEST_PAGE by someone else. */
    method TakeFrame() returns (adr: nat)
      requires Valid()
      modifies frames, frames.pagesUsed
      ensures Valid() && Model() == Step(old(Model()), Take)
    {
      hide Kernel, Frames.Inv, Frames.Request;
      TakeKeeps(Model(), boot);
      adr := frames.RequestPage();
    }

    /** A single-page operation by someone else. */
    method OtherUse(op: Frames.Op, page: nat)
      requires Valid() && Allowed(Model(), boot, Other(op, page))
      modifies frames, frames.pagesUsed
      ensures Valid() && Model() == Step(old(Model()), Other(op, page))
    {
      hide Kernel, Frames.Inv, Frames.Apply;
      OtherKeeps(Model(), boot, op, page);
      FrameOf(page);
      match op
      case Lock => frames.LockPage(page * Frames.FRAME_SIZE);
      case Free => frames.FreePage(page * Frames.FRAME_SIZE);
      case Reserve => frames.ReservePage(page * Frames.FRAME_SIZE);
      case Unreserve => frames.UnreservePage(page * Frames.FRAME_SIZE);
    }

    /** Any sequence of such events, done by the methods, is a run of the machine. */
    method Drive(es: seq<Event>)
      requires Valid() && CanGoOn(Model(), boot, es)
      modifies frames, frames.pagesUsed, scheduler`first, scheduler`currentThread, scheduler`rsp, scheduler`state
      modifies scheduler.threadPool, scheduler.threadPool.data
      ensures Valid() && Model() == Run(old(Model()), es)
      ensures (forall e :: e in es ==> !e.Other?) ==>
                Frames.Used(frames.pagesUsed[..]) == old(Frames.Used(frames.pagesUsed[..]))
                  + old(Taken(Model(), es)) + Started(es) - old(Gone(Model(), es))
    {
      hide Kernel, Step, Frames.Used, Frames.Inv, Taken, Gone, Started;
      ghost var m := Model();
      if forall e :: e in es ==> !e.Other? { RunUses(m, boot, es); }
      for i := 0 to |es|
        invariant Valid() && CanGoOn(Model(), boot, es[i..]) && Run(Model(), es[i..]) == Run(m, es)
      {
        assert es[i..][1..] == es[i + 1..];
        match es[i]
        case Timer(stack) => var sp := Tick(stack);
        case NewThread(stack) => var t := Start(stack);
        case Exit => End();
        case Take => var adr := TakeFrame();
        case Other(op, page) => OtherUse(op, page);
      }
    }

    /** Bounded waiting for the methods, over any such sequence. */
    method DriveUntil(es: seq<Event>, ghost k: nat)
      requires Valid() && CanGoOn(Model(), boot, es)
      requires k < |Model().sched.pool| && Ticks(es) == k + 1
      modifies frames, frames.pagesUsed, scheduler`first, scheduler`currentThread, scheduler`rsp, scheduler`state
      modifies scheduler.threadPool, scheduler.threadPool.data
      ensures Valid() && scheduler.currentThread == old(Model()).sched.pool[k]
      ensures scheduler.currentThread in scheduler.rsp && scheduler.currentThread in old(scheduler.rsp)
      ensures scheduler.rsp[scheduler.currentThread] == old(scheduler.rsp)[scheduler.currentThread]
    {
      hide Kernel, CanGoOn, Run;
      MachineWait(Model(), boot, es, k);
      Drive(es);
    }
  }
}
