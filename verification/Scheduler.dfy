/** get_next_thread over the kernel's own state: the ring buffer of waiting threads and the fields of
    the thread structures, by address. */
module Scheduler {
  import opened RingBuffer
  import SM = SchedulerModel

  const THREAD_DEAD: nat := 1

  class Scheduler {
    var inited: bool
    var first: bool
    var currentThread: nat
    const threadPool: CircularBuffer<nat>
    var rsp: map<nat, nat>
    var state: map<nat, nat>

    /** The pool of waiting threads, each with a saved stack pointer and a state. */
    ghost predicate Ready()
      reads this, threadPool, threadPool.data
    {
      && threadPool.Valid() && threadPool.maxSize == SM.POOL_SIZE
      && (forall t :: t in state ==> state[t] == 0 || state[t] == THREAD_DEAD)
      && (forall t :: t in threadPool.Contents() ==> t in rsp && t in state)
      && (inited && !first ==> currentThread in state)
    }

    /** The scheduler has started and seen its first tick. */
    ghost predicate Valid()
      reads this, threadPool, threadPool.data
    {
      Ready() && inited && !first
    }

    ghost function Model(): SM.State
      requires Ready()
      reads this, threadPool, threadPool.data
    {
      SM.State(currentThread, threadPool.Contents(), Dead(), rsp)
    }

    ghost function Dead(): set<nat>
      reads this
    {
      set t | t in state && state[t] != 0
    }

    constructor ()
      ensures Ready() && !inited && first && fresh(threadPool) && fresh(threadPool.data)
      ensures threadPool.Contents() == [] && state == map[] && rsp == map[]
    {
      inited, first, currentThread := false, true, 0;
      rsp, state := map[], map[];
      threadPool := new CircularBuffer<nat>(SM.POOL_SIZE);
    }

    /** The end of start_scheduler. */
    method Start()
      requires Ready() && first
      modifies this`inited
      ensures Ready() && inited
    {
      inited := true;
    }

    /** A timer tick before the scheduler runs, or its first: the interrupted code goes on. */
    method Adopt(stackPtr: nat, boot: nat) returns (sp: nat)
      requires Ready() && (!inited || first)
      modifies this`first, this`currentThread, this`state
      ensures Ready() && sp == stackPtr
      ensures inited ==> !first && currentThread == boot && state == old(state)[boot := 0]
      ensures !inited ==> first == old(first) && currentThread == old(currentThread) && state == old(state)
    {
      if !inited {
        return stackPtr;
      }
      first := false;
      state := state[boot := 0];
      currentThread := boot;
      return stackPtr;
    }

    /** The timer tick.  boot is the address of the thread structure allocated at the first one. */
    method GetNextThread(stackPtr: nat, boot: nat) returns (sp: nat)
      requires Ready()
      modifies this`first, this`currentThread, this`rsp, this`state, threadPool, threadPool.data
      ensures Ready()
      ensures !inited ==> first == old(first) && currentThread == old(currentThread) && state == old(state)
      ensures inited ==> Valid()
      ensures inited && old(first) ==> currentThread == boot && state == old(state)[boot := 0]
      ensures !inited || old(first) ==>
                sp == stackPtr && rsp == old(rsp) && unchanged(threadPool) && unchanged(threadPool.data)
      ensures inited && !old(first) ==>
                Model() == SM.Tick(old(Model()), stackPtr) && state == old(state)
                && currentThread in rsp && sp == rsp[currentThread]
    {
      if !inited || first {
        sp := Adopt(stackPtr, boot);
      } else {
        sp := Switch(stackPtr);
      }
    }

    /** Every later tick: save the stack pointer, queue the current thread unless it is dead, and take
        the oldest waiting thread. */
    method Switch(stackPtr: nat) returns (sp: nat)
      requires Valid()
      modifies this`rsp, this`currentThread, threadPool, threadPool.data
      ensures Valid() && Model() == SM.Tick(old(Model()), stackPtr)
      ensures currentThread in rsp && sp == rsp[currentThread]
    {
      hide CircularBuffer.Contents, CircularBuffer.Valid;
      ghost var s := Model();
      rsp := rsp[currentThread := stackPtr];
      if state[currentThread] == 0 {
        var n := threadPool.Push([currentThread], 1);
        assert [currentThread][..n] == if n == 0 then [] else [currentThread];
      }
      ghost var queue := threadPool.Contents();
      assert queue == if s.current !in s.dead then SM.Enqueue(s.pool, s.current) else s.pool;
      Queued(s, queue);
      TakeOldest();
      sp := rsp[currentThread];
    }

    method TakeOldest()
      requires threadPool.Valid()
      modifies this`currentThread, threadPool, threadPool.data
      ensures threadPool.Valid()
      ensures var queue := old(threadPool.Contents());
              if queue == [] then currentThread == old(currentThread) && threadPool.Contents() == []
              else currentThread == queue[0] && threadPool.Contents() == queue[1..]
    {
      hide CircularBuffer.Contents, CircularBuffer.Valid;
      var out := new nat[1];
      out[0] := currentThread;
      var m := threadPool.Pop(out, 1);
      assert out[0] == out[..][0];
      currentThread := out[0];
    }

    /** Starting a thread: a new structure, put at the end of the pool. */
    method Spawn(t: nat, stack: nat)
      requires Ready()
      modifies this`rsp, this`state, threadPool, threadPool.data
      ensures Ready() && state == old(state)[t := 0]
      ensures Model() == SM.Step(old(Model()), SM.Spawn(t, stack))
    {
      hide CircularBuffer.Contents, CircularBuffer.Valid;
      rsp := rsp[t := stack];
      state := state[t := 0];
      ghost var waiting := threadPool.Contents();
      var n := threadPool.Push([t], 1);
      assert forall x :: x in threadPool.Contents() ==> x in waiting || x == t;
    }

    /** thread_exit, as far as the scheduler sees it. */
    method ThreadExit()
      requires Valid()
      modifies this`state
      ensures Valid() && state == old(state)[currentThread := THREAD_DEAD]
      ensures Model() == SM.Step(old(Model()), SM.Exit)
    {
      state := state[currentThread := THREAD_DEAD];
    }

    /** The machine, as far as the scheduler sees it: after the first tick, any sequence of timer ticks,
        new threads and exits of the current thread is a run of the model. */
    method Drive(es: seq<SM.Event>)
      requires Valid()
      modifies this`first, this`currentThread, this`rsp, this`state, threadPool, threadPool.data
      ensures Valid() && Model() == SM.Run(old(Model()), es)
    {
      hide SM.Tick;
      ghost var s := Model();
      for i := 0 to |es|
        invariant Valid() && SM.Run(Model(), es[i..]) == SM.Run(s, es)
      {
        RunStep(Model(), es, i);
        match es[i]
        case Timer(stack) => var sp := GetNextThread(stack, 0);
        case Spawn(t, stack) => Spawn(t, stack);
        case Exit => ThreadExit();
      }
    }

    /** Bounded waiting, for the code: over any run after the first tick, the thread at place k of the
        pool is the current one after exactly k + 1 ticks, with the stack pointer it was saved with, and
        with at most 256 living threads none is lost. */
    method DriveUntil(es: seq<SM.Event>, ghost k: nat)
      requires Valid() && SM.Inv(Model()) && SM.FreshSpawns(Model(), es)
      requires k < |threadPool.Contents()| && SM.Ticks(es) == k + 1
      modifies this`first, this`currentThread, this`rsp, this`state, threadPool, threadPool.data
      ensures Valid() && SM.Inv(Model())
      ensures currentThread == old(threadPool.Contents())[k] && currentThread in old(rsp) && currentThread in rsp
      ensures rsp[currentThread] == old(rsp)[currentThread]
      ensures old(SM.Bounded(Model(), es)) ==> SM.Living(Model()) == old(SM.Expected(Model(), SM.Living(Model()), es))
    {
      hide SM.Run, SM.Tick;
      SM.BoundedWait(Model(), es, k);
      SM.RunInv(Model(), es);
      if SM.Bounded(Model(), es) { SM.RunConserves(Model(), es); }
      Drive(es);
    }
  }

  lemma Queued(s: SM.State, queue: seq<SM.Tid>)
    requires queue == if s.current !in s.dead then SM.Enqueue(s.pool, s.current) else s.pool
    ensures forall t :: t in queue ==> t in s.pool || t == s.current
    ensures queue != [] ==> queue[0] in queue && forall t :: t in queue[1..] ==> t in queue
  {}

  lemma RunStep(s: SM.State, es: seq<SM.Event>, i: nat)
    requires i < |es|
    ensures SM.Run(s, es[i..]) == SM.Run(SM.Step(s, es[i]), es[i + 1..])
    ensures i + 1 == |es| ==> SM.Run(SM.Step(s, es[i]), es[i + 1..]) == SM.Step(s, es[i])
    ensures es[i].Timer? ==> SM.Step(s, es[i]) == SM.Tick(s, es[i].stack)
  {
    hide SM.Tick;
    assert es[i..][1..] == es[i + 1..];
  }
}
