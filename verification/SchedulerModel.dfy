/** The round-robin scheduler as a transition system over the current thread and the thread pool. */
module SchedulerModel {
  /** Threads are known by the address of their thread structure. */
  type Tid = nat

  /** cb_init(256, 8) */
  const POOL_SIZE: nat := 256

  /** dead: threads marked THREAD_DEAD; rsp: the saved stack pointer of each thread. */
  datatype State = State(current: Tid, pool: seq<Tid>, dead: set<Tid>, rsp: map<Tid, nat>)

  function Enqueue(pool: seq<Tid>, t: Tid): seq<Tid> {
    if |pool| < POOL_SIZE then pool + [t] else pool
  }

  /** get_next_thread, called on a timer tick with the interrupted stack pointer. */
  function Tick(s: State, stack: nat): (s': State)
  {
    var rsp := s.rsp[s.current := stack];
    var pool := if s.current !in s.dead then Enqueue(s.pool, s.current) else s.pool;
    if pool == [] then s.(rsp := rsp)
    else State(pool[0], pool[1..], s.dead, rsp)
  }

  /** What happens in the system: ticks, new threads, and the current thread ending. */
  datatype Event = Timer(stack: nat) | Spawn(t: Tid, stack: nat) | Exit

  function Step(s: State, e: Event): State {
    match e
    case Timer(stack) => Tick(s, stack)
    case Spawn(t, stack) => s.(pool := Enqueue(s.pool, t), dead := s.dead - {t}, rsp := s.rsp[t := stack])
    case Exit => s.(dead := s.dead + {s.current})
  }

  function Run(s: State, es: seq<Event>): State
    decreases |es|
  {
    if es == [] then s else Run(Step(s, es[0]), es[1..])
  }

  function Ticks(es: seq<Event>): nat
    decreases |es|
  {
    if es == [] then 0 else (if es[0].Timer? then 1 else 0) + Ticks(es[1..])
  }

  /** New threads get addresses that neither the current nor a waiting thread has.  The frame of a dead
      thread may be used again. */
  ghost predicate FreshSpawns(s: State, es: seq<Event>)
    decreases |es|
  {
    es == [] ||
    ((es[0].Spawn? ==> es[0].t != s.current && es[0].t !in s.pool) && FreshSpawns(Step(s, es[0]), es[1..]))
  }

  /** Each thread occurs once among the current one and the pool, and no waiting thread is dead. */
  ghost predicate Inv(s: State) {
    && s.current !in s.pool
    && (forall i, j :: 0 <= i < j < |s.pool| ==> s.pool[i] != s.pool[j])
    && (forall t :: t in s.pool ==> t !in s.dead && t in s.rsp)
  }

  lemma TickInv(s: State, stack: nat)
    requires Inv(s)
    ensures Inv(Tick(s, stack))
  {
    var pool := if s.current !in s.dead then Enqueue(s.pool, s.current) else s.pool;
    var s' := Tick(s, stack);
    if pool != [] {
      assert forall i :: 0 <= i < |s'.pool| ==> s'.pool[i] == pool[i + 1];
      assert forall t :: t in pool ==> t !in s.dead;
    }
  }

  lemma StepInv(s: State, e: Event)
    requires Inv(s) && FreshSpawns(s, [e])
    ensures Inv(Step(s, e))
  {
    match e
    case Timer(stack) =>
      hide Tick, Inv;
      TickInv(s, stack);
    case Spawn(t, stack) =>
    case Exit =>
  }

  /** So does every run. */
  lemma {:induction false} RunInv(s: State, es: seq<Event>)
    requires Inv(s) && FreshSpawns(s, es)
    ensures Inv(Run(s, es))
    decreases |es|
  {
    if es != [] {
      StepInv(s, es[0]);
      RunInv(Step(s, es[0]), es[1..]);
    }
  }

  // ----- bounded waiting

  /** Without a tick the current thread goes on, and no other code touches its stack pointer. */
  lemma {:induction false} NoTicks(s: State, es: seq<Event>)
    requires Inv(s) && FreshSpawns(s, es) && Ticks(es) == 0 && s.current in s.rsp
    ensures var s' := Run(s, es);
            s'.current == s.current && s'.current in s'.rsp && s'.rsp[s'.current] == s.rsp[s.current]
    decreases |es|
  {
    if es != [] {
      StepInv(s, es[0]);
      NoTicks(Step(s, es[0]), es[1..]);
    }
  }

  /** The thread at place k of the pool runs after exactly k + 1 ticks, with the stack pointer it had,
      whatever threads start or end in between. */
  lemma {:induction false} BoundedWait(s: State, es: seq<Event>, k: nat)
    requires Inv(s) && FreshSpawns(s, es) && k < |s.pool| && Ticks(es) == k + 1
    ensures var s', t := Run(s, es), s.pool[k];
            s'.current == t && t in s'.rsp && s'.rsp[t] == s.rsp[t]
    decreases |es|
  {
    var s1 := Step(s, es[0]);
    StepInv(s, es[0]);
    if es[0].Timer? {
      if k == 0 { NoTicks(s1, es[1..]); } else { BoundedWait(s1, es[1..], k - 1); }
    } else {
      BoundedWait(s1, es[1..], k);
    }
  }

  /** A running thread that is interrupted while the pool has room runs again after exactly as many
      further ticks as there are threads ahead of it, and resumes with the stack pointer saved. */
  lemma FullCircle(s: State, stack: nat, es: seq<Event>)
    requires Inv(s) && s.current !in s.dead && |s.pool| < POOL_SIZE
    requires FreshSpawns(s, [Timer(stack)] + es) && Ticks(es) == |s.pool|
    ensures var s' := Run(Tick(s, stack), es);
            s'.current == s.current && s.current in s'.rsp && s'.rsp[s.current] == stack
  {
    assert ([Timer(stack)] + es)[1..] == es;
    var s1 := Tick(s, stack);
    StepInv(s, Timer(stack));
    if s.pool == [] {
      NoTicks(s1, es);
    } else {
      assert s1.pool[|s.pool| - 1] == s.current;
      BoundedWait(s1, es, |s.pool| - 1);
    }
  }

  /** A new thread waits for those that were there before it, and then starts with the stack pointer it
      was given, whatever a thread at the same address had. */
  lemma SpawnRuns(s: State, t: Tid, stack: nat, es: seq<Event>)
    requires Inv(s) && |s.pool| < POOL_SIZE
    requires FreshSpawns(s, [Spawn(t, stack)] + es) && Ticks(es) == |s.pool| + 1
    ensures var s' := Run(Step(s, Spawn(t, stack)), es);
            s'.current == t && t in s'.rsp && s'.rsp[t] == stack
  {
    assert ([Spawn(t, stack)] + es)[1..] == es;
    var s1 := Step(s, Spawn(t, stack));
    StepInv(s, Spawn(t, stack));
    assert s1.pool[|s.pool|] == t;
    BoundedWait(s1, es, |s.pool|);
  }

  // ----- no thread is lost or doubled

  ghost function Living(s: State): set<Tid> {
    (set t | t in s.pool && t !in s.dead) + if s.current in s.dead then {} else {s.current}
  }

  /** The threads of a pool, all alive, together with a living or a dead current one. */
  lemma LivingAre(s: State)
    requires Inv(s)
    ensures forall t :: t in Living(s) <==> t in s.pool || (t == s.current && t !in s.dead)
  {}

  lemma Dequeued(pool: seq<Tid>)
    requires pool != []
    ensures forall t :: t in pool <==> t == pool[0] || t in pool[1..]
  {
    assert pool == [pool[0]] + pool[1..];
  }

  /** A tick keeps every living thread exactly when the pool has room for the current one. */
  lemma TickConserves(s: State, stack: nat)
    requires Inv(s) && |s.pool| <= POOL_SIZE
    ensures Living(Tick(s, stack)) == Living(s) <==> s.current in s.dead || |s.pool| < POOL_SIZE
  {
    var pool := if s.current !in s.dead then Enqueue(s.pool, s.current) else s.pool;
    var s' := Tick(s, stack);
    TickInv(s, stack);
    LivingAre(s);
    LivingAre(s');
    if pool != [] {
      assert s'.current == pool[0] && s'.pool == pool[1..] && s'.dead == s.dead;
      Dequeued(pool);
      hide Tick, Inv, Living;
      assert pool[0] in pool;
      if s.current !in s.dead && |s.pool| == POOL_SIZE {
        assert s.current in Living(s) && s.current !in Living(s');
      } else {
        assert forall t :: t in pool <==> t in Living(s);
        assert pool[0] !in s.dead;
        assert forall t :: t in Living(s') <==> t in pool;
      }
    }
  }

  function Alive(s: State): nat {
    |s.pool| + if s.current in s.dead then 0 else 1
  }

  /** At most 256 threads are alive at any time. */
  ghost predicate Bounded(s: State, es: seq<Event>)
    decreases |es|
  {
    && Alive(s) <= POOL_SIZE
    && (es != [] ==> (es[0].Spawn? ==> Alive(s) < POOL_SIZE) && Bounded(Step(s, es[0]), es[1..]))
  }

  /** The threads that should be alive: those that were, plus those started, minus those that ended. */
  ghost function Expected(s: State, live: set<Tid>, es: seq<Event>): set<Tid>
    decreases |es|
  {
    if es == [] then live
    else Expected(Step(s, es[0]),
                  match es[0] case Timer(_) => live case Spawn(t, _) => live + {t} case Exit => live - {s.current},
                  es[1..])
  }

  /** Over every run with at most 256 living threads, the current thread and the pool hold each living
      thread exactly once. */
  lemma {:induction false} RunConserves(s: State, es: seq<Event>)
    requires Inv(s) && FreshSpawns(s, es) && Bounded(s, es)
    ensures Inv(Run(s, es)) && Living(Run(s, es)) == Expected(s, Living(s), es)
    decreases |es|
  {
    if es != [] {
      var s1 := Step(s, es[0]);
      StepInv(s, es[0]);
      match es[0] {
        case Timer(stack) => TickConserves(s, stack);
        case Spawn(t, stack) => assert Living(s1) == Living(s) + {t};
        case Exit => assert Living(s1) == Living(s) - {s.current};
      }
      RunConserves(s1, es[1..]);
    }
  }

  /** While any thread is alive, the one chosen is alive. */
  lemma ChoosesLiving(s: State, stack: nat)
    requires Inv(s)
    ensures Tick(s, stack).current !in s.dead <==> Living(s) != {}
  {
    if s.pool == [] {
    } else {
      assert s.pool[0] in Living(s);
    }
  }
}
