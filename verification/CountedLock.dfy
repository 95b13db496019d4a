/** The counted lock as a protocol: any number of threads, each atomic operation one step. */
module CountedLocks {
  import opened Options

  type Thread = nat

  /**
   Where a thread is in Lock and Unlock: not using the lock, announced or blocked on the mutex, holding it,
   or past the decrement of Unlock but still holding the mutex.
   */
  datatype Phase = Idle | Waiting | Holding | Leaving

  datatype Lock = Lock(numLocks: int, core: Option<Thread>, phase: map<Thread, Phase>) {
    function PhaseOf(t: Thread): Phase {
      if t in phase then phase[t] else Idle
    }

    predicate HasQueued() {
      numLocks > 1
    }
  }

  /** The four atomic operations: increment, mutex lock, decrement, mutex unlock. */
  datatype Action =
    | Announce(t: Thread)
    | Acquire(t: Thread)
    | Decrement(t: Thread)
    | Release(t: Thread)

  const INITIAL := Lock(0, None, map[])

  predicate Enabled(l: Lock, a: Action) {
    match a
    case Announce(t) => l.PhaseOf(t) == Idle
    case Acquire(t) => l.PhaseOf(t) == Waiting && l.core == None
    case Decrement(t) => l.PhaseOf(t) == Holding
    case Release(t) => l.PhaseOf(t) == Leaving
  }

  function Next(l: Lock, a: Action): Lock
    requires Enabled(l, a)
  {
    match a
    case Announce(t) => Lock(l.numLocks + 1, l.core, l.phase[t := Waiting])
    case Acquire(t) => Lock(l.numLocks, Some(t), l.phase[t := Holding])
    case Decrement(t) => Lock(l.numLocks - 1, l.core, l.phase[t := Leaving])
    case Release(t) => Lock(l.numLocks, None, l.phase - {t})
  }

  /** An interleaving: every action is enabled when its turn comes. */
  predicate IsRun(l: Lock, run: seq<Action>)
    decreases |run|
  {
    run == [] || (Enabled(l, run[0]) && IsRun(Next(l, run[0]), run[1..]))
  }

  function After(l: Lock, run: seq<Action>): Lock
    requires IsRun(l, run)
    decreases |run|
  {
    if run == [] then l else After(Next(l, run[0]), run[1..])
  }

  /** The threads the counter counts: announced or waiting, and the holder that has not decremented yet. */
  function Counted(l: Lock): set<Thread> {
    set t | t in l.phase && (l.phase[t] == Waiting || l.phase[t] == Holding)
  }

  predicate Inv(l: Lock) {
    && l.numLocks == |Counted(l)|
    && (forall t | t in l.phase :: l.phase[t] != Idle)
    && (forall t | t in l.phase :: (l.phase[t] == Holding || l.phase[t] == Leaving) <==> l.core == Some(t))
    && (l.core.Some? ==> l.core.value in l.phase)
  }

  lemma NextCounted(l: Lock, a: Action)
    requires Enabled(l, a) && l.numLocks == |Counted(l)|
    ensures Next(l, a).numLocks == |Counted(Next(l, a))|
  {
    var l' := Next(l, a);
    match a
    case Announce(t) => assert Counted(l') == Counted(l) + {t};
    case Acquire(t) => assert Counted(l') == Counted(l);
    case Decrement(t) => assert Counted(l') == Counted(l) - {t};
    case Release(t) => assert Counted(l') == Counted(l);
  }

  lemma NextKeepsInv(l: Lock, a: Action)
    requires Inv(l) && Enabled(l, a)
    ensures Inv(Next(l, a))
  {
    hide Counted;
    NextCounted(l, a);
  }

  lemma {:induction false} RunKeepsInv(l: Lock, run: seq<Action>)
    requires Inv(l) && IsRun(l, run)
    ensures Inv(After(l, run))
    decreases |run|
  {
    hide Inv, Next;
    if run != [] {
      NextKeepsInv(l, run[0]);
      RunKeepsInv(Next(l, run[0]), run[1..]);
    }
  }

  /** In every reachable interleaving at most one thread is between mutex lock and unlock, and the counter is exact. */
  lemma MutualExclusion(run: seq<Action>, t: Thread, u: Thread)
    requires IsRun(INITIAL, run)
    ensures var l := After(INITIAL, run);
      && l.numLocks == |Counted(l)|
      && (l.PhaseOf(t) in {Holding, Leaving} && l.PhaseOf(u) in {Holding, Leaving} ==> t == u)
  {
    InitialInv();
    RunKeepsInv(INITIAL, run);
  }

  /** Asked by the holder, HasQueued is true exactly when some thread is waiting. */
  lemma HasQueuedExact(l: Lock, t: Thread)
    requires Inv(l) && l.PhaseOf(t) == Holding
    ensures l.HasQueued() <==> exists u :: l.PhaseOf(u) == Waiting
  {
    var others := Counted(l) - {t};
    assert |Counted(l)| == |others| + 1;
    if l.HasQueued() {
      var u :| u in others;
      assert l.PhaseOf(u) == Waiting;
    }
    if u :| l.PhaseOf(u) == Waiting {
      assert u in others;
    }
  }

  lemma QueueSeenByHolder(run: seq<Action>, t: Thread)
    requires IsRun(INITIAL, run) && After(INITIAL, run).PhaseOf(t) == Holding
    ensures After(INITIAL, run).HasQueued() <==> exists u :: After(INITIAL, run).PhaseOf(u) == Waiting
  {
    InitialInv();
    RunKeepsInv(INITIAL, run);
    HasQueuedExact(After(INITIAL, run), t);
  }

  /** The steps that free the mutex: those of the thread that has it. */
  function Freeing(l: Lock): seq<Action> {
    if l.core.None? then []
    else if l.PhaseOf(l.core.value) == Holding then [Action.Decrement(l.core.value), Release(l.core.value)]
    else [Release(l.core.value)]
  }

  /** From every reachable state a thread that does not have the lock can get it. */
  lemma CanGetLock(run: seq<Action>, t: Thread) returns (later: seq<Action>)
    requires IsRun(INITIAL, run) && After(INITIAL, run).PhaseOf(t) in {Idle, Waiting}
    ensures IsRun(After(INITIAL, run), later) && After(After(INITIAL, run), later).PhaseOf(t) == Holding
  {
    hide Counted;
    var l := After(INITIAL, run);
    InitialInv();
    RunKeepsInv(INITIAL, run);
    var enter := if l.PhaseOf(t) == Idle then [Action.Announce(t), Acquire(t)] else [Acquire(t)];
    var free := Freeing(l);
    FreeingFrees(l, t);
    EnterRun(After(l, free), t);
    JoinRuns(l, free, enter);
    later := free + enter;
  }

  lemma InitialInv()
    ensures Inv(INITIAL)
  {
    assert Counted(INITIAL) == {};
  }

  lemma FreeingFrees(l: Lock, t: Thread)
    requires Inv(l) && l.PhaseOf(t) in {Idle, Waiting}
    ensures IsRun(l, Freeing(l)) && After(l, Freeing(l)).core == None
    ensures After(l, Freeing(l)).PhaseOf(t) == l.PhaseOf(t)
  {
    hide Counted;
    if l.core.Some? {
      var u := l.core.value;
      assert [Release(u)][1..] == [] && [Action.Decrement(u), Release(u)][1..] == [Release(u)];
      if l.PhaseOf(u) == Holding {
        var left := Next(l, Action.Decrement(u));
        assert IsRun(left, [Release(u)]) && After(left, [Release(u)]) == Next(left, Release(u));
      }
    }
  }

  lemma EnterRun(l: Lock, t: Thread)
    requires l.core == None && l.PhaseOf(t) in {Idle, Waiting}
    ensures var enter := if l.PhaseOf(t) == Idle then [Action.Announce(t), Acquire(t)] else [Acquire(t)];
      IsRun(l, enter) && After(l, enter).PhaseOf(t) == Holding
  {
    var announced := if l.PhaseOf(t) == Idle then Next(l, Action.Announce(t)) else l;
    assert [Acquire(t)][1..] == [] && [Action.Announce(t), Acquire(t)][1..] == [Acquire(t)];
    assert IsRun(announced, [Acquire(t)]) && After(announced, [Acquire(t)]) == Next(announced, Acquire(t));
  }

  lemma {:induction false} JoinRuns(l: Lock, x: seq<Action>, y: seq<Action>)
    requires IsRun(l, x) && IsRun(After(l, x), y)
    ensures IsRun(l, x + y) && After(l, x + y) == After(After(l, x), y)
    decreases |x|
  {
    hide Next, Enabled;
    if x == [] {
      assert x + y == y;
    } else {
      JoinRuns(Next(l, x[0]), x[1..], y);
      assert (x + y)[1..] == x[1..] + y;
    }
  }

  /** The lock object; each method is one atomic operation of Lock or Unlock by the given thread. */
  class CountedLock {
    var numLocks: int
    var core: Option<Thread>
    ghost var phase: map<Thread, Phase>

    ghost function View(): Lock
      reads this
    {
      Lock(numLocks, core, phase)
    }

    constructor ()
      ensures View() == INITIAL
    {
      numLocks, core, phase := 0, None, map[];
    }

    /** The increment of Lock. */
    method Announce(t: Thread)
      requires Enabled(View(), Action.Announce(t))
      modifies this
      ensures View() == Next(old(View()), Action.Announce(t))
    {
      numLocks := numLocks + 1;
      phase := phase[t := Waiting];
    }

    /** The mutex lock of Lock, once the mutex is free. */
    method Acquire(t: Thread)
      requires Enabled(View(), Action.Acquire(t))
      modifies this
      ensures View() == Next(old(View()), Action.Acquire(t))
    {
      core := Some(t);
      phase := phase[t := Holding];
    }

    /** The decrement of Unlock. */
    method Decrement(t: Thread)
      requires Enabled(View(), Action.Decrement(t))
      modifies this
      ensures View() == Next(old(View()), Action.Decrement(t))
    {
      numLocks := numLocks - 1;
      phase := phase[t := Leaving];
    }

    /** The mutex unlock of Unlock. */
    method Release(t: Thread)
      requires Enabled(View(), Action.Release(t))
      modifies this
      ensures View() == Next(old(View()), Action.Release(t))
    {
      core := None;
      phase := phase - {t};
    }

    /** Asked by the thread holding the lock. */
    method HasQueued(ghost t: Thread) returns (b: bool)
      requires Inv(View()) && View().PhaseOf(t) == Holding
      ensures b <==> exists u :: View().PhaseOf(u) == Waiting
    {
      HasQueuedExact(View(), t);
      return numLocks > 1;
    }
  }
}
