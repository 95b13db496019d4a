/** How the responses of doRead end, when a reader hands over, and that every request can be served. */
module HttpResponses {
  import opened Base
  import opened CountedLocks
  import opened StreamSpec
  import opened Options
  import opened HttpReads

  type Action = HttpReads.Action

  /** Is the response of the request of t complete? */
  predicate Over(h: Http, t: Thread) {
    t in h.stage && h.stage[t] in {Ended, Unlocking, Finished}
  }

  predicate EndsWithMarker(h: Http, t: Thread) {
    t in h.bodies && h.bodies[t] != [] && h.bodies[t][|h.bodies[t]| - 1] == Marker
  }

  /** Is some request other than that of t waiting for the lock? */
  ghost predicate Joined(h: Http, t: Thread) {
    exists u :: u != t && h.At(u, Queued)
  }

  /** The request that is the first to read when there are no frames left. */
  function FirstToFail(h: Http, run: seq<Action>): Option<Thread>
    requires HttpReads.IsRun(h, run)
    decreases |run|
  {
    if run == [] then None
    else if run[0].Read? && h.frames == [] then Some(run[0].t)
    else FirstToFail(HttpReads.Next(h, run[0]), run[1..])
  }

  // ---------------------------------------------------------------- one step

  /** Who has handed over, and who met the first error, so far. */
  datatype Past = Past(handed: set<Thread>, first: Option<Thread>)

  function Passed(p: Past, h: Http, a: Action): Past {
    Past(if a.Finish? then p.handed + {a.t} else p.handed,
         if p.first.None? && a.Read? && h.frames == [] then Some(a.t) else p.first)
  }

  ghost predicate EndInv(h: Http, p: Past) {
    && (forall t | t in p.handed :: Over(h, t))
    && (forall t | p.first == Some(t) :: Over(h, t) && t !in p.handed)
    && (h.closed <==> p.first.Some?)
    && (h.closed ==> h.frames == [])
    && (forall t | Over(h, t) ::
      EndsWithMarker(h, t) <==> t in p.handed || (p.first == Some(t) && h.error.ConnectionClosed?))
    && (forall t | Over(h, t) && t !in p.handed :: h.closed)
    && (forall t | h.At(t, Ending) :: Joined(h, t))
  }

  lemma StepKeepsJoined(h: Http, a: Action, all: seq<Bytes>, t: Thread)
    requires HttpReads.Inv(h, all) && HttpReads.Enabled(h, a)
    requires h.At(t, Ending) ==> Joined(h, t)
    ensures HttpReads.Next(h, a).At(t, Ending) ==> Joined(HttpReads.Next(h, a), t)
  {
    hide OrderInv, FlowInv, MarkInv, HttpReads.Inv, LockInv;
    var h' := HttpReads.Next(h, a);
    if h'.At(t, Ending) {
      if a == HttpReads.Check(t) {
        CheckSeesQueue(h, all, t);
        var u :| u != t && h.At(u, Queued);
        assert h'.At(u, Queued);
      } else {
        assert a.t != t && h.At(t, Ending);
        EndingHolds(h, all, t);
        OthersOnlyArrive(h, all, t, a);
        var u :| u != t && h.At(u, Queued);
        assert h'.At(u, Queued);
      }
    }
  }

  lemma EndingHolds(h: Http, all: seq<Bytes>, t: Thread)
    requires HttpReads.Inv(h, all) && Holds(h, t)
    ensures h.core == Some(t)
  {
    hide OrderInv, FlowInv, MarkInv;
    PhasePresent(h.stage, t);
  }

  /** More than one announced, seen by the holder, is another one queued. */
  lemma CheckSeesQueue(h: Http, all: seq<Bytes>, t: Thread)
    requires HttpReads.Inv(h, all) && Holds(h, t) && h.numLocks > 1
    ensures Joined(h, t)
  {
    hide OrderInv, FlowInv, MarkInv, CountedLocks.Inv;
    PhasePresent(h.stage, t);
    HasQueuedExact(LockOf(h), t);
    var u :| LockOf(h).PhaseOf(u) == Waiting;
    PhasePresent(h.stage, u);
    assert h.At(u, Queued);
  }

  /** What a step does to others, and to the completeness and the end of its own response. */
  lemma StepEnds(h: Http, a: Action)
    requires MarkInv(h) && HttpReads.Enabled(h, a) && (forall t | t in h.bodies :: t in h.stage)
    requires h.closed ==> h.frames == []
    ensures var h', t := HttpReads.Next(h, a), a.t;
      && (forall u | u != t :: Over(h', u) == Over(h, u) && EndsWithMarker(h', u) == EndsWithMarker(h, u))
      && h'.error == h.error && (h'.closed ==> h'.frames == [])
      && (h'.closed <==> h.closed || (a.Read? && h.frames == []))
      && (Over(h, t) <==> a.Decrement? || a.Leave?)
      && (Over(h', t) <==> a.Finish? || a.Decrement? || a.Leave? || (a.Read? && h.frames == []))
      && (a.Finish? ==> EndsWithMarker(h', t))
      && (a.Decrement? || a.Leave? ==> EndsWithMarker(h', t) == EndsWithMarker(h, t))
      && (a.Read? && h.frames == [] ==> (EndsWithMarker(h', t) <==> !h.closed && h.error.ConnectionClosed?))
  {
    assert !Over(h, a.t) && a.t in h.bodies ==> Marker !in h.bodies[a.t];
  }

  lemma StepKeepsEnds(h: Http, a: Action, p: Past)
    requires MarkInv(h) && HttpReads.Enabled(h, a) && EndInv(h, p)
    requires forall t | t in h.bodies :: t in h.stage
    requires forall t | HttpReads.Next(h, a).At(t, Ending) :: Joined(HttpReads.Next(h, a), t)
    ensures EndInv(HttpReads.Next(h, a), Passed(p, h, a))
  {
    hide Joined, HttpReads.Next, HttpReads.Enabled, MarkInv, Over, EndsWithMarker;
    StepEnds(h, a);
    var t := a.t;
    assert forall u | u == t || u != t :: Over(HttpReads.Next(h, a), u) ==> u == t || Over(h, u);
  }

  lemma {:induction false} RunKeepsEnds(h: Http, run: seq<Action>, all: seq<Bytes>, p: Past) returns (q: Past)
    requires HttpReads.Inv(h, all) && HttpReads.IsRun(h, run) && EndInv(h, p)
    ensures HttpReads.Inv(HttpReads.After(h, run), all) && EndInv(HttpReads.After(h, run), q)
    ensures forall t :: t in q.handed <==> t in p.handed || HttpReads.Finish(t) in run
    ensures q.first == if p.first.Some? then p.first else FirstToFail(h, run)
    decreases |run|
  {
    hide HttpReads.Inv, EndInv, HttpReads.Next;
    q := p;
    if run != [] {
      var a := run[0];
      StepKeepsInv(h, a, all);
      BodiesStaged(h, all);
      forall t | HttpReads.Next(h, a).At(t, Ending) ensures Joined(HttpReads.Next(h, a), t) {
        EndInvJoined(h, p, t);
        StepKeepsJoined(h, a, all, t);
      }
      StepKeepsEnds(h, a, p);
      q := RunKeepsEnds(HttpReads.Next(h, a), run[1..], all, Passed(p, h, a));
    }
  }

  lemma EndInvJoined(h: Http, p: Past, t: Thread)
    requires EndInv(h, p)
    ensures h.At(t, Ending) ==> Joined(h, t)
  {
  }

  lemma BodiesStaged(h: Http, all: seq<Bytes>)
    requires HttpReads.Inv(h, all)
    ensures MarkInv(h) && forall t | t in h.bodies :: t in h.stage
  {
  }

  lemma Reached(frames: seq<Bytes>, error: ErrorKind, run: seq<Action>) returns (q: Past)
    requires HttpReads.IsRun(Initial(frames, error), run)
    ensures var h := HttpReads.After(Initial(frames, error), run);
      HttpReads.Inv(h, frames) && EndInv(h, q) && q.first == FirstToFail(Initial(frames, error), run)
    ensures forall t :: t in q.handed <==> HttpReads.Finish(t) in run
  {
    hide HttpReads.Inv;
    HttpReads.InitialInv(frames, error);
    q := RunKeepsEnds(Initial(frames, error), run, frames, Past({}, None));
  }

  lemma {:induction false} ErrorStays(h: Http, run: seq<Action>)
    requires HttpReads.IsRun(h, run)
    ensures HttpReads.After(h, run).error == h.error
    decreases |run|
  {
    if run != [] {
      ErrorStays(HttpReads.Next(h, run[0]), run[1..]);
    }
  }

  // ---------------------------------------------------------------- what the responses hold

  /** In every reachable state, a request about to write its end marker has another one waiting for the lock. */
  lemma HandsOverToWaiting(frames: seq<Bytes>, error: ErrorKind, run: seq<Action>, t: Thread)
    requires HttpReads.IsRun(Initial(frames, error), run)
    requires HttpReads.After(Initial(frames, error), run).At(t, Ending)
    ensures exists u :: u != t && HttpReads.After(Initial(frames, error), run).At(u, Queued)
  {
    hide HttpReads.Inv;
    var q := Reached(frames, error, run);
    assert Joined(HttpReads.After(Initial(frames, error), run), t);
  }

  /**
   How a complete response ends: with the end marker exactly when the request handed over, or was the first to find
   no frames left and the connection was closed; and a request that did not hand over read until no frames were left.
   */
  lemma ResponseEnds(frames: seq<Bytes>, error: ErrorKind, run: seq<Action>, t: Thread)
    requires HttpReads.IsRun(Initial(frames, error), run)
    requires Over(HttpReads.After(Initial(frames, error), run), t)
    ensures var h, handed := HttpReads.After(Initial(frames, error), run), HttpReads.Finish(t) in run;
      && (EndsWithMarker(h, t) <==>
        handed || (FirstToFail(Initial(frames, error), run) == Some(t) && error == ConnectionClosed))
      && (!handed ==> h.frames == [])
  {
    hide HttpReads.Inv;
    ErrorStays(Initial(frames, error), run);
    var q := Reached(frames, error, run);
  }

  predicate OnlyBy(run: seq<Action>, t: Thread) {
    forall i | 0 <= i < |run| :: run[i].t == t
  }

  /** The run leads to a state in which t is about to write its end marker and no other request has come. */
  predicate EndingAlone(h: Http, run: seq<Action>, t: Thread) {
    && HttpReads.IsRun(h, run) && HttpReads.After(h, run).At(t, Ending)
    && forall u | u in HttpReads.After(h, run).stage :: u == t
  }

  lemma {:induction false} OnlyStage(h: Http, run: seq<Action>, t: Thread)
    requires HttpReads.IsRun(h, run) && OnlyBy(run, t) && (forall u | u in h.stage :: u == t)
    ensures forall u | u in HttpReads.After(h, run).stage :: u == t
    ensures HttpReads.Finish(t) in run ==> exists k | 0 <= k < |run| :: EndingAlone(h, run[..k], t)
    decreases |run|
  {
    hide HttpReads.Next;
    if run != [] {
      var a := run[0];
      StageOnly(h, a);
      var h1 := HttpReads.Next(h, a);
      OnlyStage(h1, run[1..], t);
      if HttpReads.Finish(t) in run {
        if a == HttpReads.Finish(t) {
          assert run[..0] == [] && EndingAlone(h, run[..0], t);
        } else {
          assert HttpReads.Finish(t) in run[1..];
          var k :| 0 <= k < |run[1..]| && EndingAlone(h1, run[1..][..k], t);
          assert run[..k + 1][0] == a && run[..k + 1][1..] == run[1..][..k];
          assert EndingAlone(h, run[..k + 1], t);
        }
      }
    }
  }

  /** A request that no other one joins reads until the stream's first error: its response then holds all frames. */
  lemma LoneReaderGetsAll(frames: seq<Bytes>, error: ErrorKind, run: seq<Action>, t: Thread)
    requires HttpReads.IsRun(Initial(frames, error), run) && OnlyBy(run, t)
    requires Over(HttpReads.After(Initial(frames, error), run), t)
    ensures HttpReads.Frames(HttpReads.After(Initial(frames, error), run).Body(t)) == frames
  {
    hide LockInv, MarkInv;
    var h0 := Initial(frames, error);
    var h := HttpReads.After(h0, run);
    OnlyStage(h0, run, t);
    if HttpReads.Finish(t) in run {
      var k :| 0 <= k < |run| && EndingAlone(h0, run[..k], t);
      HandsOverToWaiting(frames, error, run[..k], t);
    }
    ResponseEnds(frames, error, run, t);
    EachFrameOnce(frames, error, run);
    var q := Reached(frames, error, run);
    OnlyOrder(h, t);
    assert Delivered(h.bodies, [t]) == Delivered(h.bodies, []) + HttpReads.Frames(BodyIn(h.bodies, t)) by {
      assert [t][..0] == [];
    }
  }

  lemma OnlyOrder(h: Http, t: Thread)
    requires OrderInv(h) && (forall u | u in h.stage :: u == t) && t in h.stage && h.stage[t] != Queued
    ensures h.order == [t]
  {
    assert t in h.order;
    assert forall i | 0 <= i < |h.order| :: h.order[i] in h.order;
    var first, last := h.order[0], h.order[|h.order| - 1];
    assert first == last == t;
  }

  // ---------------------------------------------------------------- every request can be served

  lemma {:induction false} JoinRuns(h: Http, x: seq<Action>, y: seq<Action>)
    requires HttpReads.IsRun(h, x) && HttpReads.IsRun(HttpReads.After(h, x), y)
    ensures HttpReads.IsRun(h, x + y) && HttpReads.After(h, x + y) == HttpReads.After(HttpReads.After(h, x), y)
    decreases |x|
  {
    hide HttpReads.Next, HttpReads.Enabled;
    if x == [] {
      assert x + y == y;
    } else {
      JoinRuns(HttpReads.Next(h, x[0]), x[1..], y);
      assert (x + y)[1..] == x[1..] + y;
    }
  }

  function StepOf(h: Http, t: Thread): Action
    requires t in h.stage
  {
    match h.stage[t]
    case Queued => HttpReads.Enter(t)
    case AtRead => HttpReads.Read(t)
    case HasFrame(_) => HttpReads.Write(t)
    case Written => HttpReads.Check(t)
    case Ending => HttpReads.Finish(t)
    case Ended => HttpReads.Decrement(t)
    case _ => HttpReads.Leave(t)
  }

  function ToGo(h: Http, t: Thread): nat
    requires t in h.stage
  {
    10 * |h.frames| + match h.stage[t]
      case Queued => 9
      case HasFrame(_) => 8
      case Written => 7
      case AtRead => 6
      case Ending => 5
      case Ended => 4
      case Unlocking => 3
      case Finished => 0
  }

  /** The request that has the lock gets through by its own steps, and then the lock is free. */
  lemma {:induction false} HolderGetsThrough(h: Http, t: Thread) returns (run: seq<Action>)
    requires t in h.stage && h.stage[t] != Queued && h.stage[t] != Finished
    ensures HttpReads.IsRun(h, run)
    ensures var h' := HttpReads.After(h, run);
      h'.At(t, Finished) && h'.core == None && forall u | u != t :: (u in h'.stage <==> u in h.stage)
    ensures forall u | u != t && u in h.stage :: HttpReads.After(h, run).stage[u] == h.stage[u]
    decreases ToGo(h, t)
  {
    var a := StepOf(h, t);
    var h' := HttpReads.Next(h, a);
    StageOnly(h, a);
    if h'.stage[t] == Finished {
      run := [a];
      assert HttpReads.IsRun(h', run[1..]);
    } else {
      var later := HolderGetsThrough(h', t);
      run := [a] + later;
      assert run[1..] == later;
    }
  }

  /**
   From every reachable state the request of t, new or not yet finished, can be brought to its end: nothing the code
   waits for is missing for ever.
   */
  lemma RequestCanBeServed(frames: seq<Bytes>, error: ErrorKind, run: seq<Action>, t: Thread)
    returns (later: seq<Action>)
    requires HttpReads.IsRun(Initial(frames, error), run)
    ensures HttpReads.IsRun(HttpReads.After(Initial(frames, error), run), later)
    ensures HttpReads.After(HttpReads.After(Initial(frames, error), run), later).At(t, Finished)
  {
    hide HttpReads.Next, OrderInv, FlowInv, MarkInv;
    var h := HttpReads.After(Initial(frames, error), run);
    var q := Reached(frames, error, run);
    later := Serve(h, frames, t);
  }

  lemma Serve(h: Http, all: seq<Bytes>, t: Thread) returns (later: seq<Action>)
    requires HttpReads.Inv(h, all)
    ensures HttpReads.IsRun(h, later) && HttpReads.After(h, later).At(t, Finished)
  {
    hide OrderInv, FlowInv, MarkInv, HttpReads.Inv, HttpReads.Next;
    if h.At(t, Finished) {
      later := [];
    } else if t in h.stage && h.stage[t] != Queued {
      later := HolderGetsThrough(h, t);
    } else {
      var free := FreeLock(h, all, t);
      var h1 := HttpReads.After(h, free);
      var came := Come(h1, t);
      JoinRuns(h, free, came);
      var h2 := HttpReads.After(h1, came);
      var rest := HolderGetsThrough(h2, t);
      JoinRuns(h, free + came, rest);
      later := free + came + rest;
    }
  }

  /** Whoever has the lock gets through, while t waits or has not come. */
  lemma FreeLock(h: Http, all: seq<Bytes>, t: Thread) returns (run: seq<Action>)
    requires HttpReads.Inv(h, all) && (t in h.stage ==> h.stage[t] == Queued)
    ensures HttpReads.IsRun(h, run) && HttpReads.After(h, run).core == None
    ensures t in HttpReads.After(h, run).stage <==> t in h.stage
    ensures t in h.stage ==> HttpReads.After(h, run).stage[t] == Queued
  {
    hide OrderInv, FlowInv, MarkInv, HttpReads.Next;
    if h.core == None {
      run := [];
    } else {
      CoreHolder(h, all, h.core.value);
      run := HolderGetsThrough(h, h.core.value);
    }
  }

  lemma Come(h: Http, t: Thread) returns (run: seq<Action>)
    requires h.core == None && (t in h.stage ==> h.stage[t] == Queued)
    ensures HttpReads.IsRun(h, run) && HttpReads.After(h, run).At(t, AtRead)
  {
    var arrived := if t in h.stage then h else HttpReads.Next(h, HttpReads.Arrive(t));
    run := if t in h.stage then [HttpReads.Enter(t)] else [HttpReads.Arrive(t), HttpReads.Enter(t)];
    assert [HttpReads.Enter(t)][1..] == [];
    var entered := HttpReads.Next(arrived, HttpReads.Enter(t));
    assert HttpReads.After(arrived, [HttpReads.Enter(t)]) == entered;
    if t !in h.stage {
      assert run[1..] == [HttpReads.Enter(t)];
    }
  }
}
