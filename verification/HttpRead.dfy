/** doRead and writeSome: concurrent HTTP requests draining one tunnel under the counted reader lock. */
module HttpReads {
  import opened Base
  import opened CountedLocks
  import opened StreamSpec
  import opened Options

  /** One thing written to a response. */
  datatype Item = Data(frame: Bytes) | Marker

  /**
   Where a request is: waiting for the reader lock; about to read; having read a frame; having written it; about
   to write the end marker; done with the response; past the decrement of the lock; finished.
   */
  datatype Stage =
    | Queued
    | AtRead
    | HasFrame(frame: Bytes)
    | Written
    | Ending
    | Ended
    | Unlocking
    | Finished

  /**
   frames are what the stream will return before its first error, error the kind of that error; taken are the
   frames read so far and order the requests in the order in which they got the lock.
   */
  datatype Http = Http(
    numLocks: int,
    core: Option<Thread>,
    stage: map<Thread, Stage>,
    bodies: map<Thread, seq<Item>>,
    frames: seq<Bytes>,
    error: ErrorKind,
    closed: bool,
    taken: seq<Bytes>,
    order: seq<Thread>)
  {
    function Body(t: Thread): seq<Item> {
      if t in bodies then bodies[t] else []
    }

    predicate At(t: Thread, s: Stage) {
      t in stage && stage[t] == s
    }
  }

  function Initial(frames: seq<Bytes>, error: ErrorKind): Http {
    Http(0, None, map[], map[], frames, error, false, [], [])
  }

  datatype Action =
    | Arrive(t: Thread)      // AcquireReader announces itself
    | Enter(t: Thread)       // and gets the mutex
    | Read(t: Thread)        // ReadSome: a frame, or an error that closes the tunnel
    | Write(t: Thread)       // the frame goes to the response
    | Check(t: Thread)       // HasQueuedReaderThreads
    | Finish(t: Thread)      // the end marker after the loop
    | Decrement(t: Thread)   // ReleaseReader
    | Leave(t: Thread)

  predicate Enabled(h: Http, a: Action) {
    match a
    case Arrive(t) => t !in h.stage
    case Enter(t) => h.At(t, Queued) && h.core == None
    case Read(t) => h.At(t, AtRead)
    case Write(t) => t in h.stage && h.stage[t].HasFrame?
    case Check(t) => h.At(t, Written)
    case Finish(t) => h.At(t, Ending)
    case Decrement(t) => h.At(t, Ended)
    case Leave(t) => h.At(t, Unlocking)
  }

  function Next(h: Http, a: Action): Http
    requires Enabled(h, a)
  {
    match a
    case Arrive(t) => h.(numLocks := h.numLocks + 1, stage := h.stage[t := Queued])
    case Enter(t) => h.(core := Some(t), stage := h.stage[t := AtRead], order := h.order + [t])
    case Read(t) =>
      if !h.closed && h.frames != [] then
        h.(stage := h.stage[t := HasFrame(h.frames[0])], frames := h.frames[1..], taken := h.taken + [h.frames[0]])
      else
        // the first error closes the tunnel, and for a closed connection the end marker is written; on a closed
        // tunnel the read deadline cannot be set, and doRead panics on that error before it writes anything
        var body := h.Body(t) + if !h.closed && h.error.ConnectionClosed? then [Marker] else [];
        h.(stage := h.stage[t := Ended], closed := true, bodies := h.bodies[t := body])
    case Write(t) => h.(stage := h.stage[t := Written], bodies := h.bodies[t := h.Body(t) + [Data(h.stage[t].frame)]])
    case Check(t) => h.(stage := h.stage[t := if h.numLocks > 1 then Ending else AtRead])
    case Finish(t) => h.(stage := h.stage[t := Ended], bodies := h.bodies[t := h.Body(t) + [Marker]])
    case Decrement(t) => h.(numLocks := h.numLocks - 1, stage := h.stage[t := Unlocking])
    case Leave(t) => h.(core := None, stage := h.stage[t := Finished])
  }

  predicate IsRun(h: Http, run: seq<Action>)
    decreases |run|
  {
    run == [] || (Enabled(h, run[0]) && IsRun(Next(h, run[0]), run[1..]))
  }

  function After(h: Http, run: seq<Action>): Http
    requires IsRun(h, run)
    decreases |run|
  {
    if run == [] then h else After(Next(h, run[0]), run[1..])
  }

  // ---------------------------------------------------------------- the lock inside

  function PhaseOf(s: Stage): Phase {
    match s
    case Queued => Waiting
    case Unlocking => Leaving
    case Finished => Idle
    case _ => Holding
  }

  function Phases(stage: map<Thread, Stage>): map<Thread, Phase> {
    map t | t in stage && stage[t] != Finished :: PhaseOf(stage[t])
  }

  /** The counted lock of the tunnel. */
  function LockOf(h: Http): Lock {
    Lock(h.numLocks, h.core, Phases(h.stage))
  }

  lemma PhasesUpdated(stage: map<Thread, Stage>, t: Thread, s: Stage)
    ensures Phases(stage[t := s]) == if s == Finished then Phases(stage) - {t} else Phases(stage)[t := PhaseOf(s)]
    ensures t in stage && stage[t] != Finished && s != Finished && PhaseOf(stage[t]) == PhaseOf(s) ==>
      Phases(stage[t := s]) == Phases(stage)
  {
    var now := Phases(stage[t := s]);
    if s == Finished {
      assert now == Phases(stage) - {t};
    } else {
      assert now == Phases(stage)[t := PhaseOf(s)];
      if t in stage && stage[t] != Finished && PhaseOf(stage[t]) == PhaseOf(s) {
        assert now == Phases(stage);
      }
    }
  }

  /** The lock operation an action performs, if any. */
  function LockStep(a: Action): Option<CountedLocks.Action> {
    match a
    case Arrive(t) => Some(Announce(t))
    case Enter(t) => Some(Acquire(t))
    case Decrement(t) => Some(CountedLocks.Action.Decrement(t))
    case Leave(t) => Some(Release(t))
    case _ => None
  }

  /** Every step is a step of the lock protocol or leaves the lock alone. */
  lemma StepRefinesLock(h: Http, a: Action)
    requires Enabled(h, a)
    ensures match LockStep(a)
      case Some(b) => CountedLocks.Enabled(LockOf(h), b) && LockOf(Next(h, a)) == CountedLocks.Next(LockOf(h), b)
      case None => LockOf(Next(h, a)) == LockOf(h)
  {
    hide Phases;
    StageOnly(h, a);
    var t := a.t;
    PhasesUpdated(h.stage, t, Next(h, a).stage[t]);
    PhasePresent(h.stage, t);
  }

  lemma PhasePresent(stage: map<Thread, Stage>, t: Thread)
    ensures
      if t in stage && stage[t] != Finished then t in Phases(stage) && Phases(stage)[t] == PhaseOf(stage[t])
      else t !in Phases(stage)
  {
  }

  /** A step moves the stage of its own thread and of no other. */
  lemma StageOnly(h: Http, a: Action)
    requires Enabled(h, a)
    ensures a.t in Next(h, a).stage && Next(h, a).stage == h.stage[a.t := Next(h, a).stage[a.t]]
  {
  }

  predicate LockInv(h: Http) {
    CountedLocks.Inv(LockOf(h))
  }

  lemma StepKeepsLockInv(h: Http, a: Action)
    requires LockInv(h) && Enabled(h, a)
    ensures LockInv(Next(h, a))
  {
    hide CountedLocks.Inv, Next, LockOf, Enabled, CountedLocks.Next, CountedLocks.Enabled;
    StepRefinesLock(h, a);
    if LockStep(a).Some? {
      NextKeepsInv(LockOf(h), LockStep(a).value);
    }
  }

  // ---------------------------------------------------------------- frames and bodies

  /** The frames in a response, without the end marker. */
  function Frames(body: seq<Item>): seq<Bytes> {
    if body == [] then [] else (if body[0].Data? then [body[0].frame] else []) + Frames(body[1..])
  }

  lemma {:induction false} FramesSnoc(body: seq<Item>, item: Item)
    ensures Frames(body + [item]) == Frames(body) + if item.Data? then [item.frame] else []
  {
    var longer := body + [item];
    if body == [] {
      assert longer == [item] && longer[1..] == [];
    } else {
      assert longer[0] == body[0] && longer[1..] == body[1..] + [item];
      FramesSnoc(body[1..], item);
      var first, last := if body[0].Data? then [body[0].frame] else [], if item.Data? then [item.frame] else [];
      assert first + (Frames(body[1..]) + last) == first + Frames(body[1..]) + last;
    }
  }

  function BodyIn(bodies: map<Thread, seq<Item>>, t: Thread): seq<Item> {
    if t in bodies then bodies[t] else []
  }

  /** The frames of the responses, in the order given. */
  function Delivered(bodies: map<Thread, seq<Item>>, order: seq<Thread>): seq<Bytes> {
    if order == [] then []
    else Delivered(bodies, order[..|order| - 1]) + Frames(BodyIn(bodies, order[|order| - 1]))
  }

  lemma {:induction false} DeliveredElsewhere(bodies: map<Thread, seq<Item>>, order: seq<Thread>, t: Thread,
    body: seq<Item>)
    requires t !in order
    ensures Delivered(bodies[t := body], order) == Delivered(bodies, order)
  {
    if order != [] {
      DeliveredElsewhere(bodies, order[..|order| - 1], t, body);
    }
  }

  lemma DeliveredLast(bodies: map<Thread, seq<Item>>, order: seq<Thread>, item: Item)
    requires order != [] && order[|order| - 1] !in order[..|order| - 1]
    ensures var t := order[|order| - 1];
      Delivered(bodies[t := BodyIn(bodies, t) + [item]], order)
        == Delivered(bodies, order) + if item.Data? then [item.frame] else []
  {
    var t := order[|order| - 1];
    DeliveredElsewhere(bodies, order[..|order| - 1], t, BodyIn(bodies, t) + [item]);
    FramesSnoc(BodyIn(bodies, t), item);
  }

  /** The frame the last request to get the lock has read but not yet written. */
  function InHand(h: Http): seq<Bytes> {
    if h.order == [] then []
    else
      var t := h.order[|h.order| - 1];
      if t in h.stage && h.stage[t].HasFrame? then [h.stage[t].frame] else []
  }

  predicate Holds(h: Http, t: Thread) {
    t in h.stage && PhaseOf(h.stage[t]) == Holding
  }

  /** Does the request of t still have something to write after what its response holds? */
  predicate Unmarked(h: Http, t: Thread) {
    t in h.stage && h.stage[t] != Ended && h.stage[t] != Unlocking && h.stage[t] != Finished
  }

  /** No request got the lock twice, exactly the requests past the queue got it, and only the last may hold it. */
  ghost predicate OrderInv(h: Http) {
    && (forall i, j | 0 <= i < j < |h.order| :: h.order[i] != h.order[j])
    && (forall t :: t in h.order <==> t in h.stage && h.stage[t] != Queued)
    && (forall t | Holds(h, t) :: h.order != [] && t == h.order[|h.order| - 1])
    && (forall t | t in h.bodies :: t in h.order)
  }

  /** The responses, laid end to end in lock order, hold the frames read, and these are the first of all frames. */
  ghost predicate FlowInv(h: Http, all: seq<Bytes>) {
    && Delivered(h.bodies, h.order) + InHand(h) == h.taken
    && h.taken + h.frames == all
  }

  /** An end marker is the last thing written to a response. */
  ghost predicate MarkInv(h: Http) {
    && (forall t | t in h.bodies && Unmarked(h, t) :: Marker !in h.bodies[t])
    && (forall t | t in h.bodies && h.bodies[t] != [] :: Marker !in h.bodies[t][..|h.bodies[t]| - 1])
  }

  ghost predicate Inv(h: Http, all: seq<Bytes>) {
    LockInv(h) && OrderInv(h) && FlowInv(h, all) && MarkInv(h)
  }

  lemma NobodyHolds(h: Http)
    requires LockInv(h) && h.core == None
    ensures forall t :: !Holds(h, t)
  {
    forall t ensures !Holds(h, t) {
      PhasePresent(h.stage, t);
    }
  }

  lemma EnterKeepsOrder(h: Http, t: Thread)
    requires LockInv(h) && OrderInv(h) && Enabled(h, Enter(t))
    ensures OrderInv(Next(h, Enter(t)))
  {
    hide LockInv;
    NobodyHolds(h);
    var h' := Next(h, Enter(t));
    assert forall u | u != t :: Holds(h', u) == Holds(h, u);
    assert forall u :: u in h'.order <==> u in h.order || u == t;
  }

  lemma OtherStage(h: Http, a: Action)
    requires Enabled(h, a) && !a.Enter? && !a.Arrive?
    ensures var h' := Next(h, a);
      && h'.order == h.order && h'.stage.Keys == h.stage.Keys && h'.bodies.Keys <= h.bodies.Keys + {a.t}
      && (forall u | u in h.stage && u != a.t :: h'.stage[u] == h.stage[u])
      && a.t in h.stage && h.stage[a.t] != Queued && h'.stage[a.t] != Queued
      && (Holds(h', a.t) ==> Holds(h, a.t))
  {
  }

  /** A step after the queue that leaves the order alone. */
  lemma OtherKeepsOrder(h: Http, a: Action)
    requires OrderInv(h) && Enabled(h, a) && !a.Enter? && !a.Arrive?
    ensures OrderInv(Next(h, a))
  {
    hide Next, Enabled, PhaseOf;
    OtherStage(h, a);
    var h' := Next(h, a);
    assert forall u | u != a.t :: Holds(h', u) == Holds(h, u);
  }

  lemma StepKeepsOrder(h: Http, a: Action)
    requires LockInv(h) && OrderInv(h) && Enabled(h, a)
    ensures OrderInv(Next(h, a))
  {
    hide LockInv, InHand, Delivered;
    if a.Enter? {
      EnterKeepsOrder(h, a.t);
    } else if !a.Arrive? {
      OtherKeepsOrder(h, a);
    } else {
      var h' := Next(h, a);
      assert forall u :: Holds(h', u) == Holds(h, u);
    }
  }

  lemma HolderIsLast(h: Http, t: Thread)
    requires OrderInv(h) && Holds(h, t)
    ensures h.order != [] && h.order[|h.order| - 1] == t && t !in h.order[..|h.order| - 1]
  {
  }

  lemma ArriveKeepsFlow(h: Http, t: Thread, all: seq<Bytes>)
    requires OrderInv(h) && FlowInv(h, all) && Enabled(h, Arrive(t))
    ensures FlowInv(Next(h, Arrive(t)), all)
  {
    hide Delivered;
    assert h.order != [] ==> h.order[|h.order| - 1] in h.order;
  }

  lemma EnterKeepsFlow(h: Http, t: Thread, all: seq<Bytes>)
    requires LockInv(h) && OrderInv(h) && FlowInv(h, all) && Enabled(h, Enter(t))
    ensures FlowInv(Next(h, Enter(t)), all)
  {
    hide LockInv;
    NobodyHolds(h);
    assert h.order != [] ==> !Holds(h, h.order[|h.order| - 1]);
    assert InHand(h) == [];
    assert (h.order + [t])[..|h.order|] == h.order;
    assert BodyIn(h.bodies, t) == [];
  }

  /** A read that fails without an end marker leaves the responses as they are. */
  lemma SameBody(bodies: map<Thread, seq<Item>>, order: seq<Thread>)
    requires order != [] && order[|order| - 1] !in order[..|order| - 1]
    ensures var t := order[|order| - 1];
      Delivered(bodies[t := BodyIn(bodies, t) + []], order) == Delivered(bodies, order)
  {
    var t := order[|order| - 1];
    DeliveredElsewhere(bodies, order[..|order| - 1], t, BodyIn(bodies, t) + []);
    assert BodyIn(bodies, t) + [] == BodyIn(bodies, t);
  }

  /** The holder writes an item: the responses grow by the frame in it. */
  lemma AppendKeepsFlow(h: Http, h': Http, t: Thread, item: Item, all: seq<Bytes>)
    requires FlowInv(h, all)
    requires h.order != [] && h.order[|h.order| - 1] == t && t !in h.order[..|h.order| - 1]
    requires h'.order == h.order && h'.bodies == h.bodies[t := h.Body(t) + [item]]
    requires h'.taken == h.taken && h'.frames == h.frames
    requires InHand(h) == (if item.Data? then [item.frame] else []) && InHand(h') == []
    ensures FlowInv(h', all)
  {
    hide InHand, Delivered;
    DeliveredLast(h.bodies, h.order, item);
    assert h'.taken + [] == h'.taken;
  }

  /** The holder's steps, given that it is the last to have got the lock. */
  lemma HolderKeepsFlow(h: Http, a: Action, all: seq<Bytes>)
    requires FlowInv(h, all) && Enabled(h, a) && Holds(h, a.t) && !a.Enter? && !a.Arrive? && !a.Leave?
    requires h.order != [] && h.order[|h.order| - 1] == a.t && a.t !in h.order[..|h.order| - 1]
    ensures FlowInv(Next(h, a), all)
  {
    hide Delivered, FlowInv;
    var h' := Next(h, a);
    match a
    case Read(t) =>
      if !h.closed && h.frames != [] {
        TakeKeepsFlow(h, h', t, all);
      } else if !h.closed && h.error.ConnectionClosed? {
        AppendKeepsFlow(h, h', t, Marker, all);
      } else {
        SameBody(h.bodies, h.order);
        SameFlow(h, h', all);
      }
    case Write(t) => AppendKeepsFlow(h, h', t, Data(h.stage[t].frame), all);
    case Finish(t) => AppendKeepsFlow(h, h', t, Marker, all);
    case Check(t) => SameFlow(h, h', all);
    case Decrement(t) => SameFlow(h, h', all);
  }

  lemma SameFlow(h: Http, h': Http, all: seq<Bytes>)
    requires FlowInv(h, all) && Delivered(h'.bodies, h'.order) == Delivered(h.bodies, h.order)
    requires InHand(h') == InHand(h) && h'.taken == h.taken && h'.frames == h.frames
    ensures FlowInv(h', all)
  {
  }

  lemma TakeKeepsFlow(h: Http, h': Http, t: Thread, all: seq<Bytes>)
    requires FlowInv(h, all) && h.frames != []
    requires h'.bodies == h.bodies && h'.order == h.order && InHand(h) == [] && InHand(h') == [h.frames[0]]
    requires h'.taken == h.taken + [h.frames[0]] && h'.frames == h.frames[1..]
    ensures FlowInv(h', all)
  {
    assert h.frames == [h.frames[0]] + h.frames[1..];
  }

  lemma StepKeepsFlow(h: Http, a: Action, all: seq<Bytes>)
    requires LockInv(h) && OrderInv(h) && FlowInv(h, all) && Enabled(h, a)
    ensures FlowInv(Next(h, a), all)
  {
    hide LockInv, Delivered, OrderInv;
    match a
    case Arrive(t) => ArriveKeepsFlow(h, t, all);
    case Enter(t) => EnterKeepsFlow(h, t, all);
    case Leave(t) =>
    case _ =>
      HolderIsLast(h, a.t);
      HolderKeepsFlow(h, a, all);
  }

  /** Writing one more item to a response that has no marker yet. */
  lemma AppendKeepsMark(h: Http, h': Http, t: Thread, item: Item, s: Stage)
    requires MarkInv(h) && Unmarked(h, t)
    requires h'.bodies == h.bodies[t := h.Body(t) + [item]] && h'.stage == h.stage[t := s]
    requires item == Marker ==> s == Ended
    ensures MarkInv(h')
  {
    assert h'.bodies[t][..|h'.bodies[t]| - 1] == h.Body(t);
  }

  /** A step that writes nothing and leaves no response open again. */
  lemma SilentKeepsMark(h: Http, h': Http, t: Thread, s: Stage)
    requires MarkInv(h) && h'.stage == h.stage[t := s]
    requires h'.bodies == h.bodies || (t in h.stage && h'.bodies == h.bodies[t := h.Body(t) + []])
    requires t in h.bodies ==> t in h.stage
    requires t in h.stage && !Unmarked(h, t) ==> s == Ended || s == Unlocking || s == Finished
    ensures MarkInv(h')
  {
    assert h.Body(t) + [] == h.Body(t);
  }

  lemma StepKeepsMark(h: Http, a: Action)
    requires OrderInv(h) && MarkInv(h) && Enabled(h, a)
    ensures MarkInv(Next(h, a))
  {
    hide MarkInv;
    var h' := Next(h, a);
    match a
    case Read(t) =>
      if !h.closed && h.frames == [] && h.error.ConnectionClosed? {
        AppendKeepsMark(h, h', t, Marker, Ended);
      } else {
        SilentKeepsMark(h, h', t, h'.stage[t]);
      }
    case Write(t) => AppendKeepsMark(h, h', t, Data(h.stage[t].frame), Written);
    case Finish(t) => AppendKeepsMark(h, h', t, Marker, Ended);
    case _ => SilentKeepsMark(h, h', a.t, h'.stage[a.t]);
  }

  lemma StepKeepsInv(h: Http, a: Action, all: seq<Bytes>)
    requires Inv(h, all) && Enabled(h, a)
    ensures Inv(Next(h, a), all)
  {
    hide LockInv, OrderInv, FlowInv, MarkInv, Next, Enabled;
    StepKeepsLockInv(h, a);
    StepKeepsOrder(h, a);
    StepKeepsFlow(h, a, all);
    StepKeepsMark(h, a);
  }

  lemma {:induction false} RunKeepsInv(h: Http, run: seq<Action>, all: seq<Bytes>)
    requires Inv(h, all) && IsRun(h, run)
    ensures Inv(After(h, run), all)
    decreases |run|
  {
    hide Inv, Next, Enabled;
    if run != [] {
      StepKeepsInv(h, run[0], all);
      RunKeepsInv(Next(h, run[0]), run[1..], all);
    }
  }

  lemma InitialInv(frames: seq<Bytes>, error: ErrorKind)
    ensures Inv(Initial(frames, error), frames)
  {
    assert Counted(LockOf(Initial(frames, error))) == {};
  }

  // ---------------------------------------------------------------- what the hand-over guarantees

  /**
   Any number of concurrent requests, in any interleaving: the responses without their end markers, in the order
   in which the requests got the lock, each once, hold exactly the frames taken from the stream, in order, up to
   the one frame that the present holder has read and not yet written; and an end marker ends its response.
   */
  lemma EachFrameOnce(frames: seq<Bytes>, error: ErrorKind, run: seq<Action>)
    requires IsRun(Initial(frames, error), run)
    ensures var h := After(Initial(frames, error), run);
      && Delivered(h.bodies, h.order) + InHand(h) == h.taken
      && h.taken + h.frames == frames
      && (forall i, j | 0 <= i < j < |h.order| :: h.order[i] != h.order[j])
      && (forall t | t in h.bodies :: t in h.order)
      && (forall t | t in h.bodies && h.bodies[t] != [] :: Marker !in h.bodies[t][..|h.bodies[t]| - 1])
  {
    InitialInv(frames, error);
    RunKeepsInv(Initial(frames, error), run, frames);
  }

  /** How many frames request t writes in a run. */
  function Writes(run: seq<Action>, t: Thread): nat {
    if run == [] then 0 else (if run[0] == Write(t) then 1 else 0) + Writes(run[1..], t)
  }

  /** What a request can still write once another one is waiting. */
  function Allowance(h: Http, t: Thread): nat {
    if t in h.stage && (h.stage[t] == AtRead || h.stage[t].HasFrame?) then 1 else 0
  }

  /** While t is in the lock, the other requests can only arrive. */
  lemma OthersOnlyArrive(h: Http, all: seq<Bytes>, t: Thread, a: Action)
    requires Inv(h, all) && h.core == Some(t) && Enabled(h, a) && a.t != t
    ensures a.Arrive?
  {
    hide OrderInv, FlowInv, MarkInv;
    PhasePresent(h.stage, a.t);
  }

  /** While u waits behind t, each step of t uses up its allowance, and u keeps waiting until t is through. */
  lemma {:induction false} WritesBounded(h: Http, run: seq<Action>, all: seq<Bytes>, t: Thread, u: Thread)
    requires Inv(h, all) && IsRun(h, run)
    requires h.At(u, Queued) && t in h.stage && h.stage[t] != Queued && t != u
    requires h.stage[t] != Finished ==> h.core == Some(t)
    ensures Writes(run, t) <= Allowance(h, t)
    decreases |run|
  {
    hide Inv;
    if run != [] {
      var a := run[0];
      if h.stage[t] == Finished {
        FinishedWritesNothing(h, run, t);
      } else {
        StepKeepsInv(h, a, all);
        if a.t != t {
          OthersOnlyArrive(h, all, t, a);
        } else if a.Check? {
          QueueShows(h, all, t, u);
        }
        WritesBounded(Next(h, a), run[1..], all, t, u);
      }
    }
  }

  lemma {:induction false} FinishedWritesNothing(h: Http, run: seq<Action>, t: Thread)
    requires IsRun(h, run) && h.At(t, Finished)
    ensures Writes(run, t) == 0
    decreases |run|
  {
    if run != [] {
      FinishedWritesNothing(Next(h, run[0]), run[1..], t);
    }
  }

  lemma QueueShows(h: Http, all: seq<Bytes>, t: Thread, u: Thread)
    requires Inv(h, all) && h.At(u, Queued) && Holds(h, t)
    ensures h.numLocks > 1
  {
    hide OrderInv, FlowInv, MarkInv, CountedLocks.Inv;
    PhasePresent(h.stage, t);
    PhasePresent(h.stage, u);
    HasQueuedExact(LockOf(h), t);
    assert LockOf(h).PhaseOf(u) == Waiting;
  }

  /** Once another request has announced itself, the request that holds the lock writes at most one more frame. */
  lemma AtMostOneMore(frames: seq<Bytes>, error: ErrorKind, before: seq<Action>, later: seq<Action>, t: Thread,
    u: Thread)
    requires IsRun(Initial(frames, error), before) && IsRun(After(Initial(frames, error), before), later)
    requires After(Initial(frames, error), before).core == Some(t)
    requires After(Initial(frames, error), before).At(u, Queued)
    ensures Writes(later, t) <= 1
  {
    hide Inv;
    var h := After(Initial(frames, error), before);
    InitialInv(frames, error);
    RunKeepsInv(Initial(frames, error), before, frames);
    CoreHolder(h, frames, t);
    WritesBounded(h, later, frames, t, u);
  }

  lemma CoreHolder(h: Http, all: seq<Bytes>, t: Thread)
    requires Inv(h, all) && h.core == Some(t)
    ensures t in h.stage && (Holds(h, t) || h.stage[t] == Unlocking)
  {
    hide OrderInv, FlowInv, MarkInv;
    PhasePresent(h.stage, t);
  }
}
