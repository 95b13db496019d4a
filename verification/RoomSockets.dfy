/** The sockets of shared sessions over whole runs: those of present users are open, and none is closed twice. */
module RoomSockets {

  import opened RoomSpec

  /** Is k the socket of this user of this session's room? */
  predicate Present(g: Registry, sid: SessionId, user: UserId, k: Socket) {
    sid in g.rooms && user in g.rooms[sid].users && g.rooms[sid].users[user].socket == k
  }

  /** Did the i-th closing operation close k, of this user? */
  predicate Closed(g: Registry, i: nat, user: UserId, k: Socket) {
    i < |g.closed| && user in g.closed[i] && g.closed[i][user] == k
  }

  /** The socket an operation brings into a room. */
  function Brought(a: Action): set<Socket> {
    match a
    case Create(_, _, socket, _) => {socket}
    case Join(_, _, socket, _) => {socket}
    case _ => {}
  }

  /**
   An operation puts no socket but the one it brings where it was not before, and closes only sockets of users it puts
   out.
   */
  lemma StepSockets(g: Registry, a: Action) returns (b: seq<map<UserId, Socket>>)
    requires Inv(g)
    ensures var g' := Step(g, a).0;
      && |b| <= 1 && g'.closed == g.closed + b
      && (forall sid, user, k :: Present(g', sid, user, k) ==>
           Present(g, sid, user, k) || (k in Brought(a) && sid == a.sid && user == a.user))
      && (b != [] ==> forall user | user in b[0] ::
        Present(g, a.sid, user, b[0][user]) && !Present(g', a.sid, user, b[0][user]))
  {
    hide Contains, HasHost, RemovedAll, AssignedAll, LastChange;
    var g' := Step(g, a).0;
    b := g'.closed[|g.closed|..];
    if a.sid in g.rooms {
      var r := g.rooms[a.sid];
      SessionName(r, a.sid);
      if a.RemoveShare? {
        RemovedAllRest(r, a.users);
      } else if a.SetPermissions? {
        AssignedAllLast(r, a.changes);
      }
    }
  }

  /**
   Whoever is put out by an operation, other than by its own leave or by coming in again, has its socket closed by
   that operation.
   */
  lemma EvictedClosed(g: Registry, a: Action, user: UserId, k: Socket)
    requires Inv(g) && Present(g, a.sid, user, k) && !Present(Step(g, a).0, a.sid, user, k)
    ensures a == Leave(a.sid, user) || a.Create? || (a.Join? && a.user == user)
      || Closed(Step(g, a).0, |g.closed|, user, k)
  {
    hide Contains, HasHost, RemovedAll, AssignedAll, LastChange;
    var r := g.rooms[a.sid];
    SessionName(r, a.sid);
    if a.RemoveShare? {
      RemovedAllRest(r, a.users);
    } else if a.SetPermissions? {
      AssignedAllLast(r, a.changes);
    }
  }

  /**
   All sockets come from those used so far; no two users share one; none is closed while its user is there, or twice.
   */
  ghost predicate Sound(g: Registry, used: set<Socket>) {
    && (forall sid, user, k :: Present(g, sid, user, k) ==> k in used)
    && (forall i, user, k :: Closed(g, i, user, k) ==> k in used)
    && (forall sid, user, sid', user', k ::
      Present(g, sid, user, k) && Present(g, sid', user', k) ==> sid == sid' && user == user')
    && (forall sid, user, i, user', k :: Present(g, sid, user, k) ==> !Closed(g, i, user', k))
    && (forall i, user, i', user', k :: Closed(g, i, user, k) && Closed(g, i', user', k) ==> i == i' && user == user')
  }

  lemma StepKeepsSound(g: Registry, a: Action, used: set<Socket>)
    requires Inv(g) && Sound(g, used) && Brought(a) !! used
    ensures Sound(Step(g, a).0, used + Brought(a))
  {
    hide Step, Present, Inv;
    var b := StepSockets(g, a);
    var g' := Step(g, a).0;
    forall i: nat, user, k | Closed(g', i, user, k)
      ensures Closed(g, i, user, k) || (b != [] && i == |g.closed| && Present(g, a.sid, user, k)
        && !Present(g', a.sid, user, k))
    {
      assert i < |g.closed| ==> g'.closed[i] == g.closed[i];
    }
  }

  function Used(run: seq<Action>): set<Socket> {
    if run == [] then {} else Brought(run[0]) + Used(run[1..])
  }

  /** No socket is brought in twice. */
  predicate FreshSockets(run: seq<Action>) {
    run == [] || (Brought(run[0]) !! Used(run[1..]) && FreshSockets(run[1..]))
  }

  lemma {:induction false} RunKeepsSound(g: Registry, run: seq<Action>, used: set<Socket>)
    requires Inv(g) && Sound(g, used) && FreshSockets(run) && Used(run) !! used
    ensures Sound(After(g, run), used + Used(run))
    decreases |run|
  {
    hide Step, Inv, Sound, Brought;
    if run == [] {
      assert used + {} == used;
    } else {
      StepKeepsInv(g, run[0]);
      StepKeepsSound(g, run[0], used);
      RunKeepsSound(Step(g, run[0]).0, run[1..], used + Brought(run[0]));
      assert used + Brought(run[0]) + Used(run[1..]) == used + Used(run);
    }
  }

  /**
   After any run in which every create and join brings its own socket: the socket of a user who is in a room has
   not been closed, no two users have the same one, and no socket has been closed twice.
   */
  lemma SocketsClosedOnce(run: seq<Action>)
    requires FreshSockets(run)
    ensures var g := After(EMPTY, run);
      && (forall sid, user, i, user', k :: Present(g, sid, user, k) ==> !Closed(g, i, user', k))
      && (forall sid, user, sid', user', k ::
        Present(g, sid, user, k) && Present(g, sid', user', k) ==> sid == sid' && user == user')
      && (forall i, user, i', user', k :: Closed(g, i, user, k) && Closed(g, i', user', k) ==> i == i' && user == user')
  {
    RunKeepsSound(EMPTY, run, {});
  }
}
