/** What is left for users who were put out, and for admins who have left: leaves and stop-shares that come late. */
module RoomAftermath {

  import opened RoomSpec
  import opened RoomHistories

  // ---------------------------------------------------------------- leaves that come late

  /** Does the operation put the user into a room of this session, or open a new one? */
  predicate BringsIn(a: Action, sid: SessionId, user: UserId) {
    match a
    case Create(s, _, _, _) => s == sid
    case Join(s, u, _, _) => s == sid && u == user
    case _ => false
  }

  predicate StaysOut(run: seq<Action>, sid: SessionId, user: UserId) {
    forall i | 0 <= i < |run| :: !BringsIn(run[i], sid, user)
  }

  predicate Absent(g: Registry, sid: SessionId, user: UserId) {
    sid in g.rooms ==> user !in g.rooms[sid].users
  }

  lemma AbsentStep(g: Registry, a: Action, sid: SessionId, user: UserId)
    requires Inv(g) && Absent(g, sid, user) && !BringsIn(a, sid, user)
    ensures Absent(Step(g, a).0, sid, user)
  {
    hide Step, Inv, RightsIn, RightsMark, InvitationIn, InvitationMark;
    StepRooms(g, a);
    if sid in g.rooms && sid in Step(g, a).0.rooms {
      StepMarks(g, a, sid, user);
    }
  }

  /** A user who is not in the room of a session does not get there without a join or a new room. */
  lemma {:induction false} AbsentRun(g: Registry, run: seq<Action>, sid: SessionId, user: UserId)
    requires Inv(g) && Absent(g, sid, user) && StaysOut(run, sid, user)
    ensures Inv(After(g, run)) && Absent(After(g, run), sid, user)
    decreases |run|
  {
    hide Step, Inv, Absent, BringsIn;
    if run != [] {
      StepKeepsInv(g, run[0]);
      AbsentStep(g, run[0], sid, user);
      AbsentRun(Step(g, run[0]).0, run[1..], sid, user);
    }
  }

  /**
   A user evicted by a stop-share of the host leaves at any later time without having come back: it is still absent;
   if the room is gone nothing happens; else the leave changes nothing exactly when someone there is not a viewer,
   and so while the host is there as admin.
   */
  lemma EvictedLeavesQuietly(g: Registry, sid: SessionId, host: UserId, evicted: UserId, run: seq<Action>)
    requires Inv(g) && sid in g.rooms && InRoom(g.rooms[sid], host, Admin) && evicted != host
    requires StaysOut(run, sid, evicted)
    ensures var g' := After(Step(g, StopShare(sid, Admin)).0, run);
      && Absent(g', sid, evicted)
      && (sid !in g'.rooms ==> Step(g', Leave(sid, evicted)) == (g', NotFound))
      && (sid in g'.rooms ==> (Step(g', Leave(sid, evicted)).0 == g' <==> HasHost(g'.rooms[sid])))
      && (sid in g'.rooms && InRoom(g'.rooms[sid], host, Admin) ==> Step(g', Leave(sid, evicted)).0 == g')
  {
    hide Contains, Inv;
    var g0 := Step(g, StopShare(sid, Admin)).0;
    assert Absent(g0, sid, evicted) by {
      StopShareByHost(g, sid, host);
    }
    StepKeepsInv(g, StopShare(sid, Admin));
    AbsentRun(g0, run, sid, evicted);
    LateLeave(After(g0, run), sid, host, evicted);
  }

  lemma LateLeave(g: Registry, sid: SessionId, host: UserId, user: UserId)
    requires Inv(g) && Absent(g, sid, user)
    ensures sid !in g.rooms ==> Step(g, Leave(sid, user)) == (g, NotFound)
    ensures sid in g.rooms ==> (Step(g, Leave(sid, user)).0 == g <==> HasHost(g.rooms[sid]))
    ensures sid in g.rooms && InRoom(g.rooms[sid], host, Admin) ==> Step(g, Leave(sid, user)).0 == g
  {
    if sid in g.rooms {
      AbsentLeaveIff(g, sid, user);
    }
  }

  /** The leave of an outsider closes a room in which all are viewers, with all their sockets. */
  lemma OutsiderCloses(g: Registry, sid: SessionId, outsider: UserId)
    requires Inv(g) && sid in g.rooms && !HasHost(g.rooms[sid]) && outsider !in g.rooms[sid].users
    ensures var (g', status) := Step(g, Leave(sid, outsider));
      status == Done && sid !in g'.rooms && g'.closed == g.closed + [Sockets(g.rooms[sid].users)]
  {
    LeaveKeepsOrCloses(g, sid, outsider);
    assert g.rooms[sid].users - {outsider} == g.rooms[sid].users;
  }

  /** An input for that: the room of a host who has demoted itself. */
  lemma OutsiderClosesRoom(sid: SessionId, host: UserId, socket: Socket, appId: string, outsider: UserId)
    requires outsider != host
    ensures var g := Step(EMPTY, Create(sid, host, socket, appId)).0;
      var g1 := Step(g, SetPermissions(sid, Admin, [(host, "mouse")])).0;
      var (g2, status) := Step(g1, Leave(sid, outsider));
      && sid in g1.rooms && g1.rooms[sid].users.Keys == {host}
      && status == Done && sid !in g2.rooms && g2.closed == [map[host := socket]]
  {
    hide Contains, Step, HasHost;
    var g := Step(EMPTY, Create(sid, host, socket, appId)).0;
    var g1 := Step(g, SetPermissions(sid, Admin, [(host, "mouse")])).0;
    HostDemoted(sid, host, socket, appId);
    StepKeepsInv(EMPTY, Create(sid, host, socket, appId));
    StepKeepsInv(g, SetPermissions(sid, Admin, [(host, "mouse")]));
    OutsiderCloses(g1, sid, outsider);
    assert Sockets(g1.rooms[sid].users) == map[host := socket];
  }

  // ---------------------------------------------------------------- stop-shares that come late

  /**
   A stop-share with the role of an admin panics exactly when the creator is not in the room: when, in the history
   of the room, no create or join of the creator is without a later leave of the creator.
   */
  lemma StopSharePanicsIff(run: seq<Action>, sid: SessionId)
    requires FreshIds(run) && sid in Play(run).g.rooms
    ensures var (g, log) := (Play(run).g, Play(run).log);
      var creator := g.rooms[sid].creator;
      var marks := RightsMarks(log, sid, creator, creator);
      var panics := Step(g, StopShare(sid, Admin)).1 == Panicked;
      && (panics <==> creator !in g.rooms[sid].users)
      && (panics <==> !exists i | 0 <= i < |marks| :: Stands(marks, i))
  {
    hide Play, RightsMarks, Stands, Latest, FreshIds;
    MembersByHistory(run, sid, Play(run).g.rooms[sid].creator);
  }

  predicate BringsBack(a: Action, sid: SessionId, user: UserId) {
    (a.Create? || a.Join?) && a.sid == sid && a.user == user
  }

  /** What puts the creator's mark on or off: its own create and joins, and its own leaves. */
  lemma CreatorMarks(e: Entry, sid: SessionId, creator: UserId)
    ensures var m := RightsMark(e, sid, creator, creator);
      && (m.On? <==> Effective(e) && BringsBack(e.action, sid, creator))
      && (m.Off? <==> Effective(e) && e.action == Leave(sid, creator))
  {
    hide LastChange, Granted;
  }

  /** The input that panics: the creator leaves while a co-host stays, and stops sharing with its old client. */
  lemma StaleAdminPanics(sid: SessionId, creator: UserId, cohost: UserId, s1: Socket, s2: Socket, appId: string)
    requires creator != cohost
    ensures var g := Step(Step(EMPTY, Create(sid, creator, s1, appId)).0, Join(sid, cohost, s2, "admin")).0;
      var g' := Step(g, Leave(sid, creator)).0;
      && sid in g.rooms && InRoom(g.rooms[sid], creator, Admin)
      && sid in g'.rooms && Step(g', StopShare(sid, Admin)).1 == Panicked
  {
    hide Contains;
    ContainsAt("admin", 0, "admin");
    var g := Step(Step(EMPTY, Create(sid, creator, s1, appId)).0, Join(sid, cohost, s2, "admin")).0;
    assert g.rooms[sid].users[cohost].role == CoHost;
    assert cohost in Left(g.rooms[sid], creator).users;
  }
}
