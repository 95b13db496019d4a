/** Which room operations take effect, and what they then do, over runs and step by step. */
module RoomService {

  import opened Options
  import opened RoomSpec
  import opened RoomHistories

  /** Has the user an invitation in the history that nothing took away? */
  ghost predicate Invited(run: seq<Action>, sid: SessionId, user: UserId)
    requires sid in Play(run).g.rooms
  {
    var marks := InvitationMarks(Play(run).log, sid, Play(run).g.rooms[sid].creator, user);
    exists i | 0 <= i < |marks| :: Stands(marks, i)
  }

  /**
   In a room open after a run with fresh session ids, an invitation is refused, and changes nothing, exactly when four
   users have a standing one in the history, the creator always among them; otherwise the user is invited with these
   permissions, and nothing else changes.
   */
  lemma InvitedUpToFour(run: seq<Action>, sid: SessionId, user: UserId, permissions: string)
    returns (invited: set<UserId>)
    requires FreshIds(run) && sid in Play(run).g.rooms
    ensures forall u :: u in invited <==> Invited(run, sid, u)
    ensures |invited| <= 4 && Play(run).g.rooms[sid].creator in invited
    ensures var g := Play(run).g;
      var (g', status) := Step(g, Invite(sid, user, permissions));
      if |invited| == 4 then g' == g && status == LimitReached
      else
        var r := g.rooms[sid];
        status == Done && g' == g.(rooms := g.rooms[sid := r.(invitees := r.invitees[user := permissions])])
  {
    hide Play, InvitationMarks, Stands, Latest;
    PlayFaithful(run);
    var g := Play(run).g;
    var r := g.rooms[sid];
    SessionName(r, sid);
    invited := r.invitees.Keys;
    assert |r.invitees| == |r.invitees.Keys|;
    forall u ensures u in invited <==> Invited(run, sid, u) {
      InvitationsByHistory(run, sid, u);
    }
  }

  /** The rights in the room after set-permissions: those last given, or what they were. */
  function RightsAfter(r: Room, changes: seq<(UserId, string)>, user: UserId): Option<Rights> {
    match LastChange(changes, user)
    case None => RightsIn(r, user)
    case Some(p) => if RightsIn(r, user).Some? then Some(Granted(false, p)) else None
  }

  /** Refused operations change nothing; in a session without a room all but create are refused. */
  lemma RefusalsChangeNothing(g: Registry, a: Action)
    requires Inv(g)
    ensures var (g', status) := Step(g, a);
      && (status != Done && status != Panicked ==> g' == g)
      && (a.sid !in g.rooms && !a.Create? ==> status == if RefusedRole(a) then Denied else NotFound)
  {
    hide Contains, HasHost, RemovedAll, AssignedAll;
  }

  predicate RefusedRole(a: Action) {
    (a.StopShare? && a.role != Admin) || (a.SetPermissions? && a.role == Viewer)
  }

  /** In an open room every join, leave and non-empty removal takes effect, and the others but for their guards. */
  lemma OpenRoomServes(g: Registry, a: Action)
    requires Inv(g) && a.sid in g.rooms && !a.Create?
    ensures var (g', status) := Step(g, a);
      var r := g.rooms[a.sid];
      match a
      case Invite(_, _, _) => status == if |r.invitees| >= 4 then LimitReached else Done
      case Join(sid, user, socket, permissions) =>
        && status == Done && sid in g'.rooms
        && RightsIn(g'.rooms[sid], user) == Some(Granted(user == r.creator, permissions))
        && SocketIn(g'.rooms[sid], user) == Some(socket)
      case Leave(sid, user) => status == Done && (sid in g'.rooms ==> user !in g'.rooms[sid].users)
      case StopShare(sid, role) =>
        if role != Admin then status == Denied
        else sid in g'.rooms && forall u | u != r.creator :: u !in g'.rooms[sid].users && u !in g'.rooms[sid].invitees
      case RemoveShare(sid, users) =>
        if users == [] then status == NotFound
        else
          && status == Done && sid in g'.rooms
          && forall u | u in users && u != r.creator :: u !in g'.rooms[sid].users && u !in g'.rooms[sid].invitees
      case SetPermissions(sid, role, changes) =>
        if role == Viewer then status == Denied
        else
          && status == Done && sid in g'.rooms
          && forall u :: RightsIn(g'.rooms[sid], u) == RightsAfter(r, changes, u)
  {
    hide Contains, HasHost, RemovedAll, AssignedAll, LastChange, Evicted;
    var r := g.rooms[a.sid];
    SessionName(r, a.sid);
    if a.RemoveShare? {
      RemovedAllRest(r, a.users);
    } else if a.SetPermissions? {
      AssignedAllLast(r, a.changes);
    }
  }

  /** The creator of a new room is its only invitee, with all permissions. */
  lemma CreatorInvited(g: Registry, sid: SessionId, user: UserId, socket: Socket, appId: string)
    ensures var r := Step(g, Create(sid, user, socket, appId)).0.rooms[sid];
      r.invitees == map[user := "admin,keyboard,mouse"]
    ensures Contains("admin,keyboard,mouse", "admin")
    ensures Contains("admin,keyboard,mouse", "keyboard")
    ensures Contains("admin,keyboard,mouse", "mouse")
  {
    hide Contains;
    ContainsAt("admin,keyboard,mouse", 0, "admin");
    ContainsAt("admin,keyboard,mouse", 6, "keyboard");
    ContainsAt("admin,keyboard,mouse", 15, "mouse");
  }
}
