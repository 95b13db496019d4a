/**
 What a run of room operations says about who is in a room: membership, rights, sockets and invitations as a
 function of the operations that took effect, without looking at the rooms.
 */
module RoomHistories {

  import opened RoomSpec
  import opened Options

  datatype Entry = Entry(action: Action, status: Status)

  /** The registry together with everything that was asked of it and what came of it. */
  datatype World = World(g: Registry, log: seq<Entry>)

  function Do(w: World, a: Action): World {
    var (g, status) := Step(w.g, a);
    World(g, w.log + [Entry(a, status)])
  }

  /** The world after a run from the empty registry. */
  function Play(run: seq<Action>): World
    decreases |run|
  {
    if run == [] then World(EMPTY, []) else Do(Play(run[..|run| - 1]), run[|run| - 1])
  }

  /** No session id is created twice. */
  ghost predicate FreshIds(run: seq<Action>) {
    forall i, j | 0 <= i < j < |run| && run[i].Create? && run[j].Create? :: run[i].sid != run[j].sid
  }

  /** An operation changed its room unless its guard refused it; a stop-share that panics has already changed it. */
  predicate Effective(e: Entry) {
    e.status == Done || e.status == Panicked
  }

  // ---------------------------------------------------------------- what an entry means for one user

  datatype Rights = Rights(role: Role, mouse: bool, keyboard: bool)

  /** Something of one user is put in place, taken away, or changed where it is in place. */
  datatype Mark<V> = On(value: V) | Off | Change(value: V) | Idle

  function Granted(host: bool, permissions: string): Rights {
    Rights(if host then Admin else if Contains(permissions, "admin") then CoHost else Viewer,
           Contains(permissions, "mouse"), Contains(permissions, "keyboard"))
  }

  /** Does the entry put the user out of the room? The creator only leaves. */
  predicate Exits(a: Action, creator: UserId, user: UserId) {
    match a
    case Leave(_, u) => u == user
    case StopShare(_, _) => user != creator
    case RemoveShare(_, users) => user != creator && user in users
    case _ => false
  }

  function RightsMark(e: Entry, sid: SessionId, creator: UserId, user: UserId): Mark<Rights> {
    if !Effective(e) || e.action.sid != sid then Idle
    else if Exits(e.action, creator, user) then Off
    else
      match e.action
      case Create(_, u, _, _) => if u == user then On(Rights(Admin, true, true)) else Idle
      case Join(_, u, _, permissions) => if u == user then On(Granted(user == creator, permissions)) else Idle
      case SetPermissions(_, _, changes) =>
        (match LastChange(changes, user)
         case None => Idle
         case Some(p) => Change(Granted(false, p)))
      case _ => Idle
  }

  function SocketMark(e: Entry, sid: SessionId, creator: UserId, user: UserId): Mark<Socket> {
    if !Effective(e) || e.action.sid != sid then Idle
    else if Exits(e.action, creator, user) then Off
    else
      match e.action
      case Create(_, u, socket, _) => if u == user then On(socket) else Idle
      case Join(_, u, socket, _) => if u == user then On(socket) else Idle
      case _ => Idle
  }

  /** Leaving keeps the invitation. */
  function InvitationMark(e: Entry, sid: SessionId, creator: UserId, user: UserId): Mark<string> {
    if !Effective(e) || e.action.sid != sid then Idle
    else
      match e.action
      case Create(_, u, _, _) => if u == user then On(HOST_PERMISSIONS) else Idle
      case Invite(_, u, permissions) => if u == user then On(permissions) else Idle
      case StopShare(_, _) => if user != creator then Off else Idle
      case RemoveShare(_, users) => if user != creator && user in users then Off else Idle
      case SetPermissions(_, _, changes) =>
        (match LastChange(changes, user)
         case None => Idle
         case Some(p) => Change(p))
      case _ => Idle
  }

  function Apply<V>(was: Option<V>, m: Mark<V>): Option<V> {
    match m
    case On(v) => Some(v)
    case Off => None
    case Change(v) => if was.Some? then Some(v) else None
    case Idle => was
  }

  function Replay<V>(marks: seq<Mark<V>>): Option<V>
    decreases |marks|
  {
    if marks == [] then None else Apply(Replay(marks[..|marks| - 1]), marks[|marks| - 1])
  }

  /** Is the mark at i one that puts something in place, with nothing taken away after it? */
  predicate Stands<V>(marks: seq<Mark<V>>, i: int)
    requires 0 <= i < |marks|
  {
    marks[i].On? && forall j | i < j < |marks| :: !marks[j].Off?
  }

  /** Is the mark at i the last one that gives a value? */
  predicate Latest<V>(marks: seq<Mark<V>>, i: int)
    requires 0 <= i < |marks|
  {
    (marks[i].On? || marks[i].Change?) && forall j | i < j < |marks| :: marks[j].Idle? || marks[j].Off?
  }

  /** Replaying marks one by one is looking for the latest ones. */
  lemma {:induction false} ReplayIsLatest<V>(marks: seq<Mark<V>>)
    ensures Replay(marks).Some? <==> exists i | 0 <= i < |marks| :: Stands(marks, i)
    ensures Replay(marks).Some? ==> exists i | 0 <= i < |marks| ::
      Latest(marks, i) && marks[i].value == Replay(marks).value
    decreases |marks|
  {
    if marks != [] {
      var n := |marks| - 1;
      var rest := marks[..n];
      ReplayIsLatest(rest);
      var m := marks[n];
      if m.On? {
        assert Stands(marks, n) && Latest(marks, n);
      } else if !m.Off? {
        assert forall i | 0 <= i < n :: Stands(marks, i) <==> Stands(rest, i);
        assert !Stands(marks, n);
        if Replay(rest).Some? {
          var i :| 0 <= i < n && Stands(rest, i);
          assert Stands(marks, i);
          if m.Change? {
            assert Latest(marks, n);
          } else {
            var k :| 0 <= k < n && Latest(rest, k) && rest[k].value == Replay(rest).value;
            assert Latest(marks, k);
          }
        }
      }
    }
  }

  // ---------------------------------------------------------------- the rooms, looked at user by user

  function RightsIn(r: Room, user: UserId): Option<Rights> {
    if user in r.users then Some(Rights(r.users[user].role, r.users[user].mouse, r.users[user].keyboard)) else None
  }

  function SocketIn(r: Room, user: UserId): Option<Socket> {
    if user in r.users then Some(r.users[user].socket) else None
  }

  function InvitationIn(r: Room, user: UserId): Option<string> {
    if user in r.invitees then Some(r.invitees[user]) else None
  }

  function RightsMarks(log: seq<Entry>, sid: SessionId, creator: UserId, user: UserId): seq<Mark<Rights>> {
    seq(|log|, i requires 0 <= i < |log| => RightsMark(log[i], sid, creator, user))
  }

  function SocketMarks(log: seq<Entry>, sid: SessionId, creator: UserId, user: UserId): seq<Mark<Socket>> {
    seq(|log|, i requires 0 <= i < |log| => SocketMark(log[i], sid, creator, user))
  }

  function InvitationMarks(log: seq<Entry>, sid: SessionId, creator: UserId, user: UserId): seq<Mark<string>> {
    seq(|log|, i requires 0 <= i < |log| => InvitationMark(log[i], sid, creator, user))
  }

  /** Does the room look, for this user, as the log says? */
  predicate Tells(log: seq<Entry>, r: Room, sid: SessionId, user: UserId) {
    && RightsIn(r, user) == Replay(RightsMarks(log, sid, r.creator, user))
    && SocketIn(r, user) == Replay(SocketMarks(log, sid, r.creator, user))
    && InvitationIn(r, user) == Replay(InvitationMarks(log, sid, r.creator, user))
  }

  lemma MarksGrow(log: seq<Entry>, e: Entry, sid: SessionId, creator: UserId, user: UserId)
    ensures Replay(RightsMarks(log + [e], sid, creator, user))
         == Apply(Replay(RightsMarks(log, sid, creator, user)), RightsMark(e, sid, creator, user))
    ensures Replay(SocketMarks(log + [e], sid, creator, user))
         == Apply(Replay(SocketMarks(log, sid, creator, user)), SocketMark(e, sid, creator, user))
    ensures Replay(InvitationMarks(log + [e], sid, creator, user))
         == Apply(Replay(InvitationMarks(log, sid, creator, user)), InvitationMark(e, sid, creator, user))
  {
    hide RightsMark, SocketMark, InvitationMark, Apply;
    Grow(RightsMarks(log, sid, creator, user), RightsMark(e, sid, creator, user));
    assert RightsMarks(log + [e], sid, creator, user)
      == RightsMarks(log, sid, creator, user) + [RightsMark(e, sid, creator, user)];
    Grow(SocketMarks(log, sid, creator, user), SocketMark(e, sid, creator, user));
    assert SocketMarks(log + [e], sid, creator, user)
      == SocketMarks(log, sid, creator, user) + [SocketMark(e, sid, creator, user)];
    Grow(InvitationMarks(log, sid, creator, user), InvitationMark(e, sid, creator, user));
    assert InvitationMarks(log + [e], sid, creator, user)
      == InvitationMarks(log, sid, creator, user) + [InvitationMark(e, sid, creator, user)];
  }

  lemma Grow<V>(marks: seq<Mark<V>>, m: Mark<V>)
    ensures Replay(marks + [m]) == Apply(Replay(marks), m)
  {
    assert (marks + [m])[..|marks|] == marks;
  }

  // ---------------------------------------------------------------- one operation

  /** Other rooms are left alone. */
  lemma OtherRoom(g: Registry, a: Action, sid: SessionId)
    requires Inv(g) && sid in g.rooms && a.sid != sid
    ensures var g' := Step(g, a).0; sid in g'.rooms && g'.rooms[sid] == g.rooms[sid]
  {
    hide Contains, HasHost, Evicted, RemovedAll, AssignedAll, Removed, Assigned;
    if a.sid in g.rooms {
      var r := g.rooms[a.sid];
      if a.RemoveShare? {
        RemovedAllRest(r, a.users);
      } else if a.SetPermissions? {
        AssignedAllLast(r, a.changes);
      }
    }
  }

  lemma OwnRights(g: Registry, a: Action, user: UserId)
    requires Inv(g) && a.sid in g.rooms && a.sid in Step(g, a).0.rooms && !a.Create?
    ensures var (g', status) := Step(g, a);
      var r, r' := g.rooms[a.sid], g'.rooms[a.sid];
      && r'.creator == r.creator
      && RightsIn(r', user) == Apply(RightsIn(r, user), RightsMark(Entry(a, status), a.sid, r.creator, user))
  {
    hide Contains, LastChange, RemovedAll, AssignedAll, HasHost, Evicted, Removed, Assigned;
    var r := g.rooms[a.sid];
    SessionName(r, a.sid);
    if a.RemoveShare? {
      RemovedAllRest(r, a.users);
    } else if a.SetPermissions? {
      AssignedAllLast(r, a.changes);
    }
  }

  lemma OwnSocket(g: Registry, a: Action, user: UserId)
    requires Inv(g) && a.sid in g.rooms && a.sid in Step(g, a).0.rooms && !a.Create?
    ensures var (g', status) := Step(g, a);
      var r, r' := g.rooms[a.sid], g'.rooms[a.sid];
      && r'.creator == r.creator
      && SocketIn(r', user) == Apply(SocketIn(r, user), SocketMark(Entry(a, status), a.sid, r.creator, user))
  {
    hide Contains, LastChange, RemovedAll, AssignedAll, HasHost, Evicted, Removed, Assigned, Granted;
    var r := g.rooms[a.sid];
    SessionName(r, a.sid);
    if a.RemoveShare? {
      RemovedAllRest(r, a.users);
    } else if a.SetPermissions? {
      AssignedAllLast(r, a.changes);
    }
  }

  lemma OwnInvitation(g: Registry, a: Action, user: UserId)
    requires Inv(g) && a.sid in g.rooms && a.sid in Step(g, a).0.rooms && !a.Create?
    ensures var (g', status) := Step(g, a);
      var r, r' := g.rooms[a.sid], g'.rooms[a.sid];
      && r'.creator == r.creator
      && InvitationIn(r', user)
        == Apply(InvitationIn(r, user), InvitationMark(Entry(a, status), a.sid, r.creator, user))
  {
    hide Contains, LastChange, RemovedAll, AssignedAll, HasHost, Evicted, Removed, Assigned, Granted, Exits, Enter,
      Assign;
    var r := g.rooms[a.sid];
    SessionName(r, a.sid);
    if a.RemoveShare? {
      RemovedAllRest(r, a.users);
    } else if a.SetPermissions? {
      AssignedAllLast(r, a.changes);
    }
  }

  /** What one operation does to one user of a room that was open before and is open after. */
  lemma StepMarks(g: Registry, a: Action, sid: SessionId, user: UserId)
    requires Inv(g) && sid in g.rooms && sid in Step(g, a).0.rooms && !(a.Create? && a.sid == sid)
    ensures var (g', status) := Step(g, a);
      var r, r', e := g.rooms[sid], g'.rooms[sid], Entry(a, status);
      && r'.creator == r.creator
      && RightsIn(r', user) == Apply(RightsIn(r, user), RightsMark(e, sid, r.creator, user))
      && SocketIn(r', user) == Apply(SocketIn(r, user), SocketMark(e, sid, r.creator, user))
      && InvitationIn(r', user) == Apply(InvitationIn(r, user), InvitationMark(e, sid, r.creator, user))
  {
    hide Step, RightsIn, SocketIn, InvitationIn, Inv, Exits, LastChange;
    if a.sid == sid {
      OwnRights(g, a, user);
      OwnSocket(g, a, user);
      OwnInvitation(g, a, user);
    } else {
      OtherRoom(g, a, sid);
    }
  }

  /** Which rooms are open after an operation. */
  lemma StepRooms(g: Registry, a: Action)
    requires Inv(g)
    ensures var (g', status) := Step(g, a);
      && g'.rooms.Keys <= g.rooms.Keys + (if a.Create? then {a.sid} else {})
      && (Effective(Entry(a, status)) ==> a.Create? || a.sid in g.rooms)
      && (a.Create? ==> status == Done && a.sid in g'.rooms)
      && (a.Create? ==> g'.rooms[a.sid] == Created(a.sid, a.user, a.socket, a.appId))
      && (a.Create? ==> forall sid | sid in g.rooms && sid != a.sid :: g'.rooms[sid] == g.rooms[sid])
  {
    hide Contains, HasHost, Evicted, RemovedAll, AssignedAll;
    if a.sid in g.rooms {
      var r := g.rooms[a.sid];
      if a.RemoveShare? {
        RemovedAllRest(r, a.users);
      } else if a.SetPermissions? {
        AssignedAllLast(r, a.changes);
      }
    }
  }

  // ---------------------------------------------------------------- whole runs

  ghost predicate CreatedBefore(log: seq<Entry>, sid: SessionId) {
    exists i | 0 <= i < |log| :: log[i].action.Create? && log[i].action.sid == sid
  }

  /** What the log says holds of the rooms, and nothing took effect on a session before its room was created. */
  ghost predicate Faithful(w: World) {
    && Inv(w.g)
    && (forall sid, user | sid in w.g.rooms :: Tells(w.log, w.g.rooms[sid], sid, user))
    && (forall sid | sid in w.g.rooms :: CreatedBefore(w.log, sid))
    && (forall i | 0 <= i < |w.log| :: Effective(w.log[i]) ==> CreatedBefore(w.log, w.log[i].action.sid))
  }

  lemma CreatedGrows(log: seq<Entry>, e: Entry, sid: SessionId)
    ensures CreatedBefore(log, sid) ==> CreatedBefore(log + [e], sid)
    ensures e.action.Create? && e.action.sid == sid ==> CreatedBefore(log + [e], sid)
  {
    if CreatedBefore(log, sid) {
      var i :| 0 <= i < |log| && log[i].action.Create? && log[i].action.sid == sid;
      assert (log + [e])[i] == log[i];
    }
    assert (log + [e])[|log|] == e;
  }

  /** Before its creation a session has no marks. */
  lemma {:induction false} NothingBefore(log: seq<Entry>, sid: SessionId, creator: UserId, user: UserId)
    requires forall i | 0 <= i < |log| :: Effective(log[i]) ==> log[i].action.sid != sid
    ensures Replay(RightsMarks(log, sid, creator, user)) == None
    ensures Replay(SocketMarks(log, sid, creator, user)) == None
    ensures Replay(InvitationMarks(log, sid, creator, user)) == None
    decreases |log|
  {
    hide LastChange, Granted, Exits;
    if log != [] {
      var n := |log| - 1;
      NothingBefore(log[..n], sid, creator, user);
      MarksGrow(log[..n], log[n], sid, creator, user);
      assert log == log[..n] + [log[n]];
    }
  }

  lemma NewRoomTells(w: World, a: Action, user: UserId)
    requires Faithful(w) && a.Create? && !CreatedBefore(w.log, a.sid)
    ensures Tells(Do(w, a).log, Created(a.sid, a.user, a.socket, a.appId), a.sid, user)
  {
    hide RightsMarks, SocketMarks, InvitationMarks, Replay, Tells, LastChange, Contains, Inv;
    NothingBefore(w.log, a.sid, a.user, user);
    MarksGrow(w.log, Entry(a, Done), a.sid, a.user, user);
    CreatedTells(w.log, a, user);
  }

  lemma CreatedTells(log: seq<Entry>, a: Action, user: UserId)
    requires a.Create?
    requires var e := Entry(a, Done);
      && Replay(RightsMarks(log + [e], a.sid, a.user, user)) == RightsMarkAlone(a, user)
      && Replay(SocketMarks(log + [e], a.sid, a.user, user)) == (if a.user == user then Some(a.socket) else None)
      && Replay(InvitationMarks(log + [e], a.sid, a.user, user))
        == (if a.user == user then Some(HOST_PERMISSIONS) else None)
    ensures Tells(log + [Entry(a, Done)], Created(a.sid, a.user, a.socket, a.appId), a.sid, user)
  {
    hide RightsMarks, SocketMarks, InvitationMarks, Replay;
  }

  function RightsMarkAlone(a: Action, user: UserId): Option<Rights>
    requires a.Create?
  {
    if a.user == user then Some(Rights(Admin, true, true)) else None
  }

  lemma OldRoomTells(w: World, a: Action, sid: SessionId, user: UserId)
    requires Faithful(w) && sid in w.g.rooms && sid in Step(w.g, a).0.rooms && !(a.Create? && a.sid == sid)
    ensures Tells(Do(w, a).log, Do(w, a).g.rooms[sid], sid, user)
  {
    hide Step, RightsMarks, SocketMarks, InvitationMarks, Replay, Apply, RightsMark, SocketMark, InvitationMark,
      RightsIn, SocketIn, InvitationIn, Inv;
    var e := Entry(a, Step(w.g, a).1);
    assert Tells(w.log, w.g.rooms[sid], sid, user);
    StepMarks(w.g, a, sid, user);
    MarksGrow(w.log, e, sid, w.g.rooms[sid].creator, user);
  }

  lemma DoFaithful(w: World, a: Action)
    requires Faithful(w) && (a.Create? ==> !CreatedBefore(w.log, a.sid))
    ensures Faithful(Do(w, a))
  {
    hide Step, Tells, Inv, CreatedBefore, Created;
    var w' := Do(w, a);
    var e := Entry(a, Step(w.g, a).1);
    StepKeepsInv(w.g, a);
    StepRooms(w.g, a);
    forall sid ensures CreatedBefore(w.log, sid) ==> CreatedBefore(w'.log, sid) {
      CreatedGrows(w.log, e, sid);
    }
    CreatedGrows(w.log, e, a.sid);
    forall sid, user | sid in w'.g.rooms ensures Tells(w'.log, w'.g.rooms[sid], sid, user) {
      if a.Create? && a.sid == sid {
        NewRoomTells(w, a, user);
      } else {
        OldRoomTells(w, a, sid, user);
      }
    }
  }

  lemma {:induction false} PlayFaithful(run: seq<Action>)
    requires FreshIds(run)
    ensures Faithful(Play(run)) && |Play(run).log| == |run|
    ensures forall i | 0 <= i < |run| :: Play(run).log[i].action == run[i]
    decreases |run|
  {
    hide Step, Tells, Inv;
    if run != [] {
      var n := |run| - 1;
      PlayFaithful(run[..n]);
      DoFaithful(Play(run[..n]), run[n]);
    } else {
      EmptySound();
    }
  }

  lemma EmptySound()
    ensures Inv(EMPTY)
  {
  }

  /**
   In a room that is open after a run with fresh session ids, a user is present exactly when some entry put it in
   and none after that put it out; its rights are those of the latest entry that gave it any.
   */
  lemma MembersByHistory(run: seq<Action>, sid: SessionId, user: UserId)
    requires FreshIds(run) && sid in Play(run).g.rooms
    ensures var r := Play(run).g.rooms[sid];
      var marks := RightsMarks(Play(run).log, sid, r.creator, user);
      && (user in r.users <==> exists i | 0 <= i < |marks| :: Stands(marks, i))
      && (user in r.users ==> exists i | 0 <= i < |marks| ::
        Latest(marks, i) && RightsIn(r, user) == Some(marks[i].value))
  {
    hide Play, RightsMarks, SocketMarks, InvitationMarks, Replay, Stands, Latest;
    PlayFaithful(run);
    var r := Play(run).g.rooms[sid];
    assert Tells(Play(run).log, r, sid, user);
    ReplayIsLatest(RightsMarks(Play(run).log, sid, r.creator, user));
  }

  /** Its socket is the one it last came in with. */
  lemma SocketsByHistory(run: seq<Action>, sid: SessionId, user: UserId)
    requires FreshIds(run) && sid in Play(run).g.rooms
    ensures var r := Play(run).g.rooms[sid];
      var marks := SocketMarks(Play(run).log, sid, r.creator, user);
      && (user in r.users <==> exists i | 0 <= i < |marks| :: Stands(marks, i))
      && (user in r.users ==> exists i | 0 <= i < |marks| :: Latest(marks, i) && marks[i].value == r.users[user].socket)
  {
    hide Play, RightsMarks, SocketMarks, InvitationMarks, Replay, Stands, Latest;
    PlayFaithful(run);
    var r := Play(run).g.rooms[sid];
    assert Tells(Play(run).log, r, sid, user);
    ReplayIsLatest(SocketMarks(Play(run).log, sid, r.creator, user));
  }

  /** Invitations likewise; leaving does not end one. */
  lemma InvitationsByHistory(run: seq<Action>, sid: SessionId, user: UserId)
    requires FreshIds(run) && sid in Play(run).g.rooms
    ensures var r := Play(run).g.rooms[sid];
      var marks := InvitationMarks(Play(run).log, sid, r.creator, user);
      && (user in r.invitees <==> exists i | 0 <= i < |marks| :: Stands(marks, i))
      && (user in r.invitees ==> exists i | 0 <= i < |marks| :: Latest(marks, i) && marks[i].value == r.invitees[user])
  {
    hide Play, RightsMarks, SocketMarks, InvitationMarks, Replay, Stands, Latest;
    PlayFaithful(run);
    var r := Play(run).g.rooms[sid];
    assert Tells(Play(run).log, r, sid, user);
    ReplayIsLatest(InvitationMarks(Play(run).log, sid, r.creator, user));
  }

  predicate Creates(a: Action, sid: SessionId, creator: UserId, appId: string) {
    a.Create? && a.sid == sid && a.user == creator && a.appId == appId
  }

  /** The room's creator and app are those its one create operation named. */
  lemma {:induction false} CreatorByHistory(run: seq<Action>, sid: SessionId)
    requires FreshIds(run) && sid in Play(run).g.rooms
    ensures var r := Play(run).g.rooms[sid];
      exists i | 0 <= i < |run| :: Creates(run[i], sid, r.creator, r.appId)
    decreases |run|
  {
    hide Step, Inv, Tells;
    var n := |run| - 1;
    var w := Play(run[..n]);
    PlayFaithful(run[..n]);
    StepRooms(w.g, run[n]);
    if run[n].Create? && run[n].sid == sid {
      assert Creates(run[n], sid, Play(run).g.rooms[sid].creator, Play(run).g.rooms[sid].appId);
    } else {
      CreatorByHistory(run[..n], sid);
      KeepsCreator(w.g, run[n], sid);
      var i :| 0 <= i < n && Creates(run[..n][i], sid, w.g.rooms[sid].creator, w.g.rooms[sid].appId);
      assert run[i] == run[..n][i];
    }
  }

  lemma KeepsCreator(g: Registry, a: Action, sid: SessionId)
    requires Inv(g) && sid in g.rooms && sid in Step(g, a).0.rooms && !(a.Create? && a.sid == sid)
    ensures Step(g, a).0.rooms[sid].creator == g.rooms[sid].creator
      && Step(g, a).0.rooms[sid].appId == g.rooms[sid].appId
  {
    hide Contains, HasHost, Evicted, RemovedAll, AssignedAll;
    var r := g.rooms[sid];
    SessionName(r, sid);
    if a.sid != sid {
      OtherRoom(g, a, sid);
    } else if a.RemoveShare? {
      RemovedAllKeeps(r, a.users);
    } else if a.SetPermissions? {
      AssignedAllKeeps(r, a.changes);
    }
  }
}
