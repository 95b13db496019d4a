/** Shared-session rooms as values: what each operation does to the registry, and what the operations keep. */
module RoomSpec {
  import opened Options

  type UserId = string

  type SessionId = string

  datatype Socket = Socket(number: nat)

  datatype Role = Admin | CoHost | Viewer

  const INVITEE_LIMIT := 4
  const HOST_PERMISSIONS := "admin,keyboard,mouse"

  datatype Client = Client(userId: UserId, socket: Socket, role: Role, mouse: bool, keyboard: bool)

  datatype Room = Room(
    creator: UserId,
    appId: string,
    sessionId: SessionId,
    users: map<UserId, Client>,
    invitees: map<UserId, string>)

  /**
   The open rooms, the sessions with session data, and the sockets the rooms have closed: one batch for each
   operation that closes sockets, saying whose.
   */
  datatype Registry = Registry(rooms: map<SessionId, Room>, data: set<SessionId>, closed: seq<map<UserId, Socket>>)

  datatype Status = Done | NotFound | LimitReached | Denied | Panicked

  /** strings.Contains. */
  predicate Contains(s: string, part: string)
    ensures Contains(s, part) <==> exists i | 0 <= i <= |s| :: part <= s[i..]
  {
    if part <= s then
      assert s[0..] == s;
      true
    else if s == [] then false
    else
      assert forall i | 0 <= i < |s| :: s[1..][i..] == s[i + 1..];
      assert (exists i | 0 <= i <= |s| :: part <= s[i..]) ==> exists j | 0 <= j < |s| :: part <= s[1..][j..] by {
        if i :| 0 <= i <= |s| && part <= s[i..] {
          assert s[0..] == s && part <= s[1..][i - 1..];
        }
      }
      Contains(s[1..], part)
  }

  // ---------------------------------------------------------------- single rooms

  function Enter(user: UserId, socket: Socket, host: bool, permissions: string): Client {
    Client(user, socket,
      if host then Admin else if Contains(permissions, "admin") then CoHost else Viewer,
      Contains(permissions, "mouse"),
      Contains(permissions, "keyboard"))
  }

  function Created(sid: SessionId, user: UserId, socket: Socket, appId: string): Room {
    Room(user, appId, sid, map[user := Client(user, socket, Admin, true, true)], map[user := HOST_PERMISSIONS])
  }

  function Joined(r: Room, user: UserId, socket: Socket, permissions: string): Room {
    r.(users := r.users[user := Enter(user, socket, r.creator == user, permissions)])
  }

  function Left(r: Room, user: UserId): Room {
    r.(users := r.users - {user})
  }

  /** Everyone but the creator is evicted and uninvited. */
  function Stopped(r: Room): Room {
    r.(users := map u | u in r.users && u == r.creator :: r.users[u],
       invitees := map u | u in r.invitees && u == r.creator :: r.invitees[u])
  }

  /** One user is evicted and uninvited, unless it is the creator. */
  function Removed(r: Room, user: UserId): Room {
    if user == r.creator then r else Dropped(r, user)
  }

  function Dropped(r: Room, user: UserId): Room {
    r.(users := r.users - {user}, invitees := r.invitees - {user})
  }

  function RemovedAll(r: Room, users: seq<UserId>): Room
    decreases |users|
  {
    if users == [] then r else RemovedAll(Removed(r, users[0]), users[1..])
  }

  function Assigned(r: Room, user: UserId, permission: string): Room {
    r.(users := if user in r.users then r.users[user := Assign(r.users[user], permission)] else r.users,
       invitees := if user in r.invitees then r.invitees[user := permission] else r.invitees)
  }

  function Assign(c: Client, permission: string): Client {
    c.(role := if Contains(permission, "admin") then CoHost else Viewer,
       mouse := Contains(permission, "mouse"),
       keyboard := Contains(permission, "keyboard"))
  }

  function AssignedAll(r: Room, changes: seq<(UserId, string)>): Room
    decreases |changes|
  {
    if changes == [] then r else AssignedAll(Assigned(r, changes[0].0, changes[0].1), changes[1..])
  }

  /** Does someone in the room have a role other than viewer? */
  predicate HasHost(r: Room) {
    exists u | u in r.users :: r.users[u].role != Viewer
  }

  /** The sockets of the given clients, by user. */
  function Sockets(users: map<UserId, Client>): map<UserId, Socket> {
    map u | u in users :: users[u].socket
  }

  // ---------------------------------------------------------------- the operations

  /** The exported operations and commands; role is the role of the client object that issues a command. */
  datatype Action =
    | Create(sid: SessionId, user: UserId, socket: Socket, appId: string)
    | Invite(sid: SessionId, user: UserId, permissions: string)
    | Join(sid: SessionId, user: UserId, socket: Socket, permissions: string)
    | Leave(sid: SessionId, user: UserId)
    | StopShare(sid: SessionId, role: Role)
    | RemoveShare(sid: SessionId, users: seq<UserId>)
    | SetPermissions(sid: SessionId, role: Role, changes: seq<(UserId, string)>)

  function Put(g: Registry, r: Room): Registry {
    g.(rooms := g.rooms[r.sessionId := r])
  }

  /** The room is gone with its session data, and the sockets left in it are closed. */
  function Close(g: Registry, r: Room): Registry {
    Registry(g.rooms - {r.sessionId}, g.data - {r.sessionId}, g.closed + [Sockets(r.users)])
  }

  /** The users whose sockets an operation on r closes when it leaves only those of after. */
  function Evicted(r: Room, after: Room): map<UserId, Socket> {
    map u | u in r.users && u !in after.users :: r.users[u].socket
  }

  function Step(g: Registry, a: Action): (r: (Registry, Status)) {
    match a
    case Create(sid, user, socket, appId) =>
      // the session data is stored while connecting, just before the room is made
      (Put(g, Created(sid, user, socket, appId)).(data := g.data + {sid}), Done)
    case Invite(sid, user, permissions) =>
      if sid !in g.rooms then (g, NotFound)
      else
        var r := g.rooms[sid];
        if |r.invitees| >= INVITEE_LIMIT then (g, LimitReached)
        else (Put(g, r.(invitees := r.invitees[user := permissions])), Done)
    case Join(sid, user, socket, permissions) =>
      if sid !in g.rooms then (g, NotFound) else (Put(g, Joined(g.rooms[sid], user, socket, permissions)), Done)
    case Leave(sid, user) =>
      if sid !in g.rooms then (g, NotFound)
      else
        var r := Left(g.rooms[sid], user);
        if HasHost(r) then (Put(g, r), Done)
        // the missing session data would be dereferenced
        else (Close(g, r), if sid in g.data then Done else Panicked)
    case StopShare(sid, role) =>
      if role != Admin then (g, Denied)
      else if sid !in g.rooms then (g, NotFound)
      else
        var r := g.rooms[sid];
        var g' := Put(g, Stopped(r)).(closed := g.closed + [Evicted(r, Stopped(r))]);
        // the empty members list is written to the creator's client, which must be there
        (g', if r.creator in r.users then Done else Panicked)
    case RemoveShare(sid, users) =>
      if users == [] || sid !in g.rooms then (g, NotFound)
      else
        var r := g.rooms[sid];
        var r' := RemovedAll(r, users);
        (Put(g, r').(closed := g.closed + [Evicted(r, r')]), Done)
    case SetPermissions(sid, role, changes) =>
      if role == Viewer then (g, Denied)
      else if sid !in g.rooms then (g, NotFound)
      else (Put(g, AssignedAll(g.rooms[sid], changes)), Done)
  }

  // ---------------------------------------------------------------- the invariant of every operation

  predicate RoomInv(r: Room, sid: SessionId) {
    && r.sessionId == sid
    && (forall u | u in r.users :: r.users[u].userId == u && (r.users[u].role == Admin ==> u == r.creator))
    && r.creator in r.invitees
    && |r.invitees| <= INVITEE_LIMIT
  }

  /** Every room is sound and has session data. */
  predicate Inv(g: Registry) {
    && (forall sid | sid in g.rooms :: RoomInv(g.rooms[sid], sid))
    && (forall sid | sid in g.rooms :: sid in g.data)
  }

  lemma InviteesBound(m: map<UserId, string>, u: UserId, p: string)
    ensures |m[u := p]| <= |m| + 1
  {
    assert m[u := p].Keys == m.Keys + {u};
    assert |m[u := p]| == |m[u := p].Keys|;
  }

  lemma SubmapBound(m: map<UserId, string>, n: map<UserId, string>)
    requires n.Keys <= m.Keys
    ensures |n| <= |m|
  {
    KeysBound(n.Keys, m.Keys);
    assert |n| == |n.Keys| && |m| == |m.Keys|;
  }

  lemma {:induction false} KeysBound(a: set<UserId>, b: set<UserId>)
    requires a <= b
    ensures |a| <= |b|
  {
    if a != {} {
      var u :| u in a;
      KeysBound(a - {u}, b - {u});
    }
  }

  lemma {:induction false} RemovedAllKeeps(r: Room, users: seq<UserId>)
    requires RoomInv(r, r.sessionId)
    ensures var r' := RemovedAll(r, users);
      RoomInv(r', r.sessionId) && r'.sessionId == r.sessionId && r'.creator == r.creator && r'.appId == r.appId
    decreases |users|
  {
    if users != [] {
      SubmapBound(r.invitees, Removed(r, users[0]).invitees);
      RemovedAllKeeps(Removed(r, users[0]), users[1..]);
    }
  }

  lemma {:induction false} AssignedAllKeeps(r: Room, changes: seq<(UserId, string)>)
    requires RoomInv(r, r.sessionId)
    ensures var r' := AssignedAll(r, changes);
      && RoomInv(r', r.sessionId) && r'.users.Keys == r.users.Keys
      && r'.sessionId == r.sessionId && r'.creator == r.creator && r'.appId == r.appId
    decreases |changes|
  {
    hide Contains;
    if changes != [] {
      var r1 := Assigned(r, changes[0].0, changes[0].1);
      assert r1.invitees.Keys == r.invitees.Keys;
      SubmapBound(r.invitees, r1.invitees);
      AssignedAllKeeps(r1, changes[1..]);
    }
  }

  lemma PutKeepsInv(g: Registry, r: Room)
    requires Inv(g) && RoomInv(r, r.sessionId) && r.sessionId in g.data
    ensures Inv(Put(g, r))
  {
    hide RoomInv;
  }

  lemma CloseKeepsInv(g: Registry, r: Room)
    requires Inv(g)
    ensures Inv(Close(g, r))
  {
    hide RoomInv;
  }

  lemma CreatedSound(sid: SessionId, user: UserId, socket: Socket, appId: string)
    ensures RoomInv(Created(sid, user, socket, appId), sid)
  {
  }

  /** The room-level operations keep a room sound. */
  lemma RoomOperationsKeep(r: Room, user: UserId, socket: Socket, permissions: string)
    requires RoomInv(r, r.sessionId)
    ensures |r.invitees| < INVITEE_LIMIT ==> RoomInv(r.(invitees := r.invitees[user := permissions]), r.sessionId)
    ensures RoomInv(Joined(r, user, socket, permissions), r.sessionId)
    ensures RoomInv(Left(r, user), r.sessionId)
    ensures RoomInv(Stopped(r), r.sessionId)
  {
    hide Contains;
    InviteesBound(r.invitees, user, permissions);
    SubmapBound(r.invitees, Stopped(r).invitees);
  }

  lemma SessionName(r: Room, sid: SessionId)
    requires RoomInv(r, sid)
    ensures r.sessionId == sid
  {
  }

  /** Every operation keeps the invariant, and session data is never missing when a room closes. */
  lemma StepKeepsInv(g: Registry, a: Action)
    requires Inv(g)
    ensures Inv(Step(g, a).0)
    ensures a.Leave? ==> Step(g, a).1 != Panicked
  {
    hide Contains, RemovedAll, AssignedAll, HasHost, RoomInv, Evicted, Enter;
    var sid := a.sid;
    if a.Create? {
      var r := Created(sid, a.user, a.socket, a.appId);
      CreatedSound(sid, a.user, a.socket, a.appId);
      PutKeepsInv(g.(data := g.data + {sid}), r);
    } else if sid in g.rooms {
      var r := g.rooms[sid];
      SessionName(r, sid);
      match a
      case Invite(_, user, p) =>
        RoomOperationsKeep(r, user, Socket(0), p);
        if |r.invitees| < INVITEE_LIMIT {
          PutKeepsInv(g, r.(invitees := r.invitees[user := p]));
        }
      case Join(_, user, socket, p) =>
        RoomOperationsKeep(r, user, socket, p);
        PutKeepsInv(g, Joined(r, user, socket, p));
      case Leave(_, user) =>
        RoomOperationsKeep(r, user, Socket(0), "");
        PutKeepsInv(g, Left(r, user));
        CloseKeepsInv(g, Left(r, user));
      case StopShare(_, _) =>
        RoomOperationsKeep(r, "", Socket(0), "");
        PutKeepsInv(g, Stopped(r));
      case RemoveShare(_, users) =>
        RemovedAllKeeps(r, users);
        PutKeepsInv(g, RemovedAll(r, users));
      case SetPermissions(_, _, changes) =>
        AssignedAllKeeps(r, changes);
        PutKeepsInv(g, AssignedAll(r, changes));
    }
  }

  /** The registry after a run of operations, every one of them completing. */
  function After(g: Registry, run: seq<Action>): Registry
    decreases |run|
  {
    if run == [] then g else After(Step(g, run[0]).0, run[1..])
  }

  const EMPTY := Registry(map[], {}, [])

  /** In every run the rooms stay sound, and no leave ever misses session data. */
  lemma {:induction false} RunKeepsInv(g: Registry, run: seq<Action>)
    requires Inv(g)
    ensures Inv(After(g, run))
    decreases |run|
  {
    hide Inv, Step;
    if run != [] {
      StepKeepsInv(g, run[0]);
      RunKeepsInv(Step(g, run[0]).0, run[1..]);
    }
  }

  // ---------------------------------------------------------------- leaving and closing

  /**
   After a leave the room keeps someone who is not a viewer, or it is gone with its session data and the
   sockets of exactly those left in it are closed.
   */
  lemma LeaveKeepsOrCloses(g: Registry, sid: SessionId, user: UserId)
    requires Inv(g) && sid in g.rooms
    ensures var (g', status) := Step(g, Leave(sid, user));
      && status == Done
      && (sid in g'.rooms <==> exists u | u in g.rooms[sid].users :: u != user && g.rooms[sid].users[u].role != Viewer)
      && (sid in g'.rooms ==> HasHost(g'.rooms[sid]) && g'.closed == g.closed)
      && (sid in g'.rooms ==> g'.rooms[sid].users.Keys == g.rooms[sid].users.Keys - {user})
      && (sid !in g'.rooms ==> sid !in g'.data && g'.closed == g.closed + [Sockets(g.rooms[sid].users - {user})])
      && (forall s | s != sid :: s in g'.rooms <==> s in g.rooms)
  {
    var r := g.rooms[sid];
    var r' := Left(r, user);
    assert HasHost(r') <==> exists u | u in r.users :: u != user && r.users[u].role != Viewer by {
      if u :| u in r.users && u != user && r.users[u].role != Viewer {
        assert u in r'.users;
      }
    }
  }

  /** A leave by someone not in the room changes nothing exactly when the room has someone who is not a viewer. */
  lemma AbsentLeaveIff(g: Registry, sid: SessionId, user: UserId)
    requires Inv(g) && sid in g.rooms && user !in g.rooms[sid].users
    ensures Step(g, Leave(sid, user)).0 == g <==> HasHost(g.rooms[sid])
  {
    var r := g.rooms[sid];
    assert r.users - {user} == r.users;
    assert Left(r, user) == r;
    assert g.rooms[sid := r] == g.rooms;
  }

  // ---------------------------------------------------------------- stop-share

  /** Is this the role of a client object that is still in the room? */
  predicate InRoom(r: Room, user: UserId, role: Role) {
    user in r.users && r.users[user].role == role
  }

  /**
   Stop-share issued by an admin client still in the room: it completes, the room shrinks to exactly the
   creator among users and invitees, and the sockets of all others are closed, once each.
   */
  lemma StopShareByHost(g: Registry, sid: SessionId, user: UserId)
    requires Inv(g) && sid in g.rooms && InRoom(g.rooms[sid], user, Admin)
    ensures var (g', status) := Step(g, StopShare(sid, Admin));
      var r := g.rooms[sid];
      && status == Done && user == r.creator
      && sid in g'.rooms && g'.rooms[sid].users == map[user := r.users[user]]
      && g'.rooms[sid].invitees.Keys == {user}
      && g'.closed == g.closed + [Sockets(r.users - {user})]
      && (forall s | s != sid :: s in g'.rooms <==> s in g.rooms)
      && (forall s | s != sid && s in g.rooms :: g'.rooms[s] == g.rooms[s])
  {
    var r := g.rooms[sid];
    assert Stopped(r).users == map[user := r.users[user]];
    assert Evicted(r, Stopped(r)) == Sockets(r.users - {user});
  }

  // ---------------------------------------------------------------- lists of changes

  /** The last permission a list of changes gives to a user, if it names the user. */
  function LastChange(changes: seq<(UserId, string)>, user: UserId): (c: Option<string>)
    ensures c.None? <==> forall i | 0 <= i < |changes| :: changes[i].0 != user
    ensures c.Some? ==>
      exists i | 0 <= i < |changes| ::
        changes[i] == (user, c.value) && forall j | i < j < |changes| :: changes[j].0 != user
    decreases |changes|
  {
    if changes == [] then None
    else
      var rest := LastChange(changes[1..], user);
      if rest.None? && changes[0].0 == user then Some(changes[0].1) else rest
  }

  function ClientAfter(r: Room, changes: seq<(UserId, string)>, user: UserId): Client
    requires user in r.users
  {
    match LastChange(changes, user)
    case None => r.users[user]
    case Some(p) => Assign(r.users[user], p)
  }

  /** Each user and invitee ends with the last permission given, or unchanged when not named. */
  lemma {:induction false} AssignedAllLast(r: Room, changes: seq<(UserId, string)>)
    ensures var r' := AssignedAll(r, changes);
      && r'.users.Keys == r.users.Keys && r'.invitees.Keys == r.invitees.Keys
      && r'.creator == r.creator && r'.sessionId == r.sessionId
      && (forall u | u in r.users :: r'.users[u] == ClientAfter(r, changes, u))
      && (forall u | u in r.invitees :: r'.invitees[u] == LastChange(changes, u).Or(r.invitees[u]))
    decreases |changes|
  {
    hide Contains;
    if changes != [] {
      AssignedAllLast(Assigned(r, changes[0].0, changes[0].1), changes[1..]);
    }
  }

  /** Exactly the listed users are gone, but for the creator; the others keep their client and permissions. */
  lemma {:induction false} RemovedAllRest(r: Room, users: seq<UserId>)
    ensures var r' := RemovedAll(r, users);
      && r'.creator == r.creator && r'.sessionId == r.sessionId
      && r'.users == (map u | u in r.users && (u == r.creator || u !in users) :: r.users[u])
      && r'.invitees == (map u | u in r.invitees && (u == r.creator || u !in users) :: r.invitees[u])
    decreases |users|
  {
    if users != [] {
      RemovedAllRest(Removed(r, users[0]), users[1..]);
    }
  }

  // ---------------------------------------------------------------- rooms without a host

  predicate AllHosted(g: Registry) {
    forall sid | sid in g.rooms :: HasHost(g.rooms[sid])
  }

  /** Is this user of the room, after the changes, someone with a role other than viewer? */
  predicate HostAfter(r: Room, changes: seq<(UserId, string)>, user: UserId)
    requires user in r.users
  {
    match LastChange(changes, user)
    case None => r.users[user].role != Viewer
    case Some(p) => Contains(p, "admin")
  }

  /** The guard each operation would have to check for its room to keep someone with a role other than viewer. */
  predicate KeepsHost(g: Registry, a: Action) {
    if a.sid !in g.rooms then true
    else
      var r := g.rooms[a.sid];
      match a
      case Join(_, user, _, permissions) =>
        || user == r.creator || Contains(permissions, "admin")
        || exists u | u in r.users :: u != user && r.users[u].role != Viewer
      case StopShare(_, role) =>
        role == Admin ==> r.creator in r.users && r.users[r.creator].role != Viewer
      case RemoveShare(_, users) =>
        exists u | u in r.users :: r.users[u].role != Viewer && (u == r.creator || u !in users)
      case SetPermissions(_, role, changes) =>
        role != Viewer ==> exists u | u in r.users :: HostAfter(r, changes, u)
      case _ => true
  }

  lemma JoinHostIff(r: Room, user: UserId, socket: Socket, permissions: string)
    ensures HasHost(Joined(r, user, socket, permissions)) <==>
      || user == r.creator || Contains(permissions, "admin")
      || exists u | u in r.users :: u != user && r.users[u].role != Viewer
  {
    hide Contains;
    var r' := Joined(r, user, socket, permissions);
    assert user in r'.users;
    if u :| u in r.users && u != user && r.users[u].role != Viewer {
      assert u in r'.users && r'.users[u].role != Viewer;
    }
  }

  lemma StopHostIff(r: Room)
    ensures HasHost(Stopped(r)) <==> r.creator in r.users && r.users[r.creator].role != Viewer
  {
    if r.creator in r.users {
      assert r.creator in Stopped(r).users;
    }
  }

  lemma RemoveHostIff(r: Room, users: seq<UserId>)
    ensures HasHost(RemovedAll(r, users)) <==>
      exists u | u in r.users :: r.users[u].role != Viewer && (u == r.creator || u !in users)
  {
    RemovedAllRest(r, users);
    if u :| u in r.users && r.users[u].role != Viewer && (u == r.creator || u !in users) {
      assert u in RemovedAll(r, users).users;
    }
  }

  lemma PermissionsHostIff(r: Room, changes: seq<(UserId, string)>)
    ensures HasHost(AssignedAll(r, changes)) <==> exists u | u in r.users :: HostAfter(r, changes, u)
  {
    hide Contains, LastChange, AssignedAll;
    AssignedAllLast(r, changes);
    if u :| u in r.users && HostAfter(r, changes, u) {
      assert u in AssignedAll(r, changes).users;
    }
  }

  lemma InviteHost(r: Room, user: UserId, permissions: string)
    ensures HasHost(r.(invitees := r.invitees[user := permissions])) <==> HasHost(r)
  {
    if HasHost(r) {
      var u :| u in r.users && r.users[u].role != Viewer;
      assert u in r.(invitees := r.invitees[user := permissions]).users;
    }
  }

  lemma CreatedHosted(sid: SessionId, user: UserId, socket: Socket, appId: string)
    ensures HasHost(Created(sid, user, socket, appId))
  {
    assert user in Created(sid, user, socket, appId).users;
  }

  lemma PutHostedIff(g: Registry, r: Room)
    requires AllHosted(g)
    ensures AllHosted(Put(g, r)) <==> HasHost(r)
  {
    hide HasHost;
    assert r.sessionId in Put(g, r).rooms;
  }

  lemma CloseHosted(g: Registry, r: Room)
    requires AllHosted(g)
    ensures AllHosted(Close(g, r))
  {
    hide HasHost;
  }

  /**
   The code does not promise that an open room has someone who is not a viewer. Starting from such rooms, an
   operation leaves such rooms exactly when its guard holds.
   */
  lemma StepHostedIff(g: Registry, a: Action)
    requires Inv(g) && AllHosted(g)
    ensures AllHosted(Step(g, a).0) <==> KeepsHost(g, a)
  {
    hide Contains, HasHost, Evicted, AllHosted, RoomInv, LastChange, HostAfter, RemovedAll, AssignedAll;
    var sid := a.sid;
    if a.Create? {
      CreatedHosted(sid, a.user, a.socket, a.appId);
      PutHostedIff(g.(data := g.data + {sid}), Created(sid, a.user, a.socket, a.appId)) by {
        WithData(g, sid);
      }
      WithData(Put(g, Created(sid, a.user, a.socket, a.appId)), sid);
    } else if sid in g.rooms {
      RoomStepHostedIff(g, a);
    }
  }

  lemma WithData(g: Registry, sid: SessionId)
    ensures AllHosted(g.(data := g.data + {sid})) <==> AllHosted(g)
  {
    hide HasHost;
  }

  lemma WithClosed(g: Registry, closed: seq<map<UserId, Socket>>)
    ensures AllHosted(g.(closed := closed)) <==> AllHosted(g)
  {
    hide HasHost;
  }

  lemma RoomStepHostedIff(g: Registry, a: Action)
    requires Inv(g) && AllHosted(g) && !a.Create? && a.sid in g.rooms
    ensures AllHosted(Step(g, a).0) <==> KeepsHost(g, a)
  {
    hide Contains, HasHost, Evicted, AllHosted, RoomInv, LastChange, HostAfter, RemovedAll, AssignedAll, Assign,
      Stopped;
    var r := g.rooms[a.sid];
    OwnHosted(g, a.sid);
    match a
    case Invite(_, user, p) =>
      InviteHost(r, user, p);
      PutHostedIff(g, r.(invitees := r.invitees[user := p]));
    case Join(_, user, socket, p) =>
      JoinHostIff(r, user, socket, p);
      PutHostedIff(g, Joined(r, user, socket, p));
    case Leave(_, user) =>
      PutHostedIff(g, Left(r, user));
      CloseHosted(g, Left(r, user));
    case StopShare(_, _) =>
      StopHostIff(r);
      PutHostedIff(g, Stopped(r));
      WithClosed(Put(g, Stopped(r)), g.closed + [Evicted(r, Stopped(r))]);
    case RemoveShare(_, users) =>
      RemoveHostIff(r, users);
      PutHostedIff(g, RemovedAll(r, users));
      WithClosed(Put(g, RemovedAll(r, users)), g.closed + [Evicted(r, RemovedAll(r, users))]);
      if users == [] {
        var u := HostOf(r);
      }
    case SetPermissions(_, _, changes) =>
      PermissionsHostIff(r, changes);
      PutHostedIff(g, AssignedAll(r, changes));
  }

  lemma OwnHosted(g: Registry, sid: SessionId)
    requires AllHosted(g) && sid in g.rooms
    ensures HasHost(g.rooms[sid])
  {
  }

  lemma HostOf(r: Room) returns (u: UserId)
    requires HasHost(r)
    ensures u in r.users && r.users[u].role != Viewer
  {
    u :| u in r.users && r.users[u].role != Viewer;
  }

  /** A room without a host, in two operations: its creator opens it and demotes itself. */
  lemma HostDemoted(sid: SessionId, user: UserId, socket: Socket, appId: string)
    ensures var g := Step(EMPTY, Create(sid, user, socket, appId)).0;
      var (g', status) := Step(g, SetPermissions(sid, Admin, [(user, "mouse")]));
      && status == Done && sid in g'.rooms && !HasHost(g'.rooms[sid]) && g'.closed == []
      && g'.rooms[sid].users.Keys == {user} && g'.rooms[sid].users[user].socket == socket
  {
    hide Contains, HasHost, AssignedAll;
    var g := Step(EMPTY, Create(sid, user, socket, appId)).0;
    NotAdmin();
    AssignedAllLast(g.rooms[sid], [(user, "mouse")]);
    PermissionsHostIff(g.rooms[sid], [(user, "mouse")]);
  }

  lemma NotAdmin()
    ensures !Contains("mouse", "admin")
  {
    var s := "mouse";
    assert s[0] == 'm' && "admin"[0] == 'a';
    forall i | 0 <= i <= 5 ensures !("admin" <= s[i..]) {
      assert i == 0 ==> s[i..][0] == s[0];
    }
  }

  predicate GuardedRun(g: Registry, run: seq<Action>)
    decreases |run|
  {
    run == [] || (KeepsHost(g, run[0]) && GuardedRun(Step(g, run[0]).0, run[1..]))
  }

  /** The open rooms have someone who is not a viewer at every point of a run exactly when every guard holds. */
  lemma {:induction false} RunHostedIff(g: Registry, run: seq<Action>)
    requires Inv(g) && AllHosted(g)
    ensures GuardedRun(g, run) <==> forall k | 0 <= k <= |run| :: AllHosted(After(g, run[..k]))
    decreases |run|
  {
    hide Inv, Step, AllHosted, KeepsHost;
    if run == [] {
      assert run[..0] == [];
    } else {
      var g' := Step(g, run[0]).0;
      StepKeepsInv(g, run[0]);
      StepHostedIff(g, run[0]);
      forall k | 0 < k <= |run| ensures After(g, run[..k]) == After(g', run[1..][..k - 1]) {
        assert run[..k][1..] == run[1..][..k - 1];
      }
      assert run[..0] == [];
      assert AllHosted(After(g, run[..1])) <==> AllHosted(g') by {
        assert run[1..][..0] == [];
      }
      if AllHosted(g') {
        RunHostedIff(g', run[1..]);
        if GuardedRun(g, run) {
          forall k | 0 <= k <= |run| ensures AllHosted(After(g, run[..k])) {
            if k > 0 {
              assert AllHosted(After(g', run[1..][..k - 1]));
            }
          }
        }
        if forall k | 0 <= k <= |run| :: AllHosted(After(g, run[..k])) {
          forall j | 0 <= j <= |run[1..]| ensures AllHosted(After(g', run[1..][..j])) {
            assert AllHosted(After(g, run[..j + 1]));
          }
        }
      }
    }
  }

  /**
   Create, invite, leave, a join by a user not in the room, and a stop-share sent by a client in the room that
   is admin or is refused.
   */
  predicate Plain(g: Registry, a: Action) {
    match a
    case Join(sid, user, _, _) => sid in g.rooms ==> user !in g.rooms[sid].users
    case StopShare(sid, role) =>
      sid in g.rooms ==> exists u | u in g.rooms[sid].users :: g.rooms[sid].users[u].role == role
    case RemoveShare(_, _) => false
    case SetPermissions(_, _, _) => false
    case _ => true
  }

  predicate PlainRun(g: Registry, run: seq<Action>)
    decreases |run|
  {
    run == [] || (Plain(g, run[0]) && PlainRun(Step(g, run[0]).0, run[1..]))
  }

  lemma PlainKeepsHost(g: Registry, a: Action)
    requires Inv(g) && AllHosted(g) && Plain(g, a)
    ensures KeepsHost(g, a)
  {
    hide Contains;
    if a.sid in g.rooms {
      var u := HostOf(g.rooms[a.sid]);
    }
  }

  /** In runs of such operations every open room has someone who is not a viewer, at every point. */
  lemma {:induction false} PlainRunsHosted(g: Registry, run: seq<Action>)
    requires Inv(g) && AllHosted(g) && PlainRun(g, run)
    ensures AllHosted(After(g, run)) && GuardedRun(g, run)
    decreases |run|
  {
    hide Inv, Step, AllHosted, Plain, KeepsHost;
    if run != [] {
      StepKeepsInv(g, run[0]);
      PlainKeepsHost(g, run[0]);
      StepHostedIff(g, run[0]);
      PlainRunsHosted(Step(g, run[0]).0, run[1..]);
    }
  }

  // ---------------------------------------------------------------- connecting

  const RECONNECT_PERMISSIONS := "keyboard,mouse,admin"

  /**
   A WebSocket connection: a share link names a session, and the invitation stored for the user then gives the
   permissions, if there is one.
   */
  datatype Request = Request(user: UserId, appId: string, share: Option<SessionId>, invitation: Option<string>)

  /** The rooms of this app and creator that the creator has dropped out of. */
  predicate Rejoinable(r: Room, appId: string, creator: UserId) {
    r.creator == creator && r.appId == appId && creator !in r.users
  }

  /**
   The operations a connection may lead to, given a fresh session id and its socket: none when it is refused.
   Any one of several rejoinable rooms may be picked.
   */
  predicate Connects(g: Registry, q: Request, newSid: SessionId, socket: Socket, a: Option<Action>) {
    match q.share
    case Some(sid) =>
      if q.invitation.None? || sid !in g.rooms || q.user in g.rooms[sid].users then a.None?
      else a == Some(Join(sid, q.user, socket, q.invitation.value))
    case None =>
      if exists sid | sid in g.rooms :: Rejoinable(g.rooms[sid], q.appId, q.user) then
        exists sid | sid in g.rooms ::
          Rejoinable(g.rooms[sid], q.appId, q.user) && a == Some(Join(sid, q.user, socket, RECONNECT_PERMISSIONS))
      else a == Some(Create(newSid, q.user, socket, q.appId))
  }

  lemma ContainsAt(s: string, i: int, part: string)
    requires 0 <= i <= |s| - |part| && s[i..i + |part|] == part
    ensures Contains(s, part)
  {
    hide Contains;
    assert part <= s[i..];
  }

  lemma ReconnectAdmin()
    ensures Contains(RECONNECT_PERMISSIONS, "admin")
  {
    hide Contains;
    ContainsAt(RECONNECT_PERMISSIONS, 15, "admin");
  }

  lemma ReconnectMouse()
    ensures Contains(RECONNECT_PERMISSIONS, "mouse")
  {
    hide Contains;
    ContainsAt(RECONNECT_PERMISSIONS, 9, "mouse");
  }

  lemma ReconnectKeyboard()
    ensures Contains(RECONNECT_PERMISSIONS, "keyboard")
  {
    hide Contains;
    ContainsAt(RECONNECT_PERMISSIONS, 0, "keyboard");
  }

  /** The client a share link's stored invitation entitles to. */
  function Entitled(creator: UserId, user: UserId, socket: Socket, invitation: string): Client {
    Client(user, socket,
      if user == creator then Admin else if Contains(invitation, "admin") then CoHost else Viewer,
      Contains(invitation, "mouse"), Contains(invitation, "keyboard"))
  }

  /**
   An accepted connection is a plain operation that succeeds and puts its user into a room of which it was no
   member. By a share link that is the room of the link, with the role and rights of the stored invitation; without
   one it is a room of the user's own and of the app asked for, as admin with mouse and keyboard.
   */
  lemma ConnectionEnters(g: Registry, q: Request, newSid: SessionId, socket: Socket, a: Action)
    requires Inv(g) && newSid !in g.rooms && Connects(g, q, newSid, socket, Some(a))
    ensures Plain(g, a)
    ensures var (g', status) := Step(g, a);
      && status == Done && a.sid in g'.rooms && q.user in g'.rooms[a.sid].users
      && (a.sid in g.rooms ==> q.user !in g.rooms[a.sid].users)
    ensures var r := Step(g, a).0.rooms[a.sid];
      match q.share
      case Some(sid) =>
        && a.sid == sid && q.invitation.Some?
        && r.users[q.user] == Entitled(r.creator, q.user, socket, q.invitation.value)
      case None =>
        && r.creator == q.user && r.appId == q.appId
        && r.users[q.user] == Client(q.user, socket, Admin, true, true)
  {
    hide Contains;
    ReconnectAdmin();
    ReconnectMouse();
    ReconnectKeyboard();
  }

  /**
   A share link is accepted exactly when an invitation is stored, the room is open and the user is not in it; any
   other connection is accepted, and opens a new room exactly when the user has dropped out of none for this app.
   */
  lemma ConnectionAccepted(g: Registry, q: Request, newSid: SessionId, socket: Socket, a: Option<Action>)
    requires Connects(g, q, newSid, socket, a)
    ensures q.share.Some? ==>
      (a.Some? <==> q.invitation.Some? && q.share.value in g.rooms && q.user !in g.rooms[q.share.value].users)
    ensures q.share.None? ==> a.Some?
    ensures q.share.None? ==> (a.value.Create? <==> forall sid | sid in g.rooms ::
      !(g.rooms[sid].creator == q.user && g.rooms[sid].appId == q.appId && q.user !in g.rooms[sid].users))
  {
    if q.share.None? && a.value.Join? {
      var sid :| sid in g.rooms && Rejoinable(g.rooms[sid], q.appId, q.user);
    }
  }
}
