/** The registry object that holds all rooms; every operation is one step of RoomSpec. */
module RoomRegistries {

  import opened RoomSpec
  import opened Rooms
  import opened Options

  ghost function ClientsOf(rooms: map<SessionId, RdpSessionRoom>): set<RdpClient>
    reads rooms.Values
  {
    set sid, u | sid in rooms && u in rooms[sid].users :: rooms[sid].users[u]
  }

  ghost function RoomViews(rooms: map<SessionId, RdpSessionRoom>): (v: map<SessionId, Room>)
    reads rooms.Values, ClientsOf(rooms)
    ensures v.Keys == rooms.Keys && forall sid | sid in rooms :: v[sid] == rooms[sid].View()
  {
    map sid | sid in rooms :: rooms[sid].View()
  }

  /** A room looks the same when its fields and clients are unchanged. */
  twostate lemma RoomUnchanged(r: RdpSessionRoom)
    requires unchanged(r) && (forall u | u in r.users :: unchanged(r.users[u]))
    ensures old(r.View()) == r.View()
  {
    assert old(Views(r.users)) == Views(r.users);
  }

  /** The registry's view when one room is new or changed and the others look as before. */
  lemma RoomPut(rooms: map<SessionId, RdpSessionRoom>, was: map<SessionId, Room>, sid: SessionId)
    requires sid in rooms && rooms.Keys == was.Keys + {sid}
    requires forall s | s in rooms && s != sid :: rooms[s].View() == was[s]
    ensures RoomViews(rooms) == was[sid := rooms[sid].View()]
  {
  }

  lemma RoomGone(rooms: map<SessionId, RdpSessionRoom>, was: map<SessionId, Room>, sid: SessionId)
    requires rooms.Keys == was.Keys - {sid}
    requires forall s | s in rooms :: rooms[s].View() == was[s]
    ensures RoomViews(rooms) == was - {sid}
  {
  }

  predicate Named(g: Registry) {
    forall sid | sid in g.rooms :: g.rooms[sid].sessionId == sid
  }

  function Without(g: Registry, sid: SessionId, user: UserId): Registry
    requires sid in g.rooms
  {
    g.(rooms := g.rooms[sid := Left(g.rooms[sid], user)])
  }

  lemma StepOfLeave(g: Registry, sid: SessionId, user: UserId)
    requires Named(g)
    ensures sid !in g.rooms ==> Step(g, Leave(sid, user)) == (g, NotFound)
    ensures sid in g.rooms ==> var g' := Without(g, sid, user);
      Step(g, Leave(sid, user)) ==
        if HasHost(g'.rooms[sid]) then (g', Done)
        else (Close(g', g'.rooms[sid]), if sid in g.data then Done else Panicked)
  {
    hide HasHost;
    if sid in g.rooms {
      assert g.rooms[sid := Left(g.rooms[sid], user)] - {sid} == g.rooms - {sid};
    }
  }

  lemma StepOfStop(g: Registry, sid: SessionId, role: Role)
    requires Named(g)
    ensures Step(g, StopShare(sid, role)) ==
      if role != Admin then (g, Denied)
      else if sid !in g.rooms then (g, NotFound)
      else
        var r := g.rooms[sid];
        (g.(rooms := g.rooms[sid := Stopped(r)], closed := g.closed + [Evicted(r, Stopped(r))]),
         if r.creator in r.users then Done else Panicked)
  {
    hide Evicted;
  }

  lemma StepOfRemove(g: Registry, sid: SessionId, users: seq<UserId>)
    requires Named(g)
    ensures Step(g, RemoveShare(sid, users)) ==
      if users == [] || sid !in g.rooms then (g, NotFound)
      else
        var r := RemovedAll(g.rooms[sid], users);
        (g.(rooms := g.rooms[sid := r], closed := g.closed + [Evicted(g.rooms[sid], r)]), Done)
  {
    hide Evicted, RemovedAll;
    if sid in g.rooms {
      RemovedAllRest(g.rooms[sid], users);
    }
  }

  lemma StepOfSet(g: Registry, sid: SessionId, role: Role, changes: seq<(UserId, string)>)
    requires Named(g)
    ensures Step(g, SetPermissions(sid, role, changes)) ==
      if role == Viewer then (g, Denied)
      else if sid !in g.rooms then (g, NotFound)
      else (g.(rooms := g.rooms[sid := AssignedAll(g.rooms[sid], changes)]), Done)
  {
    hide AssignedAll, LastChange, ClientAfter;
    if sid in g.rooms {
      AssignedAllLast(g.rooms[sid], changes);
    }
  }

  class RoomRegistry {
    var rooms: map<SessionId, RdpSessionRoom>
    var data: set<SessionId>
    /** The batches of sockets closed. */
    var closed: seq<map<UserId, Socket>>

    ghost predicate Valid()
      reads this, rooms.Values
    {
      forall sid | sid in rooms :: rooms[sid].sessionId == sid && rooms[sid].Valid()
    }

    ghost function View(): Registry
      reads this, rooms.Values, ClientsOf(rooms)
    {
      Registry(RoomViews(rooms), data, closed)
    }

    constructor ()
      ensures Valid() && View() == EMPTY
    {
      rooms, data, closed := map[], {}, [];
    }

    method LogClosed(sockets: map<UserId, Socket>)
      requires Valid()
      modifies this`closed
      ensures Valid() && View() == old(View()).(closed := old(closed) + [sockets])
    {
      hide RoomViews, Views, RdpSessionRoom.View, RdpSessionRoom.Valid;
      ghost var was := RoomViews(rooms);
      closed := closed + [sockets];
      assert RoomViews(rooms) == was by {
        forall s | s in rooms ensures rooms[s].View() == was[s] {
          RoomUnchanged(rooms[s]);
        }
      }
    }

    method StoreRoom(room: RdpSessionRoom)
      requires Valid() && room.Valid()
      modifies this`rooms
      ensures Valid() && rooms == old(rooms)[room.sessionId := room]
      ensures View() == Put(old(View()), room.View()) && room.View() == old(room.View())
    {
      hide RoomViews, Views, RdpSessionRoom.View, RdpSessionRoom.Valid;
      ghost var was, r := RoomViews(rooms), room.View();
      rooms := rooms[room.sessionId := room];
      assert RoomViews(rooms) == was[room.sessionId := r] && room.View() == r by {
        forall s | s in rooms && s != room.sessionId ensures rooms[s].View() == was[s] {
          RoomUnchanged(rooms[s]);
        }
        RoomUnchanged(room);
        RoomPut(rooms, was, room.sessionId);
      }
    }

    /** Opens a room for its creator, over any room of the same session; its session data is stored just before. */
    method NewRdpSessionRoom(sid: SessionId, user: UserId, socket: Socket, appId: string) returns (client: RdpClient)
      requires Valid()
      modifies this
      ensures Valid() && View() == Step(old(View()), Create(sid, user, socket, appId)).0
      ensures sid in rooms && user in rooms[sid].users && rooms[sid].users[user] == client && fresh(client)
    {
      hide RoomViews, Views, RdpSessionRoom.View, RdpSessionRoom.Valid;
      ghost var g := View();
      StoreData(sid);
      var room := new RdpSessionRoom(sid, user, socket, appId);
      client := room.users[user];
      assert RoomViews(rooms) == g.rooms by {
        forall s | s in rooms ensures rooms[s].View() == g.rooms[s] {
          RoomUnchanged(rooms[s]);
        }
      }
      StoreRoom(room);
    }

    method StoreData(sid: SessionId)
      requires Valid()
      modifies this`data
      ensures Valid() && View() == old(View()).(data := old(data) + {sid})
    {
      hide RoomViews, Views, RdpSessionRoom.View, RdpSessionRoom.Valid;
      data := data + {sid};
    }

    /** Invites a user, unless the room has reached its limit, counting the creator and re-invitations. */
    method AddInvitee(sid: SessionId, user: UserId, permissions: string) returns (status: Status)
      requires Valid()
      modifies rooms.Values
      ensures Valid() && (View(), status) == Step(old(View()), Invite(sid, user, permissions))
    {
      hide RoomViews, Views, RdpSessionRoom.Valid, RdpSessionRoom.View;
      ghost var was := View().rooms;
      if sid in rooms {
        var room := rooms[sid];
        if |room.invitees| >= INVITEE_LIMIT {
          status := LimitReached;
        } else {
          room.AddInvitee(user, permissions);
          forall s | s in rooms && s != sid ensures rooms[s].View() == was[s] {
            RoomUnchanged(rooms[s]);
          }
          RoomPut(rooms, was, sid);
          status := Done;
        }
      } else {
        status := NotFound;
      }
    }

    method JoinRoom(sid: SessionId, user: UserId, socket: Socket, permissions: string)
      returns (client: RdpClient?, status: Status)
      requires Valid()
      modifies rooms.Values
      ensures Valid() && (View(), status) == Step(old(View()), Join(sid, user, socket, permissions))
      ensures client != null <==> sid in rooms
      ensures client != null ==> user in rooms[sid].users && rooms[sid].users[user] == client
    {
      hide RoomViews, Views, RdpSessionRoom.Valid, RdpSessionRoom.View;
      ghost var was := View().rooms;
      if sid in rooms {
        client := rooms[sid].Join(user, socket, permissions);
        forall s | s in rooms && s != sid ensures rooms[s].View() == was[s] {
          RoomUnchanged(rooms[s]);
        }
        RoomPut(rooms, was, sid);
        status := Done;
      } else {
        client, status := null, NotFound;
      }
    }

    /** A user leaves; the room goes once no one but viewers is left. */
    method LeaveRoom(sid: SessionId, user: UserId) returns (status: Status)
      requires Valid()
      modifies this, rooms.Values
      ensures Valid() && (View(), status) == Step(old(View()), Leave(sid, user))
    {
      hide RoomViews, Views, RdpSessionRoom.Valid, RdpSessionRoom.View, RoomRegistry.View, RoomRegistry.Valid,
        HasHost, Sockets, Step, Left, Close;
      ghost var g := View();
      NamedView();
      if sid in rooms {
        DropUser(sid, user);
        status := CloseUnhosted(sid);
      } else {
        status := NotFound;
      }
      StepOfLeave(g, sid, user);
    }

    method DropUser(sid: SessionId, user: UserId)
      requires Valid() && sid in rooms
      modifies rooms[sid]
      ensures Valid() && View() == Without(old(View()), sid, user) && rooms == old(rooms)
    {
      hide RoomViews, Views, RdpSessionRoom.Valid, RdpSessionRoom.View, Left;
      ghost var was := View().rooms;
      rooms[sid].Leave(user);
      forall s | s in rooms && s != sid ensures rooms[s].View() == was[s] {
        RoomUnchanged(rooms[s]);
      }
      RoomPut(rooms, was, sid);
    }

    /** One client object is in one room, under one user. */
    lemma NoClientShared(s: SessionId, u: UserId, t: SessionId, v: UserId)
      requires Valid() && s in rooms && u in rooms[s].users && t in rooms && v in rooms[t].users
      ensures rooms[s].users[u] == rooms[t].users[v] ==> s == t && u == v
    {
    }

    lemma NamedView()
      requires Valid()
      ensures Named(View()) && View().rooms.Keys == rooms.Keys
    {
    }

    method IsHosted(sid: SessionId) returns (hosted: bool)
      requires Valid() && sid in rooms
      ensures Valid() && View() == old(View())
      ensures hosted == HasHost(View().rooms[sid])
    {
      hide RoomViews, Views, RdpSessionRoom.Valid, RdpSessionRoom.View, HasHost;
      hosted := rooms[sid].HasAdmin();
    }

    method CloseSockets(sid: SessionId) returns (sockets: map<UserId, Socket>)
      requires Valid() && sid in rooms
      ensures Valid() && View() == old(View())
      ensures sockets == Sockets(View().rooms[sid].users)
    {
      hide RoomViews, Views, RdpSessionRoom.Valid, RdpSessionRoom.View, Sockets;
      sockets := rooms[sid].CloseSockets();
    }

    method CloseUnhosted(sid: SessionId) returns (status: Status)
      requires Valid() && sid in rooms
      modifies this
      ensures Valid()
      ensures var g := old(View());
        if HasHost(g.rooms[sid]) then View() == g && status == Done
        else View() == Close(g, g.rooms[sid]) && status == if sid in g.data then Done else Panicked
    {
      hide RoomViews, Views, RdpSessionRoom.Valid, RdpSessionRoom.View, HasHost, Sockets;
      var hasAdmin := IsHosted(sid);
      status := Done;
      if !hasAdmin {
        status := CloseRoom(sid);
      }
    }

    /**
     Closes the sockets left and drops the room with its session data. The session data is used on the way, so
     that a room without any would panic.
     */
    method CloseRoom(sid: SessionId) returns (status: Status)
      requires Valid() && sid in rooms
      modifies this
      ensures Valid() && View() == Close(old(View()), old(View()).rooms[sid])
      ensures status == if sid in old(data) then Done else Panicked
    {
      hide RoomViews, Views, RdpSessionRoom.Valid, RdpSessionRoom.View, Sockets;
      ghost var g := View();
      var sockets := CloseSockets(sid);
      LogClosed(sockets);
      status := if sid in data then Done else Panicked;
      DropRoom(sid);
    }

    method DropRoom(sid: SessionId)
      requires Valid()
      modifies this
      ensures Valid() && View() == Registry(old(View()).rooms - {sid}, old(data) - {sid}, old(closed))
    {
      hide RoomViews, Views, RdpSessionRoom.Valid, RdpSessionRoom.View;
      ghost var was := RoomViews(rooms);
      rooms := rooms - {sid};
      data := data - {sid};
      RoomGone(rooms, was, sid);
    }

    /** The command of the given client; its object may be of a user who has left or been evicted. */
    method StopShare(sid: SessionId, client: RdpClient) returns (status: Status)
      requires Valid()
      modifies this, rooms.Values
      ensures Valid() && (View(), status) == Step(old(View()), RoomSpec.StopShare(sid, old(client.role)))
    {
      hide RoomViews, Views, RdpSessionRoom.Valid, RdpSessionRoom.View, Evicted, Stopped, Step;
      ghost var g, role := View(), client.role;
      if client.role != Admin {
        status := Denied;
      } else if sid in rooms {
        var sockets, ok := rooms[sid].StopShare();
        assert RoomViews(rooms) == g.rooms[sid := Stopped(g.rooms[sid])] by {
          forall s | s in rooms && s != sid ensures rooms[s].View() == g.rooms[s] {
            RoomUnchanged(rooms[s]);
          }
          RoomPut(rooms, g.rooms, sid);
        }
        LogClosed(sockets);
        status := if ok then Done else Panicked;
      } else {
        status := NotFound;
      }
      StepOfStop(g, sid, role);
    }

    /** The command checks no role. */
    method RemoveShare(sid: SessionId, users: seq<UserId>) returns (status: Status)
      requires Valid()
      modifies this, rooms.Values
      ensures Valid() && (View(), status) == Step(old(View()), RoomSpec.RemoveShare(sid, users))
    {
      hide RoomViews, Views, RdpSessionRoom.Valid, RdpSessionRoom.View, Evicted, RemovedAll, Step;
      ghost var g := View();
      if users != [] && sid in rooms {
        var sockets := rooms[sid].RemoveUsers(users);
        assert RoomViews(rooms) == g.rooms[sid := RemovedAll(g.rooms[sid], users)] by {
          forall s | s in rooms && s != sid ensures rooms[s].View() == g.rooms[s] {
            RoomUnchanged(rooms[s]);
          }
          RoomPut(rooms, g.rooms, sid);
        }
        LogClosed(sockets);
        status := Done;
      } else {
        status := NotFound;
      }
      StepOfRemove(g, sid, users);
    }

    method SetPermissions(sid: SessionId, client: RdpClient, args: seq<string>) returns (status: Status)
      requires Valid()
      modifies rooms.Values, ClientsOf(rooms)
      ensures Valid()
        && (View(), status) == Step(old(View()), RoomSpec.SetPermissions(sid, old(client.role), Changes(args)))
    {
      hide RoomViews, Views, RdpSessionRoom.View, AssignedAll, Changes, Step;
      ghost var g, role := View(), client.role;
      if client.role == Viewer {
        status := Denied;
      } else if sid in rooms {
        rooms[sid].AssignArgs(args);
        assert RoomViews(rooms) == g.rooms[sid := AssignedAll(g.rooms[sid], Changes(args))] by {
          forall s | s in rooms && s != sid ensures rooms[s].View() == g.rooms[s] {
            assert forall u, v | u in rooms[s].users && v in rooms[sid].users ::
              rooms[s].users[u] != rooms[sid].users[v];
            RoomUnchanged(rooms[s]);
          }
          RoomPut(rooms, g.rooms, sid);
        }
        status := Done;
      } else {
        status := NotFound;
      }
      StepOfSet(g, sid, role, Changes(args));
    }

    /**
     Invites the well-formed arguments one after the other; outside says whether the database and mail calls for an
     argument succeed, and failed whether any argument was refused or had such a call fail.
     */
    method RequestSharing(sid: SessionId, args: seq<string>, outside: seq<bool>) returns (failed: bool)
      requires Valid() && |outside| == |args|
      modifies rooms.Values
      ensures Valid() && View() == After(old(View()), Invites(sid, args))
      ensures failed <==> exists n | 0 <= n < |args| :: ArgFails(old(View()), sid, args, outside, n)
    {
      hide Step, After, Split, Invites, RoomRegistry.View, RoomRegistry.Valid;
      ghost var g := View();
      failed := false;
      NoInvites(g, sid);
      for n := 0 to |args|
        invariant Valid() && View() == After(g, Invites(sid, args[..n])) && rooms == old(rooms)
        invariant failed <==> exists k | 0 <= k < n :: ArgFails(g, sid, args, outside, k)
      {
        MoreInvites(g, sid, args, n);
        ghost var before := failed;
        var strs := Split(args[n], ':');
        if |strs| == 2 && strs[0] != "" {
          var status := AddInvitee(sid, strs[0], strs[1]);
          if status != Done {
            failed := true;
          } else if !outside[n] {
            failed := true;
          }
        }
        assert failed == (before || ArgFails(g, sid, args, outside, n));
      }
      assert args[..|args|] == args;
    }

    /** Some room of this app and creator that the creator has dropped out of, if there is one. */
    method GetRoomByAppIdAndCreator(appId: string, creator: UserId) returns (found: Option<SessionId>)
      requires Valid()
      ensures Valid() && View() == old(View())
      ensures found.None? ==> forall sid | sid in View().rooms :: !Rejoinable(View().rooms[sid], appId, creator)
      ensures found.Some? ==> found.value in View().rooms && Rejoinable(View().rooms[found.value], appId, creator)
    {
      hide RoomViews, Views, RdpSessionRoom.View;
      found := None;
      var todo := rooms.Keys;
      while todo != {}
        invariant todo <= rooms.Keys
        invariant forall sid | sid in rooms && sid !in todo :: !Rejoinable(rooms[sid].View(), appId, creator)
        decreases |todo|
      {
        var sid :| sid in todo;
        todo := todo - {sid};
        var r := rooms[sid];
        if r.creator == creator && r.appId == appId && creator !in r.users {
          return Some(sid);
        }
      }
    }

    /**
     What a WebSocket connection does: authorise a share link, or look for a dropped room to take up again, and
     then join that room or open a new one.
     */
    method Connect(q: Request, newSid: SessionId, socket: Socket) returns (ghost a: Option<Action>, client: RdpClient?)
      requires Valid()
      modifies this, rooms.Values
      ensures Valid() && Connects(old(View()), q, newSid, socket, a)
      ensures View() == if a.Some? then Step(old(View()), a.value).0 else old(View())
      ensures a.Some? <==> client != null
    {
      hide Step, RoomRegistry.View, RoomRegistry.Valid, RoomViews;
      ViewRooms();
      a, client := None, null;
      var share, permissions := q.share, "";
      if share.Some? {
        if q.invitation.None? || share.value !in rooms || q.user in rooms[share.value].users {
          return;
        }
        permissions := q.invitation.value;
      } else {
        share := GetRoomByAppIdAndCreator(q.appId, q.user);
        permissions := RECONNECT_PERMISSIONS;
      }
      if share.None? {
        a := Some(Create(newSid, q.user, socket, q.appId));
        client := NewRdpSessionRoom(newSid, q.user, socket, q.appId);
      } else {
        var status;
        a := Some(RoomSpec.Join(share.value, q.user, socket, permissions));
        client, status := JoinRoom(share.value, q.user, socket, permissions);
      }
    }

    lemma ViewRooms()
      ensures View().rooms.Keys == rooms.Keys
      ensures forall sid | sid in rooms :: View().rooms[sid].users.Keys == rooms[sid].users.Keys
    {
    }

    /** The members list of a session; empty once the room is gone. */
    method GetMembersInstruction(sid: SessionId) returns (members: seq<User>)
      requires Valid()
      ensures sid !in rooms ==> members == []
      ensures sid in rooms ==> var r := rooms[sid].View(); Lists(r, members, r.users.Keys + r.invitees.Keys)
    {
      hide RoomViews, Views, RdpSessionRoom.View, Lists;
      members := [];
      if sid in rooms {
        members := rooms[sid].GetMembers();
      }
    }
  }

  /** Is the argument at position n an invitation that is refused, or for which an outside call fails? */
  predicate ArgFails(g: Registry, sid: SessionId, args: seq<string>, outside: seq<bool>, n: nat)
    requires n < |args| == |outside|
  {
    var parts := Split(args[n], ':');
    && |parts| == 2 && parts[0] != ""
    && (!outside[n] || Step(After(g, Invites(sid, args[..n])), Invite(sid, parts[0], parts[1])).1 != Done)
  }

  lemma NoInvites(g: Registry, sid: SessionId)
    ensures Invites(sid, []) == [] && After(g, Invites(sid, [])) == g
  {
  }

  lemma MoreInvites(g: Registry, sid: SessionId, args: seq<string>, n: nat)
    requires n < |args|
    ensures var parts := Split(args[n], ':');
      var before, after := Invites(sid, args[..n]), Invites(sid, args[..n + 1]);
      if |parts| == 2 && parts[0] != "" then
        After(g, after) == Step(After(g, before), Invite(sid, parts[0], parts[1])).0
      else after == before
  {
    hide Step, After, Split;
    assert args[..n + 1][..n] == args[..n] && args[..n + 1][n] == args[n];
    var parts := Split(args[n], ':');
    if |parts| == 2 && parts[0] != "" {
      AfterSnoc(g, Invites(sid, args[..n]), Invite(sid, parts[0], parts[1]));
    }
  }
}
