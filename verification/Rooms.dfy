/** The room registry as objects that the operations update in place, proved against RoomSpec. */
module Rooms {

  import opened RoomSpec

  // ---------------------------------------------------------------- command arguments

  /** strings.Split with a one-character separator. */
  function Split(s: string, separator: char): (parts: seq<string>)
    ensures |parts| >= 1
    decreases |s|
  {
    if s == [] then [""]
    else
      var rest := Split(s[1..], separator);
      if s[0] == separator then [""] + rest else [[s[0]] + rest[0]] + rest[1..]
  }

  lemma {:induction false} SplitWhole(s: string, separator: char)
    ensures |Split(s, separator)| == 1 <==> separator !in s
    ensures |Split(s, separator)| == 1 ==> Split(s, separator)[0] == s
    decreases |s|
  {
    if s != [] {
      SplitWhole(s[1..], separator);
    }
  }

  lemma {:induction false} SplitFirst(a: string, separator: char, b: string)
    requires separator !in a
    ensures Split(a + [separator] + b, separator) == [a] + Split(b, separator)
    decreases |a|
  {
    var s := a + [separator] + b;
    if a == [] {
      assert s[1..] == b;
    } else {
      SplitFirst(a[1..], separator, b);
      assert s[1..] == a[1..] + [separator] + b;
      assert [s[0]] + a[1..] == a;
    }
  }

  lemma {:induction false} FirstSeparator(s: string, separator: char) returns (k: nat)
    requires separator in s
    ensures k < |s| && s[k] == separator && separator !in s[..k]
    decreases |s|
  {
    if s[0] == separator {
      k := 0;
    } else {
      var j := FirstSeparator(s[1..], separator);
      k := j + 1;
      assert s[..k] == [s[0]] + s[1..][..j];
    }
  }

  /** Two parts are what one separator separates. */
  lemma SplitPair(s: string, separator: char, a: string, b: string)
    ensures Split(s, separator) == [a, b] <==> s == a + [separator] + b && separator !in a && separator !in b
  {
    hide Split;
    SplitWhole(s, separator);
    if separator in s {
      var k := FirstSeparator(s, separator);
      var rest := s[k + 1..];
      assert s == s[..k] + [separator] + rest;
      SplitFirst(s[..k], separator, rest);
      SplitWhole(rest, separator);
      if Split(s, separator) == [a, b] {
        var parts := [s[..k]] + Split(rest, separator);
        assert parts[0] == a && parts[1..] == Split(rest, separator) == [b];
      }
    }
    if s == a + [separator] + b && separator !in a && separator !in b {
      SplitFirst(a, separator, b);
      SplitWhole(b, separator);
    }
  }

  /** The well-formed "user:permission" arguments, in order; others are skipped. */
  function Changes(args: seq<string>): seq<(UserId, string)>
    decreases |args|
  {
    if args == [] then []
    else
      var parts := Split(args[|args| - 1], ':');
      Changes(args[..|args| - 1]) + if |parts| == 2 then [(parts[0], parts[1])] else []
  }

  /** The invitations asked for; an empty user is skipped too. */
  function Invites(sid: SessionId, args: seq<string>): seq<Action>
    decreases |args|
  {
    if args == [] then []
    else
      var parts := Split(args[|args| - 1], ':');
      Invites(sid, args[..|args| - 1])
        + if |parts| == 2 && parts[0] != "" then [Invite(sid, parts[0], parts[1])] else []
  }

  lemma {:induction false} AssignedAllSnoc(r: Room, changes: seq<(UserId, string)>, c: (UserId, string))
    ensures AssignedAll(r, changes + [c]) == Assigned(AssignedAll(r, changes), c.0, c.1)
    decreases |changes|
  {
    hide Assigned;
    if changes == [] {
      assert (changes + [c])[1..] == [];
    } else {
      assert (changes + [c])[1..] == changes[1..] + [c];
      AssignedAllSnoc(Assigned(r, changes[0].0, changes[0].1), changes[1..], c);
    }
  }

  lemma {:induction false} RemovedAllSnoc(r: Room, users: seq<UserId>, u: UserId)
    ensures RemovedAll(r, users + [u]) == Removed(RemovedAll(r, users), u)
    decreases |users|
  {
    hide Removed;
    if users == [] {
      assert (users + [u])[1..] == [];
    } else {
      assert (users + [u])[1..] == users[1..] + [u];
      RemovedAllSnoc(Removed(r, users[0]), users[1..], u);
    }
  }

  lemma {:induction false} AfterSnoc(g: Registry, run: seq<Action>, a: Action)
    ensures After(g, run + [a]) == Step(After(g, run), a).0
    decreases |run|
  {
    hide Step;
    if run == [] {
      assert (run + [a])[1..] == [];
    } else {
      assert (run + [a])[1..] == run[1..] + [a];
      AfterSnoc(Step(g, run[0]).0, run[1..], a);
    }
  }

  // ---------------------------------------------------------------- the members list

  /** One entry of the members list; status is 1 for those present. */
  datatype User = User(userId: UserId, role: Role, permission: string, status: nat)

  /** strings.Join with a comma. */
  function CommaJoined(parts: seq<string>): string
    decreases |parts|
  {
    if parts == [] then "" else if |parts| == 1 then parts[0] else parts[0] + "," + CommaJoined(parts[1..])
  }

  function PermissionNames(mouse: bool, keyboard: bool, role: Role): seq<string> {
    (if mouse then ["mouse"] else [])
    + (if keyboard then ["keyboard"] else [])
    + (if role != Viewer then ["admin"] else [])
  }

  function PresentUser(c: Client): User {
    User(c.userId, c.role, CommaJoined(PermissionNames(c.mouse, c.keyboard, c.role)), 1)
  }

  function InvitedUser(user: UserId, permission: string): User {
    User(user, if Contains(permission, "admin") then CoHost else Viewer, permission, 0)
  }

  predicate Known(r: Room, user: UserId) {
    user in r.users || user in r.invitees
  }

  function Listed(r: Room, user: UserId): User
    requires Known(r, user)
  {
    if user in r.users then PresentUser(r.users[user]) else InvitedUser(user, r.invitees[user])
  }

  /** Does the list name each user of the set once, with the entry the room gives? */
  predicate Lists(r: Room, members: seq<User>, who: set<UserId>) {
    && |members| == |who|
    && (forall u | u in who :: Known(r, u) && Listed(r, u) in members)
    && (forall m | m in members :: m.userId in who && m == Listed(r, m.userId))
  }

  lemma ListsMore(r: Room, members: seq<User>, who: set<UserId>, u: UserId)
    requires Known(r, u) && u !in who && Lists(r, members, who)
    requires u in r.users ==> r.users[u].userId == u
    ensures Lists(r, members + [Listed(r, u)], who + {u})
  {
    hide Listed, Known;
    assert Listed(r, u).userId == u by { ListedUser(r, u); }
    assert |who + {u}| == |who| + 1;
    forall v | v in who + {u} ensures Listed(r, v) in members + [Listed(r, u)] {
    }
  }

  lemma ListedUser(r: Room, u: UserId)
    requires Known(r, u)
    requires u in r.users ==> r.users[u].userId == u
    ensures Listed(r, u).userId == u && (Listed(r, u).status == 1 <==> u in r.users)
  {
  }

  /** A members list names no one twice, and marks as present exactly the users of the room. */
  lemma MembersNamedOnce(r: Room, members: seq<User>)
    requires RoomInv(r, r.sessionId) && Lists(r, members, r.users.Keys + r.invitees.Keys)
    ensures forall i, j | 0 <= i < j < |members| :: members[i].userId != members[j].userId
    ensures forall m | m in members :: m.status == 1 <==> m.userId in r.users
    ensures forall u | u in r.users.Keys + r.invitees.Keys :: exists m | m in members :: m.userId == u
  {
    hide Listed;
    var who := r.users.Keys + r.invitees.Keys;
    forall u | u in who ensures Listed(r, u).userId == u && (Listed(r, u).status == 1 <==> u in r.users) {
      ListedUser(r, u);
    }
    forall i, j | 0 <= i < j < |members| ensures members[i].userId != members[j].userId {
      if members[i].userId == members[j].userId {
        var ids := seq(|members|, k requires 0 <= k < |members| => members[k].userId);
        forall u | u in who ensures u in ids {
          var k :| 0 <= k < |members| && members[k] == Listed(r, u);
          assert ids[k] == u;
        }
        TooFewNames(ids, who, i, j);
      }
    }
  }

  /** A list as long as a set that names all of the set has no repetition. */
  lemma {:induction false} TooFewNames(ids: seq<UserId>, who: set<UserId>, i: int, j: int)
    requires |ids| == |who| && (forall u | u in who :: u in ids)
    requires 0 <= i < j < |ids|
    ensures ids[i] != ids[j]
  {
    if ids[i] == ids[j] {
      var rest := ids[..j] + ids[j + 1..];
      forall u | u in who ensures u in rest {
        var k :| 0 <= k < |ids| && ids[k] == u;
        var k' := if k == j then i else k;
        assert rest[if k' < j then k' else k' - 1] == u;
      }
      Covers(rest, who);
    }
  }

  lemma {:induction false} Covers(ids: seq<UserId>, who: set<UserId>)
    requires forall u | u in who :: u in ids
    ensures |who| <= |ids|
    decreases |ids|
  {
    if ids == [] {
      assert who == {};
    } else {
      forall u | u in who - {ids[0]} ensures u in ids[1..] {
      }
      Covers(ids[1..], who - {ids[0]});
    }
  }

  // ---------------------------------------------------------------- clients and rooms

  class RdpClient {
    const userId: UserId
    const socket: Socket
    var role: Role
    var mouse: bool
    var keyboard: bool
    /** The session of the room this client was made for. */
    ghost const home: SessionId

    constructor (userId: UserId, socket: Socket, role: Role, mouse: bool, keyboard: bool, ghost home: SessionId)
      ensures View() == Client(userId, socket, role, mouse, keyboard) && this.home == home
    {
      this.userId, this.socket, this.role, this.mouse, this.keyboard := userId, socket, role, mouse, keyboard;
      this.home := home;
    }

    ghost function View(): Client
      reads this
    {
      Client(userId, socket, role, mouse, keyboard)
    }
  }

  class RdpSessionRoom {
    const creator: UserId
    const appId: string
    const sessionId: SessionId
    var users: map<UserId, RdpClient>
    var invitees: map<UserId, string>

    /** Each client is kept under its own user and was made for this room, so no two entries share one. */
    ghost predicate Valid()
      reads this
    {
      forall u | u in users :: users[u].userId == u && users[u].home == sessionId
    }

    ghost function View(): (r: Room)
      reads this, users.Values
      ensures r.creator == creator && r.appId == appId && r.sessionId == sessionId
      ensures r.users.Keys == users.Keys && r.invitees == invitees
    {
      Room(creator, appId, sessionId, Views(users), invitees)
    }

    constructor (sessionId: SessionId, user: UserId, socket: Socket, appId: string)
      ensures Valid() && View() == Created(sessionId, user, socket, appId)
      ensures this.sessionId == sessionId && user in users && fresh(users[user])
    {
      this.creator, this.appId, this.sessionId := user, appId, sessionId;
      this.invitees := map[user := HOST_PERMISSIONS];
      var client := new RdpClient(user, socket, Admin, true, true, sessionId);
      this.users := map[user := client];
    }

    method Join(user: UserId, socket: Socket, permissions: string) returns (client: RdpClient)
      requires Valid()
      modifies this
      ensures Valid() && View() == Joined(old(View()), user, socket, permissions)
      ensures fresh(client) && users == old(users)[user := client]
    {
      hide Contains, Views;
      ghost var users0, was := users, View();
      var role := Viewer;
      if creator == user {
        role := Admin;
      } else if Contains(permissions, "admin") {
        role := CoHost;
      }
      client := new RdpClient(user, socket, role, Contains(permissions, "mouse"), Contains(permissions, "keyboard"),
        sessionId);
      users := users[user := client];
      assert Views(users0) == was.users;
      ViewsAdd(users0, user, client);
    }

    method Leave(user: UserId)
      requires Valid()
      modifies this
      ensures Valid() && View() == Left(old(View()), user) && users == old(users) - {user}
    {
      hide Views;
      ghost var users0, was := users, View();
      users := users - {user};
      assert Views(users0) == was.users;
      ViewsDrop(users0, {user});
    }

    /** Uninvites and evicts one user; says whose socket it closed. */
    method RemoveUser(user: UserId) returns (closed: map<UserId, Socket>)
      requires Valid()
      modifies this
      ensures Valid() && View() == Dropped(old(View()), user) && users == old(users) - {user}
      ensures closed == Evicted(old(View()), View())
    {
      hide Views, Evicted;
      ghost var users0, was := users, View();
      closed := map[];
      invitees := invitees - {user};
      if user in users {
        closed := map[user := users[user].socket];
        users := users - {user};
      }
      assert users == users0 - {user};
      assert Views(users) == was.users - {user} by {
        assert Views(users0) == was.users;
        ViewsDrop(users0, {user});
      }
      SocketsOfEvicted(was, View(), closed);
    }

    /** Removes the listed users one after the other, passing over the creator. */
    method RemoveUsers(list: seq<UserId>) returns (closed: map<UserId, Socket>)
      requires Valid()
      modifies this
      ensures Valid() && View() == RemovedAll(old(View()), list) && users.Values <= old(users.Values)
      ensures closed == Evicted(old(View()), View())
    {
      hide Views, RemovedAll, Dropped, Evicted;
      ghost var was := View();
      closed := map[];
      NoneEvicted(was);
      for n := 0 to |list|
        invariant Valid() && View() == RemovedAll(was, list[..n]) && users.Values <= old(users.Values)
        invariant closed == Evicted(was, View())
      {
        RemovedAllSnoc(was, list[..n], list[n]);
        assert list[..n + 1] == list[..n] + [list[n]];
        var u := list[n];
        ghost var before := View();
        if creator != u {
          var c := RemoveUser(u);
          closed := closed + c;
        }
        EvictedMore(was, list[..n], u, before);
      }
      assert list[..|list|] == list;
    }

    method AddInvitee(user: UserId, permissions: string)
      requires Valid()
      modifies this
      ensures Valid() && users == old(users)
      ensures View() == old(View()).(invitees := old(invitees)[user := permissions])
    {
      invitees := invitees[user := permissions];
    }

    method DropInvitees()
      modifies this`invitees
      ensures invitees == map u | u in old(invitees) && u == creator :: old(invitees)[u]
    {
      var todo := invitees.Keys;
      while todo != {}
        invariant forall u :: u in invitees <==> u in old(invitees) && (u in todo || u == creator)
        invariant forall u | u in invitees :: invitees[u] == old(invitees)[u]
        decreases |todo|
      {
        var u :| u in todo;
        todo := todo - {u};
        if u != creator {
          invitees := invitees - {u};
        }
      }
    }

    method EvictUsers() returns (closed: map<UserId, Socket>)
      requires Valid()
      modifies this`users
      ensures users == map u | u in old(users) && u == creator :: old(users)[u]
      ensures closed == map u | u in old(users) && u != creator :: old(users)[u].socket
    {
      closed := map[];
      var todo := users.Keys;
      while todo != {}
        invariant todo <= old(users).Keys
        invariant forall u :: u in users <==> u in old(users) && (u in todo || u == creator)
        invariant forall u | u in users :: users[u] == old(users)[u]
        invariant forall u :: u in closed <==> u in old(users) && u !in todo && u != creator
        invariant forall u | u in closed :: closed[u] == old(users)[u].socket
        decreases |todo|
      {
        var k :| k in todo;
        todo := todo - {k};
        var c := users[k];
        assert c.userId == k;
        if c.userId != creator {
          closed := closed[c.userId := c.socket];
          users := users - {c.userId};
        }
      }
    }

    /** Uninvites and evicts all but the creator; ok says whether the creator is there to be told. */
    method StopShare() returns (closed: map<UserId, Socket>, ok: bool)
      requires Valid()
      modifies this
      ensures Valid() && View() == Stopped(old(View())) && users.Values <= old(users.Values)
      ensures closed == Evicted(old(View()), View()) && ok == (creator in old(users))
    {
      hide Views;
      DropInvitees();
      closed := EvictUsers();
      ok := creator in users;
      ViewsOnly(old(users), creator);
      SocketsOfEvicted(old(View()), View(), closed);
    }

    /** Gives the clients of one user new rights. */
    method AssignClients(user: UserId, permission: string)
      requires Valid()
      modifies users.Values
      ensures forall u | u in users ::
        users[u].View() == if u == user then RoomSpec.Assign(old(users[u].View()), permission) else old(users[u].View())
    {
      hide Contains;
      var todo := users.Keys;
      while todo != {}
        invariant todo <= users.Keys
        invariant forall u | u in users ::
          users[u].View() ==
            if u == user && u !in todo then RoomSpec.Assign(old(users[u].View()), permission)
            else old(users[u].View())
        decreases |todo|
      {
        var k :| k in todo;
        todo := todo - {k};
        var c := users[k];
        assert forall u | u in users && u != k :: users[u] != c;
        if c.userId == user {
          c.role := if Contains(permission, "admin") then CoHost else Viewer;
          c.keyboard := Contains(permission, "keyboard");
          c.mouse := Contains(permission, "mouse");
        }
      }
    }

    /** Gives one user new permissions: its client, if it is present, and its invitation, if it has one. */
    method Assign(user: UserId, permission: string)
      requires Valid()
      modifies this`invitees, users.Values
      ensures Valid() && users == old(users) && View() == Assigned(old(View()), user, permission)
    {
      hide Contains, RoomSpec.Assign, Views;
      ghost var was := View();
      AssignClients(user, permission);
      if user in invitees {
        invitees := invitees[user := permission];
      }
      AssignedViews(was, View(), user, permission);
    }

    /** Gives the permissions the arguments ask for, one after the other. */
    method AssignArgs(args: seq<string>)
      requires Valid()
      modifies this`invitees, users.Values
      ensures Valid() && users == old(users) && View() == AssignedAll(old(View()), Changes(args))
    {
      hide Views, AssignedAll, Assigned, Split, Changes;
      ghost var was := View();
      NoChanges(was);
      for n := 0 to |args|
        invariant Valid() && users == old(users) && View() == AssignedAll(was, Changes(args[..n]))
      {
        MoreChanges(was, args, n);
        var userPermission := Split(args[n], ':');
        if |userPermission| == 2 {
          Assign(userPermission[0], userPermission[1]);
        }
      }
      assert args[..|args|] == args;
    }

    /** Is there someone with a role other than viewer? */
    method HasAdmin() returns (found: bool)
      ensures found == HasHost(View())
    {
      found := false;
      var todo := users.Keys;
      while todo != {}
        invariant todo <= users.Keys
        invariant found <==> exists u | u in users && u !in todo :: users[u].role != Viewer
        decreases |todo|
      {
        var u :| u in todo;
        todo := todo - {u};
        if users[u].role != Viewer {
          found := true;
        }
      }
      assert HasHost(View()) <==> exists u | u in users :: users[u].role != Viewer by {
        assert forall u | u in users :: View().users[u].role == users[u].role;
      }
    }

    /** Closes every socket in the room. */
    method CloseSockets() returns (closed: map<UserId, Socket>)
      requires Valid()
      ensures closed == Sockets(View().users)
    {
      closed := map[];
      var todo := users.Keys;
      while todo != {}
        invariant todo <= users.Keys
        invariant forall u :: u in closed <==> u in users && u !in todo
        invariant forall u | u in closed :: closed[u] == users[u].socket
        decreases |todo|
      {
        var k :| k in todo;
        todo := todo - {k};
        closed := closed[k := users[k].socket];
      }
    }

    method ListPresent() returns (members: seq<User>)
      requires Valid()
      ensures Lists(View(), members, users.Keys)
    {
      hide Lists, InvitedUser, Views, CommaJoined, PermissionNames;
      ghost var r := View();
      members := [];
      var todo := users.Keys;
      EmptyList(r);
      assert users.Keys - todo == {};
      while todo != {}
        invariant todo <= users.Keys
        invariant Lists(r, members, users.Keys - todo)
        decreases |todo|
      {
        var k :| k in todo;
        var u := users[k];
        var m := User(u.userId, u.role, CommaJoined(PermissionNames(u.mouse, u.keyboard, u.role)), 1);
        ListsMore(r, members, users.Keys - todo, k);
        TakeOne(users.Keys, todo, k);
        members := members + [m];
        todo := todo - {k};
      }
      assert users.Keys - todo == users.Keys;
    }

    method ListInvited(present: seq<User>) returns (members: seq<User>)
      requires Valid() && Lists(View(), present, users.Keys)
      ensures Lists(View(), members, users.Keys + invitees.Keys)
    {
      hide Lists, PresentUser, InvitedUser, Views, Passed;
      ghost var r := View();
      ghost var all := users.Keys + invitees.Keys;
      members := present;
      var todo := invitees.Keys;
      PassedEnds(todo, users.Keys);
      while todo != {}
        invariant todo <= invitees.Keys
        invariant Lists(r, members, Passed(all, todo, users.Keys))
        decreases |todo|
      {
        var k :| k in todo;
        TakeAbsent(all, todo, users.Keys, k);
        if k !in users {
          ListsMore(r, members, Passed(all, todo, users.Keys), k);
          members := members + [InvitedUser(k, invitees[k])];
        }
        todo := todo - {k};
      }
    }

    /** The members list: those present, then the invited who are not. */
    method GetMembers() returns (members: seq<User>)
      requires Valid()
      ensures Lists(View(), members, users.Keys + invitees.Keys)
    {
      members := ListPresent();
      members := ListInvited(members);
    }
  }

  lemma TakeOne(all: set<UserId>, todo: set<UserId>, u: UserId)
    requires u in todo && todo <= all
    ensures (all - todo) + {u} == all - (todo - {u})
  {
  }

  /** Those of all that are present or no longer to do. */
  function Passed(all: set<UserId>, todo: set<UserId>, present: set<UserId>): set<UserId> {
    all - (todo - present)
  }

  lemma TakeAbsent(all: set<UserId>, todo: set<UserId>, present: set<UserId>, u: UserId)
    requires u in todo && todo <= all
    ensures Passed(all, todo - {u}, present) == Passed(all, todo, present) + if u in present then {} else {u}
    ensures u in present ==> Passed(all, todo - {u}, present) == Passed(all, todo, present)
    ensures u !in present ==> u !in Passed(all, todo, present)
  {
    TakeOne(all, todo, u);
  }

  lemma PassedEnds(invited: set<UserId>, present: set<UserId>)
    ensures Passed(present + invited, invited, present) == present
    ensures Passed(present + invited, {}, present) == present + invited
  {
  }

  // ---------------------------------------------------------------- clients by user, as values

  ghost function Views(users: map<UserId, RdpClient>): (v: map<UserId, Client>)
    reads users.Values
    ensures v.Keys == users.Keys && forall u | u in users :: v[u] == users[u].View()
  {
    map u | u in users :: users[u].View()
  }

  lemma ViewsAdd(users: map<UserId, RdpClient>, user: UserId, c: RdpClient)
    ensures Views(users[user := c]) == Views(users)[user := c.View()]
  {
  }

  lemma ViewsDrop(users: map<UserId, RdpClient>, gone: set<UserId>)
    ensures Views(users - gone) == Views(users) - gone
  {
  }

  lemma ViewsOnly(users: map<UserId, RdpClient>, kept: UserId)
    ensures Views(map u | u in users && u == kept :: users[u]) == (map u | u in users && u == kept :: Views(users)[u])
  {
  }

  lemma AssignedViews(r: Room, after: Room, user: UserId, permission: string)
    requires after == r.(users := after.users, invitees := after.invitees)
    requires after.invitees == if user in r.invitees then r.invitees[user := permission] else r.invitees
    requires after.users.Keys == r.users.Keys
    requires forall u | u in r.users ::
      after.users[u] == if u == user then Assign(r.users[u], permission) else r.users[u]
    ensures after == Assigned(r, user, permission)
  {
    hide Assign;
    assert after.users == Assigned(r, user, permission).users;
  }

  lemma SocketsOfEvicted(r: Room, after: Room, closed: map<UserId, Socket>)
    requires forall u :: u in closed <==> u in r.users && u !in after.users
    requires forall u | u in closed :: closed[u] == r.users[u].socket
    ensures closed == Evicted(r, after)
  {
  }

  lemma NoChanges(r: Room)
    ensures AssignedAll(r, Changes([])) == r
  {
  }

  lemma MoreChanges(r: Room, args: seq<string>, n: nat)
    requires n < |args|
    ensures var parts := Split(args[n], ':');
      AssignedAll(r, Changes(args[..n + 1]))
        == if |parts| == 2 then Assigned(AssignedAll(r, Changes(args[..n])), parts[0], parts[1])
          else AssignedAll(r, Changes(args[..n]))
  {
    hide AssignedAll, Assigned, Split;
    assert args[..n + 1][..n] == args[..n] && args[..n + 1][n] == args[n];
    assert Changes(args[..n]) + [] == Changes(args[..n]);
    var parts := Split(args[n], ':');
    if |parts| == 2 {
      AssignedAllSnoc(r, Changes(args[..n]), (parts[0], parts[1]));
    }
  }

  lemma NoneEvicted(r: Room)
    ensures Evicted(r, r) == map[] && RemovedAll(r, []) == r
  {
  }

  /** The sockets closed so far, and those of one more removal. */
  lemma EvictedMore(r: Room, list: seq<UserId>, u: UserId, before: Room)
    requires before == RemovedAll(r, list)
    ensures Evicted(r, Removed(before, u)) == Evicted(r, before) + Evicted(before, Removed(before, u))
    ensures u == r.creator ==> Removed(before, u) == before
  {
    hide RemovedAll;
    RemovedAllRest(r, list);
  }

  lemma EmptyList(r: Room)
    ensures Lists(r, [], {})
  {
  }
}
