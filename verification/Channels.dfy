/** The registry of notification channels, indexed by user and by application. */
module Channels {

  type Key = string

  type Id = string

  datatype Channel = Channel(number: nat)

  type Lists = map<Key, map<Id, Channel>>

  /** The registry and the channels closed so far; Panicked is a close of or a send on a closed channel. */
  datatype Registry = Registry(lists: Lists, closed: seq<Channel>) | Panicked

  function ListOf(lists: Lists, key: Key): map<Id, Channel> {
    if key in lists then lists[key] else map[]
  }

  function AddTo(lists: Lists, key: Key, id: Id, ch: Channel): Lists {
    lists[key := ListOf(lists, key)[id := ch]]
  }

  function Drop(lists: Lists, key: Key, id: Id): Lists {
    if key in lists then lists[key := lists[key] - {id}] else lists
  }

  /** Remove closes the channel found under the application, and forgets the id under both keys. */
  function RemoveFrom(r: Registry, app: Key, user: Key, id: Id): Registry
    requires r.Registry?
  {
    if id in ListOf(r.lists, app) then
      var ch := r.lists[app][id];
      if ch in r.closed then Panicked
      else Registry(Drop(Drop(r.lists, app, id), user, id), r.closed + [ch])
    else
      Registry(Drop(r.lists, user, id), r.closed)
  }

  class ChannelManagement {
    var channelList: Lists
    // the channels closed, and the values sent on each
    var closed: seq<Channel>
    var sent: seq<(Channel, int)>

    ghost function View(): Registry
      reads this
    {
      Registry(channelList, closed)
    }

    constructor ()
      ensures View() == Registry(map[], []) && sent == []
    {
      channelList, closed, sent := map[], [], [];
    }

    method Add(key: Key, id: Id, ch: Channel)
      modifies this
      ensures View() == Registry(AddTo(old(channelList), key, id, ch), old(closed)) && sent == old(sent)
    {
      if key !in channelList {
        channelList := channelList[key := map[]];
      }
      channelList := channelList[key := channelList[key][id := ch]];
    }

    /** ok is false when the channel is closed already and the close panics. */
    method Remove(app: Key, user: Key, id: Id) returns (ok: bool)
      modifies this
      ensures ok == RemoveFrom(old(View()), app, user, id).Registry?
      ensures ok ==> View() == RemoveFrom(old(View()), app, user, id)
      ensures sent == old(sent)
    {
      if app in channelList {
        if id in channelList[app] {
          var ch := channelList[app][id];
          if ch in closed {
            return false;
          }
          closed := closed + [ch];
          channelList := channelList[app := channelList[app] - {id}];
        }
      }
      if user in channelList {
        channelList := channelList[user := channelList[user] - {id}];
      }
      return true;
    }

    /**
     Sends op on every channel under key, in any order; ok is false when one of them is closed and the send panics.
     */
    method BroadCast(key: Key, op: int) returns (ok: bool, order: seq<Id>)
      modifies this
      ensures View() == old(View())
      ensures ok <==> forall id | id in ListOf(channelList, key) :: channelList[key][id] !in closed
      ensures forall i, j | 0 <= i < j < |order| :: order[i] != order[j]
      ensures ok ==> forall id :: id in order <==> id in ListOf(channelList, key)
      ensures |sent| == |old(sent)| + |order| && sent[..|old(sent)|] == old(sent)
      ensures forall i | 0 <= i < |order| ::
        order[i] in ListOf(channelList, key) && sent[|old(sent)| + i] == (channelList[key][order[i]], op)
    {
      order := [];
      if key !in channelList {
        return true, [];
      }
      var list := channelList[key];
      var todo := list.Keys;
      ghost var n := |sent|;
      while todo != {}
        invariant View() == old(View()) && todo <= list.Keys
        invariant forall i, j | 0 <= i < j < |order| :: order[i] != order[j]
        invariant forall id :: id in order <==> id in list && id !in todo
        invariant |sent| == n + |order| && sent[..n] == old(sent)
        invariant forall i | 0 <= i < |order| :: sent[n + i] == (list[order[i]], op)
        invariant forall id | id in order :: list[id] !in closed
        decreases |todo|
      {
        var id :| id in todo;
        todo := todo - {id};
        if list[id] in closed {
          return false, order;
        }
        sent := sent + [(list[id], op)];
        order := order + [id];
      }
      return true, order;
    }
  }

  // ---------------------------------------------------------------- runs as ServeHTTP makes them

  /** A connection is added under its user, then under its application, and finally removed with both keys. */
  datatype Stage = UnderUser | UnderBoth | Gone

  /** One websocket connection: its keys, its channel and how far it has got. */
  datatype Conn = Conn(user: Key, app: Key, ch: Channel, stage: Stage)

  /** The registry, and every connection there has been, by the id drawn for it. */
  datatype World = World(registry: Registry, conns: map<Id, Conn>)

  datatype Action =
    | AddUser(id: Id, user: Key, app: Key, ch: Channel)
    | AddApp(id: Id)
    | RemoveConn(id: Id)

  const EMPTY := World(Registry(map[], []), map[])

  function Used(w: World): set<Channel> {
    set id | id in w.conns :: w.conns[id].ch
  }

  /** Ids and channels are drawn fresh; the steps of one connection come in the order of its code. */
  predicate Enabled(w: World, a: Action) {
    match a
    case AddUser(id, _, _, ch) => id !in w.conns && ch !in Used(w)
    case AddApp(id) => id in w.conns && w.conns[id].stage == UnderUser
    case RemoveConn(id) => id in w.conns && w.conns[id].stage == UnderBoth
  }

  function Next(w: World, a: Action): World
    requires Enabled(w, a)
  {
    if w.registry.Panicked? then w else
    match a
    case AddUser(id, user, app, ch) =>
      World(w.registry.(lists := AddTo(w.registry.lists, user, id, ch)), w.conns[id := Conn(user, app, ch, UnderUser)])
    case AddApp(id) =>
      var c := w.conns[id];
      World(w.registry.(lists := AddTo(w.registry.lists, c.app, id, c.ch)), w.conns[id := c.(stage := UnderBoth)])
    case RemoveConn(id) =>
      var c := w.conns[id];
      World(RemoveFrom(w.registry, c.app, c.user, id), w.conns[id := c.(stage := Gone)])
  }

  predicate IsRun(w: World, run: seq<Action>)
    decreases |run|
  {
    run == [] || (Enabled(w, run[0]) && IsRun(Next(w, run[0]), run[1..]))
  }

  function After(w: World, run: seq<Action>): World
    requires IsRun(w, run)
    decreases |run|
  {
    if run == [] then w else After(Next(w, run[0]), run[1..])
  }

  /** Should the connection with this id be listed under key? */
  predicate Listed(conns: map<Id, Conn>, id: Id, key: Key) {
    && id in conns
    && ((conns[id].stage != Gone && key == conns[id].user) || (conns[id].stage == UnderBoth && key == conns[id].app))
  }

  /** The lists hold the channels of exactly the connections to be listed. */
  ghost predicate ListsInv(lists: Lists, conns: map<Id, Conn>) {
    && (forall key, id :: id in ListOf(lists, key) <==> Listed(conns, id, key))
    && (forall key, id | id in ListOf(lists, key) :: lists[key][id] == conns[id].ch)
  }

  /** The closed channels are, once each, those of the connections gone. */
  ghost predicate ClosedInv(closed: seq<Channel>, conns: map<Id, Conn>) {
    && (forall id | id in conns :: conns[id].stage == Gone <==> conns[id].ch in closed)
    && (forall id, other | id in conns && other in conns && id != other :: conns[id].ch != conns[other].ch)
    && (forall i, j | 0 <= i < j < |closed| :: closed[i] != closed[j])
  }

  ghost predicate Inv(w: World) {
    && w.registry.Registry?
    && ListsInv(w.registry.lists, w.conns)
    && ClosedInv(w.registry.closed, w.conns)
    && forall ch | ch in w.registry.closed :: ch in Used(w)
  }

  lemma AddKeepsLists(lists: Lists, conns: map<Id, Conn>, key: Key, id: Id, c: Conn)
    requires ListsInv(lists, conns)
    requires
      if id in conns then conns[id] == c.(stage := UnderUser) && c.stage == UnderBoth && key == c.app
      else c.stage == UnderUser && key == c.user
    ensures ListsInv(AddTo(lists, key, id, c.ch), conns[id := c])
  {
    var lists', conns' := AddTo(lists, key, id, c.ch), conns[id := c];
    forall k, i ensures i in ListOf(lists', k) <==> Listed(conns', i, k) {
      assert i in ListOf(lists', k) <==> i in ListOf(lists, k) || (k == key && i == id);
      assert i in ListOf(lists, k) <==> Listed(conns, i, k);
    }
  }

  lemma RemoveKeepsLists(lists: Lists, conns: map<Id, Conn>, id: Id)
    requires ListsInv(lists, conns) && id in conns && conns[id].stage == UnderBoth
    ensures var c := conns[id]; ListsInv(Drop(Drop(lists, c.app, id), c.user, id), conns[id := c.(stage := Gone)])
  {
    var c := conns[id];
    var lists', conns' := Drop(Drop(lists, c.app, id), c.user, id), conns[id := c.(stage := Gone)];
    forall k, i ensures i in ListOf(lists', k) <==> Listed(conns', i, k) {
      assert i in ListOf(lists', k) <==> i in ListOf(lists, k) && !(i == id && (k == c.app || k == c.user));
      assert i in ListOf(lists, k) <==> Listed(conns, i, k);
    }
  }

  lemma StepKeepsInv(w: World, a: Action)
    requires Inv(w) && Enabled(w, a)
    ensures Inv(Next(w, a))
  {
    hide ListsInv, AddTo, Drop;
    var w' := Next(w, a);
    var id := a.id;
    match a
    case AddUser(_, user, app, ch) =>
      AddKeepsLists(w.registry.lists, w.conns, user, id, Conn(user, app, ch, UnderUser));
      UsedGrows(w, w', id);
    case AddApp(_) =>
      var c := w.conns[id];
      AddKeepsLists(w.registry.lists, w.conns, c.app, id, c.(stage := UnderBoth));
      UsedGrows(w, w', id);
    case RemoveConn(_) =>
      var c := w.conns[id];
      OpenBeforeRemove(w, id);
      RemoveKeepsLists(w.registry.lists, w.conns, id);
      UsedGrows(w, w', id);
  }

  lemma UsedGrows(w: World, w': World, id: Id)
    requires id in w'.conns && (id in w.conns ==> w'.conns[id].ch == w.conns[id].ch)
    requires w'.conns == w.conns[id := w'.conns[id]]
    ensures Used(w') == Used(w) + {w'.conns[id].ch}
    ensures id in w.conns ==> w'.conns[id].ch in Used(w)
  {
    forall ch | ch in Used(w) + {w'.conns[id].ch} ensures ch in Used(w') {
      if ch != w'.conns[id].ch {
        var i :| i in w.conns && w.conns[i].ch == ch;
        assert w'.conns[i].ch == ch;
      }
    }
  }

  /** A connection about to be removed is found under its application, with its channel still open. */
  lemma OpenBeforeRemove(w: World, id: Id)
    requires Inv(w) && id in w.conns && w.conns[id].stage == UnderBoth
    ensures var c := w.conns[id];
      && id in ListOf(w.registry.lists, c.app) && w.registry.lists[c.app][id] == c.ch && c.ch !in w.registry.closed
      && RemoveFrom(w.registry, c.app, c.user, id)
        == Registry(Drop(Drop(w.registry.lists, c.app, id), c.user, id), w.registry.closed + [c.ch])
  {
    assert Listed(w.conns, id, w.conns[id].app);
  }

  lemma {:induction false} RunKeepsInv(w: World, run: seq<Action>)
    requires Inv(w) && IsRun(w, run)
    ensures Inv(After(w, run))
    decreases |run|
  {
    hide Inv, Enabled, Next;
    if run != [] {
      StepKeepsInv(w, run[0]);
      RunKeepsInv(Next(w, run[0]), run[1..]);
    }
  }

  /**
   Over any interleaving of connections: nothing panics; a connection's channel is listed under its user from its
   first step and under its application from its second, until it is gone, and nothing else is listed; no listed
   channel is closed, so a broadcast under any key never sends on a closed channel; and a channel is closed, once,
   exactly when its connection is gone.
   */
  lemma ChannelsStayOpen(run: seq<Action>)
    requires IsRun(EMPTY, run)
    ensures var w := After(EMPTY, run);
      && w.registry.Registry?
      && (forall key, id :: id in ListOf(w.registry.lists, key) <==> Listed(w.conns, id, key))
      && (forall key, id | id in ListOf(w.registry.lists, key) :: w.registry.lists[key][id] == w.conns[id].ch)
      && (forall key, id | id in ListOf(w.registry.lists, key) :: w.registry.lists[key][id] !in w.registry.closed)
      && (forall id | id in w.conns ::
        multiset(w.registry.closed)[w.conns[id].ch] == if w.conns[id].stage == Gone then 1 else 0)
  {
    RunKeepsInv(EMPTY, run);
    var w := After(EMPTY, run);
    forall key, id | id in ListOf(w.registry.lists, key)
      ensures w.registry.lists[key][id] !in w.registry.closed
    {
      assert Listed(w.conns, id, key);
    }
    forall id | id in w.conns
      ensures multiset(w.registry.closed)[w.conns[id].ch] == if w.conns[id].stage == Gone then 1 else 0
    {
      OnceEach(w.registry.closed, w.conns[id].ch);
    }
  }

  /** After any run another connection can come, be listed under both keys, and go. */
  lemma ConnectionCanRun(run: seq<Action>, id: Id, user: Key, app: Key, ch: Channel)
    requires IsRun(EMPTY, run) && id !in After(EMPTY, run).conns && ch !in Used(After(EMPTY, run))
    ensures var more := [AddUser(id, user, app, ch), AddApp(id), RemoveConn(id)];
      && IsRun(EMPTY, run + more) && id in After(EMPTY, run + more).conns
      && After(EMPTY, run + more).conns[id] == Conn(user, app, ch, Gone)
  {
    hide AddTo, Drop, ListsInv, ClosedInv;
    var more := [AddUser(id, user, app, ch), AddApp(id), RemoveConn(id)];
    EmptyInv();
    RunKeepsInv(EMPTY, run);
    var w := After(EMPTY, run);
    StepKeepsInv(w, more[0]);
    var w1 := Next(w, more[0]);
    StepKeepsInv(w1, more[1]);
    var w2 := Next(w1, more[1]);
    StepKeepsInv(w2, more[2]);
    assert more[1..] == [AddApp(id), RemoveConn(id)] && more[1..][1..] == [RemoveConn(id)];
    assert IsRun(w2, [RemoveConn(id)]) && After(w2, [RemoveConn(id)]) == Next(w2, more[2]);
    JoinRuns(EMPTY, run, more);
  }

  lemma EmptyInv()
    ensures Inv(EMPTY)
  {
  }

  lemma {:induction false} JoinRuns(w: World, x: seq<Action>, y: seq<Action>)
    requires IsRun(w, x) && IsRun(After(w, x), y)
    ensures IsRun(w, x + y) && After(w, x + y) == After(After(w, x), y)
    decreases |x|
  {
    hide Next, Enabled;
    if x == [] {
      assert x + y == y;
    } else {
      JoinRuns(Next(w, x[0]), x[1..], y);
      assert (x + y)[1..] == x[1..] + y;
    }
  }

  lemma {:induction false} OnceEach(s: seq<Channel>, ch: Channel)
    requires forall i, j | 0 <= i < j < |s| :: s[i] != s[j]
    ensures multiset(s)[ch] == if ch in s then 1 else 0
  {
    if s != [] {
      assert s == [s[0]] + s[1..];
      OnceEach(s[1..], ch);
    }
  }
}
