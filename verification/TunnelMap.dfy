/** The map of HTTP tunnels and the sweep that removes tunnels not accessed recently. */
module TunnelMaps {
  import opened Options

  // 15 seconds, in nanoseconds
  const TUNNEL_TIMEOUT := 15_000_000_000

  type Uuid = string

  type Tunnel = nat

  datatype Entry = Entry(tunnel: Tunnel, lastAccessed: int)

  type Entries = map<Uuid, Entry>

  // ---------------------------------------------------------------- the operations on values

  datatype Event =
    | Put(uuid: Uuid, tunnel: Tunnel)
    | Get(uuid: Uuid)
    | Remove(uuid: Uuid)
    | Tick

  /** The tunnels a sweep at time now finds expired: last accessed before now minus the timeout. */
  function Expired(m: Entries, now: int): set<Uuid> {
    set u | u in m && m[u].lastAccessed < now - TUNNEL_TIMEOUT
  }

  function Step(m: Entries, now: int, e: Event): Entries {
    match e
    case Put(u, tunnel) => m[u := Entry(tunnel, now)]
    case Get(u) => if u in m then m[u := m[u].(lastAccessed := now)] else m
    case Remove(u) => m - {u}
    case Tick => m - Expired(m, now)
  }

  /** The tunnels of the given ids, in order. */
  function TunnelsOf(m: Entries, ids: seq<Uuid>): (ts: seq<Tunnel>)
    requires forall u | u in ids :: u in m
    ensures |ts| == |ids| && forall i | 0 <= i < |ids| :: ts[i] == m[ids[i]].tunnel
  {
    if ids == [] then [] else [m[ids[0]].tunnel] + TunnelsOf(m, ids[1..])
  }

  // ---------------------------------------------------------------- the map object

  class LastAccessedTunnel {
    const tunnel: Tunnel
    var lastAccessedTime: int

    constructor (tunnel: Tunnel, now: int)
      ensures this.tunnel == tunnel && lastAccessedTime == now
    {
      this.tunnel, lastAccessedTime := tunnel, now;
    }

    method Access(now: int)
      modifies this
      ensures lastAccessedTime == now
    {
      lastAccessedTime := now;
    }
  }

  class TunnelMap {
    var tunnelMap: map<Uuid, LastAccessedTunnel>
    // the tunnels closed, in order
    var closed: seq<Tunnel>

    /** No two ids share an entry object. */
    ghost predicate Valid()
      reads this
    {
      forall u, v | u in tunnelMap && v in tunnelMap && u != v :: tunnelMap[u] != tunnelMap[v]
    }

    ghost function View(): Entries
      reads this, tunnelMap.Values
    {
      map u | u in tunnelMap :: Entry(tunnelMap[u].tunnel, tunnelMap[u].lastAccessedTime)
    }

    constructor ()
      ensures Valid() && View() == map[] && closed == []
    {
      tunnelMap, closed := map[], [];
    }

    method Put(uuid: Uuid, tunnel: Tunnel, now: int)
      requires Valid()
      modifies this
      ensures Valid() && View() == Step(old(View()), now, Event.Put(uuid, tunnel)) && closed == old(closed)
    {
      var one := new LastAccessedTunnel(tunnel, now);
      tunnelMap := tunnelMap[uuid := one];
    }

    method Get(uuid: Uuid, now: int) returns (entry: Option<LastAccessedTunnel>)
      requires Valid()
      modifies tunnelMap.Values
      ensures Valid() && View() == Step(old(View()), now, Event.Get(uuid)) && tunnelMap == old(tunnelMap)
      ensures entry == if uuid in tunnelMap then Some(tunnelMap[uuid]) else None
    {
      if uuid !in tunnelMap {
        return None;
      }
      entry := Some(tunnelMap[uuid]);
      entry.value.Access(now);
    }

    method Remove(uuid: Uuid) returns (entry: Option<LastAccessedTunnel>)
      requires Valid()
      modifies this
      ensures Valid() && View() == Step(old(View()), 0, Event.Remove(uuid)) && closed == old(closed)
      ensures entry == if uuid in old(tunnelMap) then Some(old(tunnelMap)[uuid]) else None
    {
      if uuid !in tunnelMap {
        return None;
      }
      entry := Some(tunnelMap[uuid]);
      tunnelMap := tunnelMap - {uuid};
    }

    /**
     One run of the timeout task: collect the expired ids, then delete and close them; order is the order of closing.
     */
    method Sweep(now: int) returns (order: seq<Uuid>)
      requires Valid()
      modifies this
      ensures Valid() && View() == Step(old(View()), now, Tick)
      ensures (forall i, j | 0 <= i < j < |order| :: order[i] != order[j])
      ensures forall u :: u in order <==> u in Expired(old(View()), now)
      ensures closed == old(closed) + TunnelsOf(old(View()), order)
    {
      order := Collect(now);
      assert (set u | u in order) == Expired(View(), now);
      CloseAll(order);
    }

    /** The second loop of the sweep. */
    method CloseAll(ids: seq<Uuid>)
      requires Valid() && (forall u | u in ids :: u in tunnelMap)
      requires forall i, j | 0 <= i < j < |ids| :: ids[i] != ids[j]
      modifies this
      ensures Valid() && View() == old(View()) - (set u | u in ids)
      ensures closed == old(closed) + TunnelsOf(old(View()), ids)
    {
      hide TunnelsOf;
      ghost var tunnels := TunnelsOf(View(), ids);
      assert forall i | 0 <= i < |ids| :: ids[i] in tunnelMap && tunnels[i] == tunnelMap[ids[i]].tunnel;
      CloseEach(ids, tunnels);
    }

    method CloseEach(ids: seq<Uuid>, ghost tunnels: seq<Tunnel>)
      requires |tunnels| == |ids|
      requires forall i | 0 <= i < |ids| :: ids[i] in tunnelMap && tunnels[i] == tunnelMap[ids[i]].tunnel
      requires forall i, j | 0 <= i < j < |ids| :: ids[i] != ids[j]
      modifies this
      ensures forall u :: u in tunnelMap <==> u in old(tunnelMap) && u !in ids
      ensures forall u | u in tunnelMap :: tunnelMap[u] == old(tunnelMap)[u]
      ensures closed == old(closed) + tunnels
    {
      for n := 0 to |ids|
        invariant forall u :: u in tunnelMap <==> u in old(tunnelMap) && u !in ids[..n]
        invariant forall u | u in tunnelMap :: tunnelMap[u] == old(tunnelMap)[u]
        invariant closed == old(closed) + tunnels[..n]
      {
        var u := ids[n];
        assert u !in ids[..n];
        var tunnel := tunnelMap[u].tunnel;
        assert tunnels[..n + 1] == tunnels[..n] + [tunnel];
        closed := closed + [tunnel];
        tunnelMap := tunnelMap - {u};
        assert ids[..n + 1] == ids[..n] + [u];
      }
      assert ids[..|ids|] == ids && tunnels[..|ids|] == tunnels;
    }

    /** The first loop of the sweep, over the entries in any order. */
    method Collect(now: int) returns (removeIds: seq<Uuid>)
      ensures (forall i, j | 0 <= i < j < |removeIds| :: removeIds[i] != removeIds[j])
      ensures forall u :: u in removeIds <==> u in Expired(View(), now)
    {
      var timeLine := now - TUNNEL_TIMEOUT;
      var todo := tunnelMap.Keys;
      removeIds := [];
      while todo != {}
        invariant todo <= tunnelMap.Keys
        invariant forall i, j | 0 <= i < j < |removeIds| :: removeIds[i] != removeIds[j]
        invariant forall u ::
          u in removeIds <==> u in tunnelMap && u !in todo && tunnelMap[u].lastAccessedTime < timeLine
        decreases |todo|
      {
        var u :| u in todo;
        todo := todo - {u};
        if tunnelMap[u].lastAccessedTime < timeLine {
          removeIds := removeIds + [u];
        }
      }
    }
  }

  // ---------------------------------------------------------------- timed runs

  datatype Timed = Timed(time: int, event: Event)

  /** Times do not decrease. */
  predicate InOrder(run: seq<Timed>) {
    forall i, j | 0 <= i <= j < |run| :: run[i].time <= run[j].time
  }

  /** The map after the first n events. */
  function After(run: seq<Timed>, n: nat): Entries
    requires n <= |run|
  {
    if n == 0 then map[] else Step(After(run, n - 1), run[n - 1].time, run[n - 1].event)
  }

  /** Does the event at i give u the access time of that event? */
  predicate Accesses(run: seq<Timed>, i: nat, u: Uuid)
    requires i < |run|
  {
    && u in After(run, i + 1)
    && (run[i].event.Put? || run[i].event.Get?) && run[i].event.uuid == u
  }

  predicate Touches(e: Event, u: Uuid) {
    !e.Tick? && e.uuid == u
  }

  /** Is u neither accessed nor removed by a request between i and j? */
  predicate LeftAlone(run: seq<Timed>, i: nat, j: nat, u: Uuid)
    requires j <= |run|
  {
    forall k | i < k < j :: !Touches(run[k].event, u)
  }

  /** The ticker: from start on, exactly one timeout apart, and running until end. */
  ghost predicate Ticks(run: seq<Timed>, start: int, end: int) {
    forall n: nat {:trigger TickAt(run, start, n)} | 1 <= n && start + n * TUNNEL_TIMEOUT <= end ::
      TickAt(run, start, n)
  }

  predicate TickAt(run: seq<Timed>, start: int, n: nat) {
    Timed(start + n * TUNNEL_TIMEOUT, Tick) in run
  }

  /** Not a moment too early: a tunnel left alone survives every event up to one timeout after its last access. */
  lemma {:induction false} Survives(run: seq<Timed>, i: nat, j: nat, u: Uuid)
    requires i < j <= |run| && Accesses(run, i, u) && LeftAlone(run, i, j, u)
    requires forall k | i < k < j && run[k].event.Tick? :: run[k].time <= run[i].time + TUNNEL_TIMEOUT
    ensures u in After(run, j) && After(run, j)[u].lastAccessed == run[i].time
    decreases j
  {
    if i + 1 < j {
      Survives(run, i, j - 1, u);
    }
  }

  /** Not a moment too late: the first tick more than one timeout after the last access removes and closes it. */
  lemma RemovedByTick(run: seq<Timed>, i: nat, j: nat, u: Uuid)
    requires i < j < |run| && Accesses(run, i, u) && LeftAlone(run, i, j, u)
    requires forall k | i < k < j && run[k].event.Tick? :: run[k].time <= run[i].time + TUNNEL_TIMEOUT
    requires run[j].event.Tick? && run[j].time > run[i].time + TUNNEL_TIMEOUT
    ensures u in Expired(After(run, j), run[j].time) && u !in After(run, j + 1)
  {
    Survives(run, i, j, u);
  }

  /** The first tick in a run after i and after time t, given that there is one at j. */
  lemma {:induction false} FirstTick(run: seq<Timed>, i: nat, j: nat, t: int) returns (m: nat)
    requires i < j < |run| && run[j].event.Tick? && run[j].time > t
    ensures i < m <= j && run[m].event.Tick? && run[m].time > t
    ensures forall k | i < k < m && run[k].event.Tick? :: run[k].time <= t
    decreases j
  {
    if k :| i < k < j && run[k].event.Tick? && run[k].time > t {
      m := FirstTick(run, i, k, t);
    } else {
      m := j;
    }
  }

  /**
   The documented bound: a tunnel last accessed at time a and then left alone is removed and closed by a sweep at
   some time in (a + T, a + 2T], and by no sweep before.
   */
  lemma ExpiresInTime(run: seq<Timed>, start: int, i: nat, u: Uuid) returns (m: nat)
    requires InOrder(run) && i < |run| && Accesses(run, i, u) && LeftAlone(run, i, |run|, u)
    requires start <= run[i].time && Ticks(run, start, run[i].time + 2 * TUNNEL_TIMEOUT)
    ensures i < m < |run| && run[m].event.Tick?
    ensures run[i].time + TUNNEL_TIMEOUT < run[m].time <= run[i].time + 2 * TUNNEL_TIMEOUT
    ensures u in Expired(After(run, m), run[m].time) && u !in After(run, m + 1)
    ensures forall k | i < k <= m :: u in After(run, k)
  {
    var a := run[i].time;
    var n := (a + TUNNEL_TIMEOUT - start) / TUNNEL_TIMEOUT + 1;
    assert TickAt(run, start, n);
    var j :| 0 <= j < |run| && run[j] == Timed(start + n * TUNNEL_TIMEOUT, Tick);
    m := FirstTick(run, i, j, a + TUNNEL_TIMEOUT);
    RemovedByTick(run, i, m, u);
    forall k | i < k <= m ensures u in After(run, k) {
      Survives(run, i, k, u);
    }
  }

  /** The recorded time is no earlier than any access there has been. */
  lemma {:induction false} RecordedIsLatest(run: seq<Timed>, i: nat, j: nat, u: Uuid)
    requires InOrder(run) && i < j <= |run| && Accesses(run, i, u) && u in After(run, j)
    ensures After(run, j)[u].lastAccessed >= run[i].time
    decreases j
  {
    if i + 1 < j && u in After(run, j - 1) {
      RecordedIsLatest(run, i, j - 1, u);
    }
  }

  /** Whatever the run, a sweep removes a tunnel only if every access lies more than one timeout back. */
  lemma NeverEarly(run: seq<Timed>, j: nat, u: Uuid)
    requires InOrder(run) && j < |run| && run[j].event.Tick? && u in After(run, j) && u !in After(run, j + 1)
    ensures forall i | 0 <= i < j && Accesses(run, i, u) :: run[i].time + TUNNEL_TIMEOUT < run[j].time
  {
    forall i | 0 <= i < j && Accesses(run, i, u)
      ensures run[i].time + TUNNEL_TIMEOUT < run[j].time
    {
      RecordedIsLatest(run, i, j, u);
    }
  }
}
