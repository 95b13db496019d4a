/** Which tunnels are registered, as a function of what was asked and when, without looking at the map. */
module TunnelHistories {
  import opened TunnelMaps

  /** Does the event register the tunnel of u or access it? */
  predicate Accessing(e: Event, u: Uuid) {
    (e.Put? || e.Get?) && e.uuid == u
  }

  /** A sweep at k to which every access of u from i on lies more than 15 seconds back. */
  predicate Lapsed(run: seq<Timed>, i: nat, k: nat, u: Uuid)
    requires i <= k < |run|
  {
    && run[k].event.Tick?
    && forall j | i <= j < k && Accessing(run[j].event, u) :: run[j].time < run[k].time - 15_000_000_000
  }

  /** A registration of u at i that is followed neither by a removal nor by a sweep that found it expired. */
  predicate Standing(run: seq<Timed>, n: nat, i: nat, u: Uuid)
    requires i < n <= |run|
  {
    && run[i].event.Put? && run[i].event.uuid == u
    && forall k | i < k < n :: run[k].event != Remove(u) && !Lapsed(run, i, k, u)
  }

  /** The registration and the access that an entry of the map goes back to. */
  lemma {:induction false} Origin(run: seq<Timed>, n: nat, u: Uuid) returns (i: nat, j: nat)
    requires InOrder(run) && n <= |run| && u in After(run, n)
    ensures i <= j < n && Standing(run, n, i, u)
    ensures forall k | i < k < n :: !(run[k].event.Put? && run[k].event.uuid == u)
    ensures Accessing(run[j].event, u) && forall k | j < k < n :: !Accessing(run[k].event, u)
    ensures After(run, n)[u] == Entry(run[i].event.tunnel, run[j].time)
    decreases n
  {
    var e, now := run[n - 1].event, run[n - 1].time;
    if e.Put? && e.uuid == u {
      i, j := n - 1, n - 1;
    } else {
      i, j := Origin(run, n - 1, u);
      assert !Lapsed(run, i, n - 1, u) by {
        assert e.Tick? ==> u !in Expired(After(run, n - 1), now);
      }
      if Accessing(e, u) {
        j := n - 1;
      }
    }
  }

  /** A standing registration is in the map. */
  lemma {:induction false} StandingStays(run: seq<Timed>, n: nat, i: nat, u: Uuid)
    requires InOrder(run) && i < n <= |run| && Standing(run, n, i, u)
    ensures u in After(run, n)
    decreases n
  {
    if i + 1 < n {
      StandingStays(run, n - 1, i, u);
      var _, last := Origin(run, n - 1, u);
      if run[n - 1].event.Tick? {
        assert !Lapsed(run, i, n - 1, u);
        var j :| i <= j < n - 1 && Accessing(run[j].event, u) && run[j].time >= run[n - 1].time - 15_000_000_000;
        assert j <= last;
      }
    }
  }

  /**
   At any time an id is registered exactly when some registration of it was followed neither by its removal nor by a
   sweep that found it expired; its tunnel is that of the latest registration, and its recorded time that of the
   latest registration or access.
   */
  lemma RegisteredByHistory(run: seq<Timed>, n: nat, u: Uuid)
    requires InOrder(run) && n <= |run|
    ensures u in After(run, n) <==> exists i | 0 <= i < n :: Standing(run, n, i, u)
    ensures u in After(run, n) ==> exists i | 0 <= i < n ::
      && run[i].event == Put(u, After(run, n)[u].tunnel)
      && forall k | i < k < n :: !(run[k].event.Put? && run[k].event.uuid == u)
    ensures u in After(run, n) ==> exists j | 0 <= j < n ::
      && Accessing(run[j].event, u) && run[j].time == After(run, n)[u].lastAccessed
      && forall k | j < k < n :: !Accessing(run[k].event, u)
  {
    if u in After(run, n) {
      var i, j := Origin(run, n, u);
      assert run[i].event == Put(u, After(run, n)[u].tunnel);
    }
    forall i | 0 <= i < n && Standing(run, n, i, u) ensures u in After(run, n) {
      StandingStays(run, n, i, u);
    }
  }
}
