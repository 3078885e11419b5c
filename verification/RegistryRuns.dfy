/**
 * Whole runs of the discovery registry under a clock that never goes back:
 * which nodes are present, and how stale an entry can get. Statements about
 * the pair-keyed table that module Registry proves its map to represent.
 */
module RegistryRuns {
  import opened Registry
  import opened Wrappers

  datatype Event =
    | Announce(partyId: int, port: int, hostname: string, status: string)
    | Relay(partyId: int, port: int, registered: bool, fqdn: string)
    | Sweep

  datatype Timed = At(time: real, event: Event)

  function Step(t: Table, e: Timed, ttl: real): Table {
    match e.event
    case Announce(p, q, host, status) => Announced(t, p, q, host, status, e.time)
    case Relay(p, q, registered, fqdn) => RelayUpdated(t, p, q, registered, fqdn)
    case Sweep => Pruned(t, e.time, ttl)
  }

  /** The table after a run that starts empty. */
  function Run(events: seq<Timed>, ttl: real): Table {
    if events == [] then map[] else Step(Run(events[..|events| - 1], ttl), events[|events| - 1], ttl)
  }

  ghost predicate ClockOrdered(events: seq<Timed>) {
    forall i, j :: 0 <= i <= j < |events| ==> events[i].time <= events[j].time
  }

  predicate Announces(e: Timed, k: (int, int)) {
    e.event.Announce? && e.event.partyId == k.0 && e.event.port == k.1
  }

  predicate Relays(e: Timed, k: (int, int)) {
    e.event.Relay? && e.event.partyId == k.0 && e.event.port == k.1
  }

  /** The last announcement of a node. */
  function LastAnnounce(events: seq<Timed>, k: (int, int)): (r: Option<nat>)
    ensures r.Some? ==> r.value < |events| && Announces(events[r.value], k)
    ensures r.Some? ==> forall j :: r.value < j < |events| ==> !Announces(events[j], k)
    ensures r == None ==> forall j :: 0 <= j < |events| ==> !Announces(events[j], k)
  {
    if events == [] then None
    else if Announces(events[|events| - 1], k) then Some(|events| - 1)
    else
      var r := LastAnnounce(events[..|events| - 1], k);
      assert forall j :: 0 <= j < |events| - 1 ==> events[..|events| - 1][j] == events[j];
      r
  }

  lemma LastOfPrefix(events: seq<Timed>, k: (int, int))
    requires events != [] && !Announces(events[|events| - 1], k)
    ensures LastAnnounce(events, k) == LastAnnounce(events[..|events| - 1], k)
  {
  }

  /** No sweep after position `i` came more than `ttl` after that position. */
  ghost predicate SurvivesSweeps(events: seq<Timed>, i: nat, ttl: real)
    requires i < |events|
  {
    forall s :: i < s < |events| && events[s].event.Sweep? ==> events[s].time - events[i].time <= ttl
  }

  lemma SurvivesStep(events: seq<Timed>, i: nat, ttl: real)
    requires i < |events| - 1
    ensures SurvivesSweeps(events, i, ttl)
       <==> SurvivesSweeps(events[..|events| - 1], i, ttl)
            && (events[|events| - 1].event.Sweep? ==> events[|events| - 1].time - events[i].time <= ttl)
  {
    var front := events[..|events| - 1];
    assert forall j :: 0 <= j < |front| ==> front[j] == events[j];
  }

  /**
   * A node is in the table exactly when it has announced itself and no sweep
   * since its last announcement found that more than the time to live ago;
   * its last_seen is then the time of that announcement.
   */
  lemma {:induction false} PresentExactly(events: seq<Timed>, k: (int, int), ttl: real)
    ensures k in Run(events, ttl)
       <==> LastAnnounce(events, k).Some? && SurvivesSweeps(events, LastAnnounce(events, k).value, ttl)
    ensures k in Run(events, ttl) ==> Run(events, ttl)[k].lastSeen == events[LastAnnounce(events, k).value].time
    decreases |events|
  {
    if events != [] {
      var front, last := events[..|events| - 1], events[|events| - 1];
      PresentExactly(front, k, ttl);
      if !Announces(last, k) {
        LastOfPrefix(events, k);
        var r := LastAnnounce(front, k);
        if r.Some? {
          SurvivesStep(events, r.value, ttl);
          assert front[r.value] == events[r.value];
        }
      }
    }
  }

  // ----------------------------------------------------- what is listed

  /** At position `j` the node joined, and it has been listed ever since. */
  ghost predicate JoinedAt(events: seq<Timed>, k: (int, int), j: nat, ttl: real) {
    && j < |events| && Announces(events[j], k)
    && k !in Run(events[..j], ttl)
    && forall m :: j < m <= |events| ==> k in Run(events[..m], ttl)
  }

  /** The last relay status reported for the node after position `j`. */
  function RelayedSince(events: seq<Timed>, k: (int, int), j: nat): bool {
    if |events| <= j + 1 then false
    else if Relays(events[|events| - 1], k) then events[|events| - 1].event.registered
    else RelayedSince(events[..|events| - 1], k, j)
  }

  /** The last name reported for the node after position `j`, reports without a name left out. */
  function NamedSince(events: seq<Timed>, k: (int, int), j: nat): string {
    if |events| <= j + 1 then ""
    else if Relays(events[|events| - 1], k) && events[|events| - 1].event.fqdn != "" then events[|events| - 1].event.fqdn
    else NamedSince(events[..|events| - 1], k, j)
  }

  /**
   * Every field of a listed node: its own pair, host, status and last_seen
   * from its last announcement, joined_at from the announcement with which it
   * joined, and the relay fields from the reports since then.
   */
  lemma {:induction false} EntryExactly(events: seq<Timed>, k: (int, int), ttl: real) returns (j: nat)
    requires k in Run(events, ttl)
    ensures JoinedAt(events, k, j, ttl) && LastAnnounce(events, k).Some?
    ensures var last := events[LastAnnounce(events, k).value];
            Run(events, ttl)[k] == NodeInfo(k.0, k.1, last.event.hostname, last.event.status, last.time,
                                            events[j].time, RelayedSince(events, k, j), NamedSince(events, k, j))
    decreases |events|
  {
    hide JoinedAt;
    var front, last := events[..|events| - 1], events[|events| - 1];
    if k in Run(front, ttl) {
      j := EntryExactly(front, k, ttl);
      JoinedLonger(events, k, j, ttl);
      LastNow(events, k);
      Unfolds(events, k, j);
    } else {
      j := |events| - 1;
      JoinedNow(events, k, ttl);
    }
  }

  lemma JoinedLonger(events: seq<Timed>, k: (int, int), j: nat, ttl: real)
    requires events != [] && JoinedAt(events[..|events| - 1], k, j, ttl) && k in Run(events, ttl)
    ensures JoinedAt(events, k, j, ttl) && j < |events| - 1 && events[..|events| - 1][j] == events[j]
  {
    hide Run;
    var front := events[..|events| - 1];
    assert front[..j] == events[..j];
    forall m | j < m <= |events|
      ensures k in Run(events[..m], ttl)
    {
      if m == |events| {
        assert events[..m] == events;
      } else {
        assert front[..m] == events[..m];
      }
    }
  }

  lemma JoinedNow(events: seq<Timed>, k: (int, int), ttl: real)
    requires events != [] && k !in Run(events[..|events| - 1], ttl) && k in Run(events, ttl)
    ensures Announces(events[|events| - 1], k) && JoinedAt(events, k, |events| - 1, ttl)
  {
    assert events[..|events|] == events;
  }

  lemma LastNow(events: seq<Timed>, k: (int, int))
    requires events != []
    ensures var front, last := events[..|events| - 1], |events| - 1;
            if Announces(events[last], k) then LastAnnounce(events, k) == Some(last)
            else LastAnnounce(events, k) == LastAnnounce(front, k)
                 && (LastAnnounce(front, k).Some? ==>
                       front[LastAnnounce(front, k).value] == events[LastAnnounce(front, k).value])
  {
    if !Announces(events[|events| - 1], k) {
      LastOfPrefix(events, k);
    }
  }

  lemma Unfolds(events: seq<Timed>, k: (int, int), j: nat)
    requires j < |events| - 1
    ensures var front, e := events[..|events| - 1], events[|events| - 1];
            && RelayedSince(events, k, j) == (if Relays(e, k) then e.event.registered else RelayedSince(front, k, j))
            && NamedSince(events, k, j)
               == if Relays(e, k) && e.event.fqdn != "" then e.event.fqdn else NamedSince(front, k, j)
  {
  }

  /** The node is listed, told from the events alone. */
  ghost predicate Listed(events: seq<Timed>, k: (int, int), ttl: real) {
    LastAnnounce(events, k).Some? && SurvivesSweeps(events, LastAnnounce(events, k).value, ttl)
  }

  /** A listed node of the party whose last announcement said "online". */
  ghost predicate OnlineNode(events: seq<Timed>, k: (int, int), partyId: int, ttl: real) {
    k.0 == partyId && Listed(events, k, ttl) && events[LastAnnounce(events, k).value].event.status == "online"
  }

  ghost predicate PartyOnline(events: seq<Timed>, partyId: int, ttl: real) {
    exists k :: OnlineNode(events, k, partyId, ttl)
  }

  /** Of the party's online nodes the one whose key comes first. */
  ghost predicate FirstOnline(events: seq<Timed>, k: (int, int), partyId: int, ttl: real) {
    && OnlineNode(events, k, partyId, ttl)
    && forall j :: OnlineNode(events, j, partyId, ttl) ==> Leq(NodeKey(k.0, k.1), NodeKey(j.0, j.1))
  }

  lemma OnlineExactly(events: seq<Timed>, k: (int, int), partyId: int, ttl: real)
    ensures OnlineNode(events, k, partyId, ttl)
       <==> k in Run(events, ttl) && k.0 == partyId && Run(events, ttl)[k].status == ONLINE
  {
    hide SurvivesSweeps, Run;
    PresentExactly(events, k, ttl);
    if k in Run(events, ttl) {
      var j := EntryExactly(events, k, ttl);
    }
  }

  /**
   * A server that goes through any events holds the table of the run, and
   * then resolves a party exactly when some listed node of it last announced
   * itself as online; the answer is the host and port such a node announced,
   * that of the first key.
   */
  method PlayAndResolve(events: seq<Timed>, nodeTtl: int, partyId: int)
    returns (server: DiscoveryServer, found: Option<NodeInfo>)
    ensures server.Valid() && server.table == Run(events, nodeTtl as real)
    ensures found.Some? <==> PartyOnline(events, partyId, nodeTtl as real)
    ensures found.Some? ==>
              var k := (partyId, found.value.port);
              && FirstOnline(events, k, partyId, nodeTtl as real)
              && found.value.hostname == events[LastAnnounce(events, k).value].event.hostname
  {
    hide Run, Leq, NodeKey, Represents, LastAnnounce, Listed, OnlineNode;
    server := new DiscoveryServer(nodeTtl);
    NothingRun(events, nodeTtl as real);
    for i := 0 to |events|
      invariant fresh(server) && server.Valid() && server.nodeTtl == nodeTtl
      invariant server.table == Run(events[..i], nodeTtl as real)
    {
      RunNext(events, i, nodeTtl as real);
      match events[i].event {
        case Announce(p, q, host, status) =>
          var isNew := server.RegisterNode(p, q, host, status, events[i].time);
        case Relay(p, q, registered, fqdn) =>
          server.UpdateRelayStatus(p, q, registered, fqdn);
        case Sweep =>
          var pruned := server.PruneStale(events[i].time);
      }
    }
    assert events[..|events|] == events;
    found := server.ResolveParty(partyId);
    ghost var ttl := nodeTtl as real;
    forall k: (int, int)
      ensures OnlineNode(events, k, partyId, ttl)
         <==> k in server.table && k.0 == partyId && server.table[k].status == ONLINE
    {
      OnlineExactly(events, k, partyId, ttl);
    }
    if found.Some? {
      var k := (partyId, found.value.port);
      assert OnlineNode(events, k, partyId, ttl);
      var j := EntryExactly(events, k, ttl);
    }
  }

  lemma NothingRun(events: seq<Timed>, ttl: real)
    ensures Run(events[..0], ttl) == map[]
  {
  }

  lemma RunNext(events: seq<Timed>, i: nat, ttl: real)
    requires i < |events|
    ensures Run(events[..i + 1], ttl) == Step(Run(events[..i], ttl), events[i], ttl)
  {
    hide Step;
    assert events[..i + 1][..i] == events[..i];
  }

  /** Every entry is keyed by its own node and joined_at <= last_seen <= now. */
  lemma {:induction false} EntriesOrdered(events: seq<Timed>, k: (int, int), ttl: real)
    requires ClockOrdered(events) && k in Run(events, ttl)
    ensures events != []
    ensures var n := Run(events, ttl)[k];
            && n.partyId == k.0 && n.port == k.1
            && n.joinedAt <= n.lastSeen <= events[|events| - 1].time
    decreases |events|
  {
    var front := events[..|events| - 1];
    if k in Run(front, ttl) {
      PrefixOrdered(events);
      EntriesOrdered(front, k, ttl);
      assert front[|front| - 1].time <= events[|events| - 1].time;
    }
  }

  lemma PrefixOrdered(events: seq<Timed>)
    requires ClockOrdered(events) && events != []
    ensures ClockOrdered(events[..|events| - 1])
  {
  }

  /** At position `j` the node has announced itself within the last `ttl`. */
  ghost predicate Heard(events: seq<Timed>, k: (int, int), j: nat, ttl: real)
    requires j < |events|
  {
    exists i: nat :: i <= j && Announces(events[i], k) && events[j].time - events[i].time <= ttl
  }

  /** From position `from` on, the node's last announcement is never more than `ttl` old. */
  ghost predicate NeverSilent(events: seq<Timed>, k: (int, int), from: nat, ttl: real) {
    forall j: nat :: from <= j < |events| ==> Heard(events, k, j, ttl)
  }

  /**
   * A node whose announcements are never more than the time to live apart is
   * never removed: it stays in the table, keeps the time it joined and, until
   * a relay update names it, its relay fields.
   */
  lemma {:induction false} NeverRemoved(events: seq<Timed>, k: (int, int), from: nat, ttl: real)
    requires ClockOrdered(events) && from < |events| && Announces(events[from], k)
    requires NeverSilent(events, k, from, ttl)
    ensures k in Run(events[..from + 1], ttl) && k in Run(events, ttl)
    ensures Run(events, ttl)[k].joinedAt == Run(events[..from + 1], ttl)[k].joinedAt
    ensures (forall j :: from < j < |events| ==> !Relays(events[j], k)) ==>
              && Run(events, ttl)[k].relayRegistered == Run(events[..from + 1], ttl)[k].relayRegistered
              && Run(events, ttl)[k].relayFqdn == Run(events[..from + 1], ttl)[k].relayFqdn
    decreases |events|
  {
    hide ClockOrdered, NeverSilent;
    if from == |events| - 1 {
      assert events[..from + 1] == events;
    } else {
      var front, last := events[..|events| - 1], events[|events| - 1];
      PrefixOrdered(events);
      PrefixNeverSilent(events, k, from, ttl);
      assert front[..from + 1] == events[..from + 1];
      NeverRemoved(front, k, from, ttl);
      if last.event.Sweep? {
        HeardAtEnd(events, k, from, ttl);
        NotStale(events, k, ttl);
      }
    }
  }

  lemma HeardAtEnd(events: seq<Timed>, k: (int, int), from: nat, ttl: real)
    requires from < |events| && NeverSilent(events, k, from, ttl)
    ensures Heard(events, k, |events| - 1, ttl)
  {
  }

  /** Announcements of a node follow one another, and the end of the run follows the last, within `gap`. */
  ghost predicate Steady(events: seq<Timed>, k: (int, int), gap: real) {
    forall i, j :: 0 <= i < j < |events| && Announces(events[i], k)
                   && (forall m :: i < m < j ==> !Announces(events[m], k))
                   && (Announces(events[j], k) || j == |events| - 1)
      ==> events[j].time - events[i].time <= gap
  }

  /** A heartbeat no slower than the time to live, as the 15 seconds against 30, keeps a node listed. */
  lemma SteadyHeartbeat(events: seq<Timed>, k: (int, int), from: nat, gap: real, ttl: real)
    requires ClockOrdered(events) && from < |events| && Announces(events[from], k)
    requires 0.0 <= gap <= ttl && Steady(events, k, gap)
    ensures k in Run(events, ttl)
  {
    hide ClockOrdered, Steady, Heard;
    forall j: nat | from <= j < |events|
      ensures Heard(events, k, j, ttl)
    {
      HeardWithin(events, k, from, j, gap, ttl);
    }
    NeverRemoved(events, k, from, ttl);
  }

  lemma HeardWithin(events: seq<Timed>, k: (int, int), from: nat, j: nat, gap: real, ttl: real)
    requires ClockOrdered(events) && from <= j < |events| && Announces(events[from], k)
    requires 0.0 <= gap <= ttl && Steady(events, k, gap)
    ensures Heard(events, k, j, ttl)
  {
    var i := LatestBy(events, k, from, j);
    if i < j {
      var m := NextAfter(events, k, i, j);
      assert events[j].time <= events[m].time;
      assert events[m].time - events[i].time <= gap;
    }
  }

  /** The latest announcement up to `j`. */
  lemma {:induction false} LatestBy(events: seq<Timed>, k: (int, int), from: nat, j: nat) returns (i: nat)
    requires from <= j < |events| && Announces(events[from], k)
    ensures from <= i <= j && Announces(events[i], k) && forall m :: i < m <= j ==> !Announces(events[m], k)
    decreases j
  {
    if Announces(events[j], k) {
      i := j;
    } else {
      i := LatestBy(events, k, from, j - 1);
    }
  }

  /** The next announcement after `j`, or the end of the run. */
  lemma {:induction false} NextAfter(events: seq<Timed>, k: (int, int), i: nat, j: nat) returns (m: nat)
    requires i < j < |events| && forall l :: i < l < j ==> !Announces(events[l], k)
    ensures j <= m < |events| && (Announces(events[m], k) || m == |events| - 1)
    ensures forall l :: i < l < m ==> !Announces(events[l], k)
    decreases |events| - j
  {
    if Announces(events[j], k) || j == |events| - 1 {
      m := j;
    } else {
      m := NextAfter(events, k, i, j + 1);
    }
  }

  /** An announcement within the time to live keeps a present node from being swept. */
  lemma NotStale(events: seq<Timed>, k: (int, int), ttl: real)
    requires ClockOrdered(events) && events != [] && Heard(events, k, |events| - 1, ttl)
    requires events[|events| - 1].event.Sweep? && k in Run(events[..|events| - 1], ttl)
    ensures !Stale(Run(events[..|events| - 1], ttl)[k], events[|events| - 1].time, ttl)
  {
    var front, last := events[..|events| - 1], events[|events| - 1];
    var i: nat :| i <= |events| - 1 && Announces(events[i], k) && last.time - events[i].time <= ttl;
    var l := LastAnnounce(front, k).value;
    PresentExactly(front, k, ttl);
    assert front[i] == events[i] && front[l] == events[l];
    assert i <= l && events[i].time <= events[l].time;
  }

  lemma PrefixNeverSilent(events: seq<Timed>, k: (int, int), from: nat, ttl: real)
    requires events != [] && NeverSilent(events, k, from, ttl)
    ensures NeverSilent(events[..|events| - 1], k, from, ttl)
  {
    var front := events[..|events| - 1];
    forall j: nat | from <= j < |front|
      ensures Heard(front, k, j, ttl)
    {
      assert Heard(events, k, j, ttl);
      var i: nat :| i <= j && Announces(events[i], k) && events[j].time - events[i].time <= ttl;
      assert front[i] == events[i];
    }
  }

  /** The time of the last sweep, or of the start when there was none. */
  function LastSweep(events: seq<Timed>, start: real): real {
    if events == [] then start
    else if events[|events| - 1].event.Sweep? then events[|events| - 1].time
    else LastSweep(events[..|events| - 1], start)
  }

  /** Sweeps follow one another, and the start, within `interval`: at every event the last one is that recent. */
  ghost predicate SweptEvery(events: seq<Timed>, start: real, interval: real) {
    && (forall j :: 0 <= j < |events| ==> start <= events[j].time)
    && forall j :: 0 <= j < |events| ==> events[j].time - LastSweep(events[..j], start) <= interval
  }

  /** An entry was last seen at most the time to live before the last sweep. */
  lemma {:induction false} SeenSinceSweep(events: seq<Timed>, k: (int, int), start: real, ttl: real)
    requires ClockOrdered(events) && k in Run(events, ttl) && ttl >= 0.0
    requires forall j :: 0 <= j < |events| ==> start <= events[j].time
    ensures LastSweep(events, start) - Run(events, ttl)[k].lastSeen <= ttl
    decreases |events|
  {
    var front, last := events[..|events| - 1], events[|events| - 1];
    PrefixOrdered(events);
    if !last.event.Sweep? {
      if Announces(last, k) {
        SweepNotLater(front, start, last.time);
      } else {
        SeenSinceSweep(front, k, start, ttl);
      }
    }
  }

  lemma {:induction false} SweepNotLater(events: seq<Timed>, start: real, now: real)
    requires start <= now && forall j :: 0 <= j < |events| ==> events[j].time <= now
    ensures LastSweep(events, start) <= now
  {
    if events != [] {
      SweepNotLater(events[..|events| - 1], start, now);
    }
  }

  /**
   * With a sweep at least every `interval`, counted from the start, no entry
   * is ever older than the time to live plus the interval, at any event of the
   * run and before the first sweep as well.
   */
  lemma StalenessBound(events: seq<Timed>, k: (int, int), start: real, ttl: real, interval: real, j: nat)
    requires ClockOrdered(events) && SweptEvery(events, start, interval) && ttl >= 0.0
    requires j < |events| && k in Run(events[..j + 1], ttl)
    ensures events[j].time - Run(events[..j + 1], ttl)[k].lastSeen <= ttl + interval
  {
    var now := events[..j + 1];
    assert now[..j] == events[..j] && now[j] == events[j];
    assert ClockOrdered(events[..j]);
    if Announces(events[j], k) {
      SweepNotLater(events[..j], start, events[j].time);
    } else {
      assert k in Run(events[..j], ttl) && Run(now, ttl)[k].lastSeen == Run(events[..j], ttl)[k].lastSeen;
      SeenSinceSweep(events[..j], k, start, ttl);
    }
  }

  /** A node's first announcement at time 0, then `n` sweeps, the last one at time `t`, none later than `interval` after the one before. */
  function Swept(t: real, interval: real, n: nat): (events: seq<Timed>)
    ensures |events| == n + 1
    decreases n
  {
    if n == 0 then [At(0.0, Announce(1, 1, "h", ONLINE))]
    else Swept(if t > interval then t - interval else 0.0, interval, n - 1) + [At(t, Sweep)]
  }

  /** How far `n` sweeps reach. */
  function Reach(n: nat, interval: real): (r: real)
    ensures interval >= 0.0 ==> r >= 0.0
  {
    if n == 0 then 0.0 else Reach(n - 1, interval) + interval
  }

  lemma {:induction false} ReachIs(n: nat, interval: real)
    ensures Reach(n, interval) == n as real * interval
  {
    if n > 0 {
      ReachIs(n - 1, interval);
      OneMore((n - 1) as real, interval);
    }
  }

  lemma OneMore(x: real, unit: real)
    ensures (x + 1.0) * unit == x * unit + unit
  {
  }

  lemma Scaled(x: real, y: real, unit: real)
    requires x <= y && unit > 0.0
    ensures x * unit <= y * unit
  {
  }

  lemma EnoughSweeps(t: real, interval: real) returns (n: nat)
    requires t >= 0.0 && interval > 0.0
    ensures t <= Reach(n, interval)
  {
    hide Reach;
    var q := t / interval;
    n := q.Floor + 1;
    ReachIs(n, interval);
    Scaled(q, n as real, interval);
    Quotient(t, interval, q);
  }

  lemma Quotient(t: real, unit: real, q: real)
    requires unit > 0.0 && q == t / unit
    ensures q * unit == t
  {
  }

  lemma {:induction false} SweptKeeps(t: real, interval: real, n: nat, ttl: real)
    requires interval > 0.0 && 0.0 <= t <= Reach(n, interval) && t <= ttl
    ensures var events := Swept(t, interval, n);
            && ClockOrdered(events) && SweptEvery(events, 0.0, interval)
            && LastSweep(events, 0.0) == events[n].time == t
            && (1, 1) in Run(events, ttl) && Run(events, ttl)[(1, 1)].lastSeen == 0.0
    decreases n
  {
    hide ClockOrdered, SweptEvery, Run, Step, LastSweep;
    if n == 0 {
      var first := At(0.0, Announce(1, 1, "h", ONLINE));
      FirstSweep(first, interval);
      RunStep([], first, ttl);
      FirstListed(ttl);
      assert [] + [first] == [first] == Swept(t, interval, n) && t == 0.0;
    } else {
      var before := if t > interval then t - interval else 0.0;
      SweptKeeps(before, interval, n - 1, ttl);
      var swept, last := Swept(before, interval, n - 1), At(t, Sweep);
      AppendTimed(swept, last, 0.0, interval);
      RunStep(swept, last, ttl);
      SweepSpares(Run(swept, ttl), t, ttl);
      LastOfAppended(swept, t);
      assert Swept(t, interval, n) == swept + [last] && (swept + [last])[n] == last;
    }
  }

  lemma FirstListed(ttl: real)
    ensures var t := Step(Run([], ttl), At(0.0, Announce(1, 1, "h", ONLINE)), ttl);
            (1, 1) in t && t[(1, 1)].lastSeen == 0.0
  {
  }

  lemma SweepSpares(table: Table, t: real, ttl: real)
    requires (1, 1) in table && table[(1, 1)].lastSeen == 0.0 && t <= ttl
    ensures var after := Step(table, At(t, Sweep), ttl);
            (1, 1) in after && after[(1, 1)] == table[(1, 1)]
  {
  }

  lemma LastOfAppended(events: seq<Timed>, t: real)
    ensures LastSweep(events + [At(t, Sweep)], 0.0) == t
  {
  }

  lemma RunStep(events: seq<Timed>, e: Timed, ttl: real)
    ensures Run(events + [e], ttl) == Step(Run(events, ttl), e, ttl)
  {
    hide Step;
    assert (events + [e])[..|events|] == events;
  }

  lemma FirstSweep(e: Timed, interval: real)
    requires e.time == 0.0 && !e.event.Sweep? && interval > 0.0
    ensures ClockOrdered([e]) && SweptEvery([e], 0.0, interval)
    ensures LastSweep([e], 0.0) == 0.0
  {
    assert [e][..0] == [];
  }

  lemma AppendTimed(events: seq<Timed>, e: Timed, start: real, interval: real)
    requires events != [] && ClockOrdered(events) && SweptEvery(events, start, interval)
    requires events[|events| - 1].time <= e.time <= LastSweep(events, start) + interval
    ensures ClockOrdered(events + [e]) && SweptEvery(events + [e], start, interval)
    ensures (events + [e])[..|events|] == events
  {
    hide LastSweep;
    var more := events + [e];
    forall j | 0 <= j < |more|
      ensures start <= more[j].time <= LastSweep(more[..j], start) + interval
    {
      if j < |events| {
        assert more[..j] == events[..j];
      } else {
        assert more[..j] == events && start <= events[0].time;
      }
    }
  }

  /** The bound is met: an entry kept by a sweep just in time is that old when the next sweep is due. */
  lemma StalenessBoundMet(ttl: real, interval: real) returns (events: seq<Timed>, k: (int, int))
    requires ttl >= 0.0 && interval > 0.0
    ensures ClockOrdered(events) && SweptEvery(events, 0.0, interval) && events != []
    ensures k in Run(events, ttl)
    ensures events[|events| - 1].time - Run(events, ttl)[k].lastSeen == ttl + interval
  {
    hide SweptEvery, ClockOrdered, Swept, Run;
    var n := EnoughSweeps(ttl, interval);
    SweptKeeps(ttl, interval, n, ttl);
    var swept, last := Swept(ttl, interval, n), At(ttl + interval, Relay(1, 1, true, ""));
    AppendTimed(swept, last, 0.0, interval);
    RunStep(swept, last, ttl);
    events, k := swept + [last], (1, 1);
  }
}
