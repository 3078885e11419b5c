/**
 * The discovery server's table of nodes, keyed by the string "party:port",
 * against a table keyed by the pair. Models the registry of
 * src/server/discovery.cpp.
 */
module Registry {
  import opened Numerals
  import opened Wrappers

  datatype NodeInfo = NodeInfo(
    partyId: int,
    port: int,
    hostname: string,
    status: string,
    lastSeen: real,
    joinedAt: real,
    relayRegistered: bool,
    relayFqdn: string)

  const ONLINE: string := "online"

  function NodeKey(partyId: int, port: int): string {
    PrintInt(partyId) + ":" + PrintInt(port)
  }

  /** The first colon tells where the first part ends. */
  lemma FirstColon(x: string, u: string, y: string, v: string)
    requires ':' !in x && ':' !in y && x + ":" + u == y + ":" + v
    ensures x == y && u == v
  {
    ColonAfter(x, u);
    ColonAfter(y, v);
    var s := x + ":" + u;
    assert s[..|x|] == x && s[..|y|] == y;
    assert s[|x| + 1..] == u && s[|y| + 1..] == v;
  }

  lemma ColonAfter(x: string, u: string)
    requires ':' !in x
    ensures (x + ":" + u)[|x|] == ':' && forall i :: 0 <= i < |x| ==> (x + ":" + u)[i] != ':'
  {
  }

  lemma NodeKeyInjective(a: int, p: int, b: int, q: int)
    requires NodeKey(a, p) == NodeKey(b, q)
    ensures a == b && p == q
  {
    hide PrintInt;
    if ':' in PrintInt(a) {
      PrintIntUses(a, ':');
    }
    if ':' in PrintInt(b) {
      PrintIntUses(b, ':');
    }
    FirstColon(PrintInt(a), PrintInt(p), PrintInt(b), PrintInt(q));
    PrintIntInjective(a, b);
    PrintIntInjective(p, q);
  }

  /** The number before the first colon and the number after it. */
  function ReadKey(key: string, from: nat): Option<(int, int)>
    requires from <= |key|
    decreases |key| - from
  {
    if from == |key| then None
    else if key[from] == ':' then
      match (ReadInt(key[..from]), ReadInt(key[from + 1..]))
      case (Some(partyId), Some(port)) => Some((partyId, port))
      case _ => None
    else ReadKey(key, from + 1)
  }

  /** A key reads as the party before the colon and the port after it. */
  lemma KeyReads(partyId: int, port: int)
    ensures ReadKey(NodeKey(partyId, port), 0) == Some((partyId, port))
  {
    hide PrintInt, ReadInt;
    var x, y := PrintInt(partyId), PrintInt(port);
    if ':' in x {
      PrintIntUses(partyId, ':');
    }
    ColonAfter(x, y);
    ReadSkips(x + ":" + y, 0, |x|);
    assert (x + ":" + y)[..|x|] == x && (x + ":" + y)[|x| + 1..] == y;
    PrintIntReads(partyId);
    PrintIntReads(port);
  }

  lemma {:induction false} ReadSkips(key: string, from: nat, at: nat)
    requires from <= at <= |key| && forall i :: from <= i < at ==> key[i] != ':'
    ensures ReadKey(key, from) == ReadKey(key, at)
    decreases at - from
  {
    if from < at {
      ReadSkips(key, from + 1, at);
    }
  }

  // ------------------------------------------------ the pair-keyed table

  type Table = map<(int, int), NodeInfo>

  function Announced(t: Table, partyId: int, port: int, hostname: string, status: string, now: real): Table {
    var k := (partyId, port);
    t[k := if k in t then t[k].(hostname := hostname, status := status, lastSeen := now)
           else NodeInfo(partyId, port, hostname, status, now, now, false, "")]
  }

  function RelayUpdated(t: Table, partyId: int, port: int, registered: bool, fqdn: string): Table {
    var k := (partyId, port);
    if k !in t then t
    else t[k := t[k].(relayRegistered := registered, relayFqdn := if fqdn == "" then t[k].relayFqdn else fqdn)]
  }

  predicate Stale(n: NodeInfo, now: real, ttl: real) {
    now - n.lastSeen > ttl
  }

  function Pruned(t: Table, now: real, ttl: real): Table {
    map k | k in t && !Stale(t[k], now, ttl) :: t[k]
  }

  /** The string-keyed map holds exactly the entries of the table, each under its own key. */
  ghost predicate Represents(nodes: map<string, NodeInfo>, t: Table) {
    && (forall k :: k in nodes ==>
          && k == NodeKey(nodes[k].partyId, nodes[k].port)
          && (nodes[k].partyId, nodes[k].port) in t
          && t[(nodes[k].partyId, nodes[k].port)] == nodes[k])
    && (forall k :: k in t ==>
          && t[k].partyId == k.0 && t[k].port == k.1
          && NodeKey(k.0, k.1) in nodes && nodes[NodeKey(k.0, k.1)] == t[k])
  }

  lemma {:induction false} Lookup(nodes: map<string, NodeInfo>, t: Table, partyId: int, port: int)
    requires Represents(nodes, t)
    ensures NodeKey(partyId, port) in nodes <==> (partyId, port) in t
    ensures (partyId, port) in t ==> nodes[NodeKey(partyId, port)] == t[(partyId, port)]
  {
    var key := NodeKey(partyId, port);
    if key in nodes {
      NodeKeyInjective(nodes[key].partyId, nodes[key].port, partyId, port);
    }
  }

  /** An entry stored under its own key leaves every other entry alone. */
  lemma {:induction false} Store(nodes: map<string, NodeInfo>, t: Table, n: NodeInfo)
    requires Represents(nodes, t)
    ensures Represents(nodes[NodeKey(n.partyId, n.port) := n], t[(n.partyId, n.port) := n])
  {
    hide NodeKey;
    forall k | k in t && NodeKey(k.0, k.1) == NodeKey(n.partyId, n.port)
      ensures k == (n.partyId, n.port)
    {
      NodeKeyInjective(k.0, k.1, n.partyId, n.port);
    }
  }

  // -------------------------------------------------------- key order

  /** The order in which a map of strings is walked. */
  predicate Leq(a: string, b: string) {
    a == [] || (b != [] && (a[0] < b[0] || (a[0] == b[0] && Leq(a[1..], b[1..]))))
  }

  lemma {:induction false} LeqTotal(a: string, b: string)
    ensures Leq(a, b) || Leq(b, a)
    ensures Leq(a, b) && Leq(b, a) ==> a == b
  {
    if a != [] && b != [] {
      LeqTotal(a[1..], b[1..]);
      assert a == [a[0]] + a[1..] && b == [b[0]] + b[1..];
    }
  }

  lemma {:induction false} LeqTransitive(a: string, b: string, c: string)
    requires Leq(a, b) && Leq(b, c)
    ensures Leq(a, c)
  {
    if a != [] && a[0] == b[0] == c[0] {
      LeqTransitive(a[1..], b[1..], c[1..]);
    }
  }

  /** The first `i` characters agree and the next one is smaller. */
  ghost predicate SmallerAt(a: string, b: string, i: nat) {
    i < |a| && i < |b| && a[..i] == b[..i] && a[i] < b[i]
  }

  /** The order is decided by the first character in which the texts differ; a prefix comes first. */
  lemma {:induction false} LeqByFirstDifference(a: string, b: string)
    ensures Leq(a, b) <==> a <= b || exists i: nat :: SmallerAt(a, b, i)
  {
    if a != [] && b != [] && a[0] == b[0] {
      var x, y := a[1..], b[1..];
      LeqByFirstDifference(x, y);
      assert a == [a[0]] + x && b == [b[0]] + y;
      if i: nat :| SmallerAt(x, y, i) {
        SmallerLater(a, b, i);
      }
      if i: nat :| SmallerAt(a, b, i) {
        SmallerLater(a, b, i - 1);
      }
    } else if a != [] && b != [] {
      assert a[..0] == b[..0];
      assert a[0] < b[0] ==> SmallerAt(a, b, 0);
      forall i: nat | SmallerAt(a, b, i)
        ensures a[0] < b[0]
      {
        SameStart(a, b, i);
      }
    }
  }

  lemma SmallerLater(a: string, b: string, i: nat)
    requires a != [] && b != [] && a[0] == b[0]
    ensures SmallerAt(a[1..], b[1..], i) <==> SmallerAt(a, b, i + 1)
  {
    if i + 1 < |a| && i + 1 < |b| {
      assert a[..i + 1] == [a[0]] + a[1..][..i] && b[..i + 1] == [b[0]] + b[1..][..i];
      assert a[..i + 1][1..] == a[1..][..i] && b[..i + 1][1..] == b[1..][..i];
    }
  }

  lemma SameStart(a: string, b: string, i: nat)
    requires SmallerAt(a, b, i)
    ensures if i == 0 then a[0] < b[0] else a[0] == b[0]
  {
    assert i > 0 ==> a[..i][0] == b[..i][0];
  }

  ghost predicate IsLeast(k: string, s: set<string>) {
    k in s && forall j :: j in s ==> Leq(k, j)
  }

  lemma {:induction false} LeastExists(s: set<string>) returns (k: string)
    requires s != {}
    ensures IsLeast(k, s)
    decreases |s|
  {
    var j :| j in s;
    LeqTotal(j, j);
    if s == {j} {
      k := j;
    } else {
      var rest := s - {j};
      assert s == rest + {j};
      k := LeastExists(rest);
      LeqTotal(j, k);
      if Leq(j, k) {
        forall i | i in s
          ensures Leq(j, i)
        {
          if i != j { LeqTransitive(j, k, i); }
        }
        k := j;
      }
    }
  }

  // ------------------------------------------------------------ the server

  class DiscoveryServer {
    const nodeTtl: int
    var nodes: map<string, NodeInfo>
    ghost var table: Table

    ghost predicate Valid()
      reads this
    {
      Represents(nodes, table)
    }

    constructor (nodeTtl: int)
      ensures Valid() && table == map[] && this.nodeTtl == nodeTtl
    {
      this.nodeTtl := nodeTtl;
      nodes := map[];
      table := map[];
    }

    method RegisterNode(partyId: int, port: int, hostname: string, status: string, now: real) returns (isNew: bool)
      requires Valid()
      modifies this
      ensures Valid()
      ensures table == Announced(old(table), partyId, port, hostname, status, now)
      ensures isNew <==> (partyId, port) !in old(table)
    {
      hide NodeKey, Represents;
      var key := NodeKey(partyId, port);
      Lookup(nodes, table, partyId, port);
      SelfKeyed(nodes, table, partyId, port);
      isNew := false;
      ghost var before := nodes;
      if key in nodes {
        nodes := nodes[key := nodes[key].(hostname := hostname, status := status, lastSeen := now)];
      } else {
        nodes := nodes[key := NodeInfo(partyId, port, hostname, status, now, now, false, "")];
        isNew := true;
      }
      Store(before, table, nodes[key]);
      table := Announced(table, partyId, port, hostname, status, now);
    }

    method UpdateRelayStatus(partyId: int, port: int, registered: bool, fqdn: string)
      requires Valid()
      modifies this
      ensures Valid()
      ensures table == RelayUpdated(old(table), partyId, port, registered, fqdn)
    {
      hide NodeKey, Represents;
      var key := NodeKey(partyId, port);
      Lookup(nodes, table, partyId, port);
      SelfKeyed(nodes, table, partyId, port);
      ghost var before := nodes;
      if key in nodes {
        nodes := nodes[key := nodes[key].(relayRegistered := registered)];
        if fqdn != "" {
          nodes := nodes[key := nodes[key].(relayFqdn := fqdn)];
        }
        Store(before, table, nodes[key]);
        assert nodes == before[key := nodes[key]];
      }
      table := RelayUpdated(table, partyId, port, registered, fqdn);
    }

    /** Walks the map in key order and answers with the first online node of the party. */
    method ResolveParty(partyId: int) returns (found: Option<NodeInfo>)
      requires Valid()
      ensures found == None <==> forall k :: k in table && k.0 == partyId ==> table[k].status != ONLINE
      ensures found.Some? ==>
                var k := (partyId, found.value.port);
                && k in table && table[k] == found.value && found.value.status == ONLINE
                && forall j :: j in table && j.0 == partyId && table[j].status == ONLINE
                     ==> Leq(NodeKey(k.0, k.1), NodeKey(j.0, j.1))
    {
      var rest := nodes.Keys;
      while rest != {}
        invariant rest <= nodes.Keys
        invariant forall k :: k in nodes && k !in rest ==> nodes[k].partyId != partyId || nodes[k].status != ONLINE
        decreases rest
      {
        ghost var least := LeastExists(rest);
        var k :| k in rest && forall j :: j in rest ==> Leq(k, j);
        var n := nodes[k];
        if n.partyId == partyId && n.status == ONLINE {
          return Some(n);
        }
        rest := rest - {k};
      }
      found := None;
    }

    method PruneStale(now: real) returns (pruned: bool)
      requires Valid()
      modifies this
      ensures Valid()
      ensures table == Pruned(old(table), now, nodeTtl as real)
      ensures pruned <==> table != old(table)
    {
      hide NodeKey, Represents;
      var stale: seq<string> := [];
      var rest := nodes.Keys;
      while rest != {}
        invariant rest <= nodes.Keys && nodes == old(nodes) && table == old(table)
        invariant forall k :: k in stale <==> k in nodes && k !in rest && Stale(nodes[k], now, nodeTtl as real)
        decreases rest
      {
        var k :| k in rest;
        if now - nodes[k].lastSeen > nodeTtl as real {
          stale := stale + [k];
        }
        rest := rest - {k};
      }
      pruned := false;
      for i := 0 to |stale|
        invariant nodes == old(nodes) - Elements(stale[..i])
        invariant table == old(table)
        invariant pruned <==> i > 0
      {
        assert stale[..i + 1] == stale[..i] + [stale[i]];
        nodes := nodes - {stale[i]};
        pruned := true;
      }
      assert stale[..|stale|] == stale;
      PruneAgrees(old(nodes), table, stale, now, nodeTtl as real);
      table := Pruned(table, now, nodeTtl as real);
    }
  }

  /** An entry of the table names itself. */
  lemma SelfKeyed(nodes: map<string, NodeInfo>, t: Table, partyId: int, port: int)
    requires Represents(nodes, t)
    ensures (partyId, port) in t ==> t[(partyId, port)].partyId == partyId && t[(partyId, port)].port == port
  {
  }

  lemma PruneAgrees(nodes: map<string, NodeInfo>, t: Table, stale: seq<string>, now: real, ttl: real)
    requires Represents(nodes, t)
    requires forall k :: k in stale <==> k in nodes && Stale(nodes[k], now, ttl)
    ensures Represents(nodes - Elements(stale), Pruned(t, now, ttl))
    ensures stale != [] <==> Pruned(t, now, ttl) != t
  {
    hide NodeKey;
    if stale != [] {
      var n := nodes[stale[0]];
      assert (n.partyId, n.port) in t && (n.partyId, n.port) !in Pruned(t, now, ttl);
    } else {
      forall k | k in t
        ensures !Stale(t[k], now, ttl)
      {
        assert NodeKey(k.0, k.1) in nodes;
      }
    }
  }
}
