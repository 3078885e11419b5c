/**
 * One service of the relay client: Register, Challenge, Confirm, Heartbeat
 * and Neighbors, with its timers. Models the engine loop of
 * src/server/relay_client.cpp, one iteration a step.
 */
module Relay {
  import opened Bytes
  import opened RelayWire
  import opened Wrappers

  /** Clock ticks in a second; the code counts whole seconds of a nanosecond clock. */
  const SECOND: nat := 1_000_000_000
  const SUFFIX: seq<byte> := [46, 115, 116, 97, 114, 101, 46, 110, 101, 116, 119, 111, 114, 107]  // ".stare.network"

  datatype Effect =
    | Sent(datagram: seq<byte>)
    | Registered
    | Subdomain(fqdn: seq<byte>)

  datatype State = State(port: Port, cookie: Cookie, registered: bool, subdomain: seq<byte>, lastHeartbeat: int)

  /** What one iteration sees: the datagram received, if any, and the time afterwards. */
  datatype Input = Input(packet: seq<byte>, now: int)

  // ---------------------------------------------------- the specification

  predicate IsChallenge(packet: seq<byte>) {
    |packet| >= 20 && packet[0] == MAGIC && packet[1] == CHALLENGE
  }

  predicate IsNeighbors(packet: seq<byte>) {
    |packet| >= 4 && packet[0] == MAGIC && packet[1] == NEIGHBORS
  }

  function ConfirmMsg(st: State): seq<byte> {
    RelayMsg(CONFIRM, st.port, st.cookie, [])
  }

  function HeartbeatMsg(st: State): seq<byte> {
    RelayMsg(HEARTBEAT, st.port, st.cookie, [])
  }

  function RegisterMsg(st: State): seq<byte> {
    RelayMsg(REGISTER, st.port, Zeros(16), [])
  }

  /** The name a Neighbors datagram assigns to this service; empty when it assigns none. */
  function AssignedName(packet: seq<byte>, port: Port): seq<byte> {
    if |packet| > 20 then NameFrom(packet[20..], 0, port) else []
  }

  function Received(st: State, packet: seq<byte>): State {
    if IsChallenge(packet) then st.(cookie := packet[4..20], registered := true)
    else if IsNeighbors(packet) then
      var name := AssignedName(packet, st.port);
      st.(registered := true, subdomain := if name == [] then st.subdomain else name)
    else st
  }

  function ReceiveEffects(st: State, packet: seq<byte>): seq<Effect> {
    if IsChallenge(packet) then [Sent(ConfirmMsg(Received(st, packet))), Registered]
    else if IsNeighbors(packet) then
      var name := AssignedName(packet, st.port);
      if name == [] || name == st.subdomain then [] else [Subdomain(name + SUFFIX)]
    else []
  }

  predicate HeartbeatDue(st: State, now: int) {
    st.registered && now - st.lastHeartbeat >= 90 * SECOND
  }

  predicate RegisterDue(st: State, now: int) {
    !st.registered && now - st.lastHeartbeat >= 10 * SECOND
  }

  function Ticked(st: State, now: int): State {
    if HeartbeatDue(st, now) then st.(lastHeartbeat := now) else st
  }

  function TickEffects(st: State, now: int): seq<Effect> {
    if HeartbeatDue(st, now) then [Sent(HeartbeatMsg(st))]
    else if RegisterDue(st, now) then [Sent(RegisterMsg(st))]
    else []
  }

  function Step(st: State, i: Input): State {
    Ticked(Received(st, i.packet), i.now)
  }

  function StepEffects(st: State, i: Input): seq<Effect> {
    ReceiveEffects(st, i.packet) + TickEffects(Received(st, i.packet), i.now)
  }

  // ----------------------------------------------------------- the engine

  class RelayEngine {
    const port: Port
    var cookie: Cookie
    var registered: bool
    var subdomain: seq<byte>
    var lastHeartbeat: int
    var effects: seq<Effect>  // datagrams sent and callbacks made, in order

    ghost function Model(): State
      reads this
    {
      State(port, cookie, registered, subdomain, lastHeartbeat)
    }

    /** Sends the first Register and starts the heartbeat clock. */
    constructor (port: Port, now: int)
      ensures Model() == Initial(port, now) && effects == [Sent(RegisterMsg(Model()))]
    {
      this.port := port;
      cookie := Zeros(16);
      registered := false;
      subdomain := [];
      lastHeartbeat := now;
      effects := [];
      new;
      SendRegister();
    }

    method EngineStep(packet: seq<byte>, now: int)
      requires lastHeartbeat <= now
      modifies this
      ensures Model() == Step(old(Model()), Input(packet, now))
      ensures effects == old(effects) + StepEffects(old(Model()), Input(packet, now))
    {
      if |packet| > 0 {
        if packet[0] == MAGIC && |packet| >= 4 {
          HandleRelayPacket(packet);
        }
      }
      var elapsed := (now - lastHeartbeat) / SECOND;
      if registered && elapsed >= 90 {
        SendHeartbeat();
        lastHeartbeat := now;
      }
      if !registered && elapsed >= 10 {
        SendRegister();
      }
    }

    method HandleRelayPacket(data: seq<byte>)
      requires |data| >= 4 && data[0] == MAGIC
      modifies this
      ensures Model() == Received(old(Model()), data)
      ensures effects == old(effects) + ReceiveEffects(old(Model()), data)
    {
      var kind := data[1];
      if kind == CHALLENGE {
        if |data| >= 20 {
          cookie := data[4..20];
          SendConfirm();
        }
      } else if kind == NEIGHBORS {
        registered := true;
        if |data| > 20 {
          ParseNeighbors(data[20..]);
        }
      }
    }

    method ParseNeighbors(payload: seq<byte>)
      modifies this`subdomain, this`effects
      ensures var name := NameFrom(payload, 0, port);
              if name == [] || name == old(subdomain) then subdomain == old(subdomain) && effects == old(effects)
              else subdomain == name && effects == old(effects) + [Subdomain(name + SUFFIX)]
    {
      var sub := ExtractSubdomain(payload, port);
      if sub != [] && sub != subdomain {
        subdomain := sub;
        effects := effects + [Subdomain(sub + SUFFIX)];
      }
    }

    method SendRegister()
      modifies this`effects
      ensures effects == old(effects) + [Sent(RegisterMsg(Model()))]
    {
      var m := BuildRelayMsg(REGISTER, port, None, []);
      effects := effects + [Sent(m)];
    }

    method SendConfirm()
      modifies this`registered, this`effects
      ensures registered
      ensures effects == old(effects) + [Sent(ConfirmMsg(Model())), Registered]
    {
      var m := BuildRelayMsg(CONFIRM, port, Some(cookie), []);
      effects := effects + [Sent(m)];
      registered := true;
      effects := effects + [Registered];
    }

    method SendHeartbeat()
      modifies this`effects
      ensures effects == old(effects) + [Sent(HeartbeatMsg(Model()))]
    {
      var m := BuildRelayMsg(HEARTBEAT, port, Some(cookie), []);
      effects := effects + [Sent(m)];
    }
  }

  function Initial(port: Port, now: int): State {
    State(port, Zeros(16), false, [], now)
  }

  // ------------------------------------------------- messages understood

  /** A Challenge laid out with any port and payload hands over its cookie and registers. */
  lemma ChallengeUnderstood(st: State, port: Port, cookie: Cookie, payload: seq<byte>)
    ensures Received(st, RelayMsg(CHALLENGE, port, cookie, payload)) == st.(cookie := cookie, registered := true)
    ensures ReceiveEffects(st, RelayMsg(CHALLENGE, port, cookie, payload))
         == [Sent(RelayMsg(CONFIRM, st.port, cookie, [])), Registered]
  {
    hide RelayMsg;
    MsgFields(CHALLENGE, port, cookie, payload);
  }

  /** A Neighbors message with an encoded list that fits assigns the first name for this service's port, if it has one. */
  lemma NeighborsUnderstood(st: State, port: Port, cookie: Cookie, entries: seq<Entry>)
    requires Encodable(entries) && |Encode(entries)| <= BUFFER - 20
    ensures var m, name := RelayMsg(NEIGHBORS, port, cookie, Encode(entries)), FirstName(entries, st.port);
            && Received(st, m) == st.(registered := true, subdomain := if name == [] then st.subdomain else name)
            && ReceiveEffects(st, m) == if name == [] || name == st.subdomain then [] else [Subdomain(name + SUFFIX)]
  {
    hide RelayMsg, NameFrom;
    var m, list := RelayMsg(NEIGHBORS, port, cookie, Encode(entries)), Encode(entries);
    MsgFields(NEIGHBORS, port, cookie, list);
    assert m[20..] == list == [] + list;
    ScanFindsFirst([], entries, st.port);
    if entries != [] {
      SomethingListed(entries);
    }
  }

  lemma SomethingListed(entries: seq<Entry>)
    requires Encodable(entries) && entries != []
    ensures Encode(entries) != []
  {
    assert |Encode(entries)| >= |EntryField(entries[0])|;
  }
}
