/**
 * The shared WebSocket of the web client and its reconnect timer. Models
 * src/web-client/src/ws.ts; the browser's part is what it may do to a socket.
 */
module Reconnect {
  import opened Wrappers

  datatype ReadyState = Connecting | Open | Closing | Closed

  /** A socket's state, and whether its close event has fired. */
  datatype Socket = Socket(state: ReadyState, closeFired: bool)

  class SharedSocket {
    var sockets: seq<Socket>  // every socket made so far
    var ws: Option<nat>  // the module's current socket
    var reconnectTimer: bool
    var connected: bool

    /** Sockets whose close event is still to come. */
    ghost function Live(): set<nat>
      reads this
    {
      set k: nat | k < |sockets| && !sockets[k].closeFired
    }

    /** One thing is always under way: a socket that will close, or a timer that will fire; never both, never neither. */
    ghost predicate Valid()
      reads this
    {
      && (ws.Some? ==> ws.value < |sockets|)
      && |Live()| + (if reconnectTimer then 1 else 0) == 1
      && (forall k :: k in Live() ==> ws == Some(k))
      && (forall k :: 0 <= k < |sockets| && sockets[k].closeFired ==> sockets[k].state == Closed)
      && (connected ==> Live() != {})
    }

    /** Importing the module connects at once; `constructs` tells whether making the socket succeeds. */
    constructor (constructs: bool)
      ensures Valid()
    {
      sockets := [];
      ws := None;
      reconnectTimer := false;
      connected := false;
      new;
      assert Live() == {};
      Connect(constructs);
    }

    method Connect(constructs: bool)
      requires Live() == {} && !reconnectTimer && !connected
      requires ws.Some? ==> ws.value < |sockets|
      requires forall k :: 0 <= k < |sockets| && sockets[k].closeFired ==> sockets[k].state == Closed
      modifies this
      ensures Valid()
      ensures constructs ==> sockets == old(sockets) + [Socket(Connecting, false)] && ws == Some(|old(sockets)|)
      ensures constructs ==> Live() == {|old(sockets)|} && !reconnectTimer
      ensures !constructs ==> sockets == old(sockets) && ws == old(ws) && reconnectTimer
      ensures !connected
    {
      assert ws.Some? ==> sockets[ws.value].closeFired by {
        assert ws.Some? ==> ws.value !in Live();
      }
      if ws.Some? && (sockets[ws.value].state == Connecting || sockets[ws.value].state == Open) {
        assert false;
        return;
      }
      if !constructs {
        ScheduleReconnect();
        return;
      }
      ghost var made := |sockets|;
      sockets := sockets + [Socket(Connecting, false)];
      ws := Some(|sockets| - 1);
      assert Live() == {made};
    }

    method ScheduleReconnect()
      modifies this`reconnectTimer
      ensures reconnectTimer
    {
      if reconnectTimer {
        return;
      }
      reconnectTimer := true;
    }

    /** The timer fires: the early return in Connect is never taken. */
    method TimerFires(constructs: bool)
      requires Valid() && reconnectTimer
      modifies this
      ensures Valid()
      ensures sockets == old(sockets) + (if constructs then [Socket(Connecting, false)] else [])
      ensures reconnectTimer == !constructs && connected == old(connected)
      ensures ws == if constructs then Some(|old(sockets)|) else old(ws)
    {
      assert Live() == {} by {
        NoneLeft(Live());
      }
      reconnectTimer := false;
      Connect(constructs);
    }

    /** The open event of a connecting socket. */
    method OnOpen(k: nat)
      requires Valid() && k < |sockets| && sockets[k].state == Connecting
      modifies this
      ensures Valid() && connected && sockets == old(sockets)[k := Socket(Open, false)]
      ensures ws == old(ws) == Some(k) && !reconnectTimer
    {
      ghost var live := Live();
      assert k in live;
      sockets := sockets[k := sockets[k].(state := Open)];
      connected := true;
      assert Live() == live;
    }

    /** The other side, or the network, begins to close a socket: no event fires yet. */
    method BeginsToClose(k: nat)
      requires Valid() && k < |sockets| && !sockets[k].closeFired
      modifies this`sockets
      ensures Valid() && sockets == old(sockets)[k := Socket(Closing, false)]
    {
      ghost var live := Live();
      sockets := sockets[k := sockets[k].(state := Closing)];
      assert Live() == live;
    }

    /** The error event comes before the close event of the same socket. */
    method OnError(k: nat)
      requires Valid() && k < |sockets| && !sockets[k].closeFired
      modifies this
      ensures Valid() && !connected && Live() == old(Live()) == {k}
      ensures ws == old(ws) == Some(k) && !reconnectTimer
      ensures var s := old(sockets)[k].state;
              sockets == old(sockets)[k := Socket(if s == Connecting || s == Open then Closing else s, false)]
    {
      ghost var live := Live();
      assert k in live;
      OnlyOne(live, k);
      connected := false;
      if ws.Some? && (sockets[ws.value].state == Connecting || sockets[ws.value].state == Open) {
        sockets := sockets[ws.value := sockets[ws.value].(state := Closing)];
      }
      assert Live() == live;
    }

    /** The close event, once for each socket: nothing is connected and a reconnect is due. */
    method OnClose(k: nat)
      requires Valid() && k < |sockets| && !sockets[k].closeFired
      modifies this
      ensures Valid() && !connected && reconnectTimer && Live() == {}
      ensures ws == old(ws) == Some(k) && sockets == old(sockets)[k := Socket(Closed, true)]
    {
      ghost var live := Live();
      assert k in live;
      OnlyOne(live, k);
      sockets := sockets[k := Socket(Closed, true)];
      forall j: nat
        ensures j in Live() <==> j in live && j != k
      {
        assert j < |sockets| && j != k ==> sockets[j] == old(sockets)[j];
      }
      assert Live() == {};
      connected := false;
      ScheduleReconnect();
    }
  }

  lemma NoneLeft(s: set<nat>)
    requires |s| == 0
    ensures s == {}
  {
  }

  lemma OnlyOne(s: set<nat>, k: nat)
    requires k in s && |s| <= 1
    ensures s == {k}
  {
    assert |s - {k}| == |s| - 1;
  }
}
