/**
 * The backend's table of live WebSocket connections (`ConnectionManager`),
 * keyed by user id. Socket handles are opaque; what was written to them is
 * recorded in a ghost trace of frames.
 */
module Connections {

  /** An open WebSocket, identified only by which connection it is. */
  datatype Handle = Handle(connection: nat)

  /** One text frame written to a socket. */
  datatype Frame = Frame(socket: Handle, text: string)

  /** The table after `connect`: `u` now maps to `w`, last writer wins. */
  function Connected(table: map<string, Handle>, u: string, w: Handle): (r: map<string, Handle>)
    ensures u in r && r[u] == w && r.Keys == table.Keys + {u}
    ensures forall v :: v in table && v != u ==> r[v] == table[v]
  {
    table[u := w]
  }

  /** The table after `disconnect`: `u` is gone whoever registered it, the rest stays. */
  function Disconnected(table: map<string, Handle>, u: string): (r: map<string, Handle>)
    ensures u !in r && r.Keys == table.Keys - {u}
    ensures forall v :: v in r ==> r[v] == table[v]
    ensures u !in table ==> r == table
  {
    table - {u}
  }

  /** `send_personal_message` writes at most one frame, to the socket registered for `u`. */
  function Delivered(table: map<string, Handle>, sent: seq<Frame>, message: string, u: string): (r: seq<Frame>)
    ensures u in table ==> r == sent + [Frame(table[u], message)]
    ensures u !in table ==> r == sent
  {
    if u in table then sent + [Frame(table[u], message)] else sent
  }

  /** A second `disconnect` of the same user changes nothing. */
  lemma DisconnectIdempotent(table: map<string, Handle>, u: string)
    ensures Disconnected(Disconnected(table, u), u) == Disconnected(table, u)
  {
  }

  /**
   * Disconnect is keyed by user id only: when the first of two connections
   * of the same user closes after the second was opened, the surviving
   * connection is evicted as well.
   */
  lemma StaleDisconnectEvicts(table: map<string, Handle>, u: string, first: Handle, second: Handle)
    ensures u !in Disconnected(Connected(Connected(table, u, first), u, second), u)
  {
  }

  class ConnectionManager {
    /** `active_connections`. */
    var active: map<string, Handle>
    /** Every frame written through this manager, in order. */
    ghost var sent: seq<Frame>

    constructor ()
      ensures active == map[] && sent == []
    {
      active := map[];
      sent := [];
    }

    /** `connect`: accept the socket and register it for `u`, replacing any earlier one. */
    method Connect(u: string, w: Handle)
      modifies this
      ensures active == Connected(old(active), u, w)
      ensures sent == old(sent)
    {
      active := active[u := w];
    }

    /** `disconnect`: drop `u` if present; no error otherwise. */
    method Disconnect(u: string)
      modifies this
      ensures active == Disconnected(old(active), u)
      ensures sent == old(sent)
    {
      if u in active {
        active := active - {u};
      }
    }

    /** `send_personal_message`: write `message` to `u`'s socket if `u` is connected; the table is not touched. */
    method SendPersonalMessage(message: string, u: string)
      modifies this
      ensures active == old(active)
      ensures sent == Delivered(old(active), old(sent), message, u)
    {
      if u in active {
        sent := sent + [Frame(active[u], message)];
      }
    }
  }

  /**
   * The reconnect race run against the class: after `connect(u, c1)`,
   * `connect(u, c2)` and the disconnect of the first session, `u` is no longer
   * live, so a message sent to `u` afterwards reaches no socket.
   */
  method ReconnectRace(u: string) returns (live: bool)
    ensures !live
  {
    var manager := new ConnectionManager();
    manager.Connect(u, Handle(1));
    manager.Connect(u, Handle(2));
    manager.Disconnect(u);
    manager.SendPersonalMessage("Manager replied", u);
    assert manager.sent == [];
    live := u in manager.active;
  }
}
