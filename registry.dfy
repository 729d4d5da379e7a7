/**
 * The connection registry of the application state: a map from connection id to the
 * sending half of that connection's outgoing queue, and the counter the next id is
 * taken from. In the source each operation holds the registry's locks while it runs;
 * here each operation is one atomic method.
 */
module Registry {
  import opened Common

  /** A WebSocket frame as the outgoing queues carry it. */
  datatype WsMessage =
    | Text(text: string)
    | Binary(data: seq<byte>)
    | Ping(payload: seq<byte>)
    | Pong(payload: seq<byte>)
    | Close

  /** What `tx.send(msg).await` comes to: the message is queued, the receiving half is
      gone (the `SendError`), or the queue is full and the call waits for room. */
  datatype SendResult = Sent | Disconnected | WouldWait

  /** The capacity of the channel created for each connection. */
  const QUEUE_CAPACITY: nat := 100

  /** The sending half of a bounded channel. Clones of a sender share one channel, so a
      sender and all its clones are one object here. */
  class MessageSender {
    var queue: seq<WsMessage>
    var closed: bool
    const capacity: nat

    predicate Valid()
      reads this
    {
      |queue| <= capacity
    }

    /** `mpsc::channel(capacity)`: an empty, open channel. */
    constructor (capacity: nat)
      ensures Valid() && queue == [] && !closed && this.capacity == capacity
    {
      this.capacity := capacity;
      queue := [];
      closed := false;
    }

    /** send: fails only when the receiving half is gone; a full queue makes the call
        wait, and the message is not queued while it does. */
    method Send(msg: WsMessage) returns (r: SendResult)
      requires Valid()
      modifies this
      ensures Valid() && closed == old(closed)
      ensures old(closed) ==> r == Disconnected && queue == old(queue)
      ensures !old(closed) && |old(queue)| < capacity ==> r == Sent && queue == old(queue) + [msg]
      ensures !old(closed) && |old(queue)| >= capacity ==> r == WouldWait && queue == old(queue)
    {
      if closed {
        r := Disconnected;
      } else if |queue| < capacity {
        queue := queue + [msg];
        r := Sent;
      } else {
        r := WouldWait;
      }
    }

    /** send_text: a text frame built from the string. */
    method SendText(text: string) returns (r: SendResult)
      requires Valid()
      modifies this
      ensures Valid() && closed == old(closed)
      ensures old(closed) ==> r == Disconnected && queue == old(queue)
      ensures !old(closed) && |old(queue)| < capacity ==> r == Sent && queue == old(queue) + [Text(text)]
      ensures !old(closed) && |old(queue)| >= capacity ==> r == WouldWait && queue == old(queue)
    {
      r := Send(Text(text));
    }

    /** send_binary: a binary frame built from the bytes. */
    method SendBinary(data: seq<byte>) returns (r: SendResult)
      requires Valid()
      modifies this
      ensures Valid() && closed == old(closed)
      ensures old(closed) ==> r == Disconnected && queue == old(queue)
      ensures !old(closed) && |old(queue)| < capacity ==> r == Sent && queue == old(queue) + [Binary(data)]
      ensures !old(closed) && |old(queue)| >= capacity ==> r == WouldWait && queue == old(queue)
    {
      r := Send(Binary(data));
    }

    /** The receiving half is dropped: every later send fails. */
    method Hangup()
      modifies this
      ensures closed && queue == old(queue)
    {
      closed := true;
    }
  }

  /** The ids of the map that lead to sender s, among the ids in `within`. */
  ghost function Fanout(connections: map<nat, MessageSender>, within: set<nat>, s: MessageSender): set<nat> {
    set id | id in within && id in connections && connections[id] == s
  }

  class ConnectionRegistry {
    var connections: map<nat, MessageSender>
    var nextId: nat

    /** Every id in the map was handed out: it is at least 1 and below the counter. */
    predicate Valid()
      reads this
    {
      && nextId >= 1
      && (forall id :: id in connections ==> 1 <= id < nextId)
    }

    predicate SendersValid()
      reads this, connections.Values
    {
      forall id :: id in connections ==> connections[id].Valid()
    }

    /** new: no connections, and the first id handed out is 1. */
    constructor ()
      ensures Valid() && SendersValid()
      ensures connections == map[] && nextId == 1
    {
      connections := map[];
      nextId := 1;
    }

    /** register: the counter's value is the new id, the counter moves on by one, and
        the sender is stored under the id, which no earlier call handed out. */
    method Register(sender: MessageSender) returns (id: nat)
      requires Valid()
      modifies this
      ensures Valid()
      ensures id == old(nextId) && nextId == id + 1 && id >= 1
      ensures forall k :: k in old(connections) ==> k < id
      ensures id !in old(connections) && connections == old(connections)[id := sender]
    {
      id := nextId;
      nextId := nextId + 1;
      connections := connections[id := sender];
    }

    /** unregister: true exactly when the id was present; the id is gone afterwards and
        the counter is untouched, so the id is never handed out again. */
    method Unregister(id: nat) returns (removed: bool)
      requires Valid()
      modifies this
      ensures Valid()
      ensures removed <==> id in old(connections)
      ensures connections == old(connections) - {id}
      ensures nextId == old(nextId)
    {
      removed := id in connections;
      connections := connections - {id};
    }

    /** get: the sender stored under the id, if any. */
    method Get(id: nat) returns (r: Option<MessageSender>)
      ensures r.Some? <==> id in connections
      ensures r.Some? ==> r.value == connections[id]
    {
      if id in connections {
        r := Some(connections[id]);
      } else {
        r := None;
      }
    }

    /** count: the number of entries. */
    method Count() returns (n: nat)
      ensures n == |connections.Keys|
    {
      n := |connections|;
    }

    /** all_ids: every key once, in some order. */
    method AllIds() returns (ids: seq<nat>)
      ensures forall id :: id in ids <==> id in connections
      ensures forall i, j :: 0 <= i < j < |ids| ==> ids[i] != ids[j]
      ensures |ids| == |connections.Keys|
    {
      ids := [];
      var rest := connections.Keys;
      while rest != {}
        invariant forall id :: id in ids ==> id in connections && id !in rest
        invariant forall id :: id in rest ==> id in connections
        invariant forall id :: id in connections ==> id in ids || id in rest
        invariant forall i, j :: 0 <= i < j < |ids| ==> ids[i] != ids[j]
        invariant |ids| + |rest| == |connections.Keys|
        decreases |rest|
      {
        var id :| id in rest;
        ids := ids + [id];
        rest := rest - {id};
      }
    }

    /** broadcast: one send of msg to the sender of every id; a failed send is ignored
        and the loop goes on. The map and the counter are unchanged. Each sender gets
        one copy per id that leads to it, short of what does not fit in its queue, and
        none when its channel is closed. */
    method Broadcast(msg: WsMessage)
      requires SendersValid()
      modifies connections.Values
      ensures SendersValid()
      ensures forall s :: s in connections.Values ==>
        Delivered(old(s.queue), old(s.closed), |Fanout(connections, connections.Keys, s)|, msg, s.queue, s.closed, s.capacity)
    {
      var conns := connections;
      ghost var q0 := map s | s in conns.Values :: s.queue;
      ghost var c0 := map s | s in conns.Values :: s.closed;
      StartProgress(conns, q0, c0, msg);
      var rest := conns.Keys;
      assert conns.Keys - rest == {};
      while rest != {}
        invariant rest <= conns.Keys
        invariant Progress(conns, conns.Keys - rest, q0, c0, msg)
        decreases |rest|
      {
        var id :| id in rest;
        Deliver(conns, id, msg, conns.Keys - rest, q0, c0);
        VisitOneMore(conns.Keys, rest, id);
        rest := rest - {id};
      }
      assert conns.Keys - rest == conns.Keys;
      assert SendersValid() by {
        forall id | id in conns ensures conns[id].Valid() {
          assert conns[id] in conns.Values;
        }
      }
    }

    /** broadcast_text: broadcast of a text frame. */
    method BroadcastText(text: string)
      requires SendersValid()
      modifies connections.Values
      ensures SendersValid()
      ensures forall s :: s in connections.Values ==>
        Delivered(old(s.queue), old(s.closed), |Fanout(connections, connections.Keys, s)|, Text(text), s.queue, s.closed, s.capacity)
    {
      Broadcast(Text(text));
    }

    /** broadcast_binary: broadcast of a binary frame. */
    method BroadcastBinary(data: seq<byte>)
      requires SendersValid()
      modifies connections.Values
      ensures SendersValid()
      ensures forall s :: s in connections.Values ==>
        Delivered(old(s.queue), old(s.closed), |Fanout(connections, connections.Keys, s)|, Binary(data), s.queue, s.closed, s.capacity)
    {
      Broadcast(Binary(data));
    }
  }

  /** Every sender has had what the ids in done sent it, counted from the queues q0
      and flags c0 it had before the broadcast. */
  ghost predicate Progress(conns: map<nat, MessageSender>, done: set<nat>,
                           q0: map<MessageSender, seq<WsMessage>>, c0: map<MessageSender, bool>, msg: WsMessage)
    reads conns.Values
  {
    forall s :: s in conns.Values ==>
      && s in q0 && s in c0
      && Delivered(q0[s], c0[s], |Fanout(conns, done, s)|, msg, s.queue, s.closed, s.capacity)
  }

  /** Before the first send, every sender holds what it held. */
  lemma StartProgress(conns: map<nat, MessageSender>, q0: map<MessageSender, seq<WsMessage>>,
                      c0: map<MessageSender, bool>, msg: WsMessage)
    requires forall s :: s in conns.Values ==> s.Valid() && s in q0 && q0[s] == s.queue && s in c0 && c0[s] == s.closed
    ensures Progress(conns, {}, q0, c0, msg)
  {
    forall s | s in conns.Values
      ensures Delivered(q0[s], c0[s], |Fanout(conns, {}, s)|, msg, s.queue, s.closed, s.capacity)
    {
      assert Fanout(conns, {}, s) == {};
    }
  }

  /** One step of broadcast: the send to the sender of id. */
  method Deliver(conns: map<nat, MessageSender>, id: nat, msg: WsMessage, ghost done: set<nat>,
                 ghost q0: map<MessageSender, seq<WsMessage>>, ghost c0: map<MessageSender, bool>)
    requires id in conns && id !in done
    requires Progress(conns, done, q0, c0, msg)
    modifies conns[id]
    ensures Progress(conns, done + {id}, q0, c0, msg)
  {
    var sender := conns[id];
    FanoutGrows(conns, done, id);
    ghost var n := |Fanout(conns, done, sender)|;
    ghost var q, c := sender.queue, sender.closed;
    var _ := sender.Send(msg);
    SendDelivers(q0[sender], c0[sender], n, msg, q, c, sender.capacity, sender.queue);
    forall s | s in conns.Values
      ensures Delivered(q0[s], c0[s], |Fanout(conns, done + {id}, s)|, msg, s.queue, s.closed, s.capacity)
    {
      if s != sender {
        assert Fanout(conns, done + {id}, s) == Fanout(conns, done, s);
      }
    }
  }

  /** What a sender's queue looks like after n sends of msg, given queue q0 and closed
      flag c0 before them: the flag is kept, the old queue is a prefix, everything
      after it is msg, at most n copies were added and the capacity is kept, none was
      added when the channel is closed, and all n when they fit. */
  ghost predicate Delivered(q0: seq<WsMessage>, c0: bool, n: nat, msg: WsMessage,
                            q: seq<WsMessage>, c: bool, capacity: nat)
  {
    && c == c0
    && q0 <= q
    && (forall j :: |q0| <= j < |q| ==> q[j] == msg)
    && |q| <= |q0| + n
    && |q| <= capacity
    && (c0 ==> q == q0)
    && (!c0 && |q0| + n <= capacity ==> |q| == |q0| + n)
  }

  /** One more send keeps Delivered, with one more copy allowed. */
  lemma SendDelivers(q0: seq<WsMessage>, c0: bool, n: nat, msg: WsMessage,
                     q: seq<WsMessage>, c: bool, capacity: nat, q': seq<WsMessage>)
    requires Delivered(q0, c0, n, msg, q, c, capacity)
    requires q' == if c then q else if |q| < capacity then q + [msg] else q
    ensures Delivered(q0, c0, n + 1, msg, q', c, capacity)
  {
  }

  /** Moving id from the ids still to visit to the visited ones. */
  lemma VisitOneMore(keys: set<nat>, rest: set<nat>, id: nat)
    requires id in rest && rest <= keys
    ensures (keys - rest) + {id} == keys - (rest - {id})
  {
  }

  /** Visiting one more id adds it to the ids of its own sender and to no other. */
  lemma FanoutGrows(connections: map<nat, MessageSender>, done: set<nat>, id: nat)
    requires id in connections && id !in done
    ensures Fanout(connections, done + {id}, connections[id]) == Fanout(connections, done, connections[id]) + {id}
    ensures |Fanout(connections, done + {id}, connections[id])| == |Fanout(connections, done, connections[id])| + 1
    ensures forall s :: s != connections[id] ==> Fanout(connections, done + {id}, s) == Fanout(connections, done, s)
  {
    var s := connections[id];
    assert Fanout(connections, done + {id}, s) == Fanout(connections, done, s) + {id};
  }

  /** Each id has a channel of its own, as when every connection creates its own. */
  ghost predicate OwnChannels(conns: map<nat, MessageSender>) {
    forall i, j :: i in conns && j in conns && i != j ==> conns[i] != conns[j]
  }

  /** With a channel per id, broadcast addresses each sender exactly once. */
  lemma OneIdPerSender(conns: map<nat, MessageSender>, id: nat)
    requires OwnChannels(conns) && id in conns
    ensures Fanout(conns, conns.Keys, conns[id]) == {id}
    ensures |Fanout(conns, conns.Keys, conns[id])| == 1
  {
    var f := Fanout(conns, conns.Keys, conns[id]);
    assert id in f;
    assert f == {id};
  }

  /** One send's worth of delivery to an open channel with room leaves exactly msg at
      the end of the queue; to a closed one, nothing. */
  lemma DeliveredOnce(q0: seq<WsMessage>, c0: bool, msg: WsMessage,
                      q: seq<WsMessage>, c: bool, capacity: nat)
    requires Delivered(q0, c0, 1, msg, q, c, capacity)
    ensures !c0 && |q0| < capacity ==> q == q0 + [msg]
    ensures c0 ==> q == q0
  {
    if !c0 && |q0| < capacity {
      assert q[..|q0|] == q0;
      assert q == q[..|q0|] + [q[|q0|]];
    }
  }
}
