/**
 * The web server's per-connection logic: the bind address and its display form, the
 * registration of a connection around its lifetime, and the three loops each
 * connection runs (the outbound pump, the heartbeat and the inbound consumer), each
 * written as a loop over an explicit sequence of inputs in place of the socket, the
 * channel and the clock.
 */
module Session {
  import opened Common
  import opened Registry

  // ---------------------------------------------------------------------------
  // Bind address
  // ---------------------------------------------------------------------------

  /** The network port, a 16-bit unsigned integer in the configuration. */
  type Port = p: nat | p < 0x1_0000

  /** The decimal digit character for d. */
  function DigitChar(d: nat): (c: char)
    requires d < 10
    ensures '0' <= c <= '9' && c as int - '0' as int == d
  {
    ('0' as int + d) as char
  }

  predicate IsDigit(c: char) {
    '0' <= c <= '9'
  }

  /** How an unsigned integer is written by string formatting: decimal, no sign and no
      leading zero. */
  function DecimalString(n: nat): (s: string)
    ensures |s| >= 1 && forall i :: 0 <= i < |s| ==> IsDigit(s[i])
    ensures |s| > 1 ==> s[0] != '0'
    decreases n
  {
    if n < 10 then [DigitChar(n)] else DecimalString(n / 10) + [DigitChar(n % 10)]
  }

  /** Reading a decimal numeral: none for the empty string or a non-digit. */
  function ParseDecimal(s: string): (r: Option<nat>)
    ensures r.Some? <==> |s| >= 1 && forall i :: 0 <= i < |s| ==> IsDigit(s[i])
    decreases |s|
  {
    if |s| == 0 then None
    else if !IsDigit(s[|s| - 1]) then None
    else if |s| == 1 then Some(s[0] as int - '0' as int)
    else match ParseDecimal(s[..|s| - 1])
      case None => None
      case Some(v) => Some(10 * v + (s[|s| - 1] as int - '0' as int))
  }

  /** Reading back what DecimalString wrote gives the number. */
  lemma {:induction false} DecimalRoundTrip(n: nat)
    ensures ParseDecimal(DecimalString(n)) == Some(n)
    decreases n
  {
    if n >= 10 {
      DecimalRoundTrip(n / 10);
      var s := DecimalString(n);
      assert s[..|s| - 1] == DecimalString(n / 10);
    }
  }

  /** The index of the last occurrence of c in s. */
  function LastIndexOf(s: string, c: char): (r: Option<nat>)
    ensures r.Some? ==> r.value < |s| && s[r.value] == c && forall j :: r.value < j < |s| ==> s[j] != c
    ensures r.None? ==> forall j :: 0 <= j < |s| ==> s[j] != c
    decreases |s|
  {
    if |s| == 0 then None
    else if s[|s| - 1] == c then Some(|s| - 1)
    else LastIndexOf(s[..|s| - 1], c)
  }

  /** How an address "host:port" is taken apart: at its last colon, since an IPv6 host
      holds colons of its own. */
  function SplitAddress(address: string): (r: Option<(string, string)>)
    ensures r.Some? ==> address == r.value.0 + ":" + r.value.1 && ':' !in r.value.1
    ensures r.None? ==> ':' !in address
  {
    match LastIndexOf(address, ':')
    case None => None
    case Some(i) =>
      assert address == address[..i] + ":" + address[i + 1..];
      Some((address[..i], address[i + 1..]))
  }

  /** The form of an interface shown to the user. */
  function DisplayInterface(interface: string): string {
    match interface
    case "0.0.0.0" => "*"
    case "127.0.0.1" => "localhost"
    case _ => interface
  }

  /** parse_config: the address the server binds to and the one it shows. */
  function ParseConfig(interface: string, port: Port): (r: (string, string))
    ensures r.1 != r.0 ==> interface == "0.0.0.0" || interface == "127.0.0.1"
  {
    (interface + ":" + DecimalString(port), DisplayInterface(interface) + ":" + DecimalString(port))
  }

  /** An address whose port part has no colon splits back into its two parts. */
  lemma SplitJoined(host: string, digits: string)
    requires ':' !in digits
    ensures SplitAddress(host + ":" + digits) == Some((host, digits))
  {
    var address := host + ":" + digits;
    assert address[|host|] == ':';
    var i := LastIndexOf(address, ':').value;
    assert i == |host|;
    assert address[..i] == host;
    assert address[i + 1..] == digits;
  }

  /** Both strings of parse_config name the port, and split back into the interface
      (or its display form) and the port. The display form differs from the interface
      exactly for the two wildcard addresses. */
  lemma ParseConfigParts(interface: string, port: Port)
    ensures var (functional, display) := ParseConfig(interface, port);
      && SplitAddress(functional).Some?
      && SplitAddress(functional).value.0 == interface
      && ParseDecimal(SplitAddress(functional).value.1) == Some(port as nat)
      && SplitAddress(display).Some?
      && SplitAddress(display).value.0 == DisplayInterface(interface)
      && ParseDecimal(SplitAddress(display).value.1) == Some(port as nat)
    ensures interface == "0.0.0.0" ==> DisplayInterface(interface) == "*"
    ensures interface == "127.0.0.1" ==> DisplayInterface(interface) == "localhost"
    ensures interface != "0.0.0.0" && interface != "127.0.0.1" ==> DisplayInterface(interface) == interface
  {
    var digits := DecimalString(port);
    assert ':' !in digits;
    SplitJoined(interface, digits);
    SplitJoined(DisplayInterface(interface), digits);
    DecimalRoundTrip(port);
  }

  // ---------------------------------------------------------------------------
  // A connection's lifetime in the registry
  // ---------------------------------------------------------------------------

  /** register_connection: a new channel of capacity 100, registered under a fresh id. */
  method RegisterConnection(registry: ConnectionRegistry) returns (id: nat, sender: MessageSender)
    requires registry.Valid()
    modifies registry
    ensures registry.Valid() && fresh(sender)
    ensures sender.queue == [] && !sender.closed && sender.capacity == QUEUE_CAPACITY && sender.Valid()
    ensures id == old(registry.nextId) && registry.nextId == id + 1
    ensures id !in old(registry.connections) && registry.connections == old(registry.connections)[id := sender]
  {
    sender := new MessageSender(QUEUE_CAPACITY);
    id := registry.Register(sender);
  }

  /** handle_client: the connection is registered, its tasks run (not modelled: when
      they stop, the receiving half of the channel is dropped), and it is unregistered.
      The map is as before, and the id it had is used up. */
  method HandleClient(registry: ConnectionRegistry) returns (id: nat)
    requires registry.Valid()
    modifies registry
    ensures registry.Valid()
    ensures id == old(registry.nextId) && registry.nextId == id + 1
    ensures id !in registry.connections && registry.connections == old(registry.connections)
  {
    var sender;
    id, sender := RegisterConnection(registry);
    sender.Hangup();
    var removed := registry.Unregister(id);
    assert removed;
    assert registry.connections == old(registry.connections)[id := sender] - {id};
  }

  // ---------------------------------------------------------------------------
  // The outbound pump
  // ---------------------------------------------------------------------------

  /** A message taken off the channel and whether the socket took it. */
  datatype Delivery = Delivery(msg: WsMessage, written: bool)

  /** The messages of a run of deliveries, in order. */
  function Messages(ds: seq<Delivery>): (ms: seq<WsMessage>)
    ensures |ms| == |ds| && forall i :: 0 <= i < |ds| ==> ms[i] == ds[i].msg
  {
    if |ds| == 0 then [] else Messages(ds[..|ds| - 1]) + [ds[|ds| - 1].msg]
  }

  /** process_outgoing_messages: the messages go to the socket in queue order; the
      first one the socket refuses ends the loop, and nothing after it is written. */
  method ProcessOutgoing(ds: seq<Delivery>) returns (written: seq<WsMessage>, failed: bool)
    ensures written <= Messages(ds)
    ensures forall i :: 0 <= i < |written| ==> ds[i].written
    ensures failed <==> |written| < |ds|
    ensures failed ==> !ds[|written|].written
  {
    written := [];
    failed := false;
    var i := 0;
    while i < |ds|
      invariant 0 <= i <= |ds| && |written| == i
      invariant written == Messages(ds)[..i]
      invariant forall j :: 0 <= j < i ==> ds[j].written
    {
      if !ds[i].written {
        failed := true;
        break;
      }
      written := written + [ds[i].msg];
      i := i + 1;
    }
  }

  // ---------------------------------------------------------------------------
  // The heartbeat
  // ---------------------------------------------------------------------------

  /** The interval between two pings. */
  const PING_INTERVAL: nat := 30

  /** What the loop finds at one tick: the application's running flag, whether the
      connection is still registered, and whether the ping was queued. */
  datatype Tick = Tick(running: bool, registered: bool, accepted: bool)

  datatype HeartbeatEnd = ShutDown | NotRegistered | PingRefused | TicksExhausted

  /** send_heartbeats: at each tick, stop when the application is shutting down, else
      stop when the connection is gone, else queue an empty ping and stop when that
      fails. The result lists the pings queued. */
  method SendHeartbeats(ticks: seq<Tick>) returns (pings: seq<WsMessage>, end: HeartbeatEnd)
    ensures |pings| <= |ticks| && forall i :: 0 <= i < |pings| ==> pings[i] == Ping([])
    ensures forall i :: 0 <= i < |pings| ==> ticks[i] == Tick(true, true, true)
    ensures end == TicksExhausted <==> |pings| == |ticks|
    ensures end == ShutDown ==> !ticks[|pings|].running
    ensures end == NotRegistered ==> ticks[|pings|].running && !ticks[|pings|].registered
    ensures end == PingRefused ==> ticks[|pings|].running && ticks[|pings|].registered && !ticks[|pings|].accepted
  {
    pings := [];
    end := TicksExhausted;
    var i := 0;
    while i < |ticks|
      invariant 0 <= i <= |ticks| && |pings| == i
      invariant forall j :: 0 <= j < i ==> pings[j] == Ping([]) && ticks[j] == Tick(true, true, true)
    {
      var t := ticks[i];
      if !t.running {
        end := ShutDown;
        return;
      }
      if !t.registered {
        end := NotRegistered;
        return;
      }
      if !t.accepted {
        end := PingRefused;
        return;
      }
      pings := pings + [Ping([])];
      i := i + 1;
    }
  }

  // ---------------------------------------------------------------------------
  // The inbound consumer
  // ---------------------------------------------------------------------------

  /** The longest silence the consumer accepts, three ping intervals. */
  const TIMEOUT: nat := 90

  /** A frame read from the socket, or the error the read gave. */
  datatype Frame =
    | TextFrame(text: string)
    | BinaryFrame(data: seq<byte>)
    | PingFrame(payload: seq<byte>)
    | PongFrame(payload: seq<byte>)
    | CloseFrame
    | ReadError

  /** For a ping: whether a sender was found and the pong queued on it. */
  datatype Reply = Unregistered | Queued | Refused

  /** Either a frame arrives at time `at`, or time `at` passes with none arriving. */
  datatype Event =
    | Arrival(at: int, frame: Frame, reply: Reply)
    | Silence(at: int)

  datatype IncomingEnd = ClosedByPeer | TransportError | PongRefused | TimedOut | StreamEnded

  /** The time of the last pong once e is handled. */
  function PongTime(lastPong: int, e: Event): int {
    if e.Arrival? && e.frame.PongFrame? then e.at else lastPong
  }

  /** The time of the last pong after a run of events, starting from start. */
  function LastPongAfter(start: int, es: seq<Event>): int
    decreases |es|
  {
    if |es| == 0 then start else PongTime(LastPongAfter(start, es[..|es| - 1]), es[|es| - 1])
  }

  /** Whether handling e ends the loop, and why. As written (watchdog false) the clock
      is looked at only after a frame arrives; with the watchdog it is also looked at
      while none arrives. */
  function EventEnd(lastPong: int, e: Event, watchdog: bool): Option<IncomingEnd> {
    match e
    case Silence(at) =>
      if watchdog && at - lastPong > TIMEOUT then Some(TimedOut) else None
    case Arrival(at, frame, reply) =>
      if frame.CloseFrame? then Some(ClosedByPeer)
      else if frame.ReadError? then Some(TransportError)
      else if frame.PingFrame? && reply == Refused then Some(PongRefused)
      else if at - PongTime(lastPong, e) > TIMEOUT then Some(TimedOut)
      else None
  }

  /** The pongs queued for a run of events: one with the same payload per ping whose
      pong was queued. */
  function Replies(es: seq<Event>): seq<WsMessage>
    decreases |es|
  {
    if |es| == 0 then []
    else
      var e := es[|es| - 1];
      Replies(es[..|es| - 1])
      + (if e.Arrival? && e.frame.PingFrame? && e.reply == Queued then [Pong(e.frame.payload)] else [])
  }

  /** process_incoming_messages: the events are handled in order until one ends the
      loop; that one is the last consumed. The pongs queued are those of the pings
      consumed. */
  method ProcessIncoming(start: int, es: seq<Event>, watchdog: bool)
      returns (replies: seq<WsMessage>, consumed: nat, end: IncomingEnd)
    ensures consumed <= |es|
    ensures end == StreamEnded ==> consumed == |es|
    ensures end == StreamEnded ==> forall k :: 0 <= k < |es| ==> EventEnd(LastPongAfter(start, es[..k]), es[k], watchdog).None?
    ensures end != StreamEnded ==> (
      && 1 <= consumed
      && (forall k :: 0 <= k < consumed - 1 ==> EventEnd(LastPongAfter(start, es[..k]), es[k], watchdog).None?)
      && EventEnd(LastPongAfter(start, es[..consumed - 1]), es[consumed - 1], watchdog) == Some(end))
    ensures replies == Replies(es[..consumed])
  {
    var lastPong := start;
    replies := [];
    consumed := 0;
    end := StreamEnded;
    while consumed < |es|
      invariant consumed <= |es|
      invariant lastPong == LastPongAfter(start, es[..consumed])
      invariant replies == Replies(es[..consumed])
      invariant forall k :: 0 <= k < consumed ==> EventEnd(LastPongAfter(start, es[..k]), es[k], watchdog).None?
    {
      var e := es[consumed];
      PrefixStep(start, es, consumed);
      ghost var before := lastPong;
      var stop: Option<IncomingEnd> := None;
      match e {
        case Silence(at) =>
          if watchdog && at - lastPong > TIMEOUT {
            stop := Some(TimedOut);
          }
        case Arrival(at, frame, reply) =>
          match frame {
            case TextFrame(_) =>
            case BinaryFrame(_) =>
            case CloseFrame =>
              stop := Some(ClosedByPeer);
            case PingFrame(payload) =>
              if reply == Queued {
                replies := replies + [Pong(payload)];
              } else if reply == Refused {
                stop := Some(PongRefused);
              }
            case PongFrame(_) =>
              lastPong := at;
            case ReadError =>
              stop := Some(TransportError);
          }
          if stop.None? && at - lastPong > TIMEOUT {
            stop := Some(TimedOut);
          }
      }
      assert stop == EventEnd(before, e, watchdog) && lastPong == PongTime(before, e);
      consumed := consumed + 1;
      if stop.Some? {
        end := stop.value;
        return;
      }
    }
  }

  /** One more event extends the time of the last pong and the pongs queued by its
      own share. */
  lemma PrefixStep(start: int, es: seq<Event>, i: nat)
    requires i < |es|
    ensures LastPongAfter(start, es[..i + 1]) == PongTime(LastPongAfter(start, es[..i]), es[i])
    ensures Replies(es[..i + 1]) == Replies(es[..i])
      + (if es[i].Arrival? && es[i].frame.PingFrame? && es[i].reply == Queued then [Pong(es[i].frame.payload)] else [])
  {
    assert es[..i + 1][..i] == es[..i];
  }

  /** A pong never ends the loop: it resets the clock it is measured against. Text and
      binary frames, and pings whose pong was not refused, end it only by the clock. */
  lemma FramesThatKeepTheLoop(lastPong: int, at: int, frame: Frame, reply: Reply, watchdog: bool)
    ensures frame.PongFrame? ==> EventEnd(lastPong, Arrival(at, frame, reply), watchdog).None?
    ensures frame.TextFrame? || frame.BinaryFrame? || (frame.PingFrame? && reply != Refused) ==>
      (EventEnd(lastPong, Arrival(at, frame, reply), watchdog).None? <==> at - lastPong <= TIMEOUT)
    ensures frame.CloseFrame? ==> EventEnd(lastPong, Arrival(at, frame, reply), watchdog) == Some(ClosedByPeer)
    ensures frame.ReadError? ==> EventEnd(lastPong, Arrival(at, frame, reply), watchdog) == Some(TransportError)
  {
  }

  /** Event k is a pong frame, and no later one is. */
  predicate IsLastPong(es: seq<Event>, k: int) {
    && 0 <= k < |es| && es[k].Arrival? && es[k].frame.PongFrame?
    && forall j :: k < j < |es| ==> !(es[j].Arrival? && es[j].frame.PongFrame?)
  }

  /** With no pong frame among the events, the time of the last pong is the start. */
  lemma {:induction false} NoPongKeepsStart(start: int, es: seq<Event>)
    requires forall k :: 0 <= k < |es| ==> !(es[k].Arrival? && es[k].frame.PongFrame?)
    ensures LastPongAfter(start, es) == start
    decreases |es|
  {
    if |es| > 0 {
      var init := es[..|es| - 1];
      assert forall k :: 0 <= k < |init| ==> init[k] == es[k];
      NoPongKeepsStart(start, init);
    }
  }

  /** The time of the last pong is that of the last pong frame among the events. */
  lemma {:induction false} LastPongIsLatestPong(start: int, es: seq<Event>, k: int)
    requires IsLastPong(es, k)
    ensures LastPongAfter(start, es) == es[k].at
    decreases |es|
  {
    if k < |es| - 1 {
      var init := es[..|es| - 1];
      assert forall j :: 0 <= j < |init| ==> init[j] == es[j];
      assert IsLastPong(init, k);
      LastPongIsLatestPong(start, init, k);
    }
  }

  /** Every pong queued answers a ping consumed, with the ping's own payload. */
  lemma {:induction false} RepliesAnswerPings(es: seq<Event>)
    ensures forall m :: m in Replies(es) ==> (
      && m.Pong?
      && exists k :: 0 <= k < |es| && es[k].Arrival? && es[k].frame == PingFrame(m.payload) && es[k].reply == Queued)
    decreases |es|
  {
    if |es| > 0 {
      var init := es[..|es| - 1];
      RepliesAnswerPings(init);
      assert forall k :: 0 <= k < |init| ==> init[k] == es[k];
    }
  }

  /** The indexes of the pings whose pong was queued. */
  function AnsweredPings(es: seq<Event>): set<nat> {
    set k: nat | k < |es| && es[k].Arrival? && es[k].frame.PingFrame? && es[k].reply == Queued
  }

  /** There is one pong queued per ping whose pong was queued. */
  lemma {:induction false} OneReplyPerPing(es: seq<Event>)
    ensures |Replies(es)| == |AnsweredPings(es)|
    decreases |es|
  {
    if |es| > 0 {
      var init := es[..|es| - 1];
      var e := es[|es| - 1];
      OneReplyPerPing(init);
      assert forall k :: 0 <= k < |init| ==> init[k] == es[k];
      if e.Arrival? && e.frame.PingFrame? && e.reply == Queued {
        assert AnsweredPings(es) == AnsweredPings(init) + {|es| - 1};
      } else {
        assert AnsweredPings(es) == AnsweredPings(init);
      }
    }
  }

  /** As written, a peer that sends nothing at all is never timed out: no run of
      silences ends the loop, however long. */
  lemma AsWrittenSilenceNeverEnds(start: int, es: seq<Event>)
    requires forall k :: 0 <= k < |es| ==> es[k].Silence?
    ensures forall k :: 0 <= k < |es| ==> EventEnd(LastPongAfter(start, es[..k]), es[k], false).None?
  {
  }

  /** With the watchdog, the first silence that runs past the timeout since the start
      ends the loop. */
  lemma WatchdogEndsSilence(start: int, es: seq<Event>, k: nat)
    requires forall j :: 0 <= j < |es| ==> es[j].Silence?
    requires k < |es| && es[k].at - start > TIMEOUT
    ensures EventEnd(LastPongAfter(start, es[..k]), es[k], true) == Some(TimedOut)
  {
    var init := es[..k];
    assert forall j :: 0 <= j < |init| ==> init[j] == es[j];
    NoPongKeepsStart(start, init);
  }
}
