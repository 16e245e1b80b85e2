/**
 * The status reducer of the Wi-Fi network module: three net_mgmt callbacks that turn
 * raw network-management events into a NETWORK_CHAN publication (CONNECTED or
 * DISCONNECTED) or into nothing, and the IPv4 callback's give of the connected gate.
 *
 * The pure part of each handler (which status an event maps to) is a function; the
 * effect of a delivery on the module's shared state (gate count, the statuses the bus
 * accepted, the fatal flag, the registered callbacks) is the function Step over the
 * value NetState, which the class NetworkWifi.NetworkContext follows.
 */
module StatusReducer {
  import opened Wrappers
  import Semaphores

  /** enum network_status as published on NETWORK_CHAN. */
  datatype NetworkStatus = Connected | Disconnected

  /**
   * A network-management event code, as a callback sees it. WifiConnectResult carries
   * wifi_status->status from the callback's info (zero means the attempt succeeded);
   * Unknown stands for every other code a callback can be handed.
   */
  datatype NetEvent =
    | WifiConnectResult(status: int)
    | WifiDisconnectResult
    | Ipv4AddrAdd
    | Ipv4AddrDel
    | Ipv4McastJoin
    | Ipv4McastLeave
    | Unknown(code: nat)

  /** The three net_mgmt_event_callback registrations of the module. */
  datatype Callback = WifiCallback | Ipv4Callback | McastCallback

  /** wifi_mgmt_event_handler's switch: only a disconnect result is published. */
  function WifiMgmtStatus(e: NetEvent): (r: Option<NetworkStatus>)
    ensures r != Some(Connected)
    ensures r == Some(Disconnected) <==> e.WifiDisconnectResult?
  {
    match e
    case WifiConnectResult(_) => None
    case WifiDisconnectResult => Some(Disconnected)
    case _ => None
  }

  /** ipv4_mgmt_event_handler's switch. */
  function Ipv4MgmtStatus(e: NetEvent): (r: Option<NetworkStatus>)
    ensures r == Some(Connected) <==> e.Ipv4AddrAdd?
    ensures r == Some(Disconnected) <==> e.Ipv4AddrDel?
  {
    match e
    case Ipv4AddrAdd => Some(Connected)
    case Ipv4AddrDel => Some(Disconnected)
    case _ => None
  }

  /** ipv4_multicast_event_handler's switch. */
  function Ipv4McastStatus(e: NetEvent): (r: Option<NetworkStatus>)
    ensures r == Some(Connected) <==> e.Ipv4McastJoin?
    ensures r == Some(Disconnected) <==> e.Ipv4McastLeave?
  {
    match e
    case Ipv4McastJoin => Some(Connected)
    case Ipv4McastLeave => Some(Disconnected)
    case _ => None
  }

  /** The status the handler behind callback cb decides to publish for e. */
  function HandlerStatus(cb: Callback, e: NetEvent): Option<NetworkStatus>
  {
    match cb
    case WifiCallback => WifiMgmtStatus(e)
    case Ipv4Callback => Ipv4MgmtStatus(e)
    case McastCallback => Ipv4McastStatus(e)
  }

  /** Only the IPv4 handler gives the gate, and only for an address add. */
  predicate GivesGate(cb: Callback, e: NetEvent)
  {
    cb == Ipv4Callback && e.Ipv4AddrAdd?
  }

  /** K_SEM_DEFINE(wifi_connected_sem, 0, 1). */
  const GATE_INITIAL: nat := 0
  const GATE_LIMIT: nat := 1

  /**
   * The module's shared state: the gate's count, every status the bus accepted (in
   * order; the last one is the current status), whether SEND_FATAL_ERROR was raised,
   * and which callbacks network_task has registered.
   */
  datatype NetState = NetState(gate: nat, published: seq<NetworkStatus>, fatal: bool, registered: set<Callback>)

  /** The state before network_task runs. */
  const Initial: NetState := NetState(GATE_INITIAL, [], false, {})

  /** zbus_chan_pub returned err: zero delivers the status, anything else is fatal. */
  function Publish(s: NetState, status: NetworkStatus, err: int): NetState
  {
    if err == 0 then s.(published := s.published + [status]) else s.(fatal := true)
  }

  /** One handler invocation: the gate give comes before the publish. */
  function Handle(s: NetState, cb: Callback, e: NetEvent, pubErr: int): NetState
  {
    var given := if GivesGate(cb, e) then s.(gate := Semaphores.Given(s.gate, GATE_LIMIT)) else s;
    match HandlerStatus(cb, e)
    case None => given
    case Some(status) => Publish(given, status, pubErr)
  }

  /**
   * One event the network stack hands to callback cb; pubErr is what zbus_chan_pub
   * returns if the handler publishes.
   */
  datatype Delivery = Delivery(cb: Callback, event: NetEvent, pubErr: int)

  /** The stack invokes only registered callbacks. */
  function Step(s: NetState, d: Delivery): NetState
  {
    if d.cb in s.registered then Handle(s, d.cb, d.event, d.pubErr) else s
  }

  /** Deliveries in order; a fatal error is terminal, so nothing after it is handled. */
  function Run(s: NetState, ds: seq<Delivery>): NetState
    decreases |ds|
  {
    if ds == [] || s.fatal then s else Run(Step(s, ds[0]), ds[1..])
  }

  /** A delivery whose handler publishes, and whose publish fails. */
  predicate FailedPublish(registered: set<Callback>, d: Delivery)
  {
    d.cb in registered && HandlerStatus(d.cb, d.event).Some? && d.pubErr != 0
  }

  /** No event is published by two of the handlers: their switches are disjoint. */
  lemma HandlersDisjoint(e: NetEvent)
    ensures WifiMgmtStatus(e).Some? ==> Ipv4MgmtStatus(e).None? && Ipv4McastStatus(e).None?
    ensures Ipv4MgmtStatus(e).Some? ==> Ipv4McastStatus(e).None?
  {
  }

  /** What one delivery does to the state, case by case. */
  lemma StepEffect(s: NetState, d: Delivery)
    ensures Step(s, d).registered == s.registered
    ensures Step(s, d).fatal <==> s.fatal || FailedPublish(s.registered, d)
    ensures Step(s, d).gate == if d.cb in s.registered && GivesGate(d.cb, d.event)
                               then Semaphores.Given(s.gate, GATE_LIMIT) else s.gate
    ensures Step(s, d).published == if d.cb in s.registered && HandlerStatus(d.cb, d.event).Some? && d.pubErr == 0
                                    then s.published + [HandlerStatus(d.cb, d.event).value] else s.published
  {
  }

  /** The gate never exceeds its limit, over any sequence of deliveries. */
  lemma {:induction false} RunGateBounded(s: NetState, ds: seq<Delivery>)
    requires s.gate <= GATE_LIMIT
    ensures s.gate <= Run(s, ds).gate <= GATE_LIMIT
    decreases |ds|
  {
    if ds != [] && !s.fatal {
      StepEffect(s, ds[0]);
      RunGateBounded(Step(s, ds[0]), ds[1..]);
    }
  }

  /** Starting from boot, the gate count stays in [0, 1]. */
  lemma GateBoundedFromBoot(ds: seq<Delivery>)
    ensures Run(Initial.(registered := {WifiCallback, Ipv4Callback, McastCallback}), ds).gate <= 1
  {
    RunGateBounded(Initial.(registered := {WifiCallback, Ipv4Callback, McastCallback}), ds);
  }

  /** Registration does not change while events are handled. */
  lemma {:induction false} RunKeepsRegistered(s: NetState, ds: seq<Delivery>)
    ensures Run(s, ds).registered == s.registered
    decreases |ds|
  {
    if ds != [] && !s.fatal {
      StepEffect(s, ds[0]);
      RunKeepsRegistered(Step(s, ds[0]), ds[1..]);
    }
  }

  /**
   * The fatal outcome is reached exactly when some delivery's publish fails: a failed
   * publish in any handler is fatal, and successful publishes never are.
   */
  lemma {:induction false} RunFatalIff(s: NetState, ds: seq<Delivery>)
    ensures Run(s, ds).fatal <==> s.fatal || exists i :: 0 <= i < |ds| && FailedPublish(s.registered, ds[i])
    decreases |ds|
  {
    if ds != [] && !s.fatal {
      var s' := Step(s, ds[0]);
      StepEffect(s, ds[0]);
      RunFatalIff(s', ds[1..]);
      if s'.fatal {
        assert FailedPublish(s.registered, ds[0]);
      } else {
        assert !FailedPublish(s.registered, ds[0]);
        if exists i :: 0 <= i < |ds| && FailedPublish(s.registered, ds[i]) {
          var i :| 0 <= i < |ds| && FailedPublish(s.registered, ds[i]);
          assert i > 0 && ds[1..][i - 1] == ds[i];
        }
        if exists i :: 0 <= i < |ds[1..]| && FailedPublish(s'.registered, ds[1..][i]) {
          var i :| 0 <= i < |ds[1..]| && FailedPublish(s'.registered, ds[1..][i]);
          assert ds[i + 1] == ds[1..][i];
        }
      }
    }
  }

  /**
   * The gate's count never influences the handlers: two states that differ only in the
   * count publish the same statuses, reach the same fatal outcome and keep the same
   * registrations over any deliveries.
   */
  lemma {:induction false} RunIgnoresGate(s: NetState, t: NetState, ds: seq<Delivery>)
    requires s.(gate := t.gate) == t
    ensures Run(s, ds).(gate := Run(t, ds).gate) == Run(t, ds)
    decreases |ds|
  {
    if ds != [] && !s.fatal {
      assert Step(s, ds[0]).(gate := Step(t, ds[0]).gate) == Step(t, ds[0]);
      RunIgnoresGate(Step(s, ds[0]), Step(t, ds[0]), ds[1..]);
    }
  }

  /** Statuses already accepted by the bus are never taken back. */
  lemma {:induction false} RunExtendsPublished(s: NetState, ds: seq<Delivery>)
    ensures s.published <= Run(s, ds).published
    decreases |ds|
  {
    if ds != [] && !s.fatal {
      StepEffect(s, ds[0]);
      RunExtendsPublished(Step(s, ds[0]), ds[1..]);
    }
  }

  /**
   * Link connect results, successful or not, publish nothing, never touch the gate and
   * never lead to the fatal outcome, whichever callback they reach.
   */
  lemma {:induction false} ConnectResultsSilent(s: NetState, ds: seq<Delivery>)
    requires forall i :: 0 <= i < |ds| ==> ds[i].event.WifiConnectResult?
    ensures Run(s, ds) == s
    decreases |ds|
  {
    if ds != [] && !s.fatal {
      assert ds[0].event.WifiConnectResult?;
      assert Step(s, ds[0]) == s;
      assert forall i :: 0 <= i < |ds[1..]| ==> ds[1..][i] == ds[i + 1];
      ConnectResultsSilent(s, ds[1..]);
    }
  }

  /** The status of the most recent address add or delete delivered to the IPv4 callback. */
  function LatestAddressStatus(ds: seq<Delivery>): Option<NetworkStatus>
    decreases |ds|
  {
    if ds == [] then None
    else
      var last := ds[|ds| - 1];
      if last.cb == Ipv4Callback && last.event.Ipv4AddrAdd? then Some(Connected)
      else if last.cb == Ipv4Callback && last.event.Ipv4AddrDel? then Some(Disconnected)
      else LatestAddressStatus(ds[..|ds| - 1])
  }

  /** Handling one more delivery at the end of a fatal-free run is one more Step. */
  lemma {:induction false} RunSnoc(s: NetState, ds: seq<Delivery>, d: Delivery)
    requires !Run(s, ds).fatal
    ensures Run(s, ds + [d]) == Step(Run(s, ds), d)
    decreases |ds|
  {
    if ds == [] {
      assert [d][1..] == [];
    } else {
      assert !s.fatal;
      assert (ds + [d])[0] == ds[0];
      assert (ds + [d])[1..] == ds[1..] + [d];
      RunSnoc(Step(s, ds[0]), ds[1..], d);
    }
  }

  /**
   * Over address events delivered to the IPv4 callback with successful publishes, the
   * current status is CONNECTED exactly when the most recent address event was an add
   * and DISCONNECTED exactly when it was a delete; with no address event nothing is
   * published.
   */
  lemma {:induction false} CurrentStatusFollowsLatestAddress(s: NetState, ds: seq<Delivery>)
    requires !s.fatal && Ipv4Callback in s.registered
    requires forall i :: 0 <= i < |ds| ==> ds[i].cb == Ipv4Callback && ds[i].pubErr == 0
    ensures !Run(s, ds).fatal
    ensures LatestAddressStatus(ds).None? ==> Run(s, ds).published == s.published
    ensures LatestAddressStatus(ds).Some? ==>
              |Run(s, ds).published| > 0 &&
              Run(s, ds).published[|Run(s, ds).published| - 1] == LatestAddressStatus(ds).value
    decreases |ds|
  {
    if ds != [] {
      var init, last := ds[..|ds| - 1], ds[|ds| - 1];
      assert ds == init + [last];
      assert forall i :: 0 <= i < |init| ==> init[i] == ds[i];
      CurrentStatusFollowsLatestAddress(s, init);
      RunKeepsRegistered(s, init);
      RunSnoc(s, init, last);
      StepEffect(Run(s, init), last);
    }
  }

  /**
   * Two address adds in a row from a fresh gate: the gate ends at its limit, the second
   * give is a no-op, and both still publish CONNECTED.
   */
  lemma RepeatedAddressAdd(s: NetState)
    requires !s.fatal && Ipv4Callback in s.registered && s.gate == GATE_INITIAL
    ensures Step(s, Delivery(Ipv4Callback, Ipv4AddrAdd, 0)).gate == GATE_LIMIT
    ensures var twice := Step(Step(s, Delivery(Ipv4Callback, Ipv4AddrAdd, 0)), Delivery(Ipv4Callback, Ipv4AddrAdd, 0));
            twice.gate == GATE_LIMIT && twice.published == s.published + [Connected, Connected] && !twice.fatal
  {
  }

  /** An address delete, or any event the IPv4 handler does not know, leaves the gate alone. */
  lemma Ipv4GateOnlyOnAdd(s: NetState, e: NetEvent, pubErr: int)
    requires !e.Ipv4AddrAdd?
    ensures Step(s, Delivery(Ipv4Callback, e, pubErr)).gate == s.gate
    ensures !e.Ipv4AddrDel? ==> Step(s, Delivery(Ipv4Callback, e, pubErr)) == s
  {
  }
}
