/**
 * The Wi-Fi network module as one owned context: the connected gate
 * (wifi_connected_sem), the statuses NETWORK_CHAN accepted, the fatal flag raised by
 * SEND_FATAL_ERROR and the registered callbacks. Its methods are the three event
 * handlers, the stack's dispatch of one event, connect() and network_task; each is
 * proved to follow the functions of StatusReducer and Bootstrap.
 */
module NetworkWifi {
  import opened Wrappers
  import opened StatusReducer
  import opened Semaphores
  import opened Credentials
  import opened Bootstrap

  class NetworkContext {
    /** wifi_connected_sem */
    const sem: Semaphore
    /** Every status the bus accepted, oldest first. */
    var published: seq<NetworkStatus>
    /** SEND_FATAL_ERROR was raised. */
    var fatal: bool
    /** Callbacks network_task has added with net_mgmt_add_event_callback. */
    var registered: set<Callback>

    ghost predicate Valid()
      reads this, sem
    {
      sem.Valid() && sem.limit == GATE_LIMIT
    }

    function State(): NetState
      reads this, sem
    {
      NetState(sem.count, published, fatal, registered)
    }

    /** The module at boot: K_SEM_DEFINE(wifi_connected_sem, 0, 1), nothing published or registered. */
    constructor ()
      ensures Valid() && fresh(sem)
      ensures State() == Initial
    {
      sem := new Semaphore(GATE_INITIAL, GATE_LIMIT);
      published := [];
      fatal := false;
      registered := {};
    }

    /** zbus_chan_pub(&NETWORK_CHAN, &status, K_SECONDS(1)) returned err; nonzero raises SEND_FATAL_ERROR. */
    method PublishStatus(status: NetworkStatus, err: int)
      requires Valid()
      modifies this
      ensures Valid()
      ensures State() == Publish(old(State()), status, err)
    {
      if err != 0 {
        fatal := true;
      } else {
        published := published + [status];
      }
    }

    /** wifi_mgmt_event_handler: a connect result, successful or not, is only logged. */
    method WifiMgmtEventHandler(e: NetEvent, pubErr: int)
      requires Valid()
      modifies this
      ensures Valid()
      ensures State() == Handle(old(State()), WifiCallback, e, pubErr)
    {
      var status: NetworkStatus;
      match e {
        case WifiConnectResult(_) =>
          return;
        case WifiDisconnectResult =>
          status := Disconnected;
        case _ =>
          return;
      }
      PublishStatus(status, pubErr);
    }

    /** ipv4_mgmt_event_handler: an address add gives the gate before publishing. */
    method Ipv4MgmtEventHandler(e: NetEvent, pubErr: int)
      requires Valid()
      modifies this, sem
      ensures Valid()
      ensures State() == Handle(old(State()), Ipv4Callback, e, pubErr)
    {
      var status: NetworkStatus;
      match e {
        case Ipv4AddrAdd =>
          status := Connected;
          sem.Give();
        case Ipv4AddrDel =>
          status := Disconnected;
        case _ =>
          return;
      }
      PublishStatus(status, pubErr);
    }

    /** ipv4_multicast_event_handler. */
    method Ipv4MulticastEventHandler(e: NetEvent, pubErr: int)
      requires Valid()
      modifies this
      ensures Valid()
      ensures State() == Handle(old(State()), McastCallback, e, pubErr)
    {
      var status: NetworkStatus;
      match e {
        case Ipv4McastJoin =>
          status := Connected;
        case Ipv4McastLeave =>
          status := Disconnected;
        case _ =>
          return;
      }
      PublishStatus(status, pubErr);
    }

    /** The network stack invokes the handler of a registered callback with one event. */
    method Deliver(d: Delivery)
      requires Valid()
      modifies this, sem
      ensures Valid()
      ensures State() == Step(old(State()), d)
    {
      if d.cb in registered {
        match d.cb {
          case WifiCallback => WifiMgmtEventHandler(d.event, d.pubErr);
          case Ipv4Callback => Ipv4MgmtEventHandler(d.event, d.pubErr);
          case McastCallback => Ipv4MulticastEventHandler(d.event, d.pubErr);
        }
      }
    }

    /**
     * connect(): ifacePresent says whether net_if_get_default() returned an interface, err
     * is what the stored-configuration connect request returned.
     */
    method Connect(ifacePresent: bool, err: int) returns (failure: Option<FatalReason>)
      requires Valid()
      modifies this
      ensures Valid()
      ensures failure == ConnectStored(ifacePresent, err)
      ensures State() == if failure.Some? then old(State()).(fatal := true) else old(State())
    {
      if !ifacePresent {
        fatal := true;
        return Some(NoDefaultInterface);
      }
      if err != 0 {
        fatal := true;
        return Some(StoredConnectFailed(err));
      }
      failure := None;
    }

    /** The three net_mgmt_init_event_callback / net_mgmt_add_event_callback pairs. */
    method RegisterCallbacks(cfg: BuildConfig) returns (steps: seq<TaskStep>)
      requires Valid()
      modifies this
      ensures Valid()
      ensures steps == RegisterSteps(cfg)
      ensures State() == AfterRegistration(cfg, old(State()))
    {
      registered := registered + {WifiCallback};
      registered := registered + {Ipv4Callback};
      steps := [Register(WifiCallback), Register(Ipv4Callback)];
      if cfg.multicastDiscovery {
        registered := registered + {McastCallback};
        steps := steps + [Register(McastCallback)];
      }
    }

    /**
     * k_sem_take(&wifi_connected_sem, K_FOREVER): the stack delivers events until the gate
     * holds a permit, which is then taken; a fatal error or running out of events ends the wait.
     * rest is what the stack has still to deliver.
     */
    method WaitForGate(pending: seq<Delivery>) returns (steps: seq<TaskStep>, rest: seq<Delivery>)
      requires Valid()
      modifies this, sem
      ensures Valid()
      ensures State() == Wait(old(State()), pending).state
      ensures steps == WaitSteps(Wait(old(State()), pending))
      ensures rest == WaitRest(old(State()), pending)
    {
      ghost var s := State();
      var i := 0;
      while i < |pending| && !fatal && sem.count == 0
        invariant Valid()
        invariant 0 <= i <= |pending|
        invariant Wait(State(), pending[i..]) == Wait(s, pending)
        invariant WaitRest(State(), pending[i..]) == WaitRest(s, pending)
        decreases |pending| - i
      {
        assert pending[i..][0] == pending[i] && pending[i..][1..] == pending[i + 1..];
        Deliver(pending[i]);
        i := i + 1;
      }
      rest := pending[i..];
      if fatal {
        return [Fatal(PublishFailed)], rest;
      }
      if sem.count == 0 {
        assert pending[i..] == [];
      }
      var taken := sem.TryTake();
      if !taken {
        return [Blocked], rest;
      }
      steps := [GateTaken];
    }

    /**
     * The events nothing waits for (all of them under CONFIG_SMF, those after the wait
     * otherwise): the stack hands each to its registered callback until none is left, and
     * nothing is handled after a fatal error.
     */
    method DeliverAll(pending: seq<Delivery>)
      requires Valid()
      modifies this, sem
      ensures Valid()
      ensures State() == Run(old(State()), pending)
    {
      ghost var s := State();
      var i := 0;
      while i < |pending| && !fatal
        invariant Valid()
        invariant 0 <= i <= |pending|
        invariant Run(State(), pending[i..]) == Run(s, pending)
        decreases |pending| - i
      {
        assert pending[i..][0] == pending[i] && pending[i..][1..] == pending[i + 1..];
        Deliver(pending[i]);
        i := i + 1;
      }
      if !fatal {
        assert pending[i..] == [];
      }
    }

    /** network_task under the build switches cfg, with the environment's answers env. */
    method NetworkTask(cfg: BuildConfig, env: Environment) returns (trace: seq<TaskStep>)
      requires Valid()
      modifies this, sem
      ensures Valid()
      ensures BootResult(trace, State()) == RunNetworkTask(cfg, env, old(State()))
    {
      trace := RegisterCallbacks(cfg);
      ghost var s1 := State();
      var credential := ApplyStoredCredential(cfg, env);
      trace := trace + credential;
      if cfg.staticCredentials {
        var failure := Connect(env.ifacePresent, env.storedConnectErr);
        if failure.Some? {
          trace := trace + [Fatal(failure.value)];
          return;
        }
        trace := trace + [StoredConnectRequested];
      }
      assert trace == Prelude(cfg, env);
      ghost var prelude := trace;
      if cfg.smf {
        DeliverAll(env.pending);
      } else {
        var waited, rest := WaitForGate(env.pending);
        trace := trace + waited;
        DeliverAll(rest);
        if waited != [GateTaken] {
          assert trace == prelude + Finish(cfg, env, s1).trace;
          return;
        }
      }
      var workload := SelectWorkload(cfg);
      if workload.Some? {
        trace := trace + [RunWorkload(workload.value)];
      }
      trace := trace + [InitFinished];
      assert trace == prelude + Finish(cfg, env, s1).trace;
    }
  }

  /**
   * The CONFIG_BT block: scan the store into a fresh zeroed slot through get_wifi_credential,
   * then build and issue the connect request if the slot has an SSID.
   */
  method ApplyStoredCredential(cfg: BuildConfig, env: Environment) returns (steps: seq<TaskStep>)
    ensures steps == CredentialSteps(cfg, env)
  {
    steps := [];
    if cfg.bt {
      var slot := new CredentialSlot();
      ForEachSsid(env.storedRecords, slot);
      var params := BuildConnectParams(slot.config);
      if params.Some? {
        steps := [ApplyConfiguration(params.value, env.connectRc)];
      }
    }
  }

  /**
   * A whole boot with the gate wait compiled in: the module starts from its boot state, and
   * the task runs its workload exactly when one is compiled in, connect() is not fatal and
   * an address add reaches the IPv4 callback (with every publish succeeding); the module
   * ends fatal exactly when connect() failed.
   */
  method Boot(cfg: BuildConfig, env: Environment) returns (trace: seq<TaskStep>, ctx: NetworkContext)
    requires !cfg.smf
    requires forall i :: 0 <= i < |env.pending| ==> env.pending[i].pubErr == 0
    ensures ctx.Valid()
    ensures (exists i :: 0 <= i < |trace| && trace[i].RunWorkload?) <==>
              SelectWorkload(cfg).Some? && ConnectFailure(cfg, env).None? &&
              exists i :: 0 <= i < |env.pending| && env.pending[i].cb == Ipv4Callback && env.pending[i].event.Ipv4AddrAdd?
    ensures ctx.fatal <==> ConnectFailure(cfg, env).Some?
  {
    ctx := new NetworkContext();
    trace := ctx.NetworkTask(cfg, env);
    WorkloadRunsIff(cfg, env, Initial);
    WaitOpensOnAddressAdd(AfterRegistration(cfg, Initial), env.pending);
    FatalIff(cfg, env, Initial);
  }
}
