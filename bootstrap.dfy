/**
 * network_task's start-up sequence as a function of an explicit build configuration
 * (standing for the CONFIG_* and UDP_MULTICAST_DISCOVERY switches) and of what the
 * environment answers: register the callbacks, optionally apply a stored credential,
 * optionally connect with the static configuration, wait on the connected gate unless a
 * state machine drives provisioning, then run at most one workload.
 */
module Bootstrap {
  import opened Wrappers
  import opened StatusReducer
  import opened Credentials

  /** The build switches network_task is compiled under. */
  datatype BuildConfig = BuildConfig(
    bt: bool,                  // CONFIG_BT: apply a credential from the store
    staticCredentials: bool,   // CONFIG_WIFI_CREDENTIALS_STATIC: connect()
    smf: bool,                 // CONFIG_SMF: no gate wait
    multicastDiscovery: bool,  // UDP_MULTICAST_DISCOVERY: register the multicast callback
    httpClient: bool,          // CONFIG_HTTP_CLIENT_EXAMPLE
    httpGet: bool,             // CONFIG_HTTP_GET_EXAMPLE
    dumbHttpServer: bool,      // CONFIG_DUMB_HTTP_SERVER_EXAMPLE
    httpServer: bool)          // CONFIG_HTTP_SERVER_EXAMPLE

  datatype Workload = HttpClientExample | HttpGetExample | DumbHttpServerExample | HttpServerExample

  /** The order of the #if/#elif chain. */
  const Priority: seq<Workload> := [HttpClientExample, HttpGetExample, DumbHttpServerExample, HttpServerExample]

  function Rank(w: Workload): (r: nat)
    ensures r < |Priority| && Priority[r] == w
  {
    match w
    case HttpClientExample => 0
    case HttpGetExample => 1
    case DumbHttpServerExample => 2
    case HttpServerExample => 3
  }

  predicate Enabled(cfg: BuildConfig, w: Workload)
  {
    match w
    case HttpClientExample => cfg.httpClient
    case HttpGetExample => cfg.httpGet
    case DumbHttpServerExample => cfg.dumbHttpServer
    case HttpServerExample => cfg.httpServer
  }

  /** The workload the #if/#elif chain compiles in: the first enabled one in Priority's order. */
  function SelectWorkload(cfg: BuildConfig): (r: Option<Workload>)
    ensures r.None? ==> forall w :: !Enabled(cfg, w)
    ensures r.Some? ==> Enabled(cfg, r.value)
    ensures r.Some? ==> forall w :: Rank(w) < Rank(r.value) ==> !Enabled(cfg, w)
  {
    if cfg.httpClient then Some(HttpClientExample)
    else if cfg.httpGet then Some(HttpGetExample)
    else if cfg.dumbHttpServer then Some(DumbHttpServerExample)
    else if cfg.httpServer then Some(HttpServerExample)
    else None
  }

  /** Why SEND_FATAL_ERROR was raised. */
  datatype FatalReason = NoDefaultInterface | StoredConnectFailed(err: int) | PublishFailed

  /**
   * connect(): with no default interface the request is never made; otherwise the
   * stored-configuration connect returns err, and any nonzero err is fatal.
   * None means the request was accepted.
   */
  function ConnectStored(ifacePresent: bool, err: int): (r: Option<FatalReason>)
    ensures r.None? <==> ifacePresent && err == 0
    ensures !ifacePresent ==> r == Some(NoDefaultInterface)
    ensures ifacePresent && err != 0 ==> r == Some(StoredConnectFailed(err))
  {
    if !ifacePresent then Some(NoDefaultInterface)
    else if err != 0 then Some(StoredConnectFailed(err))
    else None
  }

  /** What the outside world answers during network_task. */
  datatype Environment = Environment(
    storedRecords: seq<PersonalCredential>,  // what the store yields for each stored SSID, in order
    ifacePresent: bool,                      // net_if_get_default() is not NULL
    connectRc: int,                          // net_mgmt(NET_REQUEST_WIFI_CONNECT, ...) result
    storedConnectErr: int,                   // net_mgmt(NET_REQUEST_WIFI_CONNECT_STORED, ...) result
    pending: seq<Delivery>)                  // events the stack delivers after registration

  /** The observable steps of network_task. */
  datatype TaskStep =
    | Register(cb: Callback)
    | ApplyConfiguration(params: ConnectParams, rc: int)  // connect request issued; rc < 0 is only logged
    | StoredConnectRequested
    | Fatal(reason: FatalReason)
    | GateTaken
    | Blocked                                             // still waiting when the deliveries ran out
    | RunWorkload(w: Workload)
    | InitFinished

  /** The outcome of k_sem_take(&wifi_connected_sem, K_FOREVER) over the deliveries it sees. */
  datatype WaitResult = Opened(state: NetState) | Halted(state: NetState) | Waiting(state: NetState)

  /**
   * Deliveries are handled until the gate holds a permit (which is then taken), a fatal
   * error is raised, or no delivery is left.
   */
  function Wait(s: NetState, ds: seq<Delivery>): WaitResult
    decreases |ds|
  {
    if s.fatal then Halted(s)
    else if s.gate > 0 then Opened(s.(gate := s.gate - 1))
    else if ds == [] then Waiting(s)
    else Wait(Step(s, ds[0]), ds[1..])
  }

  /**
   * The wait ends in the state of the shortest prefix of the deliveries that leaves a
   * permit or raises the fatal error: opened when that prefix left a permit (and the result
   * has one fewer), halted when it was fatal; no shorter prefix did either, and a wait still
   * waiting has handled every delivery. The deliveries left are the rest of the sequence.
   */
  lemma {:induction false} WaitIsRunPrefix(s: NetState, ds: seq<Delivery>)
    ensures exists k :: 0 <= k <= |ds| && WaitOutcomeOf(Wait(s, ds), Run(s, ds[..k])) &&
              (forall j :: 0 <= j < k ==> !Run(s, ds[..j]).fatal && Run(s, ds[..j]).gate == 0) &&
              (Wait(s, ds).Waiting? ==> k == |ds|) && WaitRest(s, ds) == ds[k..]
    decreases |ds|
  {
    if s.fatal || s.gate > 0 || ds == [] {
      assert ds[..0] == [] && ds[0..] == ds;
      assert WaitOutcomeOf(Wait(s, ds), Run(s, ds[..0]));
    } else {
      var s' := Step(s, ds[0]);
      WaitIsRunPrefix(s', ds[1..]);
      var k :| 0 <= k <= |ds[1..]| && WaitOutcomeOf(Wait(s', ds[1..]), Run(s', ds[1..][..k])) &&
               (forall j :: 0 <= j < k ==> !Run(s', ds[1..][..j]).fatal && Run(s', ds[1..][..j]).gate == 0) &&
               (Wait(s', ds[1..]).Waiting? ==> k == |ds[1..]|) && WaitRest(s', ds[1..]) == ds[1..][k..];
      assert ds[1..][k..] == ds[k + 1..];
      forall j | 0 <= j <= k + 1 && j > 0
        ensures Run(s, ds[..j]) == Run(s', ds[1..][..j - 1])
      {
        assert ds[..j] != [] && ds[..j][0] == ds[0] && ds[..j][1..] == ds[1..][..j - 1];
      }
      forall j | 0 <= j < k + 1
        ensures !Run(s, ds[..j]).fatal && Run(s, ds[..j]).gate == 0
      {
        if j == 0 { assert ds[..0] == []; }
      }
      assert WaitOutcomeOf(Wait(s, ds), Run(s, ds[..k + 1]));
    }
  }

  /**
   * The deliveries the wait leaves unhandled, still to reach the callbacks once the task
   * has moved on: everything from the one after the delivery that ended the wait.
   */
  function WaitRest(s: NetState, ds: seq<Delivery>): seq<Delivery>
    decreases |ds|
  {
    if s.fatal || s.gate > 0 then ds
    else if ds == [] then []
    else WaitRest(Step(s, ds[0]), ds[1..])
  }

  /**
   * Waiting and then handling what the wait left gives every delivery its turn: the
   * statuses published, the fatal outcome and the registrations are those of handling all
   * of them in order; only the permit the wait took makes the gate differ.
   */
  lemma {:induction false} WaitThenRest(s: NetState, ds: seq<Delivery>)
    ensures Run(Wait(s, ds).state, WaitRest(s, ds)).(gate := Run(s, ds).gate) == Run(s, ds)
    decreases |ds|
  {
    if s.fatal {
    } else if s.gate > 0 {
      RunIgnoresGate(s.(gate := s.gate - 1), s, ds);
    } else if ds != [] {
      WaitThenRest(Step(s, ds[0]), ds[1..]);
    }
  }

  /** How a wait result relates to the state reached by the deliveries handled. */
  predicate WaitOutcomeOf(w: WaitResult, reached: NetState)
  {
    match w
    case Opened(s) => !reached.fatal && reached.gate > 0 && s == reached.(gate := reached.gate - 1)
    case Halted(s) => reached.fatal && s == reached
    case Waiting(s) => !reached.fatal && reached.gate == 0 && s == reached
  }

  /** The wait opens exactly when an address add reaches the IPv4 callback before anything fatal. */
  lemma {:induction false} WaitOpensOnAddressAdd(s: NetState, ds: seq<Delivery>)
    requires !s.fatal && s.gate == 0 && Ipv4Callback in s.registered
    requires forall i :: 0 <= i < |ds| ==> ds[i].pubErr == 0
    ensures Wait(s, ds).Opened? <==>
              exists i :: 0 <= i < |ds| && ds[i].cb == Ipv4Callback && ds[i].event.Ipv4AddrAdd?
    ensures !Wait(s, ds).Halted?
    decreases |ds|
  {
    if ds != [] {
      var s' := Step(s, ds[0]);
      StepEffect(s, ds[0]);
      if ds[0].cb == Ipv4Callback && ds[0].event.Ipv4AddrAdd? {
        assert s'.gate == 1 && !s'.fatal;
      } else {
        assert s'.gate == 0 && !s'.fatal && s'.registered == s.registered;
        assert forall i :: 0 <= i < |ds[1..]| ==> ds[1..][i] == ds[i + 1];
        WaitOpensOnAddressAdd(s', ds[1..]);
        if exists i :: 0 <= i < |ds| && ds[i].cb == Ipv4Callback && ds[i].event.Ipv4AddrAdd? {
          var i :| 0 <= i < |ds| && ds[i].cb == Ipv4Callback && ds[i].event.Ipv4AddrAdd?;
          assert i > 0 && ds[1..][i - 1] == ds[i];
        }
      }
    }
  }

  function RegisteredBy(cfg: BuildConfig): set<Callback>
  {
    if cfg.multicastDiscovery then {WifiCallback, Ipv4Callback, McastCallback} else {WifiCallback, Ipv4Callback}
  }

  function RegisterSteps(cfg: BuildConfig): seq<TaskStep>
  {
    [Register(WifiCallback), Register(Ipv4Callback)] + (if cfg.multicastDiscovery then [Register(McastCallback)] else [])
  }

  /** The CONFIG_BT block: a request is issued only for a scanned record with an SSID. */
  function CredentialSteps(cfg: BuildConfig, env: Environment): seq<TaskStep>
  {
    if !cfg.bt then []
    else match BuildConnectParams(ScannedCredential(env.storedRecords))
      case None => []
      case Some(p) => [ApplyConfiguration(p, env.connectRc)]
  }

  /** The workload call, if any, then the closing log line. */
  function DispatchSteps(cfg: BuildConfig): seq<TaskStep>
  {
    match SelectWorkload(cfg)
    case None => [InitFinished]
    case Some(w) => [RunWorkload(w), InitFinished]
  }

  datatype BootResult = BootResult(trace: seq<TaskStep>, state: NetState)

  /** connect() under CONFIG_WIFI_CREDENTIALS_STATIC; None when it is not compiled in or succeeds. */
  function ConnectFailure(cfg: BuildConfig, env: Environment): Option<FatalReason>
  {
    if cfg.staticCredentials then ConnectStored(env.ifacePresent, env.storedConnectErr) else None
  }

  /** The steps before the task can end: registration, the credential block, an accepted connect(). */
  function Prelude(cfg: BuildConfig, env: Environment): seq<TaskStep>
  {
    RegisterSteps(cfg) + CredentialSteps(cfg, env) +
    (if cfg.staticCredentials && ConnectFailure(cfg, env).None? then [StoredConnectRequested] else [])
  }

  /**
   * How the task ends from the state s1 it reached after registering: fatally in connect(),
   * through the gate wait, or under CONFIG_SMF straight to the workload. The registered
   * callbacks go on handling the stack's events that the task does not wait for: all of
   * them under CONFIG_SMF, the ones after the wait ended otherwise.
   */
  function Finish(cfg: BuildConfig, env: Environment, s1: NetState): BootResult
  {
    match ConnectFailure(cfg, env)
    case Some(f) => BootResult([Fatal(f)], s1.(fatal := true))
    case None =>
      if cfg.smf then BootResult(DispatchSteps(cfg), Run(s1, env.pending))
      else
        var w := Wait(s1, env.pending);
        BootResult(WaitSteps(w) + (if w.Opened? then DispatchSteps(cfg) else []), Run(w.state, WaitRest(s1, env.pending)))
  }

  /** The step the wait ends with. */
  function WaitSteps(w: WaitResult): seq<TaskStep>
  {
    match w
    case Opened(_) => [GateTaken]
    case Halted(_) => [Fatal(PublishFailed)]
    case Waiting(_) => [Blocked]
  }

  /** The state network_task's registrations lead to. */
  function AfterRegistration(cfg: BuildConfig, s: NetState): NetState
  {
    s.(registered := s.registered + RegisteredBy(cfg))
  }

  /** network_task from state s: its steps and the shared state it leaves. */
  function RunNetworkTask(cfg: BuildConfig, env: Environment, s: NetState): BootResult
  {
    var r := Finish(cfg, env, AfterRegistration(cfg, s));
    BootResult(Prelude(cfg, env) + r.trace, r.state)
  }

  /** A step that only happens at the end of the task. */
  predicate Closing(t: TaskStep)
  {
    t.RunWorkload? || t == GateTaken || t.Fatal? || t == Blocked || t == InitFinished
  }

  /** The prelude holds no closing step. */
  lemma PreludeQuiet(cfg: BuildConfig, env: Environment)
    ensures forall i :: 0 <= i < |Prelude(cfg, env)| ==> !Closing(Prelude(cfg, env)[i])
  {
    var a, b := RegisterSteps(cfg), CredentialSteps(cfg, env);
    var c := if cfg.staticCredentials && ConnectFailure(cfg, env).None? then [StoredConnectRequested] else [];
    assert Prelude(cfg, env) == a + b + c;
    forall i | 0 <= i < |a + b + c| ensures !Closing((a + b + c)[i]) {
      if i < |a| { assert (a + b + c)[i] == a[i]; }
      else if i < |a| + |b| { assert (a + b + c)[i] == b[i - |a|]; }
      else { assert (a + b + c)[i] == c[i - |a| - |b|]; }
    }
  }

  /**
   * Where a workload can stand in the ending: only once, as the selected workload, first
   * under CONFIG_SMF and right after the gate was taken otherwise.
   */
  lemma FinishShape(cfg: BuildConfig, env: Environment, s1: NetState)
    ensures var t := Finish(cfg, env, s1).trace;
            |t| > 0 && !t[0].ApplyConfiguration? &&
            forall k :: 0 <= k < |t| ==>
              (Closing(t[k]) &&
               (t[k].RunWorkload? ==> SelectWorkload(cfg) == Some(t[k].w) && k == (if cfg.smf then 0 else 1) &&
                                      (!cfg.smf ==> t[0] == GateTaken)))
  {
  }

  /** The whole trace is the prelude followed by the ending. */
  lemma TraceSplit(cfg: BuildConfig, env: Environment, s: NetState, i: nat)
    requires i < |RunNetworkTask(cfg, env, s).trace|
    ensures var p := Prelude(cfg, env);
            var t := RunNetworkTask(cfg, env, s).trace;
            if i < |p| then t[i] == p[i] else t[i] == Finish(cfg, env, AfterRegistration(cfg, s)).trace[i - |p|]
  {
  }

  /**
   * At most one workload runs, it is the one the #if/#elif chain selects, and when the
   * gate wait is compiled in it runs only after the gate was taken.
   */
  lemma WorkloadDiscipline(cfg: BuildConfig, env: Environment, s: NetState)
    ensures var t := RunNetworkTask(cfg, env, s).trace;
            forall i, j :: 0 <= i < j < |t| ==> !(t[i].RunWorkload? && t[j].RunWorkload?)
    ensures var t := RunNetworkTask(cfg, env, s).trace;
            forall i :: 0 <= i < |t| && t[i].RunWorkload? ==> SelectWorkload(cfg) == Some(t[i].w)
    ensures var t := RunNetworkTask(cfg, env, s).trace;
            forall i :: 0 <= i < |t| && t[i].RunWorkload? && !cfg.smf ==>
              exists j :: 0 <= j < i && t[j] == GateTaken
  {
    var t := RunNetworkTask(cfg, env, s).trace;
    var p := Prelude(cfg, env);
    var f := Finish(cfg, env, AfterRegistration(cfg, s)).trace;
    PreludeQuiet(cfg, env);
    FinishShape(cfg, env, AfterRegistration(cfg, s));
    assert t == p + f;
    forall i | 0 <= i < |t| && t[i].RunWorkload?
      ensures i >= |p| && f[i - |p|] == t[i]
      ensures SelectWorkload(cfg) == Some(t[i].w)
      ensures i - |p| == (if cfg.smf then 0 else 1)
      ensures !cfg.smf ==> t[|p|] == GateTaken
    {
      TraceSplit(cfg, env, s, i);
      if i < |p| { assert Closing(p[i]); }
      if !cfg.smf { TraceSplit(cfg, env, s, |p|); }
    }
  }

  /**
   * A workload runs exactly when one is compiled in, no fatal error stopped the task and
   * either no wait is compiled in or the wait opened.
   */
  lemma WorkloadRunsIff(cfg: BuildConfig, env: Environment, s: NetState)
    ensures var t := RunNetworkTask(cfg, env, s).trace;
            (exists i :: 0 <= i < |t| && t[i].RunWorkload?) <==>
              SelectWorkload(cfg).Some? && ConnectFailure(cfg, env).None? &&
              (cfg.smf || Wait(AfterRegistration(cfg, s), env.pending).Opened?)
  {
    var t := RunNetworkTask(cfg, env, s).trace;
    var p := Prelude(cfg, env);
    var f := Finish(cfg, env, AfterRegistration(cfg, s)).trace;
    PreludeQuiet(cfg, env);
    assert t == p + f;
    if exists i :: 0 <= i < |t| && t[i].RunWorkload? {
      var i :| 0 <= i < |t| && t[i].RunWorkload?;
      TraceSplit(cfg, env, s, i);
      if i < |p| { assert Closing(p[i]); }
    }
    if SelectWorkload(cfg).Some? && ConnectFailure(cfg, env).None? &&
       (cfg.smf || Wait(AfterRegistration(cfg, s), env.pending).Opened?) {
      var k := if cfg.smf then 0 else 1;
      TraceSplit(cfg, env, s, |p| + k);
      assert t[|p| + k].RunWorkload?;
    }
  }

  /** A connect request is issued exactly when CONFIG_BT is set and the scanned record has an SSID. */
  lemma CredentialRequestIff(cfg: BuildConfig, env: Environment, s: NetState)
    ensures var t := RunNetworkTask(cfg, env, s).trace;
            (exists i :: 0 <= i < |t| && t[i].ApplyConfiguration?) <==>
              cfg.bt && ScannedCredential(env.storedRecords).header.ssidLen > 0
  {
    var t := RunNetworkTask(cfg, env, s).trace;
    var p := Prelude(cfg, env);
    var f := Finish(cfg, env, AfterRegistration(cfg, s)).trace;
    FinishShape(cfg, env, AfterRegistration(cfg, s));
    if exists i :: 0 <= i < |t| && t[i].ApplyConfiguration? {
      var i :| 0 <= i < |t| && t[i].ApplyConfiguration?;
      TraceSplit(cfg, env, s, i);
      if i < |p| {
        var a, b := RegisterSteps(cfg), CredentialSteps(cfg, env);
        var c := if cfg.staticCredentials && ConnectFailure(cfg, env).None? then [StoredConnectRequested] else [];
        assert p == a + b + c;
        if i < |a| { assert p[i] == a[i]; }
        else if i < |a| + |b| { assert p[i] == b[i - |a|]; }
      }
    }
    if cfg.bt && ScannedCredential(env.storedRecords).header.ssidLen > 0 {
      var i := |RegisterSteps(cfg)|;
      TraceSplit(cfg, env, s, i);
      assert p[i] == CredentialSteps(cfg, env)[0];
      assert t[i].ApplyConfiguration?;
    }
  }

  /**
   * Whatever the stored-credential connect request returns, the task ends with the same
   * step and leaves the same shared state: a failure there is only logged.
   */
  lemma CredentialConnectNeverFatal(cfg: BuildConfig, env: Environment, s: NetState, rc: int)
    ensures RunNetworkTask(cfg, env.(connectRc := rc), s).state == RunNetworkTask(cfg, env, s).state
    ensures var t := RunNetworkTask(cfg, env, s).trace;
            var t' := RunNetworkTask(cfg, env.(connectRc := rc), s).trace;
            |t| == |t'| > 0 && t[|t| - 1] == t'[|t'| - 1]
  {
    var env' := env.(connectRc := rc);
    assert Finish(cfg, env', AfterRegistration(cfg, s)) == Finish(cfg, env, AfterRegistration(cfg, s));
    assert |Prelude(cfg, env')| == |Prelude(cfg, env)|;
    FinishShape(cfg, env, AfterRegistration(cfg, s));
  }

  /**
   * A fatal error in connect() ends the task at once: the last step is the fatal one, the
   * gate is not waited on, no workload runs and the fatal flag is raised.
   */
  lemma StaticConnectFailureStops(cfg: BuildConfig, env: Environment, s: NetState)
    requires cfg.staticCredentials
    requires !env.ifacePresent || env.storedConnectErr != 0
    ensures var r := RunNetworkTask(cfg, env, s);
            |r.trace| > 0 && r.state.fatal &&
            r.trace[|r.trace| - 1] == Fatal(if env.ifacePresent then StoredConnectFailed(env.storedConnectErr) else NoDefaultInterface)
    ensures var t := RunNetworkTask(cfg, env, s).trace;
            forall i :: 0 <= i < |t| ==> t[i] != GateTaken && !t[i].RunWorkload?
  {
    PreludeQuiet(cfg, env);
    var t := RunNetworkTask(cfg, env, s).trace;
    forall i | 0 <= i < |t| ensures t[i] != GateTaken && !t[i].RunWorkload? {
      TraceSplit(cfg, env, s, i);
      if i < |Prelude(cfg, env)| { assert !Closing(Prelude(cfg, env)[i]); }
    }
  }

  /**
   * When connect() does not fail, every event reaches the callbacks, with or without the
   * gate wait: the statuses published and the fatal outcome are those of handling all of
   * them in order after registration.
   */
  lemma TaskHandlesEveryEvent(cfg: BuildConfig, env: Environment, s: NetState)
    requires ConnectFailure(cfg, env).None?
    ensures var r := RunNetworkTask(cfg, env, s).state;
            var all := Run(AfterRegistration(cfg, s), env.pending);
            r.published == all.published && r.fatal == all.fatal && r.registered == all.registered
  {
    WaitThenRest(AfterRegistration(cfg, s), env.pending);
  }

  /**
   * Started without a fatal error, the task ends fatally exactly when connect() fails or
   * some event's publish fails in a registered callback, before or after the gate opened.
   */
  lemma FatalIff(cfg: BuildConfig, env: Environment, s: NetState)
    requires !s.fatal
    ensures RunNetworkTask(cfg, env, s).state.fatal <==>
              ConnectFailure(cfg, env).Some? ||
              exists i :: 0 <= i < |env.pending| && FailedPublish(AfterRegistration(cfg, s).registered, env.pending[i])
  {
    if ConnectFailure(cfg, env).None? {
      TaskHandlesEveryEvent(cfg, env, s);
    }
    RunFatalIff(AfterRegistration(cfg, s), env.pending);
  }

  /**
   * Boot with the store empty and only CONFIG_BT: registration is followed directly by the
   * wait (no connect request), and one address add with a successful publish opens it.
   */
  lemma EmptyStoreGoesStraightToWait(cfg: BuildConfig, env: Environment)
    requires cfg.bt && !cfg.staticCredentials && !cfg.smf
    requires env.storedRecords == []
    requires env.pending == [Delivery(Ipv4Callback, Ipv4AddrAdd, 0)]
    ensures RunNetworkTask(cfg, env, Initial).trace == RegisterSteps(cfg) + [GateTaken] + DispatchSteps(cfg)
    ensures RunNetworkTask(cfg, env, Initial).state.published == [Connected]
    ensures RunNetworkTask(cfg, env, Initial).state.gate == 0
  {
    var s1 := AfterRegistration(cfg, Initial);
    var s2 := Step(s1, env.pending[0]);
    assert s2.gate == 1 && s2.published == [Connected] && !s2.fatal;
    assert env.pending[1..] == [];
    assert Wait(s1, env.pending) == Wait(s2, []) == Opened(s2.(gate := 0));
    assert WaitRest(s1, env.pending) == [];
    assert CredentialSteps(cfg, env) == [];
    assert Prelude(cfg, env) == RegisterSteps(cfg);
  }
}
