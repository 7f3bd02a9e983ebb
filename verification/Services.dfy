/**
 Service start-up. Services name the services they depend on; `start_all` sweeps
 over them until a sweep starts nothing new. From freshly registered services its
 result is characterised without reference to the sweeps: the least set of
 services that is closed under "callbacks succeed and all dependencies run".
 */
module Services {
  import opened Machine

  datatype ServiceState = Registered | Initializing | Ready | Running | Paused | Stopping | Stopped | Failed

  /** A service, with what its two start-up callbacks will answer. */
  datatype Service = Service(id: nat, deps: seq<nat>, initOk: bool, startOk: bool) {
    predicate Succeeds() { initOk && startOk }
  }

  datatype ServiceError = DependenciesNotReady | ServiceBusy | ServiceFailed | CallbackFailed | SomeNotRunning

  /** A callback that was invoked, by the index of its service. */
  datatype Call = InitCall(idx: nat) | StartCall(idx: nat)

  // ---------------------------------------------------------------- lookup and single steps

  predicate DistinctIds(services: seq<Service>) {
    forall i, j :: 0 <= i < j < |services| ==> services[i].id != services[j].id
  }

  /** `index_of`: the first service with the identifier. */
  function IndexOf(services: seq<Service>, id: nat): (r: Option<nat>)
    ensures r.Some? ==> r.value < |services| && services[r.value].id == id
    ensures r.None? ==> forall i :: 0 <= i < |services| ==> services[i].id != id
    decreases |services|
  {
    if services == [] then None
    else if services[0].id == id then Some(0)
    else
      match IndexOf(services[1..], id)
      case None => assert forall i :: 1 <= i < |services| ==> services[i] == services[1..][i - 1]; None
      case Some(i) => Some(i + 1)
  }

  predicate DepReady(services: seq<Service>, states: seq<ServiceState>, dep: nat)
    requires |services| == |states|
  {
    var i := IndexOf(services, dep);
    i.Some? && (states[i.value] == Running || states[i.value] == Ready)
  }

  /** `deps_ready_to_start`. */
  predicate DepsReady(services: seq<Service>, states: seq<ServiceState>, idx: nat)
    requires |services| == |states| && idx < |services|
  {
    forall d :: 0 <= d < |services[idx].deps| ==> DepReady(services, states, services[idx].deps[d])
  }

  datatype Outcome = Outcome(state: ServiceState, result: Result<(), ServiceError>, calls: seq<Call>)

  /** `init_at`, on one service. */
  function InitOutcome(service: Service, state: ServiceState, idx: nat): Outcome {
    match state
    case Registered | Stopped =>
      if service.initOk then Outcome(Ready, Ok(()), [InitCall(idx)])
      else Outcome(Failed, Err(CallbackFailed), [InitCall(idx)])
    case Ready | Running => Outcome(state, Ok(()), [])
    case Initializing | Stopping | Paused => Outcome(state, Err(ServiceBusy), [])
    case Failed => Outcome(state, Err(ServiceFailed), [])
  }

  /** `start_at`, on one service, given whether its dependencies are ready. */
  function StartOutcome(service: Service, state: ServiceState, idx: nat, depsReady: bool): Outcome {
    if !depsReady then Outcome(state, Err(DependenciesNotReady), [])
    else if state == Running then Outcome(state, Ok(()), [])
    else
      var init := InitOutcome(service, state, idx);
      if init.result.Err? then init
      else if service.startOk then Outcome(Running, Ok(()), init.calls + [StartCall(idx)])
      else Outcome(Failed, Err(CallbackFailed), init.calls + [StartCall(idx)])
  }

  // ---------------------------------------------------------------- the closed sets

  /** A set of identifiers that contains every service whose callbacks succeed and whose dependencies it contains. */
  ghost predicate Closed(services: seq<Service>, s: set<nat>) {
    forall v :: v in services && v.Succeeds() && (forall d :: d in v.deps ==> d in s) ==> v.id in s
  }

  ghost predicate LeastClosed(services: seq<Service>, r: set<nat>) {
    Closed(services, r) && forall s: set<nat> :: Closed(services, s) ==> r <= s
  }

  ghost function RunningIds(services: seq<Service>, states: seq<ServiceState>): set<nat>
    requires |services| == |states|
  {
    set i | 0 <= i < |services| && states[i] == Running :: services[i].id
  }

  /** The least closed set depends on which services there are, not on their order. */
  lemma LeastClosedIgnoresOrder(a: seq<Service>, b: seq<Service>, r: set<nat>, q: set<nat>)
    requires forall v :: v in a <==> v in b
    requires LeastClosed(a, r) && LeastClosed(b, q)
    ensures r == q
  {
    assert Closed(b, r) && Closed(a, q);
  }

  // ---------------------------------------------------------------- the start-up invariant

  predicate Plain(state: ServiceState) { state == Registered || state == Running || state == Failed }

  ghost predicate RunsSoundly(services: seq<Service>, states: seq<ServiceState>) {
    && |services| == |states|
    && forall s: set<nat> :: Closed(services, s) ==> RunningIds(services, states) <= s
  }

  /** Index `i` starts after the starts of all its dependencies. */
  ghost predicate StartedInOrder(services: seq<Service>, log: seq<Call>, k: nat)
    requires k < |log|
  {
    log[k].StartCall? && log[k].idx < |services| ==>
      forall d :: d in services[log[k].idx].deps ==>
        exists j: nat :: j < |services| && services[j].id == d && StartCall(j) in log[..k]
  }

  ghost predicate NoRepeats(log: seq<Call>) { forall i, j :: 0 <= i < j < |log| ==> log[i] != log[j] }

  /** The calls made so far are those the states tell of. */
  ghost predicate LogFits(services: seq<Service>, states: seq<ServiceState>, log: seq<Call>)
    requires |services| == |states|
  {
    && (forall i: nat :: InitCall(i) in log <==> i < |services| && states[i] != Registered)
    && (forall i: nat :: StartCall(i) in log <==> i < |services| && states[i] != Registered && services[i].initOk)
  }

  ghost predicate StartInv(services: seq<Service>, states: seq<ServiceState>, log: seq<Call>) {
    && |services| == |states| && DistinctIds(services)
    && (forall i :: 0 <= i < |states| ==> Plain(states[i]))
    && (forall i :: 0 <= i < |states| && states[i] == Running ==> services[i].Succeeds())
    && (forall i :: 0 <= i < |states| && states[i] == Failed ==> !services[i].Succeeds())
    && RunsSoundly(services, states)
    && NoRepeats(log) && LogFits(services, states, log)
    && (forall k: nat | k < |log| :: StartedInOrder(services, log, k))
  }

  lemma FreshInv(services: seq<Service>, states: seq<ServiceState>)
    requires |services| == |states| && DistinctIds(services)
    requires forall i :: 0 <= i < |states| ==> states[i] == Registered
    ensures StartInv(services, states, [])
  {
    assert RunningIds(services, states) == {};
  }

  /** With plain states, ready dependencies are running ones. */
  lemma ReadyMeansRunning(services: seq<Service>, states: seq<ServiceState>, idx: nat)
    requires |services| == |states| && idx < |services| && DistinctIds(services)
    requires forall i :: 0 <= i < |states| ==> Plain(states[i])
    ensures DepsReady(services, states, idx) <==> forall d :: d in services[idx].deps ==> d in RunningIds(services, states)
  {
    forall d ensures DepReady(services, states, d) <==> d in RunningIds(services, states) {
      var i := IndexOf(services, d);
    }
  }

  /** Starting a service whose dependencies are ready keeps the invariant. */
  lemma StartKeepsInv(services: seq<Service>, states: seq<ServiceState>, log: seq<Call>, idx: nat)
    requires StartInv(services, states, log) && idx < |services| && DepsReady(services, states, idx)
    ensures var o := StartOutcome(services[idx], states[idx], idx, true);
            StartInv(services, states[idx := o.state], log + o.calls)
  {
    var v, o := services[idx], StartOutcome(services[idx], states[idx], idx, true);
    if states[idx] == Registered {
      ReadyMeansRunning(services, states, idx);
      var after := states[idx := o.state];
      StartIsSound(services, states, idx, o.state);
      OrderKept(services, states, log, idx, o.calls);
      LogStays(services, states, log, idx, o);
    } else {
      assert states[idx := o.state] == states && log + o.calls == log;
    }
  }

  lemma StartIsSound(services: seq<Service>, states: seq<ServiceState>, idx: nat, state: ServiceState)
    requires RunsSoundly(services, states) && idx < |services| && states[idx] != Running
    requires forall d :: d in services[idx].deps ==> d in RunningIds(services, states)
    requires state == Running ==> services[idx].Succeeds()
    ensures RunsSoundly(services, states[idx := state])
  {
    var after := states[idx := state];
    forall s: set<nat> | Closed(services, s)
      ensures RunningIds(services, after) <= s
    {
      assert RunningIds(services, states) <= s;
      assert services[idx] in services;
      forall id | id in RunningIds(services, after) ensures id in s {
        var i :| 0 <= i < |services| && after[i] == Running && services[i].id == id;
        if i != idx { assert services[i].id in RunningIds(services, states); }
      }
    }
  }

  lemma OrderKept(services: seq<Service>, states: seq<ServiceState>, log: seq<Call>, idx: nat, calls: seq<Call>)
    requires StartInv(services, states, log) && idx < |services|
    requires forall d :: d in services[idx].deps ==> d in RunningIds(services, states)
    requires calls == [InitCall(idx)] || calls == [InitCall(idx), StartCall(idx)]
    ensures forall k: nat | k < |log + calls| :: StartedInOrder(services, log + calls, k)
  {
    var all := log + calls;
    forall k: nat | k < |all|
      ensures StartedInOrder(services, all, k)
    {
      if k < |log| {
        assert StartedInOrder(services, log, k) && all[..k] == log[..k];
      } else if k == |log| + 1 {
        forall d | d in services[idx].deps
          ensures exists j: nat :: j < |services| && services[j].id == d && StartCall(j) in all[..k]
        {
          var j :| 0 <= j < |services| && states[j] == Running && services[j].id == d;
          assert StartCall(j) in log;
          var w :| 0 <= w < |log| && log[w] == StartCall(j);
          assert all[..k][w] == StartCall(j);
        }
      }
    }
  }

  lemma LogStays(services: seq<Service>, states: seq<ServiceState>, log: seq<Call>, idx: nat, o: Outcome)
    requires StartInv(services, states, log) && idx < |services| && states[idx] == Registered
    requires o == StartOutcome(services[idx], states[idx], idx, true)
    ensures NoRepeats(log + o.calls) && LogFits(services, states[idx := o.state], log + o.calls)
  {
    assert InitCall(idx) !in log && StartCall(idx) !in log;
    var calls := if services[idx].initOk then [InitCall(idx), StartCall(idx)] else [InitCall(idx)];
    assert o.calls == calls && o.state != Registered;
    assert LogFits(services, states, log) && NoRepeats(log);
    hide StartInv, StartOutcome;
    NoneRepeated(log, calls);
    hide NoRepeats;
    assert forall c :: c in log + calls <==> c in log || c in calls;
  }

  lemma NoneRepeated(log: seq<Call>, more: seq<Call>)
    requires NoRepeats(log) && NoRepeats(more) && forall c :: c in more ==> c !in log
    ensures NoRepeats(log + more)
  {
    var all := log + more;
    forall i, j | 0 <= i < j < |all| ensures all[i] != all[j] {
      if i < |log| <= j { assert all[i] in log && all[j] in more; }
    }
  }

  /** A sweep that found nothing to start, or nothing left to start, leaves the least closed set running. */
  lemma QuietMeansLeast(services: seq<Service>, states: seq<ServiceState>, log: seq<Call>)
    requires StartInv(services, states, log)
    requires forall i: nat | i < |services| :: Quiet(services, states, i)
    ensures LeastClosed(services, RunningIds(services, states))
  {
    var r := RunningIds(services, states);
    forall v | v in services && v.Succeeds() && (forall d :: d in v.deps ==> d in r)
      ensures v.id in r
    {
      var i :| 0 <= i < |services| && services[i] == v;
      assert Quiet(services, states, i);
      ReadyMeansRunning(services, states, i);
    }
  }

  /** Service `i` runs, has failed, or waits for a dependency. */
  ghost predicate Quiet(services: seq<Service>, states: seq<ServiceState>, i: nat)
    requires |services| == |states| && i < |services|
  {
    states[i] == Running || states[i] == Failed || !DepsReady(services, states, i)
  }

  /** A service that fails to start leaves the others' readiness alone. */
  lemma QuietStays(services: seq<Service>, states: seq<ServiceState>, idx: nat, state: ServiceState, i: nat)
    requires |services| == |states| && idx < |services| && i < |services| && i != idx
    requires Plain(states[idx]) && Plain(state) && states[idx] != Running && state != Running
    requires Quiet(services, states, i)
    ensures Quiet(services, states[idx := state], i)
  {
    forall d ensures DepReady(services, states[idx := state], d) == DepReady(services, states, d) {}
  }

  function NotRunning(states: seq<ServiceState>): nat {
    if states == [] then 0 else (if states[0] == Running then 0 else 1) + NotRunning(states[1..])
  }

  lemma {:induction false} NotRunningUpdate(states: seq<ServiceState>, idx: nat, state: ServiceState)
    requires idx < |states| && states[idx] != Running
    ensures NotRunning(states[idx := state]) == NotRunning(states) - (if state == Running then 1 else 0)
  {
    var after := states[idx := state];
    if idx == 0 {
      assert after[1..] == states[1..];
    } else {
      assert after[1..] == states[1..][idx - 1 := state];
      NotRunningUpdate(states[1..], idx - 1, state);
    }
  }

  // ---------------------------------------------------------------- the manager

  class ServiceManager {
    var services: seq<Service>
    var states: seq<ServiceState>
    ghost var log: seq<Call>    // every callback invocation so far

    ghost predicate Valid()
      reads this
    {
      |services| == |states| && DistinctIds(services)
    }

    /** All services are registered and none has been started. */
    ghost predicate Fresh()
      reads this
    {
      log == [] && forall i :: 0 <= i < |states| ==> states[i] == Registered
    }

    constructor ()
      ensures Valid() && Fresh() && services == []
    {
      services, states, log := [], [], [];
    }

    /** `register`: adds the service unless its identifier is taken. */
    method Register(service: Service)
      requires Valid()
      modifies this
      ensures Valid() && log == old(log)
      ensures if exists v :: v in old(services) && v.id == service.id
              then services == old(services) && states == old(states)
              else services == old(services) + [service] && states == old(states) + [Registered]
    {
      var found := IndexOf(services, service.id);
      if found.Some? {
        assert services[found.value] in services;
        return;
      }
      services, states := services + [service], states + [Registered];
    }

    /** `start_at`. */
    method StartAt(idx: nat) returns (r: Result<(), ServiceError>)
      requires Valid() && idx < |services|
      modifies this`states, this`log
      ensures Valid()
      ensures var o := StartOutcome(services[idx], old(states)[idx], idx, DepsReady(services, old(states), idx));
              r == o.result && states == old(states)[idx := o.state] && log == old(log) + o.calls
    {
      if !DepsReady(services, states, idx) {
        assert log + [] == log;
        return Err(DependenciesNotReady);
      }
      if states[idx] == Running {
        assert log + [] == log;
        return Ok(());
      }
      var init := InitAt(idx);
      if init.Err? { return init; }
      log := log + [StartCall(idx)];
      if services[idx].startOk {
        states := states[idx := Running];
        return Ok(());
      }
      states := states[idx := Failed];
      return Err(CallbackFailed);
    }

    /** `init_at`. */
    method InitAt(idx: nat) returns (r: Result<(), ServiceError>)
      requires Valid() && idx < |services|
      modifies this`states, this`log
      ensures Valid()
      ensures var o := InitOutcome(services[idx], old(states)[idx], idx);
              r == o.result && states == old(states)[idx := o.state] && log == old(log) + o.calls
    {
      match states[idx] {
        case Registered | Stopped =>
          states := states[idx := Initializing];
          log := log + [InitCall(idx)];
          if services[idx].initOk {
            states := states[idx := Ready];
            return Ok(());
          }
          states := states[idx := Failed];
          return Err(CallbackFailed);
        case Ready | Running =>
          assert log + [] == log;
          return Ok(());
        case Initializing | Stopping | Paused =>
          assert log + [] == log;
          return Err(ServiceBusy);
        case Failed =>
          assert log + [] == log;
          return Err(ServiceFailed);
      }
    }

    /** One sweep of `start_all`. */
    method Sweep() returns (progressed: bool)
      requires Valid()
      modifies this`states, this`log
      ensures Valid() && NotRunning(states) <= old(NotRunning(states))
      ensures progressed ==> NotRunning(states) < old(NotRunning(states))
      ensures old(StartInv(services, states, log)) ==> StartInv(services, states, log)
      ensures old(StartInv(services, states, log)) && !progressed ==>
                forall i: nat | i < |services| :: Quiet(services, states, i)
    {
      hide DepsReady;
      progressed := false;
      ghost var startup := StartInv(services, states, log);
      for idx := 0 to |services|
        invariant Valid() && NotRunning(states) <= old(NotRunning(states))
        invariant progressed ==> NotRunning(states) < old(NotRunning(states))
        invariant startup ==> StartInv(services, states, log)
        invariant startup && !progressed ==> forall i: nat | i < idx :: Quiet(services, states, i)
      {
        if states[idx] == Running { continue; }
        if DepsReady(services, states, idx) {
          ghost var before, calls := states, log;
          if startup { StartKeepsInv(services, states, log, idx); }
          var r := StartAt(idx);
          NotRunningUpdate(before, idx, states[idx]);
          if r.Ok? { progressed := true; }
          if startup && !progressed {
            forall i: nat | i < idx ensures Quiet(services, states, i) {
              QuietStays(services, before, idx, states[idx], i);
            }
          }
        }
      }
    }

    /**
     `start_all`: terminates; succeeds exactly when every service runs; and from freshly registered
     services, the running ones are the least closed set, each callback ran at most once, and each
     service was started after its dependencies.
     */
    method StartAll() returns (r: Result<(), ServiceError>)
      requires Valid()
      modifies this`states, this`log
      ensures Valid()
      ensures r == if forall i :: 0 <= i < |states| ==> states[i] == Running then Ok(()) else Err(SomeNotRunning)
      ensures old(Fresh()) ==>
                && LeastClosed(services, RunningIds(services, states))
                && NoRepeats(log) && LogFits(services, states, log)
                && (forall k: nat | k < |log| :: StartedInOrder(services, log, k))
    {
      ghost var startup := Fresh();
      if startup { FreshInv(services, states); }
      var progressed := true;
      hide Quiet, RunsSoundly, LogFits, StartedInOrder;
      while progressed
        invariant Valid()
        invariant startup ==> StartInv(services, states, log)
        invariant startup && !progressed ==> forall i: nat | i < |services| :: Quiet(services, states, i)
        decreases NotRunning(states), progressed
      {
        progressed := Sweep();
        if forall i :: 0 <= i < |states| ==> states[i] == Running || states[i] == Failed {
          SettledIsQuiet(services, states);
          break;
        }
      }
      if startup { QuietMeansLeast(services, states, log); }
      if exists i :: 0 <= i < |states| && states[i] != Running { return Err(SomeNotRunning); }
      return Ok(());
    }
  }

  lemma SettledIsQuiet(services: seq<Service>, states: seq<ServiceState>)
    requires |services| == |states|
    requires forall i :: 0 <= i < |states| ==> states[i] == Running || states[i] == Failed
    ensures forall i: nat | i < |services| :: Quiet(services, states, i)
  {
  }
}
