/**
 One launch's start of the macOS login service: activation of the registration,
 a start request with its recoveries, and the fallback to a child runtime. The
 service and launchd outside are any world whatever: each answer may depend on
 everything asked and answered before.
 */
module LoginService {
  import opened Wrappers

  datatype ServiceStatus = NotRegistered | Enabled | RequiresApproval | NotFound

  datatype Registration = Done | Denied | Refused

  datatype Activation = ActiveEnabled | ActiveRequiresApproval | ActiveNotFound | ActiveFailed

  datatype Outcome = EndpointPresent | Requested | EndpointCheckFailed | RequestFailed | JobInactive

  datatype Recovery = NoRecovery | Reregistered | RecoveryFailed

  datatype LoginServiceStart = Inactive(activation: Activation) | Started(outcome: Outcome)

  /** One call of an adapter with its answer; None is a failed reading. */
  datatype Step =
    | Status(status: Option<ServiceStatus>)
    | Register(registration: Registration)
    | Unregister(done: bool)
    | Endpoint(present: Option<bool>)
    | Request(accepted: bool)
    | Job(active: Option<bool>)
    | Constraint(violated: bool)

  type History = seq<Step>

  /** How the outside answers each call, given all that came before it. */
  datatype World = World(
    status: History -> Option<ServiceStatus>,
    register: History -> Registration,
    unregister: History -> bool,
    endpoint: History -> Option<bool>,
    request: History -> bool,
    job: History -> Option<bool>,
    constraint: History -> bool)

  /** The signature recorded with the registration, and the one the bundle carries now. */
  datatype Signatures = Signatures(recorded: Option<string>, current: Option<string>)
  {
    predicate Changed() {
      match (recorded, current)
      case (_, None) => false
      case (None, Some(_)) => true
      case (Some(r), Some(c)) => r != c
    }
  }

  const ENABLED := Status(Some(Enabled))

  // ------------------------------------------- what each part asks and answers

  function MapStatus(status: Option<ServiceStatus>): Activation {
    match status
    case Some(Enabled) => ActiveEnabled
    case Some(RequiresApproval) => ActiveRequiresApproval
    case Some(NotFound) => ActiveNotFound
    case Some(NotRegistered) => ActiveFailed
    case None => ActiveFailed
  }

  function Registered(w: World, log: History): (Activation, History) {
    var r := w.register(log);
    var s := w.status(log + [Register(r)]);
    (if r.Denied? then ActiveRequiresApproval else if r.Refused? then ActiveFailed else MapStatus(s),
     log + [Register(r)] + [Status(s)])
  }

  /** A registration made again: whatever the unregistration answers, the service is registered anew. */
  function Renewed(w: World, log: History): (Activation, History) {
    Registered(w, log + [Unregister(w.unregister(log))])
  }

  function Activated(w: World, signatureChanged: bool, log: History): (Activation, bool, History) {
    var s := w.status(log);
    var read := log + [Status(s)];
    match s
    case Some(NotRegistered) => var (a, l) := Registered(w, read); (a, true, l)
    case Some(NotFound) => var (a, l) := Registered(w, read); (a, true, l)
    case _ =>
      if s == Some(Enabled) && signatureChanged then var (a, l) := Renewed(w, read); (a, true, l)
      else (MapStatus(s), false, read)
  }

  function Asked(w: World, log: History): (Outcome, History) {
    var e := w.endpoint(log);
    var seen := log + [Endpoint(e)];
    match e
    case Some(true) => (EndpointPresent, seen)
    case Some(false) =>
      var accepted := w.request(seen);
      (if accepted then Requested else RequestFailed, seen + [Request(accepted)])
    case None => (EndpointCheckFailed, seen)
  }

  function Recovered(w: World, log: History): (Outcome, Recovery, History) {
    var gone := w.unregister(log);
    var log1 := log + [Unregister(gone)];
    if !gone then (RequestFailed, RecoveryFailed, log1)
    else
      var r := w.register(log1);
      var log2 := log1 + [Register(r)];
      if !r.Done? then (RequestFailed, RecoveryFailed, log2)
      else
        var s := w.status(log2);
        var log3 := log2 + [Status(s)];
        if s != Some(Enabled) then (RequestFailed, RecoveryFailed, log3)
        else
          var (outcome, log4) := Asked(w, log3);
          (outcome, Reregistered, log4)
  }

  function AskedWithRecovery(w: World, log: History): (Outcome, Recovery, History) {
    var (outcome, asked) := Asked(w, log);
    if outcome.RequestFailed? then Recovered(w, asked) else (outcome, NoRecovery, asked)
  }

  function Confirmed(w: World, outcome: Outcome, log: History): (Outcome, History) {
    if !outcome.Requested? then (outcome, log)
    else
      var active := w.job(log);
      (if active == Some(false) then JobInactive else outcome, log + [Job(active)])
  }

  /** A job under a launch constraint, registered by an earlier launch, is registered again and started once more. */
  function AfterConstraint(w: World, registered: bool, log: History): (Outcome, Recovery, History) {
    var violated := w.constraint(log);
    var log1 := log + [Constraint(violated)];
    if !violated || registered then (JobInactive, NoRecovery, log1)
    else
      var (activation, log2) := Renewed(w, log1);
      if !activation.ActiveEnabled? then (RequestFailed, RecoveryFailed, log2)
      else
        var (outcome, log3) := Asked(w, log2);
        var (confirmed, log4) := Confirmed(w, outcome, log3);
        (confirmed, Reregistered, log4)
  }

  function StartedEnabled(w: World, registered: bool, log: History): (Outcome, Recovery, History) {
    var (outcome, recovery, log1) := AskedWithRecovery(w, log);
    var (confirmed, log2) := Confirmed(w, outcome, log1);
    if confirmed.JobInactive? && recovery.NoRecovery? then AfterConstraint(w, registered, log2)
    else (confirmed, recovery, log2)
  }

  predicate FallsBack(outcome: Outcome) {
    outcome.JobInactive? || outcome.RequestFailed?
  }

  /** The last unregistration; the constraint is read again for the record. */
  function FellBack(w: World, hasStart: bool, outcome: Outcome, log: History): History {
    if !FallsBack(outcome) then log
    else
      var gone := log + [Unregister(w.unregister(log))];
      if hasStart then gone + [Constraint(w.constraint(gone))] else gone
  }

  /** Without a profile directory there is no start adapter and the request fails at once. */
  function StartedOrFellBack(w: World, hasStart: bool, registered: bool, log: History): (Outcome, History) {
    var (outcome, _, started) :=
      if hasStart then StartedEnabled(w, registered, log) else (RequestFailed, NoRecovery, log);
    (outcome, FellBack(w, hasStart, outcome, started))
  }

  /** A whole launch. */
  function Launched(w: World, hasStart: bool, signatures: Signatures, log: History): (LoginServiceStart, History) {
    var (activation, registered, log1) := Activated(w, signatures.Changed(), log);
    if !activation.ActiveEnabled? then (Inactive(activation), log1)
    else
      var (outcome, log2) := StartedOrFellBack(w, hasStart, registered, log1);
      (Started(outcome), log2)
  }

  class Adapters {
    const world: World
    var log: History

    constructor (world: World)
      ensures this.world == world && log == []
    {
      this.world := world;
      log := [];
    }

    method GetStatus() returns (s: Option<ServiceStatus>)
      modifies this
      ensures s == world.status(old(log)) && log == old(log) + [Status(s)]
    {
      s := world.status(log);
      log := log + [Status(s)];
    }

    method DoRegister() returns (r: Registration)
      modifies this
      ensures r == world.register(old(log)) && log == old(log) + [Register(r)]
    {
      r := world.register(log);
      log := log + [Register(r)];
    }

    method DoUnregister() returns (done: bool)
      modifies this
      ensures done == world.unregister(old(log)) && log == old(log) + [Unregister(done)]
    {
      done := world.unregister(log);
      log := log + [Unregister(done)];
    }

    method EndpointExists() returns (present: Option<bool>)
      modifies this
      ensures present == world.endpoint(old(log)) && log == old(log) + [Endpoint(present)]
    {
      present := world.endpoint(log);
      log := log + [Endpoint(present)];
    }

    method RequestStart() returns (accepted: bool)
      modifies this
      ensures accepted == world.request(old(log)) && log == old(log) + [Request(accepted)]
    {
      accepted := world.request(log);
      log := log + [Request(accepted)];
    }

    method JobActive() returns (active: Option<bool>)
      modifies this
      ensures active == world.job(old(log)) && log == old(log) + [Job(active)]
    {
      active := world.job(log);
      log := log + [Job(active)];
    }

    method ConstraintViolation() returns (violated: bool)
      modifies this
      ensures violated == world.constraint(old(log)) && log == old(log) + [Constraint(violated)]
    {
      violated := world.constraint(log);
      log := log + [Constraint(violated)];
    }

    method RegisterAndRecheck() returns (activation: Activation)
      modifies this
      ensures (activation, log) == Registered(world, old(log))
    {
      var registration := DoRegister();
      var recheckedStatus := GetStatus();
      if registration.Denied? {
        return ActiveRequiresApproval;
      }
      if !registration.Done? {
        return ActiveFailed;
      }
      activation := MapStatus(recheckedStatus);
    }

    method ActivateForSignature(signatureChanged: bool) returns (activation: Activation, registered: bool)
      modifies this
      ensures (activation, registered, log) == Activated(world, signatureChanged, old(log))
    {
      var status := GetStatus();
      if status == Some(NotRegistered) || status == Some(NotFound) {
        activation := RegisterAndRecheck();
        return activation, true;
      }
      if status == Some(Enabled) && signatureChanged {
        var _ := DoUnregister();
        activation := RegisterAndRecheck();
        return activation, true;
      }
      return MapStatus(status), false;
    }

    method RequestEnabledRuntimeStart() returns (outcome: Outcome)
      modifies this
      ensures (outcome, log) == Asked(world, old(log))
    {
      var present := EndpointExists();
      match present {
        case Some(true) => outcome := EndpointPresent;
        case Some(false) =>
          var accepted := RequestStart();
          outcome := if accepted then Requested else RequestFailed;
        case None => outcome := EndpointCheckFailed;
      }
    }

    method StartEnabledRuntimeWithRecovery() returns (outcome: Outcome, recovery: Recovery)
      modifies this
      ensures (outcome, recovery, log) == AskedWithRecovery(world, old(log))
    {
      outcome := RequestEnabledRuntimeStart();
      if !outcome.RequestFailed? {
        return outcome, NoRecovery;
      }
      var gone := DoUnregister();
      if !gone {
        return outcome, RecoveryFailed;
      }
      var registration := DoRegister();
      if !registration.Done? {
        return outcome, RecoveryFailed;
      }
      var status := GetStatus();
      if status != Some(Enabled) {
        return outcome, RecoveryFailed;
      }
      outcome := RequestEnabledRuntimeStart();
      recovery := Reregistered;
    }

    method ConfirmRequestedStart(outcome: Outcome) returns (confirmed: Outcome)
      modifies this
      ensures (confirmed, log) == Confirmed(world, outcome, old(log))
    {
      confirmed := outcome;
      if outcome.Requested? {
        var active := JobActive();
        if active == Some(false) {
          confirmed := JobInactive;
        }
      }
    }

    method StartEnabled(registered: bool) returns (outcome: Outcome, recovery: Recovery)
      modifies this
      ensures (outcome, recovery, log) == StartedEnabled(world, registered, old(log))
    {
      outcome, recovery := StartEnabledRuntimeWithRecovery();
      outcome := ConfirmRequestedStart(outcome);
      if outcome.JobInactive? && recovery.NoRecovery? {
        var violated := ConstraintViolation();
        if violated && !registered {
          var _ := DoUnregister();
          var activation := RegisterAndRecheck();
          if activation.ActiveEnabled? {
            outcome := RequestEnabledRuntimeStart();
            outcome := ConfirmRequestedStart(outcome);
            recovery := Reregistered;
          } else {
            outcome := RequestFailed;
            recovery := RecoveryFailed;
          }
        }
      }
    }

    method StartLoginService(hasStart: bool, signatures: Signatures) returns (result: LoginServiceStart)
      modifies this
      ensures (result, log) == Launched(world, hasStart, signatures, old(log))
    {
      var activation, registered := ActivateForSignature(signatures.Changed());
      if !activation.ActiveEnabled? {
        return Inactive(activation);
      }
      var outcome, recovery := RequestFailed, NoRecovery;
      if hasStart {
        outcome, recovery := StartEnabled(registered);
      }
      if outcome.JobInactive? || outcome.RequestFailed? {
        var _ := DoUnregister();
        if hasStart {
          var _ := ConstraintViolation();
        }
      }
      result := Started(outcome);
    }
  }

  // ------------------------------------------------- what a history records

  datatype Kind = Registrations | Unregistrations | StartRequests | StartCalls

  predicate OfKind(step: Step, kind: Kind) {
    match kind
    case Registrations => step.Register?
    case Unregistrations => step.Unregister?
    case StartRequests => step.Request?
    case StartCalls => step.Endpoint? || step.Request? || step.Job?
  }

  function Count(log: History, kind: Kind): nat {
    if log == [] then 0
    else Count(log[..|log| - 1], kind) + if OfKind(log[|log| - 1], kind) then 1 else 0
  }

  predicate IsService(step: Step) {
    step.Status? || step.Register? || step.Unregister?
  }

  /** The last operation on the service itself. */
  function LastService(log: History): Option<Step> {
    if log == [] then None
    else if IsService(log[|log| - 1]) then Some(log[|log| - 1])
    else LastService(log[..|log| - 1])
  }

  /** Step `k` is a start request made right after a reading of no endpoint, on a service last read as enabled. */
  predicate BackedAt(log: History, k: nat)
    requires k < |log|
  {
    k > 0 && log[k - 1] == Endpoint(Some(false)) && LastService(log[..k]) == Some(ENABLED)
  }

  predicate Backed(log: History) {
    forall k: nat :: k < |log| && log[k].Request? ==> BackedAt(log, k)
  }

  /** Whether launchd holds the registration after a history, if it did `before`. */
  function Held(before: bool, log: History): bool {
    if log == [] then before
    else
      var step := log[|log| - 1];
      if step == Register(Done) then true
      else if step == Unregister(true) then false
      else Held(before, log[..|log| - 1])
  }

  /** launchd reads a service as enabled only while it holds the registration. */
  predicate Honest(before: bool, log: History) {
    forall k: nat :: k < |log| && log[k] == ENABLED ==> Held(before, log[..k])
  }

  lemma Appended(log: History, step: Step)
    ensures forall kind :: Count(log + [step], kind) == Count(log, kind) + if OfKind(step, kind) then 1 else 0
    ensures LastService(log + [step]) == if IsService(step) then Some(step) else LastService(log)
    ensures Backed(log) && (step.Request? ==> BackedAt(log + [step], |log|)) ==> Backed(log + [step])
  {
    var longer := log + [step];
    assert longer[..|longer| - 1] == log;
    if Backed(log) && (step.Request? ==> BackedAt(longer, |log|)) {
      forall k: nat | k < |longer| && longer[k].Request?
        ensures BackedAt(longer, k)
      {
        if k < |log| {
          assert BackedAt(log, k) && longer[..k] == log[..k];
        }
      }
    }
  }

  /** At most so many more registrations, start requests and unregistrations, and every start request still backed. */
  predicate Adds(log: History, longer: History, registrations: nat, requests: nat, unregistrations: nat) {
    && Count(longer, Registrations) <= Count(log, Registrations) + registrations
    && Count(longer, StartRequests) <= Count(log, StartRequests) + requests
    && Count(longer, Unregistrations) <= Count(log, Unregistrations) + unregistrations
    && (Backed(log) ==> Backed(longer))
  }

  /** The activation told by a history that ends with a status reading, right after a registration or not. */
  function ToldActivation(log: History): Activation {
    if |log| >= 2 && log[|log| - 2] == Register(Denied) then ActiveRequiresApproval
    else if |log| >= 2 && log[|log| - 2] == Register(Refused) then ActiveFailed
    else if log != [] && log[|log| - 1].Status? then MapStatus(log[|log| - 1].status)
    else ActiveFailed
  }

  lemma RegisteredFacts(w: World, log: History)
    ensures var (activation, longer) := Registered(w, log);
            && Adds(log, longer, 1, 0, 0)
            && Count(longer, StartCalls) == Count(log, StartCalls)
            && longer != [] && longer[|longer| - 1].Status?
            && activation == ToldActivation(longer)
            && (activation.ActiveEnabled? ==> LastService(longer) == Some(ENABLED))
  {
    var r := w.register(log);
    Appended(log, Register(r));
    Appended(log + [Register(r)], Status(w.status(log + [Register(r)])));
  }

  lemma RenewedFacts(w: World, log: History)
    ensures var (activation, longer) := Renewed(w, log);
            && Adds(log, longer, 1, 0, 1)
            && Count(longer, StartCalls) == Count(log, StartCalls)
            && longer != [] && longer[|longer| - 1].Status?
            && activation == ToldActivation(longer)
            && (activation.ActiveEnabled? ==> LastService(longer) == Some(ENABLED))
  {
    var gone := Unregister(w.unregister(log));
    Appended(log, gone);
    RegisteredFacts(w, log + [gone]);
  }

  lemma ActivatedFacts(w: World, signatureChanged: bool, log: History)
    requires log == []
    ensures var (activation, registered, longer) := Activated(w, signatureChanged, log);
            && Adds(log, longer, if registered then 1 else 0, 0, 1)
            && Count(longer, StartCalls) == Count(log, StartCalls)
            && longer != [] && longer[|longer| - 1].Status?
            && activation == ToldActivation(longer)
            && (activation.ActiveEnabled? ==> LastService(longer) == Some(ENABLED))
  {
    var s := w.status(log);
    var read := log + [Status(s)];
    Appended(log, Status(s));
    if s == Some(NotRegistered) || s == Some(NotFound) {
      RegisteredFacts(w, read);
    } else if s == Some(Enabled) && signatureChanged {
      RenewedFacts(w, read);
    }
  }

  /** The outcome that a history's last step, readings of the launch constraint aside, tells of a start. */
  function Told(log: History): Option<Outcome> {
    if log == [] then None
    else
      match log[|log| - 1]
      case Constraint(_) => Told(log[..|log| - 1])
      case Endpoint(Some(true)) => Some(EndpointPresent)
      case Endpoint(None) => Some(EndpointCheckFailed)
      case Job(active) => if active == Some(false) then Some(JobInactive) else Some(Requested)
      case _ => None
  }

  /** Before a fallback, the last step tells every outcome but a failed request. */
  predicate TellsOf(log: History, outcome: Outcome) {
    Told(log) == if outcome.RequestFailed? then None else Some(outcome)
  }

  lemma AskedFacts(w: World, log: History)
    requires LastService(log) == Some(ENABLED)
    ensures var (outcome, longer) := Asked(w, log);
            && Adds(log, longer, 0, 1, 0)
            && log <= longer
            && LastService(longer) == Some(ENABLED)
            && !outcome.JobInactive?
            && (outcome.RequestFailed? ==> Request(false) in longer)
            && (outcome.Requested? || TellsOf(longer, outcome))
  {
    var seen := log + [Endpoint(w.endpoint(log))];
    Appended(log, Endpoint(w.endpoint(log)));
    if w.endpoint(log) == Some(false) {
      var request := Request(w.request(seen));
      var longer := seen + [request];
      assert BackedAt(longer, |seen|) by {
        assert longer[..|seen|] == seen;
      }
      Appended(seen, request);
      assert longer[|seen|] == request;
    }
  }

  lemma RecoveredFacts(w: World, log: History)
    ensures var (outcome, recovery, longer) := Recovered(w, log);
            && Adds(log, longer, 1, 1, 1)
            && log <= longer
            && !recovery.NoRecovery? && !outcome.JobInactive?
            && (!outcome.RequestFailed? ==> LastService(longer) == Some(ENABLED))
            && (outcome.Requested? || TellsOf(longer, outcome))
  {
    var log1 := log + [Unregister(w.unregister(log))];
    Appended(log, Unregister(w.unregister(log)));
    var log2 := log1 + [Register(w.register(log1))];
    Appended(log1, Register(w.register(log1)));
    var log3 := log2 + [Status(w.status(log2))];
    Appended(log2, Status(w.status(log2)));
    if w.status(log2) == Some(Enabled) {
      AskedFacts(w, log3);
    }
  }

  lemma AskedWithRecoveryFacts(w: World, log: History)
    requires LastService(log) == Some(ENABLED)
    ensures var (outcome, recovery, longer) := AskedWithRecovery(w, log);
            && (if recovery.NoRecovery? then Adds(log, longer, 0, 1, 0)
                else Adds(log, longer, 1, 2, 1) && Request(false) in longer)
            && !outcome.JobInactive?
            && (!outcome.RequestFailed? ==> LastService(longer) == Some(ENABLED))
            && (outcome.Requested? || TellsOf(longer, outcome))
  {
    AskedFacts(w, log);
    RecoveredFacts(w, Asked(w, log).1);
  }

  lemma ConfirmedFacts(w: World, outcome: Outcome, log: History)
    requires !outcome.JobInactive? && (outcome.Requested? || TellsOf(log, outcome))
    ensures var (confirmed, longer) := Confirmed(w, outcome, log);
            && Adds(log, longer, 0, 0, 0)
            && log <= longer
            && LastService(longer) == LastService(log)
            && (confirmed.RequestFailed? <==> outcome.RequestFailed?)
            && TellsOf(longer, confirmed)
  {
    Appended(log, Job(w.job(log)));
  }

  lemma AfterConstraintFacts(w: World, registered: bool, log: History)
    requires Told(log) == Some(JobInactive)
    ensures var (outcome, recovery, longer) := AfterConstraint(w, registered, log);
            && Adds(log, longer, if registered then 0 else 1, 1, 1)
            && (!FallsBack(outcome) ==> LastService(longer) == Some(ENABLED))
            && TellsOf(longer, outcome)
  {
    var log1 := log + [Constraint(w.constraint(log))];
    Appended(log, Constraint(w.constraint(log)));
    RenewedFacts(w, log1);
    var (activation, log2) := Renewed(w, log1);
    if activation.ActiveEnabled? {
      AskedFacts(w, log2);
      var (outcome, log3) := Asked(w, log2);
      ConfirmedFacts(w, outcome, log3);
    }
  }

  lemma StartedEnabledFacts(w: World, registered: bool, log: History)
    requires LastService(log) == Some(ENABLED)
    ensures var (outcome, recovery, longer) := StartedEnabled(w, registered, log);
            && Adds(log, longer, 1, 2, 1)
            && (registered && Request(false) !in longer ==> Adds(log, longer, 0, 2, 1))
            && (!FallsBack(outcome) ==> LastService(longer) == Some(ENABLED))
            && TellsOf(longer, outcome)
  {
    AskedWithRecoveryFacts(w, log);
    var (outcome, recovery, log1) := AskedWithRecovery(w, log);
    ConfirmedFacts(w, outcome, log1);
    var (confirmed, log2) := Confirmed(w, outcome, log1);
    if confirmed.JobInactive? && recovery.NoRecovery? {
      AfterConstraintFacts(w, registered, log2);
    }
  }

  /** The history before the fallback's own steps. */
  function BeforeFallback(log: History, hasStart: bool): History {
    var steps := if hasStart then 2 else 1;
    if |log| < steps then [] else log[..|log| - steps]
  }

  lemma FellBackFacts(w: World, hasStart: bool, outcome: Outcome, log: History)
    ensures var longer := FellBack(w, hasStart, outcome, log);
            && Adds(log, longer, 0, 0, 1)
            && log <= longer
            && (FallsBack(outcome) ==> BeforeFallback(longer, hasStart) == log)
            && (FallsBack(outcome) ==>
                  LastService(longer).Some? && LastService(longer).value.Unregister? && Told(longer) == None)
  {
    var gone := log + [Unregister(w.unregister(log))];
    Appended(log, Unregister(w.unregister(log)));
    Appended(gone, Constraint(w.constraint(gone)));
  }

  /** How the history of a start that answers `outcome` ends. */
  predicate StartEnds(log: History, hasStart: bool, outcome: Outcome) {
    && LastService(log).Some?
    && (if FallsBack(outcome) then
          LastService(log).value.Unregister? && Told(log) == None && TellsOf(BeforeFallback(log, hasStart), outcome)
        else LastService(log) == Some(ENABLED) && Told(log) == Some(outcome))
  }

  /** How the history of a launch that never starts ends. */
  predicate InactiveEnds(log: History, activation: Activation) {
    && Count(log, StartCalls) == 0
    && Told(log) == None
    && !activation.ActiveEnabled? && activation == ToldActivation(log)
  }

  lemma StartedOrFellBackFacts(w: World, hasStart: bool, registered: bool, log: History)
    requires LastService(log) == Some(ENABLED) && Told(log) == None
    ensures var (outcome, longer) := StartedOrFellBack(w, hasStart, registered, log);
            && Adds(log, longer, 1, 2, 2)
            && (registered && Request(false) !in longer ==> Adds(log, longer, 0, 2, 2))
            && StartEnds(longer, hasStart, outcome)
  {
    var (outcome, _, started) :=
      if hasStart then StartedEnabled(w, registered, log) else (RequestFailed, NoRecovery, log);
    if hasStart {
      StartedEnabledFacts(w, registered, log);
    }
    FellBackFacts(w, hasStart, outcome, started);
  }

  // ---------------------------------------------------------- main results

  /**
   Whatever the outside answers, a launch asks it only so often, and it registers twice only after
   a refused start request.
   */
  lemma LaunchIsBounded(w: World, hasStart: bool, signatures: Signatures)
    ensures var log := Launched(w, hasStart, signatures, []).1;
            && Count(log, Registrations) <= 2
            && Count(log, StartRequests) <= 2
            && Count(log, Unregistrations) <= 3
            && (Count(log, Registrations) == 2 ==> Request(false) in log)
  {
    LaunchFacts(w, hasStart, signatures);
  }

  /** One launch reaches all three bounds: the runtime was signed anew and launchd refuses every start request. */
  lemma BoundsAreReached(recorded: string, current: string)
    requires recorded != current
    ensures var w := World(
              _ => Some(Enabled), _ => Done, _ => true, _ => Some(false), _ => false, _ => None, _ => false);
            var log := Launched(w, true, Signatures(Some(recorded), Some(current)), []).1;
            && Count(log, Registrations) == 2
            && Count(log, StartRequests) == 2
            && Count(log, Unregistrations) == 3
  {
    var w := World(_ => Some(Enabled), _ => Done, _ => true, _ => Some(false), _ => false, _ => None, _ => false);
    var log1 := RenewedCounts([] + [ENABLED]);
    Appended([], ENABLED);
    var log2 := RefusedCounts(log1);
    var log3 := RenewedCounts(log2);
    var log4 := RefusedCounts(log3);
    Appended(log4, Unregister(true));
    Appended(log4 + [Unregister(true)], Constraint(false));
    assert Activated(w, true, []) == (ActiveEnabled, true, log1);
    assert Asked(w, log1) == (RequestFailed, log2);
    assert Asked(w, log3) == (RequestFailed, log4);
    assert Recovered(w, log2) == (RequestFailed, Reregistered, log4);
    assert StartedEnabled(w, true, log1) == (RequestFailed, Reregistered, log4);
  }

  lemma RenewedCounts(log: History) returns (longer: History)
    ensures longer == log + [Unregister(true)] + [Register(Done)] + [ENABLED]
    ensures forall kind :: Count(longer, kind) ==
                           Count(log, kind) + if kind.Registrations? || kind.Unregistrations? then 1 else 0
  {
    longer := log + [Unregister(true)] + [Register(Done)] + [ENABLED];
    Appended(log, Unregister(true));
    Appended(log + [Unregister(true)], Register(Done));
    Appended(log + [Unregister(true)] + [Register(Done)], ENABLED);
  }

  lemma RefusedCounts(log: History) returns (longer: History)
    ensures longer == log + [Endpoint(Some(false))] + [Request(false)]
    ensures forall kind :: Count(longer, kind) ==
                           Count(log, kind) + if kind.StartRequests? then 1 else if kind.StartCalls? then 2 else 0
  {
    longer := log + [Endpoint(Some(false))] + [Request(false)];
    Appended(log, Endpoint(Some(false)));
    Appended(log + [Endpoint(Some(false))], Request(false));
  }

  lemma LaunchFacts(w: World, hasStart: bool, signatures: Signatures)
    ensures var (result, log) := Launched(w, hasStart, signatures, []);
            && Adds([], log, 2, 2, 3)
            && (Request(false) !in log ==> Count(log, Registrations) <= 1)
            && (if result.Started? then StartEnds(log, hasStart, result.outcome)
                else InactiveEnds(log, result.activation))
  {
    ActivatedFacts(w, signatures.Changed(), []);
    var (activation, registered, log1) := Activated(w, signatures.Changed(), []);
    if activation.ActiveEnabled? {
      StartedOrFellBackFacts(w, hasStart, registered, log1);
    }
  }

  /**
   Every start request follows a reading of no endpoint, on a service that was last read as enabled;
   with an honest launchd, on one it holds.
   */
  lemma RequestsAreBacked(w: World, hasStart: bool, signatures: Signatures, before: bool, k: nat)
    requires k < |Launched(w, hasStart, signatures, []).1|
    requires Launched(w, hasStart, signatures, []).1[k].Request?
    ensures var log := Launched(w, hasStart, signatures, []).1;
            BackedAt(log, k) && (Honest(before, log) ==> Held(before, log[..k]))
  {
    LaunchFacts(w, hasStart, signatures);
    var log := Launched(w, hasStart, signatures, []).1;
    assert BackedAt(log, k);
    if Honest(before, log) {
      HonestPrefix(before, log, k);
      ReadAsHeld(before, log[..k]);
    }
  }

  lemma HonestPrefix(before: bool, log: History, k: nat)
    requires k <= |log| && Honest(before, log)
    ensures Honest(before, log[..k])
  {
    forall j: nat | j < k && log[..k][j] == ENABLED
      ensures Held(before, log[..k][..j])
    {
      assert log[..k][..j] == log[..j];
    }
  }

  lemma {:induction false} ReadAsHeld(before: bool, log: History)
    requires LastService(log).Some?
    ensures LastService(log) == Some(ENABLED) && Honest(before, log) ==> Held(before, log)
    ensures LastService(log) == Some(Unregister(true)) ==> !Held(before, log)
  {
    var init := log[..|log| - 1];
    if !IsService(log[|log| - 1]) {
      ReadAsHeld(before, init);
      if Honest(before, log) {
        HonestPrefix(before, log, |log| - 1);
      }
    }
  }

  /**
   A launch falls back exactly when its last operation on the service is an unregistration, after
   which launchd holds nothing if it was carried out. Any other start ends on a service last read as
   enabled, so with an honest launchd it holds the registration then.
   */
  lemma LaunchLeavesService(w: World, hasStart: bool, signatures: Signatures, before: bool)
    requires Launched(w, hasStart, signatures, []).0.Started?
    ensures var (result, log) := Launched(w, hasStart, signatures, []);
            && LastService(log).Some?
            && (FallsBack(result.outcome) <==> LastService(log).value.Unregister?)
            && (FallsBack(result.outcome) && LastService(log) == Some(Unregister(true)) ==> !Held(before, log))
            && (!FallsBack(result.outcome) ==> LastService(log) == Some(ENABLED))
            && (!FallsBack(result.outcome) && Honest(before, log) ==> Held(before, log))
  {
    LaunchFacts(w, hasStart, signatures);
    ReadAsHeld(before, Launched(w, hasStart, signatures, []).1);
  }

  /**
   The history of a launch tells its answer: any outcome without a fallback by its last step, and
   which of the two falls back by the last step before the fallback.
   */
  lemma OutcomeIsTold(w: World, hasStart: bool, signatures: Signatures, outcome: Outcome)
    ensures var (result, log) := Launched(w, hasStart, signatures, []);
            && (!FallsBack(outcome) ==> (result == Started(outcome) <==> Told(log) == Some(outcome)))
            && (result.Started? && FallsBack(result.outcome) ==>
                  (result.outcome.JobInactive? <==> Told(BeforeFallback(log, hasStart)) == Some(JobInactive)))
  {
    LaunchFacts(w, hasStart, signatures);
  }

  /**
   A launch that finds the service not enabled makes no call of the start adapter, and its answer is
   that of its last reading, unless a registration right before it was denied or refused.
   */
  lemma InactiveStartsNothing(w: World, hasStart: bool, signatures: Signatures)
    requires Launched(w, hasStart, signatures, []).0.Inactive?
    ensures var (result, log) := Launched(w, hasStart, signatures, []);
            && Count(log, StartCalls) == 0
            && !result.activation.ActiveEnabled? && result.activation == ToldActivation(log)
  {
    LaunchFacts(w, hasStart, signatures);
  }
}
