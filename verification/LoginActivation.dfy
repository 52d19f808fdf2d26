/**
 What a launch of `LoginService` asks the service for, told by the calls alone:
 when it registers, when it registers again, and what each reading answers.
 */
module LoginActivation {
  import opened Wrappers
  import opened LoginService

  /** The registration is of another signature than the one the bundle carries now. */
  predicate SignedAnew(signatures: Signatures) {
    signatures.current.Some? && signatures.recorded != signatures.current
  }

  predicate Unknown(status: Option<ServiceStatus>) {
    status == Some(NotRegistered) || status == Some(NotFound)
  }

  /** How many calls come before the first one of the start adapter. */
  function FirstCalls(w: World, signatures: Signatures): nat {
    if Unknown(w.status([])) then 3
    else if w.status([]) == Some(Enabled) && SignedAnew(signatures) then 4
    else 1
  }

  // ------------------------------------------------------ histories only grow

  lemma RegisteredGrows(w: World, log: History)
    ensures log <= Registered(w, log).1 && log <= Renewed(w, log).1
  {
  }

  lemma AskedGrows(w: World, log: History)
    ensures log + [Endpoint(w.endpoint(log))] <= Asked(w, log).1
  {
  }

  lemma RecoveredGrows(w: World, log: History)
    ensures log <= Recovered(w, log).2
  {
    RecoveredFacts(w, log);
  }

  lemma AfterConstraintGrows(w: World, registered: bool, log: History)
    ensures log <= AfterConstraint(w, registered, log).2
  {
    var log1 := log + [Constraint(w.constraint(log))];
    RegisteredGrows(w, log1);
    AskedGrows(w, Renewed(w, log1).1);
  }

  /** A start's first call is the endpoint reading, or without an adapter the fallback's unregistration. */
  lemma StartGrows(w: World, hasStart: bool, registered: bool, log: History)
    ensures var (outcome, longer) := StartedOrFellBack(w, hasStart, registered, log);
            if hasStart then log + [Endpoint(w.endpoint(log))] <= longer
            else outcome == RequestFailed && longer == log + [Unregister(w.unregister(log))]
  {
    if hasStart {
      AskedGrows(w, log);
      RecoveredGrows(w, Asked(w, log).1);
      var (outcome, _, asked) := AskedWithRecovery(w, log);
      var (confirmed, told) := Confirmed(w, outcome, asked);
      AfterConstraintGrows(w, registered, told);
      var started := StartedEnabled(w, registered, log);
      assert told <= started.2;
      FellBackFacts(w, hasStart, started.0, started.2);
      FellBackGrows(w, hasStart, started.0, started.2);
    }
  }

  lemma FellBackGrows(w: World, hasStart: bool, outcome: Outcome, log: History)
    ensures log <= FellBack(w, hasStart, outcome, log)
  {
  }

  // ---------------------------------------------------------- main results

  /**
   A launch registers at once exactly when the service is first read as not registered or not found,
   and unregisters and registers it exactly when it is first read as enabled under another signature
   than the one the bundle carries now. Any other reading leaves the registration alone.
   */
  lemma RegistersExactly(w: World, hasStart: bool, signatures: Signatures)
    ensures var (result, log) := Launched(w, hasStart, signatures, []);
            var first := w.status([]);
            && |log| > 0 && log[0] == Status(first)
            && ((|log| > 1 && log[1].Register?) <==> first == Some(NotRegistered) || first == Some(NotFound))
            && ((|log| > 2 && log[1].Unregister? && log[2].Register?) <==>
                  first == Some(Enabled) && signatures.current.Some? && signatures.recorded != signatures.current)
            && (first == Some(RequiresApproval) ==> result == Inactive(ActiveRequiresApproval) && |log| == 1)
            && (first == None ==> result == Inactive(ActiveFailed) && |log| == 1)
            && (first == Some(Enabled) && !SignedAnew(signatures) ==>
                  result.Started? && |log| > 1 && (if hasStart then log[1].Endpoint? else |log| == 2))
  {
    var (activation, registered, log1) := Activated(w, signatures.Changed(), []);
    StartGrows(w, hasStart, registered, log1);
  }

  /**
   When a launch registers, its next reading decides it: a denied registration needs approval, a
   refused one fails, and after one that was made only a service read as enabled is started.
   */
  lemma RegistrationDecides(w: World, hasStart: bool, signatures: Signatures)
    requires FirstCalls(w, signatures) > 1
    ensures var (result, log) := Launched(w, hasStart, signatures, []);
            var at := FirstCalls(w, signatures) - 2;
            && |log| >= at + 2
            && log[at] == Register(w.register(log[..at])) && log[at + 1] == Status(w.status(log[..at + 1]))
            && var registration, status := log[at].registration, log[at + 1].status;
               && (registration == Denied ==> result == Inactive(ActiveRequiresApproval))
               && (registration == Refused ==> result == Inactive(ActiveFailed))
               && (registration == Done && status == Some(RequiresApproval) ==>
                     result == Inactive(ActiveRequiresApproval))
               && (registration == Done && status == Some(NotFound) ==> result == Inactive(ActiveNotFound))
               && (registration == Done && status in [None, Some(NotRegistered)] ==> result == Inactive(ActiveFailed))
               && (result.Started? <==> registration == Done && status == Some(Enabled))
               && (result.Inactive? ==> |log| == at + 2)
  {
    var (activation, registered, log1) := Activated(w, signatures.Changed(), []);
    StartGrows(w, hasStart, registered, log1);
    var read := [] + [Status(w.status([]))];
    var before := if FirstCalls(w, signatures) == 3 then read else read + [Unregister(w.unregister(read))];
    RegisteredSteps(w, before);
    assert log1 == Registered(w, before).1;
    PrefixOf(before, log1, Launched(w, hasStart, signatures, []).1);
    PrefixOf(before + [Register(w.register(before))], log1, Launched(w, hasStart, signatures, []).1);
  }

  lemma RegisteredSteps(w: World, log: History)
    ensures var (activation, longer) := Registered(w, log);
            var at := |log|;
            && log + [Register(w.register(log))] <= longer && |longer| == at + 2
            && longer[at] == Register(w.register(log))
            && longer[at + 1] == Status(w.status(log + [Register(w.register(log))]))
  {
  }

  lemma PrefixOf(a: History, b: History, c: History)
    requires a <= b <= c
    ensures c[..|a|] == a && forall i :: 0 <= i < |b| ==> c[i] == b[i]
  {
  }

  // --------------------------------------------------- registering again

  /** The history of a started launch goes on from its first calls. */
  lemma StartsFrom(w: World, hasStart: bool, signatures: Signatures) returns (first: History)
    requires Launched(w, hasStart, signatures, []).0.Started?
    ensures var registered, (result, log) := FirstCalls(w, signatures) > 1, Launched(w, hasStart, signatures, []);
            && |first| == FirstCalls(w, signatures) && first <= log && log[..|first|] == first
            && (result.outcome, log) == StartedOrFellBack(w, hasStart, registered, first)
  {
    var (activation, registered, log1) := Activated(w, signatures.Changed(), []);
    StartGrows(w, hasStart, registered, log1);
    first := log1;
  }

  /** The calls up to an accepted request whose job is read as not running. */
  function InactiveJob(log: History): History {
    log + [Endpoint(Some(false))] + [Request(true)] + [Job(Some(false))]
  }

  lemma ConstraintDecides(w: World, registered: bool, log: History)
    requires w.endpoint(log) == Some(false) && w.request(log + [Endpoint(Some(false))])
    requires w.job(log + [Endpoint(Some(false))] + [Request(true)]) == Some(false)
    ensures var longer, at := StartedOrFellBack(w, true, registered, log).1, |log| + 3;
            && InactiveJob(log) + [Constraint(w.constraint(InactiveJob(log)))] <= longer
            && |longer| > at + 1 && longer[at + 1].Unregister?
            && ((|longer| > at + 2 && longer[at + 2].Register?) <==> longer[at] == Constraint(true) && !registered)
  {
    var told := InactiveJob(log);
    var read := told + [Constraint(w.constraint(told))];
    assert AskedWithRecovery(w, log) == (Requested, NoRecovery, log + [Endpoint(Some(false))] + [Request(true)]);
    assert StartedEnabled(w, registered, log) == AfterConstraint(w, registered, told);
    var (outcome, recovery, started) := AfterConstraint(w, registered, told);
    FellBackGrows(w, true, outcome, started);
    if w.constraint(told) && !registered {
      var gone := read + [Unregister(w.unregister(read))];
      RegisteredSteps(w, gone);
      AskedGrows(w, Registered(w, gone).1);
      AgainGrows(w, told);
    }
  }

  lemma AgainGrows(w: World, told: History)
    requires w.constraint(told)
    ensures var read := told + [Constraint(true)];
            Renewed(w, read).1 <= AfterConstraint(w, false, told).2
  {
    AskedGrows(w, Renewed(w, told + [Constraint(true)]).1);
  }

  lemma RecoveryDecides(w: World, registered: bool, log: History)
    requires w.endpoint(log) == Some(false) && !w.request(log + [Endpoint(Some(false))])
    ensures var longer, at := StartedOrFellBack(w, true, registered, log).1, |log| + 2;
            && log + [Endpoint(Some(false))] + [Request(false)] <= longer
            && |longer| > at && longer[at].Unregister?
            && ((|longer| > at + 1 && longer[at + 1].Register?) <==> longer[at].done)
  {
    var refused := log + [Endpoint(Some(false))] + [Request(false)];
    var (outcome, recovery, recovered) := Recovered(w, refused);
    assert AskedWithRecovery(w, log) == (outcome, recovery, recovered);
    RecoveredFirst(w, refused);
    var (confirmed, told) := Confirmed(w, outcome, recovered);
    RecoveredFacts(w, refused);
    assert StartedEnabled(w, registered, log) == (confirmed, recovery, told);
    FellBackGrows(w, true, confirmed, told);
  }

  lemma RecoveredFirst(w: World, log: History)
    ensures var longer, at := Recovered(w, log).2, |log|;
            && log + [Unregister(w.unregister(log))] <= longer
            && (w.unregister(log) ==> |longer| > at + 1 && longer[at + 1].Register?)
            && (!w.unregister(log) ==> |longer| == at + 1 && Recovered(w, log).0.RequestFailed?)
  {
    if w.unregister(log) {
      var gone := log + [Unregister(true)];
      var made := gone + [Register(w.register(gone))];
      AskedGrows(w, made + [Status(w.status(made))]);
    }
  }

  /**
   When the first request is accepted and its job is read as not running, the launch reads the launch
   constraint and unregisters, and registers again exactly when the constraint is violated and the
   launch has not registered before.
   */
  lemma ConstraintRegistersAgainExactly(w: World, signatures: Signatures)
    requires Launched(w, true, signatures, []).0.Started?
    requires var log, at := Launched(w, true, signatures, []).1, FirstCalls(w, signatures);
             && |log| > at + 2
             && log[at..at + 3] == [Endpoint(Some(false)), Request(true), Job(Some(false))]
    ensures var log, at := Launched(w, true, signatures, []).1, FirstCalls(w, signatures) + 3;
            && |log| > at + 1 && log[at].Constraint? && log[at + 1].Unregister?
            && ((|log| > at + 2 && log[at + 2].Register?) <==> log[at] == Constraint(true) && at == 4)
  {
    var first := StartsFrom(w, true, signatures);
    var log, at := Launched(w, true, signatures, []).1, |first|;
    assert log[at] == log[at..at + 3][0] && log[at + 1] == log[at..at + 3][1] && log[at + 2] == log[at..at + 3][2];
    FirstStepsAre(w, at > 1, first);
    ConstraintDecides(w, at > 1, first);
  }

  lemma FirstStepsAre(w: World, registered: bool, log: History)
    ensures var longer, at := StartedOrFellBack(w, true, registered, log).1, |log|;
            && |longer| > at && longer[at] == Endpoint(w.endpoint(log))
            && (w.endpoint(log) == Some(false) ==>
                  && |longer| > at + 1
                  && longer[at + 1] == Request(w.request(log + [Endpoint(Some(false))]))
                  && (longer[at + 1].accepted ==>
                        |longer| > at + 2
                        && longer[at + 2] == Job(w.job(log + [Endpoint(Some(false))] + [Request(true)]))))
  {
    StartGrows(w, true, registered, log);
    if w.endpoint(log) == Some(false) && w.request(log + [Endpoint(Some(false))]) {
      var asked := log + [Endpoint(Some(false))] + [Request(true)];
      var told := asked + [Job(w.job(asked))];
      AfterConstraintGrows(w, registered, told);
      var started := StartedEnabled(w, registered, log);
      assert told <= started.2;
      FellBackGrows(w, true, started.0, started.2);
    } else if w.endpoint(log) == Some(false) {
      RecoveryDecides(w, registered, log);
    }
  }

  /** When the first request is refused, the launch unregisters, and registers again exactly when that was done. */
  lemma RefusalRegistersAgainExactly(w: World, signatures: Signatures)
    requires Launched(w, true, signatures, []).0.Started?
    requires var log, at := Launched(w, true, signatures, []).1, FirstCalls(w, signatures);
             |log| > at + 1 && log[at..at + 2] == [Endpoint(Some(false)), Request(false)]
    ensures var log, at := Launched(w, true, signatures, []).1, FirstCalls(w, signatures) + 2;
            && |log| > at && log[at].Unregister?
            && ((|log| > at + 1 && log[at + 1].Register?) <==> log[at].done)
  {
    var first := StartsFrom(w, true, signatures);
    var log, at := Launched(w, true, signatures, []).1, |first|;
    assert log[at] == log[at..at + 2][0] && log[at + 1] == log[at..at + 2][1];
    FirstStepsAre(w, at > 1, first);
    RecoveryDecides(w, at > 1, first);
  }

  /**
   On a machine where the service is not registered yet and everything asked succeeds, the launch
   registers the service and starts it.
   */
  lemma AFreshMachineIsStarted(w: World, signatures: Signatures)
    requires w.status([]) == Some(NotRegistered) && w.register([Status(Some(NotRegistered))]) == Done
    requires var made := [Status(Some(NotRegistered)), Register(Done)];
             && w.status(made) == Some(Enabled)
             && w.endpoint(made + [ENABLED]) == Some(false)
             && w.request(made + [ENABLED, Endpoint(Some(false))])
             && w.job(made + [ENABLED, Endpoint(Some(false)), Request(true)]) == Some(true)
    ensures Launched(w, true, signatures, [])
         == (Started(Requested), [Status(Some(NotRegistered)), Register(Done), ENABLED,
                                  Endpoint(Some(false)), Request(true), Job(Some(true))])
  {
    var made := [Status(Some(NotRegistered)), Register(Done)];
    assert [] + [Status(Some(NotRegistered))] == [Status(Some(NotRegistered))];
    assert [Status(Some(NotRegistered))] + [Register(Done)] == made;
    var first := made + [ENABLED];
    assert first + [Endpoint(Some(false))] == made + [ENABLED, Endpoint(Some(false))];
    var asked := made + [ENABLED, Endpoint(Some(false)), Request(true)];
    assert first + [Endpoint(Some(false))] + [Request(true)] == asked;
    assert Activated(w, signatures.Changed(), []) == (ActiveEnabled, true, first);
    assert Asked(w, first) == (Requested, asked);
    assert StartedEnabled(w, true, first) == (Requested, NoRecovery, asked + [Job(Some(true))]);
    assert StartedOrFellBack(w, true, true, first) == (Requested, asked + [Job(Some(true))]);
    assert asked + [Job(Some(true))]
        == [Status(Some(NotRegistered)), Register(Done), ENABLED,
            Endpoint(Some(false)), Request(true), Job(Some(true))];
  }
}
