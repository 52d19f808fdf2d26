/**
 The speech model's install state: one install at a time, its progress and its
 result, and inspections of the disk that may finish long after they began. A
 generation names each install and a version each change of the status, so that
 stale writers are told apart. Both count without bound.
 */
module ModelInstall {
  import opened Wrappers

  datatype Status =
    | NotInstalled
    | Installing(completed: nat, total: nat)
    | Installed
    | Cancelled
    | Failed(category: string, message: string)

  datatype Active = Active(generation: nat, cancelRequested: bool)

  /** How an install's runner ended. */
  datatype Ending = Succeeded | Stopped | Broke(category: string, message: string)

  datatype Inner = Inner(
    generation: nat, version: nat, status: Status, terminalResult: bool, completedSuccess: bool, active: Option<Active>)

  /** A status request's first half: an answer at once, or an inspection of the disk begun at a version. */
  datatype Asked = Answer(status: Status) | Inspect(version: nat)

  const IDLE := Inner(0, 0, NotInstalled, false, false, None)

  predicate Runs(s: Inner, generation: nat) {
    s.active.Some? && s.active.value.generation == generation
  }

  // ------------------------------------------------- the steps under the lock

  function Started(s: Inner): Inner {
    if s.active.Some? then s
    else Inner(s.generation + 1, s.version + 1, Installing(0, 0), false, false, Some(Active(s.generation + 1, false)))
  }

  function Max(a: nat, b: nat): nat {
    if a > b then a else b
  }

  function Reported(s: Inner, generation: nat, completed: nat, total: nat): Inner {
    if !Runs(s, generation) || !s.status.Installing? then s
    else
      var t := Max(Max(total, s.status.total), s.status.completed);
      var c := Max(completed, s.status.completed);
      s.(status := Installing(if c < t then c else t, t))
  }

  function StatusOf(ending: Ending): Status {
    match ending
    case Succeeded => Installed
    case Stopped => Cancelled
    case Broke(category, message) => Failed(category, message)
  }

  function Finished(s: Inner, generation: nat, ending: Ending): Inner {
    if !Runs(s, generation) then s
    else Inner(s.generation, s.version + 1, StatusOf(ending), !ending.Succeeded?, ending.Succeeded?, None)
  }

  function CancelAsked(s: Inner): Inner {
    if s.active.None? then s else s.(active := Some(s.active.value.(cancelRequested := true)))
  }

  function StatusAsked(s: Inner): (Inner, Asked) {
    if s.active.Some? || s.terminalResult then (s, Answer(s.status))
    else if s.completedSuccess then (s.(completedSuccess := false), Answer(s.status))
    else (s, Inspect(s.version))
  }

  function Inspected(s: Inner, version: nat, found: Status): Inner {
    if s.active.None? && s.version == version then s.(version := s.version + 1, status := found) else s
  }

  class ParakeetInstallState {
    var generation: nat
    var stateVersion: nat
    var status: Status
    var terminalResult: bool
    var completedSuccess: bool
    var active: Option<Active>

    function State(): Inner
      reads this
    {
      Inner(generation, stateVersion, status, terminalResult, completedSuccess, active)
    }

    constructor ()
      ensures State() == IDLE
    {
      generation, stateVersion, status := 0, 0, NotInstalled;
      terminalResult, completedSuccess, active := false, false, None;
    }

    /** Answers the status, and the generation to run when this call began an install. */
    method Start() returns (answer: Status, spawned: Option<nat>)
      modifies this
      ensures State() == Started(old(State()))
      ensures answer == if old(active).Some? then old(status) else Installing(0, 0)
      ensures spawned == if old(active).Some? then None else Some(generation)
    {
      if active.Some? {
        return status, None;
      }
      generation := generation + 1;
      stateVersion := stateVersion + 1;
      active := Some(Active(generation, false));
      terminalResult := false;
      completedSuccess := false;
      status := Installing(0, 0);
      return Installing(0, 0), Some(generation);
    }

    method UpdateProgress(reporter: nat, completedBytes: nat, totalBytes: nat)
      modifies this`status
      ensures State() == Reported(old(State()), reporter, completedBytes, totalBytes)
    {
      if active.None? || active.value.generation != reporter {
        return;
      }
      if !status.Installing? {
        return;
      }
      var currentCompleted, currentTotal := status.completed, status.total;
      var total := Max(Max(totalBytes, currentTotal), currentCompleted);
      var completed := Max(completedBytes, currentCompleted);
      status := Installing(if completed < total then completed else total, total);
    }

    /** The end of an install's task. */
    method Finish(runner: nat, ending: Ending)
      modifies this
      ensures State() == Finished(old(State()), runner, ending)
    {
      if active.None? || active.value.generation != runner {
        return;
      }
      active := None;
      stateVersion := stateVersion + 1;
      completedSuccess := ending.Succeeded?;
      match ending {
        case Succeeded => status, terminalResult := Installed, false;
        case Stopped => status, terminalResult := Cancelled, true;
        case Broke(category, message) => status, terminalResult := Failed(category, message), true;
      }
    }

    method Cancel() returns (answer: Status)
      modifies this`active
      ensures State() == CancelAsked(old(State())) && answer == status
    {
      if active.Some? {
        active := Some(active.value.(cancelRequested := true));
      }
      answer := status;
    }

    method AskStatus() returns (asked: Asked)
      modifies this`completedSuccess
      ensures (State(), asked) == StatusAsked(old(State()))
    {
      if active.Some? || terminalResult {
        return Answer(status);
      }
      if completedSuccess {
        completedSuccess := false;
        return Answer(status);
      }
      return Inspect(stateVersion);
    }

    /** The second half of a status request, and of the inspection made when the state is created. */
    method EndInspection(version: nat, found: Status) returns (answer: Status)
      modifies this
      ensures State() == Inspected(old(State()), version, found) && answer == status
    {
      if active.None? && stateVersion == version {
        stateVersion := stateVersion + 1;
        status := found;
      }
      answer := status;
    }
  }

  // ------------------------------------------------------------------ runs

  /** A step of any thread. An inspection is named by the event that began it, the first one by -1. */
  datatype Event =
    | Start
    | Report(generation: nat, completed: nat, total: nat)
    | Finish(generation: nat, ending: Ending)
    | Cancel
    | Ask
    | EndInspect(begun: int, found: Status)

  datatype World = World(inner: Inner, runners: set<nat>, inspections: map<int, nat>)

  function Next(w: World, e: Event, at: nat): World {
    match e
    case Start =>
      var s := Started(w.inner);
      World(s, if w.inner.active.None? then w.runners + {s.generation} else w.runners, w.inspections)
    case Report(g, completed, total) => w.(inner := Reported(w.inner, g, completed, total))
    case Finish(g, ending) => w.(inner := Finished(w.inner, g, ending), runners := w.runners - {g})
    case Cancel => w.(inner := CancelAsked(w.inner))
    case Ask =>
      var (s, asked) := StatusAsked(w.inner);
      World(s, w.runners, if asked.Inspect? then w.inspections[at := asked.version] else w.inspections)
    case EndInspect(begun, found) =>
      if begun !in w.inspections then w
      else World(Inspected(w.inner, w.inspections[begun], found), w.runners, w.inspections - {begun})
  }

  /** The world after the first `n` events; the state is created with an inspection under way. */
  function After(events: seq<Event>, n: nat): World
    requires n <= |events|
  {
    if n == 0 then World(IDLE, {}, map[-1 := 0]) else Next(After(events, n - 1), events[n - 1], n - 1)
  }

  /** What event `k` answers the window, if it answers: every request's answer, and every ended inspection's. */
  function Answered(events: seq<Event>, k: nat): Option<Status>
    requires k < |events|
  {
    var w := After(events, k);
    match events[k]
    case Start => Some(if w.inner.active.Some? then w.inner.status else Installing(0, 0))
    case Cancel => Some(w.inner.status)
    case Ask =>
      var asked := StatusAsked(w.inner).1;
      if asked.Answer? then Some(asked.status) else None
    case EndInspect(begun, _) => if begun in w.inspections then Some(After(events, k + 1).inner.status) else None
    case _ => None
  }

  /** Event `k` begins an install. */
  predicate Begins(events: seq<Event>, k: nat)
    requires k < |events|
  {
    events[k].Start? && After(events, k).inner.active.None?
  }

  /** Event `k` ends the active install. */
  predicate Ends(events: seq<Event>, k: nat)
    requires k < |events|
  {
    events[k].Finish? && Runs(After(events, k).inner, events[k].generation)
  }

  /** Event `k` ends an inspection whose finding becomes the status. */
  predicate Finds(events: seq<Event>, k: nat)
    requires k < |events|
  {
    events[k].EndInspect? && events[k].begun in After(events, k).inspections
    && After(events, k).inner.active.None?
    && After(events, k).inner.version == After(events, k).inspections[events[k].begun]
  }

  /** Event `k` puts the status in a new version. */
  predicate Renews(events: seq<Event>, k: nat)
    requires k < |events|
  {
    Begins(events, k) || Ends(events, k) || Finds(events, k)
  }

  // ------------------------------------------------------------- invariant

  predicate Good(w: World) {
    && w.runners == (if w.inner.active.Some? then {w.inner.active.value.generation} else {})
    && (w.inner.active.Some? ==> w.inner.active.value.generation == w.inner.generation)
    && (w.inner.active.Some? ==>
          w.inner.status.Installing? && w.inner.status.completed <= w.inner.status.total && !w.inner.terminalResult)
    && (forall i <- w.inspections :: w.inspections[i] <= w.inner.version)
  }

  lemma {:induction false} AlwaysGood(events: seq<Event>, n: nat)
    requires n <= |events|
    ensures Good(After(events, n))
  {
    if n > 0 {
      AlwaysGood(events, n - 1);
    }
  }

  /** Never two runners at once, and the active install is the one that runs. */
  lemma OneInstallAtATime(events: seq<Event>, n: nat, a: nat, b: nat)
    requires n <= |events| && a in After(events, n).runners && b in After(events, n).runners
    ensures a == b && Runs(After(events, n).inner, a)
  {
    AlwaysGood(events, n);
  }

  lemma {:induction false} VersionsGrow(events: seq<Event>, i: nat, k: nat)
    requires i <= k <= |events|
    ensures After(events, i).inner.version <= After(events, k).inner.version
    ensures After(events, i).inner.generation <= After(events, k).inner.generation
    ensures After(events, i).inner.version == After(events, k).inner.version <==>
            forall j :: i <= j < k ==> !Renews(events, j)
  {
    if i < k {
      VersionsGrow(events, i, k - 1);
      StepRenews(events, k - 1);
    }
  }

  lemma StepRenews(events: seq<Event>, k: nat)
    requires k < |events|
    ensures After(events, k + 1).inner.version == After(events, k).inner.version + if Renews(events, k) then 1 else 0
    ensures After(events, k + 1).inner.generation
         == After(events, k).inner.generation + if Begins(events, k) then 1 else 0
  {
  }

  // ------------------------------------------------------------ main results

  /** While an install lasts its bytes never fall, and what is done never exceeds what there is to do. */
  lemma {:induction false} ProgressNeverFalls(events: seq<Event>, i: nat, k: nat, generation: nat)
    requires i <= k <= |events| && Runs(After(events, i).inner, generation) && Runs(After(events, k).inner, generation)
    ensures var before, after := After(events, i).inner.status, After(events, k).inner.status;
            && before.Installing? && after.Installing?
            && before.completed <= after.completed <= after.total && before.total <= after.total
  {
    AlwaysGood(events, i);
    AlwaysGood(events, k);
    if i < k {
      AlwaysGood(events, k - 1);
      VersionsGrow(events, i, k - 1);
      ProgressNeverFalls(events, i, k - 1, generation);
    }
  }

  /** What an earlier install reports, or how it ends, changes nothing but the set of runners. */
  lemma EarlierInstallIsIgnored(events: seq<Event>, begun: nat, k: nat)
    requires begun < k < |events| && Begins(events, begun)
    requires events[k].Report? || events[k].Finish?
    requires events[k].generation <= After(events, begun).inner.generation
    ensures After(events, k + 1).inner == After(events, k).inner
  {
    AlwaysGood(events, k);
    VersionsGrow(events, begun + 1, k);
  }

  /**
   An inspection's finding becomes the status exactly when, since it began, no install began or ended
   and no other finding became the status.
   */
  lemma FindingCountsExactly(events: seq<Event>, i: nat, k: nat)
    requires i < k < |events| && events[k].EndInspect? && events[k].begun == i
    requires i in After(events, k).inspections
    ensures events[i].Ask?
    ensures Finds(events, k) <==> forall j :: i < j < k ==> !Renews(events, j)
    ensures After(events, k + 1).inner.status
         == if Finds(events, k) then events[k].found else After(events, k).inner.status
  {
    TicketIsKept(events, i, k);
    VersionsGrow(events, i + 1, k);
    if forall j :: i < j < k ==> !Renews(events, j) {
      StaysIdle(events, i + 1, k);
    }
  }

  lemma {:induction false} TicketsComeFromAsking(events: seq<Event>, n: nat, i: int)
    requires n <= |events| && i in After(events, n).inspections
    ensures i < n && (i >= 0 ==> events[i].Ask?)
  {
    if n > 0 && i in After(events, n - 1).inspections {
      TicketsComeFromAsking(events, n - 1, i);
    }
  }

  /** An inspection still under way has the version and the idle state it began with. */
  lemma {:induction false} TicketIsKept(events: seq<Event>, i: nat, k: nat)
    requires i < k <= |events| && i in After(events, k).inspections
    ensures events[i].Ask? && StatusAsked(After(events, i).inner).1.Inspect?
    ensures After(events, k).inspections[i] == After(events, i + 1).inner.version
    ensures After(events, i + 1).inner.active.None?
  {
    if i + 1 < k {
      TicketIsKept(events, i, k - 1);
    } else if i in After(events, i).inspections {
      TicketsComeFromAsking(events, i, i);
    }
  }

  lemma {:induction false} StaysIdle(events: seq<Event>, i: nat, k: nat)
    requires i <= k <= |events| && After(events, i).inner.active.None?
    requires forall j :: i <= j < k ==> !Renews(events, j)
    ensures After(events, k).inner.active.None?
  {
    if i < k {
      StaysIdle(events, i, k - 1);
      assert !Renews(events, k - 1);
    }
  }

  /**
   Once an install ends cancelled or failed, that is the status, and every answer, until the next
   install begins, whatever inspections were under way.
   */
  lemma {:induction false} ResultStays(events: seq<Event>, e: nat, k: nat)
    requires e < k <= |events| && Ends(events, e) && !events[e].ending.Succeeded?
    requires forall j :: e < j < k ==> !Begins(events, j)
    ensures After(events, k).inner.status
         == (match events[e].ending case Broke(category, message) => Failed(category, message) case _ => Cancelled)
    ensures After(events, k).inner.active.None? && After(events, k).inner.terminalResult
    ensures forall i <- After(events, k).inspections :: After(events, k).inspections[i] < After(events, k).inner.version
    ensures k < |events| && !events[k].Start? && Answered(events, k).Some? ==>
              Answered(events, k) == Some(After(events, k).inner.status)
  {
    AlwaysGood(events, e);
    if e + 1 < k {
      ResultStays(events, e, k - 1);
      assert !Begins(events, k - 1);
    }
  }

  /** While an install lasts, its runner is asked to stop exactly when a cancel came since it began. */
  lemma {:induction false} CancelReachesRunner(events: seq<Event>, begun: nat, n: nat)
    requires begun < n <= |events| && Begins(events, begun)
    requires forall j :: begun < j < n ==> !Ends(events, j)
    ensures var active := After(events, n).inner.active;
            && active.Some? && active.value.generation == After(events, begun).inner.generation + 1
            && (active.value.cancelRequested <==> exists j :: begun < j < n && events[j].Cancel?)
  {
    if begun + 1 < n {
      CancelReachesRunner(events, begun, n - 1);
      assert !Ends(events, n - 1);
      if events[n - 1].Cancel? {
        assert begun < n - 1 < n && events[n - 1].Cancel?;
      }
    }
  }

  /**
   A success is answered to the first status request after it, without looking at the disk; every
   later request inspects, until a new version.
   */
  lemma {:induction false} SuccessIsAnsweredOnce(events: seq<Event>, e: nat, k: nat)
    requires e < k <= |events| && Ends(events, e) && events[e].ending.Succeeded?
    requires forall j :: e < j < k ==> !Renews(events, j)
    ensures var s := After(events, k).inner;
            && s.status == Installed && s.active.None? && !s.terminalResult
            && (s.completedSuccess <==> forall j :: e < j < k ==> !events[j].Ask?)
    ensures k < |events| && events[k].Ask? ==>
              Answered(events, k) == if forall j :: e < j < k ==> !events[j].Ask? then Some(Installed) else None
  {
    AlwaysGood(events, e);
    if e + 1 < k {
      SuccessIsAnsweredOnce(events, e, k - 1);
      assert !Renews(events, k - 1);
    }
  }

  /** Event `j` is a report of the generation while it runs. */
  predicate Reports(events: seq<Event>, j: nat, generation: nat)
    requires j < |events|
  {
    events[j].Report? && events[j].generation == generation
  }

  function Min(a: nat, b: nat): nat {
    if a < b then a else b
  }

  /** What a report says is done, as far as the total known by then goes. */
  function Said(events: seq<Event>, j: nat): nat
    requires j < |events| && events[j].Report? && After(events, j + 1).inner.status.Installing?
  {
    Min(events[j].completed, After(events, j + 1).inner.status.total)
  }

  /** Status `after` is of the reports of the generation so far: all are taken in, and nothing else. */
  predicate TakesIn(events: seq<Event>, begun: nat, n: nat, generation: nat, status: Status)
    requires n <= |events| && status.Installing?
    requires forall j :: begun < j <= n ==> After(events, j).inner.status.Installing?
  {
    && (forall j :: begun < j < n && Reports(events, j, generation) ==>
          events[j].total <= status.total && Said(events, j) <= status.completed)
    && (status.total == 0
        || exists j :: begun < j < n && Reports(events, j, generation) && events[j].total == status.total)
    && (status.completed == 0
        || exists j :: begun < j < n && Reports(events, j, generation) && Said(events, j) == status.completed)
  }

  /** One step of a running install. */
  lemma ReportStep(events: seq<Event>, k: nat, generation: nat)
    requires k < |events| && Runs(After(events, k).inner, generation) && !Ends(events, k)
    ensures var before, after := After(events, k).inner.status, After(events, k + 1).inner.status;
            && before.Installing? && after.Installing?
            && if Reports(events, k, generation) then
                 && after.total == Max(before.total, events[k].total)
                 && after.completed == Max(before.completed, Min(events[k].completed, after.total))
               else after == before
  {
    AlwaysGood(events, k);
  }

  lemma TakesInNext(events: seq<Event>, begun: nat, k: nat, generation: nat)
    requires begun < k < |events| && Runs(After(events, k).inner, generation) && !Ends(events, k)
    requires forall j :: begun < j <= k ==> After(events, j).inner.status.Installing?
    requires TakesIn(events, begun, k, generation, After(events, k).inner.status)
    ensures After(events, k + 1).inner.status.Installing?
    ensures TakesIn(events, begun, k + 1, generation, After(events, k + 1).inner.status)
  {
    ReportStep(events, k, generation);
    var before, after := After(events, k).inner.status, After(events, k + 1).inner.status;
    if Reports(events, k, generation) {
      assert Said(events, k) == Min(events[k].completed, after.total);
      assert after.total == before.total || after.total == events[k].total;
      assert after.completed == before.completed || after.completed == Said(events, k);
    }
  }

  /**
   While an install lasts, its total is the largest it reported and what is done the most any report
   said, each no more than the total known by then; both are 0 before a report.
   */
  lemma {:induction false} ProgressIsWhatWasReported(events: seq<Event>, begun: nat, n: nat)
    requires begun < n <= |events| && Begins(events, begun) && forall j :: begun < j < n ==> !Ends(events, j)
    ensures forall j :: begun < j <= n ==> After(events, j).inner.status.Installing?
    ensures TakesIn(events, begun, n, After(events, begun).inner.generation + 1, After(events, n).inner.status)
  {
    if begun + 1 < n {
      ProgressIsWhatWasReported(events, begun, n - 1);
      CancelReachesRunner(events, begun, n - 1);
      TakesInNext(events, begun, n - 1, After(events, begun).inner.generation + 1);
    }
  }
}
