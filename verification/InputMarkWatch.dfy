/**
 The watch that hides the system's input-source mark: a window that lasts three
 seconds after the last request, and the one poller thread that serves it.
 */
module InputMarkWatch {
  import opened Wrappers

  /** The window's length in milliseconds, counted from the latest request. */
  const WATCH_WINDOW := 3000

  datatype Window = Window(until: Option<int>, polling: bool)

  function Requested(w: Window, now: int): Window {
    Window(Some(now + WATCH_WINDOW), true)
  }

  function Stopped(w: Window): Window {
    w.(until := None)
  }

  predicate Open(w: Window, now: int) {
    w.until.Some? && now < w.until.value
  }

  function Ticked(w: Window, now: int): Window {
    if Open(w, now) then w else Window(None, false)
  }

  class Watch {
    var until: Option<int>
    var polling: bool

    function State(): Window
      reads this
    {
      Window(until, polling)
    }

    constructor ()
      ensures State() == Window(None, false)
    {
      until, polling := None, false;
    }

    /** Moves the window's end; answers whether no poller is there, so that one has to be started. */
    method Request(now: int) returns (start: bool)
      modifies this
      ensures State() == Requested(old(State()), now) && start == !old(polling)
    {
      until := Some(now + WATCH_WINDOW);
      start := !polling;
      polling := true;
    }

    method Stop()
      modifies this`until
      ensures State() == Stopped(old(State()))
    {
      until := None;
    }

    /** A poller's question; a closed window ends that poller. */
    method Tick(now: int) returns (open: bool)
      modifies this
      ensures State() == Ticked(old(State()), now) && open == Open(old(State()), now)
    {
      open := until.Some? && now < until.value;
      if !open {
        until := None;
        polling := false;
      }
    }

    /** A poller thread that could not be started. */
    method SpawnFailed()
      modifies this`polling
      ensures State() == old(State()).(polling := false)
    {
      polling := false;
    }
  }

  // ------------------------------------------------------------------ runs

  /**
   A step of any thread. A poller is named by the request that must start it; its thread starts,
   or fails to, some time after that request has let go of the watch.
   */
  datatype Event =
    | Request(now: int)
    | Stop
    | Spawned(poller: nat)
    | SpawnFails(poller: nat)
    | Tick(poller: nat, now: int)

  datatype World = World(window: Window, starting: set<nat>, live: set<nat>)

  function Next(w: World, e: Event, at: nat): World {
    match e
    case Request(now) =>
      World(Requested(w.window, now), if w.window.polling then w.starting else w.starting + {at}, w.live)
    case Stop => w.(window := Stopped(w.window))
    case Spawned(p) => if p in w.starting then World(w.window, w.starting - {p}, w.live + {p}) else w
    case SpawnFails(p) =>
      if p in w.starting then World(w.window.(polling := false), w.starting - {p}, w.live) else w
    case Tick(p, now) =>
      if p !in w.live then w
      else World(Ticked(w.window, now), w.starting, if Open(w.window, now) then w.live else w.live - {p})
  }

  /** The world after the first `n` events. */
  function After(events: seq<Event>, n: nat): World
    requires n <= |events|
  {
    if n == 0 then World(Window(None, false), {}, {}) else Next(After(events, n - 1), events[n - 1], n - 1)
  }

  predicate IsCommand(e: Event) {
    e.Request? || e.Stop?
  }

  /** At most one poller starts or lives, and `polling` is set exactly while one does. */
  lemma {:induction false} OnePoller(events: seq<Event>, n: nat)
    requires n <= |events|
    ensures var w := After(events, n);
            && (w.window.polling <==> w.starting + w.live != {})
            && (forall p, q :: p in w.starting + w.live && q in w.starting + w.live ==> p == q)
            && w.starting !! w.live
            && (forall p :: p in w.starting + w.live ==> p < n)
  {
    if n > 0 {
      OnePoller(events, n - 1);
    }
  }

  /** With a poller starting or alive, the window is what the last request or stop left. */
  lemma {:induction false} WindowFromLastCommand(events: seq<Event>, i: nat, k: nat)
    requires i < k <= |events| && IsCommand(events[i])
    requires forall j :: i < j < k ==> !IsCommand(events[j])
    ensures After(events, k).window.polling ==>
              After(events, k).window.until == if events[i].Stop? then None else Some(events[i].now + WATCH_WINDOW)
    decreases k
  {
    OnePoller(events, k - 1);
    if i < k - 1 {
      WindowFromLastCommand(events, i, k - 1);
      OnePoller(events, k);
    }
  }

  /**
   A live poller exits at a tick exactly when the last command before it is a stop, or a request
   made three seconds or more before the tick. Otherwise the tick changes nothing.
   */
  lemma PollerExitsExactly(events: seq<Event>, i: nat, k: nat)
    requires i < k < |events| && IsCommand(events[i]) && events[k].Tick?
    requires forall j :: i < j < k ==> !IsCommand(events[j])
    requires events[k].poller in After(events, k).live
    ensures events[k].poller !in After(events, k + 1).live <==>
            events[i].Stop? || events[k].now >= events[i].now + 3000
    ensures events[k].poller in After(events, k + 1).live ==> After(events, k + 1) == After(events, k)
    ensures events[k].poller !in After(events, k + 1).live ==>
              After(events, k + 1) == World(Window(None, false), {}, {})
  {
    OnePoller(events, k);
    OnePoller(events, k + 1);
    WindowFromLastCommand(events, i, k);
  }

  /** A live poller has a command behind it. */
  lemma {:induction false} PollerWasAsked(events: seq<Event>, n: nat) returns (i: nat)
    requires n <= |events| && After(events, n).window.polling
    ensures i < n && IsCommand(events[i]) && forall j :: i < j < n ==> !IsCommand(events[j])
  {
    if IsCommand(events[n - 1]) {
      i := n - 1;
    } else {
      OnePoller(events, n - 1);
      i := PollerWasAsked(events, n - 1);
    }
  }

  predicate Serves(w: World, p: nat) {
    w.starting + w.live == {p}
  }

  /**
   After a request, as long as nothing stops the watch, no thread fails to start, no later request
   reads an earlier clock and every tick comes before the request's window ends, the one poller that
   served it serves on, and the window reaches at least as far.
   */
  lemma {:induction false} OnePollerServesThemAll(events: seq<Event>, i: nat, k: nat, p: nat)
    requires i < k <= |events| && events[i].Request? && Serves(After(events, i + 1), p)
    requires forall j :: i < j < k ==> !events[j].Stop? && !events[j].SpawnFails?
    requires forall j :: i < j < k && events[j].Request? ==> events[j].now >= events[i].now
    requires forall j :: i < j < k && events[j].Tick? ==> events[j].now < events[i].now + WATCH_WINDOW
    ensures Serves(After(events, k), p) && After(events, k).window.polling
    ensures After(events, k).window.until.Some? && After(events, k).window.until.value >= events[i].now + WATCH_WINDOW
  {
    if i + 1 < k {
      OnePollerServesThemAll(events, i, k - 1, p);
      OnePoller(events, k - 1);
      OnePoller(events, k);
    }
  }

  /** Every request leaves one poller to serve it: the one that served before, or one named after the request. */
  lemma RequestIsServed(events: seq<Event>, i: nat) returns (p: nat)
    requires i < |events| && events[i].Request?
    ensures Serves(After(events, i + 1), p)
    ensures if After(events, i).window.polling then Serves(After(events, i), p) else p == i
  {
    OnePoller(events, i);
    if After(events, i).window.polling {
      p :| p in After(events, i).starting + After(events, i).live;
    } else {
      p := i;
    }
  }
}
