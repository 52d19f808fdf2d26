/**
 The pairing session: a one-shot token whose check suspends while the identity
 verifier runs, so that any other call may come between its start and its end.

 A session's calls are modelled as events and every order of them as a run. A
 run's outcomes are characterised by `Grants`, which speaks of the events alone.
 The class holds the code; its methods take the session from state to state as
 the functions say.
 */
module Pairing {
  import opened Bytes
  import opened Wrappers
  import opened PairingToken

  const PAIRING_TOKEN_BYTES := 32

  const PAIRING_TTL_MS := 2 * 60 * 1000

  datatype Terminal = Consumed | Revoked | Closed

  datatype Failure =
    WrongToken | Expired | Replayed | IdentityRejected | VerifierError | SessionRevoked | SessionClosed

  type Secret = s: seq<byte> | |s| == PAIRING_TOKEN_BYTES witness seq(PAIRING_TOKEN_BYTES, _ => 0)

  /** The fields of a session; `token` is None once the token is consumed or withdrawn. */
  datatype Session<I> = Session(
    expected: I, token: Option<Secret>, expiresAt: int, terminal: Option<Terminal>, generation: nat)

  datatype Handoff = Handoff(token: string, expiresAt: int)

  /** How the first half of `authorize` ends: refused, or waiting for the verifier of `expected` against `peer`. */
  datatype Attempt<I> = Refused(failure: Failure) | Waiting(generation: nat, expected: I, peer: I)

  /** The verifier's answer: a boolean, or an exception or rejection. */
  datatype Verdict = Accepts | Rejects | Throws

  datatype PairingResult = Authorized | Failed(failure: Failure)

  // ----------------------------------------------------- the session's calls

  function Fresh<I>(expected: I): Session<I> {
    Session(expected, None, 0, None, 0)
  }

  function HandOver<I>(s: Session<I>, random: Secret, now: int): (Session<I>, Result<Handoff, Failure>) {
    if s.terminal == Some(Closed) then (s, Err(SessionClosed))
    else
      var expiresAt := now + PAIRING_TTL_MS;
      (Session(s.expected, Some(random), expiresAt, None, s.generation + 1), Ok(Handoff(Encoded(random), expiresAt)))
  }

  function Begin<I>(s: Session<I>, token: Utf8, peer: I, now: int): (Session<I>, Attempt<I>) {
    if s.terminal.Some? then
      (s, Refused(match s.terminal.value
                  case Consumed => Replayed
                  case Revoked => SessionRevoked
                  case Closed => SessionClosed))
    else if s.token.None? then (s, Refused(Replayed))
    else
      var after := s.(terminal := Some(Consumed), token := None);
      if now >= s.expiresAt then (after, Refused(Expired))
      else if token != TokenBytes(s.token.value) then (after, Refused(WrongToken))
      else (after, Waiting(s.generation, s.expected, peer))
  }

  function End<I>(s: Session<I>, generation: nat, verdict: Verdict): PairingResult {
    if generation != s.generation then Failed(Replayed)
    else match verdict
      case Accepts => Authorized
      case Rejects => Failed(IdentityRejected)
      case Throws => Failed(VerifierError)
  }

  /** Revoking and closing: nothing once closed, otherwise the token is gone and waiting attempts are stale. */
  function Withdraw<I>(s: Session<I>, terminal: Terminal): Session<I> {
    if s.terminal == Some(Closed) then s
    else Session(s.expected, None, 0, Some(terminal), s.generation + 1)
  }

  // ------------------------------------------------------------- the class

  /** The token's bytes live in a buffer that every way of losing the token overwrites. */
  class PairingSession<I> {
    var expectedIdentity: I
    var tokenBytes: array?<byte>
    var expiresAt: int
    var terminalState: Option<Terminal>
    var generation: nat

    ghost predicate Valid()
      reads this
    {
      tokenBytes != null ==> tokenBytes.Length == PAIRING_TOKEN_BYTES
    }

    ghost function State(): Session<I>
      requires Valid()
      reads this, tokenBytes
    {
      Session(
        expectedIdentity, if tokenBytes == null then None else Some(tokenBytes[..]),
        expiresAt, terminalState, generation)
    }

    constructor (expected: I)
      ensures Valid() && State() == Fresh(expected)
    {
      expectedIdentity, tokenBytes, expiresAt, terminalState, generation := expected, null, 0, None, 0;
    }

    method CreateHandoff(random: Secret, now: int) returns (r: Result<Handoff, Failure>)
      requires Valid()
      modifies this, tokenBytes
      ensures Valid() && (State(), r) == HandOver(old(State()), random, now)
      ensures r.Ok? && old(tokenBytes) != null ==> Zeroed(old(tokenBytes))
    {
      if terminalState == Some(Closed) {
        return Err(SessionClosed);
      }
      InvalidateToken();
      var bytes := new byte[PAIRING_TOKEN_BYTES](i requires 0 <= i < PAIRING_TOKEN_BYTES => random[i]);
      tokenBytes := bytes;
      expiresAt := now + PAIRING_TTL_MS;
      terminalState := None;
      generation := generation + 1;
      assert bytes[..] == random;
      var token := EncodeToken(bytes[..]);
      return Ok(Handoff(token, expiresAt));
    }

    method Replace(expected: I, random: Secret, now: int) returns (r: Result<Handoff, Failure>)
      requires Valid()
      modifies this, tokenBytes
      ensures Valid() && (State(), r) == HandOver(old(State()).(expected := expected), random, now)
      ensures r.Ok? && old(tokenBytes) != null ==> Zeroed(old(tokenBytes))
    {
      expectedIdentity := expected;
      r := CreateHandoff(random, now);
    }

    /** `authorize` up to its `await`. */
    method AuthorizeBegin(token: Utf8, peer: I, now: int) returns (attempt: Attempt<I>)
      requires Valid()
      modifies this, tokenBytes
      ensures Valid() && (State(), attempt) == Begin(old(State()), token, peer, now)
      ensures old(tokenBytes) != null && tokenBytes == null ==> Zeroed(old(tokenBytes))
    {
      if terminalState.Some? {
        return Refused(match terminalState.value
                       case Consumed => Replayed
                       case Revoked => SessionRevoked
                       case Closed => SessionClosed);
      }
      var expectedToken := tokenBytes;
      if expectedToken == null {
        return Refused(Replayed);
      }
      var started := generation;
      terminalState := Some(Consumed);
      tokenBytes := null;
      var expired := now >= expiresAt;
      EncodedLength(expectedToken[..]);
      var matches := TokenMatches(token, expectedToken[..]);
      Fill0(expectedToken);
      if expired {
        return Refused(Expired);
      }
      if !matches {
        return Refused(WrongToken);
      }
      return Waiting(started, expectedIdentity, peer);
    }

    /** `authorize` from the verifier's answer on. */
    method AuthorizeEnd(started: nat, verdict: Verdict) returns (r: PairingResult)
      requires Valid()
      ensures r == End(State(), started, verdict)
    {
      if started != generation {
        return Failed(Replayed);
      }
      match verdict {
        case Accepts => return Authorized;
        case Rejects => return Failed(IdentityRejected);
        case Throws => return Failed(VerifierError);
      }
    }

    method Revoke()
      requires Valid()
      modifies this, tokenBytes
      ensures Valid() && State() == Withdraw(old(State()), Revoked)
      ensures old(tokenBytes) != null && tokenBytes == null ==> Zeroed(old(tokenBytes))
    {
      if terminalState == Some(Closed) {
        return;
      }
      InvalidateToken();
      terminalState := Some(Revoked);
      generation := generation + 1;
    }

    method Close()
      requires Valid()
      modifies this, tokenBytes
      ensures Valid() && State() == Withdraw(old(State()), Closed)
      ensures old(tokenBytes) != null && tokenBytes == null ==> Zeroed(old(tokenBytes))
    {
      if terminalState == Some(Closed) {
        return;
      }
      InvalidateToken();
      terminalState := Some(Closed);
      generation := generation + 1;
    }

    method InvalidateToken()
      requires Valid()
      modifies this`tokenBytes, this`expiresAt, tokenBytes
      ensures tokenBytes == null && expiresAt == 0
      ensures old(tokenBytes) != null ==> Zeroed(old(tokenBytes))
    {
      if tokenBytes != null {
        Fill0(tokenBytes);
      }
      tokenBytes := null;
      expiresAt := 0;
    }
  }

  ghost predicate Zeroed(a: array<byte>)
    reads a
  {
    forall i :: 0 <= i < a.Length ==> a[i] == 0
  }

  method Fill0(a: array<byte>)
    modifies a
    ensures Zeroed(a)
  {
    forall i | 0 <= i < a.Length {
      a[i] := 0;
    }
  }

  lemma {:induction false} SextetCount(bytes: seq<byte>)
    ensures |Sextets(bytes)| <= 4 + 4 * (|bytes| / 3)
  {
    if |bytes| >= 3 {
      SextetCount(bytes[3..]);
    }
  }

  lemma EncodedLength(bytes: Secret)
    ensures |TokenBytes(bytes)| < 0x1_0000_0000
  {
    SextetCount(bytes);
  }

  // ------------------------------------------------------------------ runs

  /** A call on the session, or the verifier answering the attempt that event number `begun` began. */
  datatype Event<I> =
    | Create(random: Secret, now: int)
    | Exchange(identity: I, random: Secret, now: int)
    | Start(token: Utf8, peer: I, now: int)
    | Resume(begun: nat, verdict: Verdict)
    | DoRevoke
    | DoClose

  datatype Outcome<I> =
    | Handed(handoff: Result<Handoff, Failure>)
    | Began(attempt: Attempt<I>)
    | Ended(result: PairingResult)
    | Nothing

  /** A session and the attempts that wait for the verifier, each with its generation. */
  datatype World<I> = World(session: Session<I>, waiting: map<nat, nat>)

  /** Event number `at`. A verifier's answer to an attempt that does not wait is no event of the program's. */
  function Step<I>(w: World<I>, e: Event<I>, at: nat): (World<I>, Outcome<I>) {
    match e
    case Create(random, now) =>
      var (s, r) := HandOver(w.session, random, now);
      (w.(session := s), Handed(r))
    case Exchange(identity, random, now) =>
      var (s, r) := HandOver(w.session.(expected := identity), random, now);
      (w.(session := s), Handed(r))
    case Start(token, peer, now) =>
      var (s, attempt) := Begin(w.session, token, peer, now);
      (World(s, if attempt.Waiting? then w.waiting[at := attempt.generation] else w.waiting), Began(attempt))
    case Resume(begun, verdict) =>
      if begun !in w.waiting then (w, Nothing)
      else (w.(waiting := w.waiting - {begun}), Ended(End(w.session, w.waiting[begun], verdict)))
    case DoRevoke => (w.(session := Withdraw(w.session, Revoked)), Nothing)
    case DoClose => (w.(session := Withdraw(w.session, Closed)), Nothing)
  }

  /** The world after the first `n` events. */
  function After<I>(expected: I, events: seq<Event<I>>, n: nat): World<I>
    requires n <= |events|
  {
    if n == 0 then World(Fresh(expected), map[]) else Step(After(expected, events, n - 1), events[n - 1], n - 1).0
  }

  function OutcomeAt<I>(expected: I, events: seq<Event<I>>, n: nat): Outcome<I>
    requires n < |events|
  {
    Step(After(expected, events, n), events[n], n).1
  }

  // ---------------------------------------------- what the events alone say

  predicate HandsOff<I>(e: Event<I>) {
    e.Create? || e.Exchange?
  }

  /** A new handoff, a revocation or a close. */
  predicate Interrupts<I>(e: Event<I>) {
    HandsOff(e) || e.DoRevoke? || e.DoClose?
  }

  predicate NoClose<I>(events: seq<Event<I>>, n: nat)
    requires n <= |events|
  {
    forall i :: 0 <= i < n ==> !events[i].DoClose?
  }

  predicate Uninterrupted<I>(events: seq<Event<I>>, from: nat, to: nat)
    requires to <= |events|
  {
    forall i :: from <= i < to ==> !Interrupts(events[i])
  }

  predicate NoStart<I>(events: seq<Event<I>>, from: nat, to: nat)
    requires to <= |events|
  {
    forall i :: from <= i < to ==> !events[i].Start?
  }

  predicate NoResume<I>(events: seq<Event<I>>, begun: nat, from: nat, to: nat)
    requires to <= |events|
  {
    forall i :: from <= i < to ==> !(events[i].Resume? && events[i].begun == begun)
  }

  /** Handoff `h` happened and its token is still unused before event `n`. */
  predicate Live<I>(events: seq<Event<I>>, h: nat, n: nat)
    requires n <= |events|
  {
    h < n && HandsOff(events[h]) && NoClose(events, h) && Uninterrupted(events, h + 1, n) && NoStart(events, h + 1, n)
  }

  /** Event `s` presents the token of handoff `h` in time, as its first use. */
  predicate Opens<I>(events: seq<Event<I>>, h: nat, s: nat)
    requires s < |events|
  {
    && Live(events, h, s)
    && events[s].Start?
    && events[s].token == TokenBytes(events[h].random)
    && events[s].now < events[h].now + PAIRING_TTL_MS
  }

  /** Event `r` is the verifier's first answer to that start, it accepts, and nothing interrupted the wait. */
  predicate Grants<I>(events: seq<Event<I>>, h: nat, s: nat, r: nat)
    requires r < |events|
  {
    && s < r
    && Opens(events, h, s)
    && Uninterrupted(events, s + 1, r)
    && NoResume(events, s, s + 1, r)
    && events[r] == Resume(s, Accepts)
  }

  /** The identity last set before event `n`. */
  function IdentityAt<I>(expected: I, events: seq<Event<I>>, n: nat): I
    requires n <= |events|
  {
    if n == 0 then expected
    else if events[n - 1].Exchange? then events[n - 1].identity
    else IdentityAt(expected, events, n - 1)
  }

  // ------------------------------------------------------------- invariant

  ghost predicate TokenInvariant<I>(s: Session<I>, events: seq<Event<I>>, n: nat)
    requires n <= |events|
  {
    && (s.token.Some? ==> exists h: nat :: Live(events, h, n))
    && (forall h: nat :: Live(events, h, n) ==>
          s.token == Some(events[h].random) && s.expiresAt == events[h].now + PAIRING_TTL_MS)
    && (s.token.Some? ==> s.terminal.None?)
    && (s.terminal == Some(Closed) <==> !NoClose(events, n))
  }

  /** Attempt `s` waits exactly when it opened and has no answer, and is current exactly when nothing interrupted it. */
  ghost predicate AttemptInvariant<I>(w: World<I>, events: seq<Event<I>>, s: nat, n: nat)
    requires n <= |events|
  {
    && (s in w.waiting <==> s < n && NoResume(events, s, s + 1, n) && exists h: nat :: Opens(events, h, s))
    && (s in w.waiting ==> w.waiting[s] <= w.session.generation)
    && (s in w.waiting ==> (w.waiting[s] == w.session.generation <==> Uninterrupted(events, s + 1, n)))
    && (s in w.waiting && w.waiting[s] == w.session.generation ==> w.session.terminal == Some(Consumed))
  }

  lemma TokenStep<I>(expected: I, events: seq<Event<I>>, n: nat)
    requires n < |events| && TokenInvariant(After(expected, events, n).session, events, n)
    ensures TokenInvariant(After(expected, events, n + 1).session, events, n + 1)
  {
    var s, t := After(expected, events, n).session, After(expected, events, n + 1).session;
    assert NoClose(events, n + 1) <==> NoClose(events, n) && !events[n].DoClose?;
    forall h: nat | h < n ensures Live(events, h, n + 1) <==> Live(events, h, n) && events[n].Resume? {
    }
    if t.token.Some? {
      if HandsOff(events[n]) {
        assert Live(events, n, n + 1);
      } else {
        var h :| Live(events, h, n);
        assert Live(events, h, n + 1);
      }
    }
  }

  lemma StartStep<I>(expected: I, events: seq<Event<I>>, n: nat)
    requires n < |events| && events[n].Start? && TokenInvariant(After(expected, events, n).session, events, n)
    requires n !in After(expected, events, n).waiting
    ensures AttemptInvariant(After(expected, events, n + 1), events, n, n + 1)
  {
    var w, v := After(expected, events, n), After(expected, events, n + 1);
    if w.session.token.Some? {
      var h: nat :| Live(events, h, n);
      assert n in v.waiting <==> Opens(events, h, n);
      forall g: nat | Opens(events, g, n) ensures n in v.waiting {
        assert Live(events, g, n);
      }
    } else {
      forall g: nat ensures !Opens(events, g, n) {
        assert !Live(events, g, n);
      }
    }
  }

  lemma AttemptStep<I>(expected: I, events: seq<Event<I>>, s: nat, n: nat)
    requires n < |events| && TokenInvariant(After(expected, events, n).session, events, n)
    requires AttemptInvariant(After(expected, events, n), events, s, n)
    ensures AttemptInvariant(After(expected, events, n + 1), events, s, n + 1)
  {
    if s == n && events[n].Start? {
      StartStep(expected, events, n);
    } else if s == n {
      forall h: nat ensures !Opens(events, h, n) {
      }
    } else if s < n {
      assert NoResume(events, s, s + 1, n + 1)
        <==> NoResume(events, s, s + 1, n) && !(events[n].Resume? && events[n].begun == s);
      assert Uninterrupted(events, s + 1, n + 1) <==> Uninterrupted(events, s + 1, n) && !Interrupts(events[n]);
    }
  }

  lemma {:induction false} InvariantHolds<I>(expected: I, events: seq<Event<I>>, n: nat)
    requires n <= |events|
    ensures TokenInvariant(After(expected, events, n).session, events, n)
    ensures forall s: nat :: AttemptInvariant(After(expected, events, n), events, s, n)
  {
    if n > 0 {
      InvariantHolds(expected, events, n - 1);
      TokenStep(expected, events, n - 1);
      forall s: nat ensures AttemptInvariant(After(expected, events, n), events, s, n) {
        AttemptStep(expected, events, s, n - 1);
      }
    }
  }

  lemma {:induction false} IdentityHolds<I>(expected: I, events: seq<Event<I>>, n: nat)
    requires n <= |events|
    ensures After(expected, events, n).session.expected == IdentityAt(expected, events, n)
  {
    if n > 0 {
      IdentityHolds(expected, events, n - 1);
    }
  }

  /** The last handoff, revocation or close before event `n` is a revocation. */
  ghost predicate RevokedLast<I>(events: seq<Event<I>>, n: nat)
    requires n <= |events|
  {
    exists v: nat :: v < n && events[v].DoRevoke? && Uninterrupted(events, v + 1, n)
  }

  lemma {:induction false} RevokedHolds<I>(expected: I, events: seq<Event<I>>, n: nat)
    requires n <= |events|
    ensures After(expected, events, n).session.terminal == Some(Revoked) <==>
            NoClose(events, n) && RevokedLast(events, n)
  {
    if n > 0 {
      RevokedHolds(expected, events, n - 1);
      InvariantHolds(expected, events, n - 1);
      if events[n - 1].DoRevoke? {
        assert Uninterrupted(events, n - 1 + 1, n);
      } else {
        forall v: nat | v < n - 1 && events[v].DoRevoke?
          ensures Uninterrupted(events, v + 1, n) <==> Uninterrupted(events, v + 1, n - 1) && !Interrupts(events[n - 1])
        {
        }
      }
    }
  }

  // ---------------------------------------------------------- main results

  /**
   In every order of calls, an answer authorizes exactly when it is the verifier's first, accepting
   answer to the first use, in time and with the right token, of a handoff that nothing has replaced,
   revoked or closed since.
   */
  lemma AuthorizedExactly<I>(expected: I, events: seq<Event<I>>, r: nat)
    requires r < |events|
    ensures OutcomeAt(expected, events, r) == Ended(Authorized) <==> exists h: nat, s: nat :: Grants(events, h, s, r)
  {
    var w := After(expected, events, r);
    InvariantHolds(expected, events, r);
    if events[r].Resume? {
      var s := events[r].begun;
      assert AttemptInvariant(w, events, s, r);
      if OutcomeAt(expected, events, r) == Ended(Authorized) {
        var h: nat :| Opens(events, h, s);
        assert Grants(events, h, s, r);
      }
    }
  }

  /**
   What a start is answered, from the events alone: with an unused handoff, its expiry counts before
   its token; without one, a close counts before a revocation, and a revocation before a replay.
   */
  lemma StartAnswers<I>(expected: I, events: seq<Event<I>>, s: nat)
    requires s < |events| && events[s].Start? && OutcomeAt(expected, events, s).Began?
    ensures var attempt := OutcomeAt(expected, events, s).attempt;
            && (forall h: nat :: Live(events, h, s) ==>
                  && (attempt == Refused(Expired) <==> events[s].now >= events[h].now + PAIRING_TTL_MS)
                  && (attempt == Refused(WrongToken) <==>
                        && events[s].now < events[h].now + PAIRING_TTL_MS
                        && events[s].token != TokenBytes(events[h].random))
                  && (attempt.Waiting? <==> Opens(events, h, s)))
            && ((forall h: nat :: !Live(events, h, s)) ==>
                  attempt == Refused(if !NoClose(events, s) then SessionClosed
                                     else if RevokedLast(events, s) then SessionRevoked else Replayed))
  {
    InvariantHolds(expected, events, s);
    RevokedHolds(expected, events, s);
  }

  /**
   Before a close every handoff answers a token that decodes to its own random bytes, and the time two
   minutes after it; after a close it is refused.
   */
  lemma HandoffAnswers<I>(expected: I, events: seq<Event<I>>, h: nat)
    requires h < |events| && HandsOff(events[h])
    ensures if NoClose(events, h) then
              && OutcomeAt(expected, events, h).Handed? && OutcomeAt(expected, events, h).handoff.Ok?
              && var handoff := OutcomeAt(expected, events, h).handoff.value;
                 Decoded(handoff.token) == Some(events[h].random) && handoff.expiresAt == events[h].now + 120_000
            else OutcomeAt(expected, events, h) == Handed(Err(SessionClosed))
  {
    InvariantHolds(expected, events, h);
    DecodingInvertsEncoding(Encoded(events[h].random), events[h].random);
  }

  /** The first use of the very token that a handoff answered waits for the verifier, in time and uninterrupted. */
  lemma HandedTokenWaits<I>(expected: I, events: seq<Event<I>>, h: nat, s: nat)
    requires s < |events| && Live(events, h, s) && events[s].Start?
    requires OutcomeAt(expected, events, h).Handed? && OutcomeAt(expected, events, h).handoff.Ok?
    requires var handoff := OutcomeAt(expected, events, h).handoff.value;
             && events[s].now < handoff.expiresAt
             && |events[s].token| == |handoff.token|
             && forall i :: 0 <= i < |handoff.token| ==> events[s].token[i] == handoff.token[i] as int
    ensures OutcomeAt(expected, events, s).Began? && OutcomeAt(expected, events, s).attempt.Waiting?
  {
    HandoffAnswers(expected, events, h);
    var token := OutcomeAt(expected, events, h).handoff.value.token;
    DecodingInvertsEncoding(token, events[h].random);
    EncodedIsAscii(events[h].random);
    assert events[s].token == TokenBytes(events[h].random);
    InvariantHolds(expected, events, s);
  }

  /** What every answered attempt ends in: a replay when it was interrupted, otherwise what the verifier says. */
  lemma ResumeAnswers<I>(expected: I, events: seq<Event<I>>, r: nat)
    requires r < |events| && events[r].Resume? && OutcomeAt(expected, events, r).Ended?
    ensures events[r].begun < r
    ensures var result, current := OutcomeAt(expected, events, r).result, Uninterrupted(events, events[r].begun + 1, r);
            && (result == Failed(Replayed) <==> !current)
            && (result == Authorized <==> current && events[r].verdict == Accepts)
            && (result == Failed(IdentityRejected) <==> current && events[r].verdict == Rejects)
            && (result == Failed(VerifierError) <==> current && events[r].verdict == Throws)
  {
    InvariantHolds(expected, events, r);
    assert AttemptInvariant(After(expected, events, r), events, events[r].begun, r);
  }

  /** An attempt that waits is answered once, by the first event that brings its verifier's answer. */
  lemma ResumeIsAnswered<I>(expected: I, events: seq<Event<I>>, r: nat)
    requires r < |events| && events[r].Resume?
    ensures OutcomeAt(expected, events, r).Ended? <==>
            && events[r].begun < r
            && NoResume(events, events[r].begun, events[r].begun + 1, r)
            && OutcomeAt(expected, events, events[r].begun).Began?
            && OutcomeAt(expected, events, events[r].begun).attempt.Waiting?
  {
    var s := events[r].begun;
    InvariantHolds(expected, events, r);
    assert AttemptInvariant(After(expected, events, r), events, s, r);
    if s < r {
      InvariantHolds(expected, events, s);
      InvariantHolds(expected, events, s + 1);
      assert AttemptInvariant(After(expected, events, s + 1), events, s, s + 1);
      assert AttemptInvariant(After(expected, events, s), events, s, s);
    }
  }

  /** A handoff authorizes once at most. */
  lemma OneGrantPerHandoff<I>(events: seq<Event<I>>, h: nat, s: nat, r: nat, s': nat, r': nat)
    requires r < |events| && r' < |events|
    requires Grants(events, h, s, r) && Grants(events, h, s', r')
    ensures s == s' && r == r'
  {
    assert events[s].Start? && events[s'].Start?;
    assert s == s';
    assert events[r].Resume? && events[r].begun == s && events[r'].Resume? && events[r'].begun == s;
  }

  /** The verifier an attempt waits for compares the peer with the identity its handoff was made for. */
  lemma VerifiesHandoffIdentity<I>(expected: I, events: seq<Event<I>>, h: nat, s: nat)
    requires s < |events| && Opens(events, h, s)
    ensures var outcome := OutcomeAt(expected, events, s);
            && outcome.Began? && outcome.attempt.Waiting?
            && outcome.attempt.expected == IdentityAt(expected, events, h + 1)
            && outcome.attempt.peer == events[s].peer
  {
    InvariantHolds(expected, events, s);
    IdentityHolds(expected, events, s);
    SameIdentity(expected, events, h + 1, s);
  }

  lemma {:induction false} SameIdentity<I>(expected: I, events: seq<Event<I>>, from: nat, to: nat)
    requires from <= to <= |events| && Uninterrupted(events, from, to)
    ensures IdentityAt(expected, events, from) == IdentityAt(expected, events, to)
  {
    if from < to {
      assert !Interrupts(events[to - 1]);
      SameIdentity(expected, events, from, to - 1);
    }
  }

  /** Once closed, no handoff is made and nothing is authorized, not even an attempt that already waits. */
  lemma NothingAfterClose<I>(expected: I, events: seq<Event<I>>, c: nat, r: nat)
    requires c < r < |events| && events[c].DoClose?
    ensures OutcomeAt(expected, events, r) != Ended(Authorized)
    ensures HandsOff(events[r]) ==> OutcomeAt(expected, events, r) == Handed(Err(SessionClosed))
  {
    InvariantHolds(expected, events, r);
    AuthorizedExactly(expected, events, r);
    forall h: nat, s: nat ensures !Grants(events, h, s, r) {
      if Grants(events, h, s, r) {
        assert Interrupts(events[c]);
        assert false;
      }
    }
  }
}
