/**
 The relay connection: requests and events multiplexed over an injected
 transport, whose callbacks may call the connection again before they return.

 `Callback` stands for every call into foreign code: it makes any number of
 calls on the connection, in any order, nested `depth` deep, and may throw. Each
 method holds for every `depth`.
 */
module Relay {
  import opened Wrappers
  import opened RelayLedger

  const DEFAULT_MAX_MESSAGE_BYTES := 1024 * 1024

  const MAX_SAFE_INTEGER := 0x1F_FFFF_FFFF_FFFF

  // -------------------------------------------------------------- messages

  /** The members the relay looks at; None for one the record does not have. */
  datatype Record = Record(
    id: Option<Json>, result: Option<Json>, error: Option<Json>, name: Option<Json>, params: Option<Json>)

  /** A message as it arrives: its length, and its record when it decodes and parses as one. */
  datatype Message = Message(byteLength: nat, content: Option<Record>)

  predicate IsResponse(r: Record) {
    && (r.id.Some? && r.id.value.Whole? && 0 < r.id.value.n <= MAX_SAFE_INTEGER)
    && (r.result.Some? != r.error.Some?)
    && r.name.None?
  }

  predicate IsEvent(r: Record) {
    r.name.Some? && r.name.value.Text? && r.name.value.s != "" && r.result.None? && r.error.None?
  }

  datatype Meaning = Response(id: nat, how: Settlement) | Event | Invalid

  /** What a message of at most `limit` bytes asks the connection to do. */
  function MeaningOf(m: Message, limit: nat): Meaning {
    if m.byteLength > limit || m.content.None? then Invalid
    else
      var r := m.content.value;
      if r.id.Some? then
        if !IsResponse(r) then Invalid
        else Response(r.id.value.n, if r.error.Some? then RequestFailed else Resolved(r.result.value))
      else if IsEvent(r) then Event
      else Invalid
  }

  /** The record has the shape of a response: a positive safe whole id, a result or an error and not both, no method. */
  predicate AnswersId(r: Record, n: int) {
    && r.id == Some(Whole(n)) && 0 < n <= 0x1F_FFFF_FFFF_FFFF
    && r.name == None && (r.result == None || r.error == None) && !(r.result == None && r.error == None)
  }

  /** It has the shape of an event: no id, a method that is a text and not empty, no result and no error. */
  predicate Announces(r: Record) {
    && r.id == None && r.result == None && r.error == None
    && r.name.Some? && r.name.value.Text? && r.name.value.s != ""
  }

  predicate Parses(m: Message, limit: nat) {
    m.byteLength <= limit && m.content.Some?
  }

  /** Which messages answer a request with a result, and which as failed. */
  lemma ResponseExactly(m: Message, limit: nat, n: nat, result: Json)
    ensures MeaningOf(m, limit) == Response(n, Resolved(result)) <==>
            Parses(m, limit) && AnswersId(m.content.value, n) && m.content.value.result == Some(result)
    ensures MeaningOf(m, limit) == Response(n, RequestFailed) <==>
            Parses(m, limit) && AnswersId(m.content.value, n) && m.content.value.error != None
  {
  }

  /** Which messages are events, and which close the connection. */
  lemma OtherMessagesExactly(m: Message, limit: nat)
    ensures MeaningOf(m, limit) == Event <==> Parses(m, limit) && Announces(m.content.value)
    ensures MeaningOf(m, limit) == Invalid <==>
            || !Parses(m, limit)
            || (m.content.value.id != None && forall n :: !AnswersId(m.content.value, n))
            || (m.content.value.id == None && !Announces(m.content.value))
  {
    if m.content.Some? && m.content.value.id.Some? && m.content.value.id.value.Whole? {
      assert AnswersId(m.content.value, m.content.value.id.value.n) <==> IsResponse(m.content.value);
    }
  }

  lemma MeaningHolds(m: Message, limit: nat)
    ensures forall n: nat :: Parses(m, limit) && AnswersId(m.content.value, n) ==>
              var r := m.content.value;
              MeaningOf(m, limit)
              == Response(n, if r.error != None then RequestFailed else Resolved(r.result.value))
  {
    forall n: nat | Parses(m, limit) && AnswersId(m.content.value, n)
      ensures var r := m.content.value;
              MeaningOf(m, limit)
              == Response(n, if r.error != None then RequestFailed else Resolved(r.result.value))
    {
      var r := m.content.value;
      if r.error == None {
        ResponseExactly(m, limit, n, r.result.value);
      } else {
        ResponseExactly(m, limit, n, r.error.value);
      }
    }
  }

  datatype Sent = Promised(id: nat) | RefusedClosed | RefusedMethod

  datatype OpenFailure = RangeError | Rethrown

  // ------------------------------------------------------------ connection

  class RelayConnection {
    const maxMessageBytes: nat
    var pending: set<nat>
    var eventListeners: set<nat>
    var closeListeners: set<nat>
    var removeTransportListeners: seq<nat>
    var lastId: nat
    var closed: bool

    /** Every request issued and settled, in order. */
    ghost var log: seq<Entry>
    /** Disposal began and has not returned. */
    ghost var disposing: bool
    /** How many unsubscribe functions the transport returned: numbers 0 up to this. */
    ghost var handed: nat
    /** How often each was called. */
    ghost var called: multiset<nat>
    /** How many of `removeTransportListeners` the disposal under way has called. */
    ghost var removed: nat

    ghost predicate Inv()
      reads this
    {
      && Orderly(log, pending, lastId)
      && removed <= |removeTransportListeners|
      && Balanced(removeTransportListeners[removed..], called, handed)
      && (disposing ==> closed)
      && (!disposing ==> removed == 0)
      && (closed && !disposing ==> Empty())
    }

    ghost predicate Empty()
      reads this
    {
      pending == {} && eventListeners == {} && closeListeners == {} && removeTransportListeners == []
    }

    /** Every unsubscribe function returned so far was called, each exactly once. */
    ghost predicate AllCalled()
      reads this
    {
      Balanced([], called, handed)
    }

    /** What every call keeps, however it is re-entered: history only grows, and a closed connection's is final. */
    twostate predicate Keeps()
      reads this
    {
      && old(log) <= log
      && old(lastId) <= lastId
      && handed == old(handed)
      && disposing == old(disposing)
      && (old(closed) ==> closed && Frozen() && closeListeners <= old(closeListeners))
    }

    twostate predicate Frozen()
      reads this
    {
      && log == old(log)
      && lastId == old(lastId)
      && pending == old(pending)
      && removeTransportListeners == old(removeTransportListeners)
      && removed == old(removed)
      && called == old(called)
    }

    /** What was added to the history is one settlement of each pending request, as of a closed connection. */
    twostate predicate ClosedPending()
      reads this
    {
      Closings(old(log), log, old(pending))
    }

    /** Nothing of the connection or its history is different. */
    twostate predicate Same()
      reads this
    {
      && Frozen()
      && handed == old(handed) && disposing == old(disposing) && closed == old(closed)
      && eventListeners == old(eventListeners) && closeListeners == old(closeListeners)
    }

    constructor (limit: nat)
      ensures Inv() && !closed && !disposing && maxMessageBytes == limit
      ensures log == [] && lastId == 0 && handed == 0 && called == multiset{}
    {
      maxMessageBytes := limit;
      pending, eventListeners, closeListeners, removeTransportListeners := {}, {}, {}, [];
      lastId, closed := 0, false;
      log, disposing, handed, called, removed := [], false, 0, multiset{}, 0;
    }

    /** The constructor's subscriptions; a failure disposes and is thrown again. */
    static method Open(limit: Option<int>, depth: nat) returns (relay: RelayConnection?, failure: Option<OpenFailure>)
      ensures var bytes := if limit.Some? then limit.value else DEFAULT_MAX_MESSAGE_BYTES;
              failure == Some(RangeError) <==> !(0 < bytes <= MAX_SAFE_INTEGER)
      ensures relay != null <==> failure != Some(RangeError)
      ensures relay != null ==> fresh(relay) && relay.Inv() && !relay.disposing
      ensures failure == Some(Rethrown) ==> relay.closed
      ensures failure.None? ==> relay.handed == 2
      ensures relay != null && relay.closed ==> relay.AllCalled()
    {
      var bytes := if limit.Some? then limit.value else DEFAULT_MAX_MESSAGE_BYTES;
      if !(0 < bytes <= MAX_SAFE_INTEGER) {
        return null, Some(RangeError);
      }
      relay := new RelayConnection(bytes);
      // transport.onMessage
      var threw := relay.Callback(depth);
      if !threw {
        relay.RetainTransportListener(0, depth);
        // transport.onClose
        threw := relay.Callback(depth);
        if !threw {
          relay.RetainTransportListener(1, depth);
        }
      }
      failure := None;
      if threw {
        relay.Dispose(depth);
        failure := Some(Rethrown);
      }
      assert relay.closed ==> relay.removeTransportListeners[relay.removed..] == [];
    }

    method Send(name: Option<string>, depth: nat) returns (r: Sent)
      requires Inv()
      modifies this
      ensures Inv() && Keeps()
      ensures r == if old(closed) then RefusedClosed
                   else if name.None? || name.value == "" then RefusedMethod
                   else Promised(old(lastId) + 1)
      ensures r.Promised? ==> old(log) + [Issued(r.id)] <= log
      ensures !r.Promised? ==> log == old(log) && pending == old(pending)
      decreases depth, 3
    {
      if closed {
        return RefusedClosed;
      }
      if name.None? || name.value == "" {
        return RefusedMethod;
      }
      IssueKeepsOrder(log, pending, lastId);
      lastId := lastId + 1;
      var id := lastId;
      log := log + [Issued(id)];
      pending := pending + {id};
      // transport.send
      var threw := Callback(depth);
      if threw {
        Terminate(depth);
      }
      return Promised(id);
    }

    method OnEvent(listener: nat)
      requires Inv()
      modifies this`eventListeners
      ensures Inv()
      ensures eventListeners == if closed then old(eventListeners) else old(eventListeners) + {listener}
    {
      if closed {
        return;
      }
      eventListeners := eventListeners + {listener};
    }

    method OnClose(listener: nat, depth: nat)
      requires Inv()
      modifies this
      ensures Inv() && Keeps()
      ensures !old(closed) ==> closeListeners == old(closeListeners) + {listener}
      decreases depth, 1
    {
      if closed {
        var _ := Callback(depth);
        return;
      }
      closeListeners := closeListeners + {listener};
    }

    method OffEvent(listener: nat)
      requires Inv()
      modifies this`eventListeners
      ensures Inv() && eventListeners == old(eventListeners) - {listener}
    {
      eventListeners := eventListeners - {listener};
    }

    method OffClose(listener: nat)
      requires Inv()
      modifies this`closeListeners
      ensures Inv() && closeListeners == old(closeListeners) - {listener}
    {
      closeListeners := closeListeners - {listener};
    }

    method Close(depth: nat)
      requires Inv()
      modifies this
      ensures Inv() && Keeps() && closed
      ensures !disposing ==> AllCalled()
      ensures !old(closed) ==> ClosedPending()
      decreases depth, 3
    {
      if closed {
        return;
      }
      Terminate(depth);
    }

    method OnMessage(data: Message, depth: nat)
      requires Inv()
      modifies this
      ensures Inv() && Keeps()
      ensures !old(closed) ==>
                match MeaningOf(data, maxMessageBytes)
                case Response(id, how) =>
                  && closed == old(closed) && lastId == old(lastId)
                  && pending == old(pending) - {id}
                  && log == if id in old(pending) then old(log) + [Settled(id, how)] else old(log)
                case Event => depth == 0 ==> Same()
                case Invalid => closed && Empty() && ClosedPending()
      ensures forall n: nat :: !old(closed) && Parses(data, maxMessageBytes) && AnswersId(data.content.value, n) ==>
                var r := data.content.value;
                log == if n !in old(pending) then old(log)
                       else if r.error != None then old(log) + [Settled(n, RequestFailed)]
                       else old(log) + [Settled(n, Resolved(r.result.value))]
      ensures old(closed) ==> Same()
      decreases depth, 3
    {
      if closed {
        return;
      }
      MeaningHolds(data, maxMessageBytes);
      match MeaningOf(data, maxMessageBytes) {
        case Response(id, how) =>
          if id !in pending {
            return;
          }
          SettleKeepsOrder(log, pending, lastId, id, how);
          pending := pending - {id};
          log := log + [Settled(id, how)];
        case Event =>
          var snapshot := eventListeners;
          while snapshot != {}
            invariant Inv() && Keeps() && (depth == 0 ==> Same())
            decreases snapshot
          {
            var listener :| listener in snapshot;
            snapshot := snapshot - {listener};
            var _ := Callback(depth);
          }
        case Invalid =>
          Terminate(depth);
      }
    }

    /** Keeps the unsubscribe function the transport just returned, or calls it when the connection is closed. */
    method RetainTransportListener(remove: nat, depth: nat)
      requires Inv() && remove == handed
      modifies this
      ensures Inv() && disposing == old(disposing) && handed == old(handed) + 1
      ensures old(closed) ==> closed && called == old(called) + multiset{remove}
      ensures !old(closed) ==> !closed && removeTransportListeners == old(removeTransportListeners) + [remove]
      decreases depth, 1
    {
      ghost var kept := removeTransportListeners[removed..];
      if closed {
        CallNewBalances(kept, called, handed);
        handed, called := handed + 1, called + multiset{remove};
        var _ := Callback(depth);
        return;
      }
      KeepBalances(kept, called, handed);
      removeTransportListeners := removeTransportListeners + [remove];
      handed := handed + 1;
      assert removeTransportListeners[removed..] == kept + [remove];
    }

    method Terminate(depth: nat)
      requires Inv()
      modifies this
      ensures Inv() && Keeps() && closed
      ensures !disposing ==> AllCalled()
      ensures !old(closed) ==> ClosedPending()
      ensures !old(closed) ==> Empty()
      decreases depth, 2
    {
      Dispose(depth);
      // transport.close
      var _ := Callback(depth);
    }

    method Dispose(depth: nat)
      requires Inv()
      modifies this
      ensures Inv() && Keeps() && closed
      ensures !disposing ==> AllCalled()
      ensures !old(closed) ==> ClosedPending()
      ensures !old(closed) ==> Empty()
      decreases depth, 1, 1
    {
      if closed {
        return;
      }
      closed, disposing := true, true;
      NotifyCloseListeners(depth);
      closeListeners := {};
      CallRemovers(depth);
      RejectPending();
    }

    /** The first loop of a disposal: each close listener may call back, to no effect on the requests. */
    method NotifyCloseListeners(depth: nat)
      requires Inv() && disposing
      modifies this
      ensures Inv() && Keeps()
      decreases depth, 1, 0
    {
      var snapshot := closeListeners;
      while snapshot != {}
        invariant Inv() && Keeps()
        decreases snapshot
      {
        var listener :| listener in snapshot;
        snapshot := snapshot - {listener};
        var _ := Callback(depth);
      }
    }

    /** The second loop: each unsubscribe function kept so far is called once. */
    method CallRemovers(depth: nat)
      requires Inv() && disposing && removed == 0
      modifies this
      ensures Inv() && disposing && closed && handed == old(handed)
      ensures log == old(log) && lastId == old(lastId) && pending == old(pending)
      ensures removeTransportListeners == old(removeTransportListeners) && removed == |removeTransportListeners|
      ensures closeListeners <= old(closeListeners)
      decreases depth, 1, 0
    {
      var i := 0;
      while i < |removeTransportListeners|
        invariant i <= |removeTransportListeners| && removed == i
        invariant Inv() && disposing && handed == old(handed)
        invariant log == old(log) && lastId == old(lastId) && pending == old(pending)
        invariant removeTransportListeners == old(removeTransportListeners)
        invariant closeListeners <= old(closeListeners)
        decreases |removeTransportListeners| - i
      {
        CallKeptBalances(removeTransportListeners[i..], called, handed);
        assert removeTransportListeners[i..][1..] == removeTransportListeners[i + 1..];
        called, removed := called + multiset{removeTransportListeners[i]}, i + 1;
        var _ := Callback(depth);
        i := i + 1;
      }
    }

    /** The end of a disposal, after which nothing is pending. */
    method RejectPending()
      requires Inv() && disposing && closeListeners == {} && removed == |removeTransportListeners|
      modifies this
      ensures Inv() && closed && !disposing && Empty()
      ensures old(log) <= log && lastId == old(lastId) && handed == old(handed)
      ensures ClosedPending()
    {
      assert removeTransportListeners[removed..] == [];
      log := RejectAll(pending, log, lastId);
      pending, eventListeners, removeTransportListeners := {}, {}, [];
      disposing, removed := false, 0;
      assert removeTransportListeners[removed..] == [];
    }

    /** The last loop: each request still pending is rejected. */
    static method RejectAll(pending: set<nat>, ghost log: seq<Entry>, ghost lastId: nat)
      returns (ghost after: seq<Entry>)
      requires Orderly(log, pending, lastId)
      ensures Orderly(after, {}, lastId) && log <= after
      ensures Closings(log, after, pending)
    {
      var waiting := pending;
      ghost var rejected: set<nat> := {};
      after := log;
      while waiting != {}
        invariant Orderly(after, waiting, lastId) && log <= after
        invariant rejected + waiting == pending && Closings(log, after, rejected)
        decreases waiting
      {
        var id :| id in waiting;
        ClosingsMore(log, after, rejected, id);
        SettleKeepsOrder(after, waiting, lastId, id, ConnectionClosed);
        waiting := waiting - {id};
        after, rejected := after + [Settled(id, ConnectionClosed)], rejected + {id};
      }
    }

    /** Foreign code runs and may call back, unless it may nest no call. */
    method Callback(depth: nat) returns (threw: bool)
      requires Inv()
      modifies this
      ensures Inv() && Keeps()
      ensures depth == 0 ==> Same()
      decreases depth, 0
    {
      threw := *;
      if depth == 0 {
        return;
      }
      var calls: nat := *;
      while calls > 0
        invariant Inv() && Keeps()
      {
        calls := calls - 1;
        AnyCall(depth - 1);
      }
    }

    /** One call on the connection, or the transport reporting that it closed. */
    method AnyCall(depth: nat)
      requires Inv()
      modifies this
      ensures Inv() && Keeps()
      decreases depth, 4
    {
      if
      case true =>
        var name: Option<string> := *;
        var _ := Send(name, depth);
      case true =>
        var listener: nat := *;
        OnEvent(listener);
      case true =>
        var listener: nat := *;
        OnClose(listener, depth);
      case true =>
        var listener: nat := *;
        OffEvent(listener);
      case true =>
        var listener: nat := *;
        OffClose(listener);
      case true =>
        Close(depth);
      case true =>
        var data: Message := *;
        OnMessage(data, depth);
      case true =>
        Dispose(depth);
    }
  }
}
