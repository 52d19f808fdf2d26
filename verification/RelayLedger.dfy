/** The history of a relay connection's requests, and what an orderly history is. */
module RelayLedger {

  /** A member of a parsed record: a whole number, a string, or any other value. */
  datatype Json = Whole(n: int) | Text(s: string) | Other(value: string)

  datatype Settlement = Resolved(result: Json) | RequestFailed | ConnectionClosed

  datatype Entry = Issued(id: nat) | Settled(id: nat, how: Settlement)

  function IssuedIds(log: seq<Entry>): seq<nat> {
    if log == [] then []
    else
      var last := log[|log| - 1];
      IssuedIds(log[..|log| - 1]) + (if last.Issued? then [last.id] else [])
  }

  function Settlements(log: seq<Entry>, id: nat): nat {
    if log == [] then 0
    else
      var last := log[|log| - 1];
      Settlements(log[..|log| - 1], id) + (if last.Settled? && last.id == id then 1 else 0)
  }

  function UpTo(n: nat): seq<nat> {
    seq(n, i => i + 1)
  }

  /** Ids are issued in order from 1, and each is pending or was settled once, after it was issued. */
  ghost predicate Orderly(log: seq<Entry>, pending: set<nat>, lastId: nat) {
    && IssuedIds(log) == UpTo(lastId)
    && (forall id: nat ::
          Settlements(log, id) + (if id in pending then 1 else 0) == if 1 <= id <= lastId then 1 else 0)
    && (forall k :: 0 <= k < |log| && log[k].Settled? ==> Issued(log[k].id) in log[..k])
  }

  lemma {:induction false} IssuedIdsAreLogged(log: seq<Entry>, id: nat)
    ensures id in IssuedIds(log) <==> Issued(id) in log
  {
    if log != [] {
      IssuedIdsAreLogged(log[..|log| - 1], id);
      assert log == log[..|log| - 1] + [log[|log| - 1]];
    }
  }

  lemma IssueKeepsOrder(log: seq<Entry>, pending: set<nat>, lastId: nat)
    requires Orderly(log, pending, lastId)
    ensures Orderly(log + [Issued(lastId + 1)], pending + {lastId + 1}, lastId + 1)
  {
    var longer := log + [Issued(lastId + 1)];
    assert longer[..|log|] == log;
    assert UpTo(lastId + 1) == UpTo(lastId) + [lastId + 1];
    forall id: nat
      ensures Settlements(longer, id) + (if id in pending + {lastId + 1} then 1 else 0)
           == if 1 <= id <= lastId + 1 then 1 else 0
    {
      assert Settlements(log, id) + (if id in pending then 1 else 0) == if 1 <= id <= lastId then 1 else 0;
    }
    forall k | 0 <= k < |longer| && longer[k].Settled? ensures Issued(longer[k].id) in longer[..k] {
      assert longer[..k] == log[..k];
    }
  }

  lemma SettleKeepsOrder(log: seq<Entry>, pending: set<nat>, lastId: nat, id: nat, how: Settlement)
    requires Orderly(log, pending, lastId) && id in pending
    ensures Orderly(log + [Settled(id, how)], pending - {id}, lastId)
  {
    var longer := log + [Settled(id, how)];
    assert longer[..|log|] == log;
    forall other: nat
      ensures Settlements(longer, other) + (if other in pending - {id} then 1 else 0)
           == if 1 <= other <= lastId then 1 else 0
    {
      assert Settlements(log, other) + (if other in pending then 1 else 0) == if 1 <= other <= lastId then 1 else 0;
    }
    forall k | 0 <= k < |longer| && longer[k].Settled? ensures Issued(longer[k].id) in longer[..k] {
      assert longer[..k] == log[..k];
      if k == |log| {
        assert Settlements(log, id) + 1 == if 1 <= id <= lastId then 1 else 0;
        assert UpTo(lastId)[id - 1] == id;
        IssuedIdsAreLogged(log, id);
      }
    }
  }

  /** Every issued id is pending or settled once and not both; with nothing pending, every one was settled once. */
  lemma IssuedIsPendingOrSettledOnce(log: seq<Entry>, pending: set<nat>, lastId: nat, id: nat)
    requires Orderly(log, pending, lastId)
    ensures Issued(id) in log <==> 1 <= id <= lastId
    ensures Issued(id) in log ==> (id in pending <==> Settlements(log, id) == 0) && Settlements(log, id) <= 1
    ensures Issued(id) !in log ==> id !in pending && Settlements(log, id) == 0
    ensures pending == {} && Issued(id) in log ==> Settlements(log, id) == 1
  {
    IssuedIdsAreLogged(log, id);
    assert Settlements(log, id) + (if id in pending then 1 else 0) == if 1 <= id <= lastId then 1 else 0;
    if 1 <= id <= lastId {
      assert UpTo(lastId)[id - 1] == id;
    }
  }

  // ------------------------------------------------ unsubscribe functions

  /** Of the functions numbered 0 up to `handed`, each is still kept, once, or was called, once, and not both. */
  ghost predicate Balanced(kept: seq<nat>, called: multiset<nat>, handed: nat) {
    forall r: nat :: multiset(kept)[r] + called[r] == if r < handed then 1 else 0
  }

  lemma KeepBalances(kept: seq<nat>, called: multiset<nat>, handed: nat)
    requires Balanced(kept, called, handed)
    ensures Balanced(kept + [handed], called, handed + 1)
  {
    assert multiset(kept)[handed] + called[handed] == 0;
  }

  lemma CallNewBalances(kept: seq<nat>, called: multiset<nat>, handed: nat)
    requires Balanced(kept, called, handed)
    ensures Balanced(kept, called + multiset{handed}, handed + 1)
  {
    assert multiset(kept)[handed] + called[handed] == 0;
  }

  lemma CallKeptBalances(kept: seq<nat>, called: multiset<nat>, handed: nat)
    requires kept != [] && Balanced(kept, called, handed)
    ensures Balanced(kept[1..], called + multiset{kept[0]}, handed)
  {
    assert kept == [kept[0]] + kept[1..];
  }

  /** With none kept, each was called exactly once. */
  lemma NoneKeptMeansAllCalled(called: multiset<nat>, handed: nat, r: nat)
    requires Balanced([], called, handed)
    ensures called[r] == if r < handed then 1 else 0
  {
    assert multiset([])[r] + called[r] == if r < handed then 1 else 0;
  }

  /** The history goes on with settlements of exactly these ids, each as of a closed connection. */
  ghost predicate Closings(log: seq<Entry>, after: seq<Entry>, ids: set<nat>) {
    && log <= after
    && (forall k :: |log| <= k < |after| ==>
          after[k].Settled? && after[k].how == ConnectionClosed && after[k].id in ids)
    && forall id <- ids :: exists k :: |log| <= k < |after| && after[k] == Settled(id, ConnectionClosed)
  }

  lemma ClosingsMore(log: seq<Entry>, after: seq<Entry>, ids: set<nat>, id: nat)
    requires Closings(log, after, ids)
    ensures Closings(log, after + [Settled(id, ConnectionClosed)], ids + {id})
  {
    var longer := after + [Settled(id, ConnectionClosed)];
    forall other | other in ids + {id}
      ensures exists k :: |log| <= k < |longer| && longer[k] == Settled(other, ConnectionClosed)
    {
      if other in ids {
        var k :| |log| <= k < |after| && after[k] == Settled(other, ConnectionClosed);
        assert longer[k] == after[k];
      } else {
        assert longer[|after|] == Settled(other, ConnectionClosed);
      }
    }
  }
}
