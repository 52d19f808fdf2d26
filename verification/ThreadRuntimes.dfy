/** Which machine each listed thread lives on, whichever copy lists first. */
module ThreadRuntimes {
  import opened Wrappers
  import opened Texts
  import opened ThreadPages

  /** What counts about one machine's copy of a thread. */
  datatype Copy = Copy(rank: nat, runtime: string, owner: Option<string>)

  /** The machine that runs the thread ranks first, then this computer's copy, then any other. */
  function CopyOf(summary: Summary): Copy
    requires summary.Runtime().Some?
  {
    var runtime := summary.Runtime().value;
    Copy((if summary.RunsIt() then 2 else 0) + (if runtime == LOCAL_RUNTIME then 1 else 0), runtime, summary.Owner())
  }

  predicate Lists(summary: Summary, thread: string) {
    summary.Thread() == Some(thread) && summary.Runtime().Some?
  }

  predicate Better(copy: Copy, held: Copy) {
    copy.rank > held.rank || (copy.rank == held.rank && Below(copy.runtime, held.runtime))
  }

  /** The best copy of the thread in the list, the earlier of two equals. */
  function Best(listed: seq<Summary>, thread: string): Option<Copy> {
    if listed == [] then None
    else
      var last, held := listed[|listed| - 1], Best(listed[..|listed| - 1], thread);
      if Lists(last, thread) && (held.None? || Better(CopyOf(last), held.value)) then Some(CopyOf(last)) else held
  }

  function Home(copy: Copy, localFleetId: Option<string>): string {
    if copy.rank == 0 && localFleetId.Some? && copy.owner == localFleetId then LOCAL_RUNTIME else copy.runtime
  }

  /** The machine the thread lives on, when the list names the thread. */
  function LivesOn(listed: seq<Summary>, localFleetId: Option<string>, thread: string): Option<string> {
    match Best(listed, thread)
    case Some(copy) => Some(Home(copy, localFleetId))
    case None => None
  }

  predicate Ascending(keys: seq<(string, string)>) {
    forall i, j :: 0 <= i < j < |keys| ==> Below(keys[i].0, keys[j].0)
  }

  /** `thread_runtimes`: one answer for each listed thread, in the threads' order. */
  method FindThreadRuntimes(listed: seq<Summary>, localFleetId: Option<string>) returns (r: seq<(string, string)>)
    ensures Ascending(r)
    ensures forall thread, home :: (thread, home) in r <==> LivesOn(listed, localFleetId, thread) == Some(home)
  {
    var best: map<string, Copy> := map[];
    for i := 0 to |listed|
      invariant forall thread :: thread in best <==> Best(listed[..i], thread).Some?
      invariant forall thread <- best :: Best(listed[..i], thread) == Some(best[thread])
    {
      assert listed[..i + 1][..i] == listed[..i];
      var summary := listed[i];
      if summary.Thread().Some? && summary.Runtime().Some? {
        var thread := summary.Thread().value;
        if thread !in best || Better(CopyOf(summary), best[thread]) {
          best := best[thread := CopyOf(summary)];
        }
      }
    }
    assert listed[..|listed|] == listed;
    r := [];
    var keys := best.Keys;
    while keys != {}
      invariant keys <= best.Keys && Ascending(r)
      invariant forall thread, home :: (thread, home) in r <==>
                  thread in best.Keys - keys && home == Home(best[thread], localFleetId)
      invariant forall i, key :: 0 <= i < |r| && key in keys ==> Below(r[i].0, key)
      decreases |keys|
    {
      ghost var _ := LeastExists(keys);
      var thread :| thread in keys && forall key <- keys :: AtMost(thread, key);
      forall key | key in keys && key != thread ensures Below(thread, key) {
        if AtMost(key, thread) {
          OrderIsAntisymmetric(key, thread);
        }
      }
      keys := keys - {thread};
      r := r + [(thread, Home(best[thread], localFleetId))];
    }
  }

  // ------------------------------------------------ which copy is the best

  /** No copy of the thread ranks higher, and none of that rank is on a machine with a lower id. */
  predicate IsTop(listed: seq<Summary>, thread: string, copy: Copy) {
    forall summary <- listed :: Lists(summary, thread) ==> !Better(CopyOf(summary), copy)
  }

  lemma BetterIsTransitive(a: Copy, b: Copy, c: Copy)
    requires !Better(a, b) && !Better(b, c)
    ensures !Better(a, c)
  {
    if a.rank == b.rank == c.rank {
      OrderIsTransitive(c.runtime, b.runtime, a.runtime);
    }
  }

  /** The best copy is one of the list's, and none is better; a thread without one has no copy listed. */
  lemma {:induction false} BestIsTop(listed: seq<Summary>, thread: string)
    ensures Best(listed, thread).Some? <==> exists summary <- listed :: Lists(summary, thread)
    ensures Best(listed, thread).Some? ==>
              && (exists summary <- listed :: Lists(summary, thread) && CopyOf(summary) == Best(listed, thread).value)
              && IsTop(listed, thread, Best(listed, thread).value)
  {
    if listed != [] {
      var front, last := listed[..|listed| - 1], listed[|listed| - 1];
      BestIsTop(front, thread);
      assert listed == front + [last];
      assert last in listed && forall summary <- front :: summary in listed;
      var held, best := Best(front, thread), Best(listed, thread);
      if best.Some? {
        OrderIsTotal(best.value.runtime, best.value.runtime);
        forall summary | summary in listed && Lists(summary, thread) ensures !Better(CopyOf(summary), best.value) {
          if summary in front && held != best {
            AtLeastAsGood(best.value, held.value);
            BetterIsTransitive(CopyOf(summary), held.value, best.value);
          }
        }
      }
    }
  }

  lemma AtLeastAsGood(copy: Copy, held: Copy)
    requires Better(copy, held)
    ensures !Better(held, copy)
  {
    OrderIsTotal(copy.runtime, held.runtime);
  }

  /** Copies of one thread from one machine with the same replica mark name the same owner. */
  predicate OwnersAgree(listed: seq<Summary>) {
    forall a <- listed, b <- listed ::
      && a.Runtime().Some? && b.Runtime().Some?
      && a.Thread() == b.Thread() && a.Runtime() == b.Runtime() && a.RunsIt() == b.RunsIt()
      ==> a.Owner() == b.Owner()
  }

  /** The answer does not depend on the order the copies are listed in. */
  lemma AnyListOrder(a: seq<Summary>, b: seq<Summary>, localFleetId: Option<string>, thread: string)
    requires multiset(a) == multiset(b) && OwnersAgree(a)
    ensures LivesOn(a, localFleetId, thread) == LivesOn(b, localFleetId, thread)
  {
    BestIsTop(a, thread);
    BestIsTop(b, thread);
    assert forall summary :: summary in a <==> summary in multiset(a);
    assert forall summary :: summary in b <==> summary in multiset(b);
    if Best(a, thread).Some? {
      var x :| x in a && Lists(x, thread) && CopyOf(x) == Best(a, thread).value;
      var y :| y in b && Lists(y, thread) && CopyOf(y) == Best(b, thread).value;
      assert !Better(CopyOf(x), CopyOf(y)) && !Better(CopyOf(y), CopyOf(x));
      OrderIsAntisymmetric(CopyOf(x).runtime, CopyOf(y).runtime);
    }
  }
}
