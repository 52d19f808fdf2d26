/**
 Where a listed thread lives and what a list records, told by the members of the
 summaries: who runs the thread, who holds a copy, and whom a copy names.
 */
module ThreadHomes {
  import opened Wrappers
  import opened Texts
  import opened ThreadPages
  import opened ThreadRuntimes
  import opened ThreadRecord

  predicate IsCopy(x: Summary, thread: string, runtime: string) {
    x.Fields? && x.threadId == Some(thread) && x.runtimeId == Some(runtime)
  }

  /** The machine lists the thread, and does not mark it as a replica. */
  predicate RunBy(listed: seq<Summary>, thread: string, runtime: string) {
    exists x <- listed :: IsCopy(x, thread, runtime) && x.replica != Some(true)
  }

  predicate CopiedBy(listed: seq<Summary>, thread: string, runtime: string) {
    exists x <- listed :: IsCopy(x, thread, runtime)
  }

  /** No machine that has the property has a lower id. */
  ghost predicate Lowest(runtime: string, has: string -> bool) {
    has(runtime) && forall other :: has(other) ==> AtMost(runtime, other)
  }

  lemma TopBeats(listed: seq<Summary>, thread: string, copy: Copy, x: Summary)
    requires IsTop(listed, thread, copy) && x in listed && x.Fields?
    requires x.threadId == Some(thread) && x.runtimeId.Some?
    ensures var rank := (if x.replica != Some(true) then 2 else 0) + (if x.runtimeId == Some("local") then 1 else 0);
            copy.rank > rank || (copy.rank == rank && AtMost(copy.runtime, x.runtimeId.value))
  {
    assert Lists(x, thread);
  }

  /** The chosen copy's rank says who runs the thread and who lists it. */
  lemma BestTells(listed: seq<Summary>, thread: string) returns (x: Summary)
    requires Best(listed, thread).Some?
    ensures x in listed && x.Fields? && x.threadId == Some(thread) && x.runtimeId.Some?
    ensures var best := Best(listed, thread).value;
            && best.rank == (if x.replica != Some(true) then 2 else 0) + (if x.runtimeId == Some("local") then 1 else 0)
            && best.runtime == x.runtimeId.value && best.owner == x.owner
            && (forall r :: RunBy(listed, thread, r) ==> best.rank >= 2 && (best.rank == 2 ==> AtMost(best.runtime, r)))
            && (RunBy(listed, thread, "local") ==> best.rank == 3)
            && (CopiedBy(listed, thread, "local") ==> best.rank >= 1)
            && (best.rank == 0 ==> forall r :: CopiedBy(listed, thread, r) ==> AtMost(best.runtime, r))
  {
    BestIsTop(listed, thread);
    var best := Best(listed, thread).value;
    x :| x in listed && Lists(x, thread) && CopyOf(x) == best;
    forall r | RunBy(listed, thread, r)
      ensures best.rank >= 2 && (best.rank == 2 ==> AtMost(best.runtime, r)) && (r == "local" ==> best.rank == 3)
    {
      var y :| y in listed && IsCopy(y, thread, r) && y.replica != Some(true);
      TopBeats(listed, thread, best, y);
    }
    forall r | CopiedBy(listed, thread, r)
      ensures (best.rank == 0 ==> AtMost(best.runtime, r)) && (r == "local" ==> best.rank >= 1)
    {
      var y :| y in listed && IsCopy(y, thread, r);
      TopBeats(listed, thread, best, y);
    }
  }

  // ---------------------------------------------------------- main results

  /**
   A thread lives here when this computer lists it as its own; else on the machine with the lowest id
   of those that list it as theirs; else here when this computer lists a copy; else with the paired
   machine with the lowest id that lists one, unless that copy names this computer.
   */
  lemma HomeByCases(listed: seq<Summary>, fleetId: Option<string>, thread: string)
    ensures var home := LivesOn(listed, fleetId, thread);
            && (home.Some? <==> exists r :: CopiedBy(listed, thread, r))
            && (RunBy(listed, thread, "local") ==> home == Some("local"))
            && (!RunBy(listed, thread, "local") && (exists r :: RunBy(listed, thread, r)) ==>
                  home.Some? && Lowest(home.value, r => RunBy(listed, thread, r)))
            && ((forall r :: !RunBy(listed, thread, r)) && CopiedBy(listed, thread, "local") ==> home == Some("local"))
            && ((forall r :: !RunBy(listed, thread, r)) && !CopiedBy(listed, thread, "local") && home.Some? ==>
                  exists x <- listed :: x.Fields? && x.runtimeId.Some? && IsCopy(x, thread, x.runtimeId.value)
                    && Lowest(x.runtimeId.value, r => CopiedBy(listed, thread, r))
                    && home == Some(if fleetId.Some? && x.owner == fleetId then "local" else x.runtimeId.value))
  {
    BestIsTop(listed, thread);
    if Best(listed, thread).Some? {
      var x := BestTells(listed, thread);
      assert CopiedBy(listed, thread, x.runtimeId.value);
      assert x.replica != Some(true) ==> RunBy(listed, thread, x.runtimeId.value);
    } else {
      forall r ensures !CopiedBy(listed, thread, r) {
        forall x | x in listed ensures !IsCopy(x, thread, r) {
          assert !Lists(x, thread);
        }
      }
    }
  }

  /** The first page of this computer's runtime. */
  predicate FirstOwnPage(pages: seq<RuntimePage>, i: nat) {
    i < |pages| && pages[i].runtimeId == "local" && forall j :: 0 <= j < i ==> pages[j].runtimeId != "local"
  }

  lemma {:induction false} OwnPageIsFirst(pages: seq<RuntimePage>, i: nat)
    ensures FirstOwnPage(pages, i) ==> LocalPage(pages) == Some(pages[i].page)
    ensures LocalPage(pages).Some? ==> exists j: nat :: FirstOwnPage(pages, j)
  {
    if pages != [] && pages[0].runtimeId != "local" {
      OwnPageIsFirst(pages[1..], if i > 0 then i - 1 else 0);
      if FirstOwnPage(pages, i) {
        assert FirstOwnPage(pages[1..], i - 1);
      }
      if LocalPage(pages).Some? {
        var j: nat :| FirstOwnPage(pages[1..], j);
        assert FirstOwnPage(pages, j + 1);
      }
    } else if pages != [] {
      assert FirstOwnPage(pages, 0);
    }
  }

  /** A list adds the threads that this computer's page names as deleted, and takes none away. */
  lemma DeletedExactly(s: Records, pages: seq<RuntimePage>, thread: string)
    ensures thread in DeletedAfter(s, pages) <==>
            thread in s.deleted
            || exists i: nat :: FirstOwnPage(pages, i) && thread in pages[i].page.deletedThreadIds
  {
    OwnPageIsFirst(pages, 0);
    forall i: nat | FirstOwnPage(pages, i) ensures LocalPage(pages) == Some(pages[i].page) {
      OwnPageIsFirst(pages, i);
    }
  }

  /** The first summary of a page that is no replica and names an owner. */
  predicate FirstOwned(summaries: seq<Summary>, k: nat) {
    && k < |summaries| && Owned(summaries[k])
    && forall j :: 0 <= j < k ==> !Owned(summaries[j])
  }

  predicate Owned(x: Summary) {
    x.Fields? && x.replica != Some(true) && x.owner.Some?
  }

  lemma {:induction false} FirstOwnerIs(summaries: seq<Summary>, k: nat)
    ensures FirstOwned(summaries, k) ==> FirstOwner(summaries) == summaries[k].owner
    ensures FirstOwner(summaries).Some? ==> exists x <- summaries :: Owned(x)
  {
    if summaries != [] && !Owned(summaries[0]) {
      FirstOwnerIs(summaries[1..], if k > 0 then k - 1 else 0);
      if FirstOwned(summaries, k) {
        assert FirstOwned(summaries[1..], k - 1);
      }
    } else if summaries != [] {
      assert summaries[0] in summaries;
    }
  }

  /** The fleet id is the owner named first on a thread of this computer's page, and stays when none is. */
  lemma FleetIdExactly(s: Records, pages: seq<RuntimePage>, i: nat, k: nat)
    ensures FirstOwnPage(pages, i) && FirstOwned(pages[i].page.summaries, k) ==>
              FleetIdAfter(s, pages) == pages[i].page.summaries[k].owner
    ensures (forall j: nat :: FirstOwnPage(pages, j) ==> forall x <- pages[j].page.summaries :: !Owned(x)) ==>
              FleetIdAfter(s, pages) == s.fleetId
  {
    OwnPageIsFirst(pages, i);
    if FirstOwnPage(pages, i) {
      FirstOwnerIs(pages[i].page.summaries, k);
    }
    if LocalPage(pages).Some? {
      var j: nat :| FirstOwnPage(pages, j);
      OwnPageIsFirst(pages, j);
      FirstOwnerIs(pages[j].page.summaries, 0);
    }
  }

  /** A thread that this computer lists as its own is recorded here, wherever it was recorded before. */
  lemma OwnThreadIsRecordedHere(s: Records, pages: seq<RuntimePage>, t: Records, i: nat, x: Summary, thread: string)
    requires RecordsAfter(s, pages, t) && i < |pages| && pages[i].runtimeId == "local" && x in pages[i].page.summaries
    requires x.Fields? && x.threadId == Some(thread) && x.replica != Some(true)
    ensures thread in t.runtimes && t.runtimes[thread] == "local"
  {
    var deleted := DeletedAfter(s, pages);
    var listed := Merge(pages, deleted).summaries;
    LocalPageIs(pages);
    assert pages[i] in pages;
    OwnIsListed(pages, i, x, deleted);
    assert RunBy(listed, thread, "local") by {
      assert x.On("local") in listed && IsCopy(x.On("local"), thread, "local");
    }
    HomeByCases(listed, FleetIdAfter(s, pages), thread);
    assert Recorded(s, pages, thread) == Some("local");
    assert Lookup(t.runtimes, thread) == Some("local");
  }

  lemma {:induction false} OwnContributes(x: Summary, summaries: seq<Summary>, deleted: set<string>)
    requires x in summaries
    ensures x.On("local") in Contributed("local", summaries, deleted)
  {
    var front, last := summaries[..|summaries| - 1], summaries[|summaries| - 1];
    assert summaries == front + [last];
    if x in front {
      OwnContributes(x, front, deleted);
    }
  }

  lemma {:induction false} PageContributes(pages: seq<RuntimePage>, i: nat, x: Summary, deleted: set<string>)
    requires i < |pages| && x in Contributed(pages[i].runtimeId, pages[i].page.summaries, deleted)
    ensures x in AllContributed(pages, deleted)
  {
    if i < |pages| - 1 {
      PageContributes(pages[..|pages| - 1], i, x, deleted);
    }
  }

  lemma OwnIsListed(pages: seq<RuntimePage>, i: nat, x: Summary, deleted: set<string>)
    requires i < |pages| && pages[i].runtimeId == "local" && x in pages[i].page.summaries
    ensures x.On("local") in Merge(pages, deleted).summaries
  {
    OwnContributes(x, pages[i].page.summaries, deleted);
    PageContributes(pages, i, x.On("local"), deleted);
    SortedPermutes(AllContributed(pages, deleted));
    assert x.On("local") in multiset(AllContributed(pages, deleted));
  }

  /** A list without this computer's runtime changes no thread recorded before. */
  lemma KnownThreadStays(s: Records, pages: seq<RuntimePage>, t: Records, thread: string)
    requires RecordsAfter(s, pages, t) && thread in s.runtimes
    requires forall page <- pages :: page.runtimeId != "local"
    ensures thread in t.runtimes && t.runtimes[thread] == s.runtimes[thread]
  {
    LocalPageIs(pages);
    assert Lookup(t.runtimes, thread) == Lookup(s.runtimes, thread);
  }

  lemma TrustedRuns(listed: seq<Summary>, fleetId: Option<string>, thread: string, r: string)
    ensures RunBy(Trusted(listed, fleetId), thread, r) <==> RunBy(listed, thread, r)
  {
    TrustedIs(listed, fleetId);
    if x :| x in listed && IsCopy(x, thread, r) && x.replica != Some(true) {
      assert x in Trusted(listed, fleetId);
    }
  }

  /** Such a list records a new thread that a paired machine runs, on the one with the lowest id of those that do. */
  lemma NewThreadIsRecorded(s: Records, pages: seq<RuntimePage>, t: Records, thread: string)
    requires RecordsAfter(s, pages, t) && thread !in s.runtimes
    requires forall page <- pages :: page.runtimeId != "local"
    requires exists r :: RunBy(Merge(pages, s.deleted).summaries, thread, r)
    ensures var listed := Merge(pages, s.deleted).summaries;
            && thread in t.runtimes
            && (if RunBy(listed, thread, "local") then t.runtimes[thread] == "local"
                else Lowest(t.runtimes[thread], r => RunBy(listed, thread, r)))
  {
    LocalPageIs(pages);
    var listed, fleetId := Merge(pages, s.deleted).summaries, FleetIdAfter(s, pages);
    assert Considered(s, pages) == Trusted(listed, fleetId);
    forall r ensures RunBy(Trusted(listed, fleetId), thread, r) <==> RunBy(listed, thread, r) {
      TrustedRuns(listed, fleetId, thread, r);
    }
    HomeByCases(Trusted(listed, fleetId), fleetId, thread);
    var r :| RunBy(listed, thread, r);
    assert CopiedBy(Trusted(listed, fleetId), thread, r);
    assert Lookup(t.runtimes, thread) == Recorded(s, pages, thread);
  }
}
