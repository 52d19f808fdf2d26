/**
 What taking the merged list records: the threads deleted here, this computer's
 fleet id and the machine each thread lives on. The last part says when, over any
 sequence of lists, a thread this computer runs stays recorded here.
 */
module ThreadRecord {
  import opened Wrappers
  import opened Texts
  import opened ThreadPages
  import opened ThreadRuntimes

  /** The recorded part of the attach state. */
  datatype Records = Records(deleted: set<string>, fleetId: Option<string>, runtimes: map<string, string>)

  function LocalPage(pages: seq<RuntimePage>): Option<Page> {
    if pages == [] then None
    else if pages[0].runtimeId == LOCAL_RUNTIME then Some(pages[0].page)
    else LocalPage(pages[1..])
  }

  /** The first owner named among summaries of threads their machine runs. */
  function FirstOwner(summaries: seq<Summary>): Option<string> {
    if summaries == [] then None
    else if summaries[0].RunsIt() && summaries[0].Owner().Some? then summaries[0].Owner()
    else FirstOwner(summaries[1..])
  }

  /** `local_fleet_id`. */
  function LocalFleetId(pages: seq<RuntimePage>): Option<string> {
    match LocalPage(pages)
    case Some(page) => FirstOwner(page.summaries)
    case None => None
  }

  /** `local_deleted_threads`. */
  function LocalDeleted(pages: seq<RuntimePage>): Option<seq<string>> {
    match LocalPage(pages)
    case Some(page) => Some(page.deletedThreadIds)
    case None => None
  }

  // ------------------------------------------------------------- one list

  function DeletedAfter(s: Records, pages: seq<RuntimePage>): set<string> {
    match LocalDeleted(pages)
    case Some(ids) => s.deleted + (set id <- ids)
    case None => s.deleted
  }

  function FleetIdAfter(s: Records, pages: seq<RuntimePage>): Option<string> {
    match LocalFleetId(pages)
    case Some(id) => Some(id)
    case None => s.fleetId
  }

  /** The copies a list without this computer's runtime takes into account. */
  function Trusted(listed: seq<Summary>, fleetId: Option<string>): seq<Summary> {
    if listed == [] then []
    else
      var last := listed[|listed| - 1];
      Trusted(listed[..|listed| - 1], fleetId) + (if fleetId.Some? || last.RunsIt() then [last] else [])
  }

  function Considered(s: Records, pages: seq<RuntimePage>): seq<Summary> {
    var listed := Merge(pages, DeletedAfter(s, pages)).summaries;
    if LocalPage(pages).Some? then listed else Trusted(listed, FleetIdAfter(s, pages))
  }

  /** Where this list says the thread lives. */
  function Recorded(s: Records, pages: seq<RuntimePage>, thread: string): Option<string> {
    LivesOn(Considered(s, pages), FleetIdAfter(s, pages), thread)
  }

  /** A list this computer answered overwrites what it names; any other list adds what no list named before. */
  ghost predicate RecordsAfter(s: Records, pages: seq<RuntimePage>, t: Records) {
    && t.deleted == DeletedAfter(s, pages)
    && t.fleetId == FleetIdAfter(s, pages)
    && forall thread ::
         var recorded, known := Recorded(s, pages, thread), Lookup(s.runtimes, thread);
         Lookup(t.runtimes, thread)
         == if recorded.Some? && (LocalPage(pages).Some? || known.None?) then recorded else known
  }

  function Lookup(m: map<string, string>, key: string): Option<string> {
    if key in m then Some(m[key]) else None
  }

  class AttachState {
    var deletedThreads: set<string>
    var localFleetId: Option<string>
    var threadRuntimes: map<string, string>

    function State(): Records
      reads this
    {
      Records(deletedThreads, localFleetId, threadRuntimes)
    }

    constructor ()
      ensures State() == Records({}, None, map[])
    {
      deletedThreads, localFleetId, threadRuntimes := {}, None, map[];
    }

    method RememberThreadRuntimes(threads: seq<(string, string)>)
      requires Ascending(threads)
      modifies this`threadRuntimes
      ensures forall thread, home :: (thread, home) in threads ==> Lookup(threadRuntimes, thread) == Some(home)
      ensures forall thread :: (forall home :: (thread, home) !in threads) ==>
                Lookup(threadRuntimes, thread) == old(Lookup(threadRuntimes, thread))
    {
      for i := 0 to |threads|
        invariant forall j :: 0 <= j < i ==> Lookup(threadRuntimes, threads[j].0) == Some(threads[j].1)
        invariant forall thread :: (forall home :: (thread, home) !in threads) ==>
                    Lookup(threadRuntimes, thread) == old(Lookup(threadRuntimes, thread))
      {
        assert (threads[i].0, threads[i].1) in threads;
        KeysDiffer(threads, i);
        threadRuntimes := threadRuntimes[threads[i].0 := threads[i].1];
      }
    }

    method KeepThreadRuntimes(threads: seq<(string, string)>)
      requires Ascending(threads)
      modifies this`threadRuntimes
      ensures forall thread, home :: (thread, home) in threads ==>
                Lookup(threadRuntimes, thread)
                == if thread in old(threadRuntimes) then old(Lookup(threadRuntimes, thread)) else Some(home)
      ensures forall thread :: (forall home :: (thread, home) !in threads) ==>
                Lookup(threadRuntimes, thread) == old(Lookup(threadRuntimes, thread))
    {
      for i := 0 to |threads|
        invariant forall j :: 0 <= j < i ==>
                    Lookup(threadRuntimes, threads[j].0)
                    == if threads[j].0 in old(threadRuntimes) then old(Lookup(threadRuntimes, threads[j].0))
                       else Some(threads[j].1)
        invariant forall j :: i <= j < |threads| ==>
                    Lookup(threadRuntimes, threads[j].0) == old(Lookup(threadRuntimes, threads[j].0))
        invariant forall thread :: (forall home :: (thread, home) !in threads) ==>
                    Lookup(threadRuntimes, thread) == old(Lookup(threadRuntimes, thread))
      {
        assert (threads[i].0, threads[i].1) in threads;
        KeysDiffer(threads, i);
        if threads[i].0 !in threadRuntimes {
          threadRuntimes := threadRuntimes[threads[i].0 := threads[i].1];
        }
      }
    }

    /** `record_thread_list`. */
    method RecordThreadList(pages: seq<RuntimePage>) returns (merged: Merged)
      modifies this
      ensures RecordsAfter(old(State()), pages, State())
      ensures merged == Merge(pages, deletedThreads)
    {
      ghost var before := State();
      var deleted := LocalDeleted(pages);
      if deleted.Some? {
        deletedThreads := deletedThreads + (set id <- deleted.value);
      }
      var id := LocalFleetId(pages);
      if id.Some? {
        localFleetId := id;
      }
      var localAnswered := LocalPage(pages).Some?;
      merged := MergeThreadPages(pages, deletedThreads);
      if localAnswered {
        var threads := FindThreadRuntimes(merged.summaries, localFleetId);
        RememberThreadRuntimes(threads);
        Answers(before, pages, threads);
      } else {
        var known := FilterTrusted(merged.summaries, localFleetId);
        var threads := FindThreadRuntimes(known, localFleetId);
        KeepThreadRuntimes(threads);
        Answers(before, pages, threads);
      }
    }
  }

  lemma KeysDiffer(threads: seq<(string, string)>, i: nat)
    requires Ascending(threads) && i < |threads|
    ensures forall j :: 0 <= j < |threads| && j != i ==> threads[j].0 != threads[i].0
  {
    OrderIsTotal(threads[i].0, threads[i].0);
    forall j | 0 <= j < |threads| && j != i ensures threads[j].0 != threads[i].0 {
      assert j < i ==> Below(threads[j].0, threads[i].0);
      assert i < j ==> Below(threads[i].0, threads[j].0);
    }
  }

  lemma Answers(s: Records, pages: seq<RuntimePage>, threads: seq<(string, string)>)
    requires forall thread, home :: (thread, home) in threads <==> Recorded(s, pages, thread) == Some(home)
    ensures forall thread :: Recorded(s, pages, thread).Some? ==> (thread, Recorded(s, pages, thread).value) in threads
    ensures forall thread :: Recorded(s, pages, thread).None? ==> forall home :: (thread, home) !in threads
  {
  }

  method FilterTrusted(listed: seq<Summary>, fleetId: Option<string>) returns (known: seq<Summary>)
    ensures known == Trusted(listed, fleetId)
  {
    known := [];
    for i := 0 to |listed|
      invariant known == Trusted(listed[..i], fleetId)
    {
      assert listed[..i + 1][..i] == listed[..i];
      if fleetId.Some? || listed[i].RunsIt() {
        known := known + [listed[i]];
      }
    }
    assert listed[..|listed|] == listed;
  }

  // -------------------------------------------------- which machine runs it

  /** Which fleet id owns each thread, and each machine's fleet id. */
  datatype Fleet = Fleet(ownerOf: string -> string, idOf: string -> string)

  /** No paired machine has this computer's fleet id. */
  ghost predicate OneOfUs(fleet: Fleet) {
    forall runtime :: fleet.idOf(runtime) == fleet.idOf(LOCAL_RUNTIME) ==> runtime == LOCAL_RUNTIME
  }

  predicate Ours(fleet: Fleet, thread: string) {
    fleet.ownerOf(thread) == fleet.idOf(LOCAL_RUNTIME)
  }

  /** The machine marks as its own exactly the threads it runs, and names the owner of each copy. */
  predicate HonestSummary(fleet: Fleet, runtime: string, summary: Summary) {
    && summary.Thread().Some?
    && (summary.RunsIt() <==> fleet.ownerOf(summary.Thread().value) == fleet.idOf(runtime))
    && summary.Owner() == Some(fleet.ownerOf(summary.Thread().value))
  }

  predicate HonestPages(fleet: Fleet, pages: seq<RuntimePage>) {
    forall page <- pages :: forall summary <- page.page.summaries :: HonestSummary(fleet, page.runtimeId, summary)
  }

  /** A list asks each machine once. */
  predicate OncePerMachine(pages: seq<RuntimePage>) {
    forall i, j :: 0 <= i < j < |pages| ==> pages[i].runtimeId != pages[j].runtimeId
  }

  /** The fleet id is unknown, or this computer's. */
  predicate KnowsItself(fleet: Fleet, id: Option<string>) {
    id.None? || id.value == fleet.idOf(LOCAL_RUNTIME)
  }

  predicate HonestListed(fleet: Fleet, listed: seq<Summary>) {
    forall summary <- listed :: summary.Runtime().Some? && HonestSummary(fleet, summary.Runtime().value, summary)
  }

  lemma {:induction false} ContributedIsHonest(
    fleet: Fleet, runtime: string, summaries: seq<Summary>, deleted: set<string>, thread: string)
    requires forall summary <- summaries :: HonestSummary(fleet, runtime, summary)
    ensures HonestListed(fleet, Contributed(runtime, summaries, deleted))
    ensures (exists x <- Contributed(runtime, summaries, deleted) :: x.Thread() == Some(thread)) <==>
            exists x <- summaries :: x.Thread() == Some(thread) && Keeps(runtime, x, deleted)
  {
    if summaries != [] {
      var front, last := summaries[..|summaries| - 1], summaries[|summaries| - 1];
      assert summaries == front + [last];
      assert last in summaries && forall x <- front :: x in summaries;
      ContributedIsHonest(fleet, runtime, front, deleted, thread);
      var before, after := Contributed(runtime, front, deleted), Contributed(runtime, summaries, deleted);
      assert forall x <- before :: x in after;
      assert Keeps(runtime, last, deleted) ==> last.On(runtime) in after;
    }
  }

  /** Some page lists a copy of the thread that the merged list keeps. */
  predicate ListsKept(pages: seq<RuntimePage>, deleted: set<string>, thread: string) {
    exists page <- pages ::
      exists x <- page.page.summaries :: x.Thread() == Some(thread) && Keeps(page.runtimeId, x, deleted)
  }

  lemma {:induction false} AllContributedIsHonest(
    fleet: Fleet, pages: seq<RuntimePage>, deleted: set<string>, thread: string)
    requires HonestPages(fleet, pages)
    ensures HonestListed(fleet, AllContributed(pages, deleted))
    ensures (exists x <- AllContributed(pages, deleted) :: x.Thread() == Some(thread)) <==>
            ListsKept(pages, deleted, thread)
  {
    if pages != [] {
      var front, last := pages[..|pages| - 1], pages[|pages| - 1];
      assert pages == front + [last];
      assert last in pages && forall page <- front :: page in pages;
      AllContributedIsHonest(fleet, front, deleted, thread);
      ContributedIsHonest(fleet, last.runtimeId, last.page.summaries, deleted, thread);
      var before, added := AllContributed(front, deleted), Contributed(last.runtimeId, last.page.summaries, deleted);
      assert AllContributed(pages, deleted) == before + added;
    }
  }

  lemma {:induction false} TrustedIs(listed: seq<Summary>, fleetId: Option<string>)
    ensures forall x :: x in Trusted(listed, fleetId) <==> x in listed && (fleetId.Some? || x.RunsIt())
  {
    if listed != [] {
      var front, last := listed[..|listed| - 1], listed[|listed| - 1];
      assert listed == front + [last];
      TrustedIs(front, fleetId);
    }
  }

  lemma {:induction false} FirstOwnerIsLocal(fleet: Fleet, summaries: seq<Summary>)
    requires forall summary <- summaries :: HonestSummary(fleet, LOCAL_RUNTIME, summary)
    ensures KnowsItself(fleet, FirstOwner(summaries))
    ensures FirstOwner(summaries).None? ==> forall summary <- summaries :: !summary.RunsIt()
  {
    if summaries != [] {
      FirstOwnerIsLocal(fleet, summaries[1..]);
      assert summaries == [summaries[0]] + summaries[1..];
      assert HonestSummary(fleet, LOCAL_RUNTIME, summaries[0]);
    }
  }

  lemma {:induction false} LocalPageIs(pages: seq<RuntimePage>)
    ensures LocalPage(pages).Some? <==> exists page <- pages :: page.runtimeId == LOCAL_RUNTIME
    ensures LocalPage(pages).Some? ==> RuntimePage(LOCAL_RUNTIME, LocalPage(pages).value) in pages
  {
    if pages != [] {
      LocalPageIs(pages[1..]);
      assert pages == [pages[0]] + pages[1..];
    }
  }

  /** This computer's fleet id, once named, is right. */
  lemma FleetIdIsRight(fleet: Fleet, s: Records, pages: seq<RuntimePage>)
    requires HonestPages(fleet, pages) && KnowsItself(fleet, s.fleetId)
    ensures KnowsItself(fleet, FleetIdAfter(s, pages))
  {
    LocalPageIs(pages);
    if LocalPage(pages).Some? {
      FirstOwnerIsLocal(fleet, LocalPage(pages).value.summaries);
    }
  }

  /** What the list takes into account: honest copies, and of a thread exactly those kept and trusted. */
  lemma ConsideredIs(fleet: Fleet, s: Records, pages: seq<RuntimePage>, thread: string)
    requires HonestPages(fleet, pages)
    ensures HonestListed(fleet, Considered(s, pages))
    ensures LocalPage(pages).None? && FleetIdAfter(s, pages).None? ==> forall x <- Considered(s, pages) :: x.RunsIt()
    ensures LocalPage(pages).Some? ==>
              ((exists x <- Considered(s, pages) :: x.Thread() == Some(thread))
               <==> ListsKept(pages, DeletedAfter(s, pages), thread))
  {
    var all := AllContributed(pages, DeletedAfter(s, pages));
    AllContributedIsHonest(fleet, pages, DeletedAfter(s, pages), thread);
    SortedPermutes(all);
    assert forall x :: x in Sorted(all) <==> x in multiset(Sorted(all));
    assert forall x :: x in all <==> x in multiset(all);
    TrustedIs(Sorted(all), FleetIdAfter(s, pages));
  }

  /** The best copy of a thread this computer runs: its own, or a paired copy that names this computer. */
  lemma OursIsRankedFirst(fleet: Fleet, listed: seq<Summary>, thread: string)
    requires OneOfUs(fleet) && Ours(fleet, thread) && HonestListed(fleet, listed)
    ensures Best(listed, thread).Some? <==> exists x <- listed :: x.Thread() == Some(thread)
    ensures Best(listed, thread).Some? ==>
              var copy := Best(listed, thread).value;
              || copy == Copy(3, LOCAL_RUNTIME, Some(fleet.idOf(LOCAL_RUNTIME)))
              || (copy.rank == 0 && copy.runtime != LOCAL_RUNTIME && copy.owner == Some(fleet.idOf(LOCAL_RUNTIME))
                  && forall x <- listed :: x.Thread() == Some(thread) ==> x.Runtime() != Some(LOCAL_RUNTIME))
  {
    BestIsTop(listed, thread);
    assert forall x <- listed :: HonestSummary(fleet, x.Runtime().value, x);
    assert forall x <- listed :: x.Thread() == Some(thread) ==> Lists(x, thread);
  }

  /** Copies of a thread this computer runs lead elsewhere only while its fleet id is unknown. */
  lemma LivesElsewhere(fleet: Fleet, listed: seq<Summary>, fleetId: Option<string>, thread: string)
    requires OneOfUs(fleet) && Ours(fleet, thread) && HonestListed(fleet, listed) && KnowsItself(fleet, fleetId)
    ensures (LivesOn(listed, fleetId, thread).Some? && LivesOn(listed, fleetId, thread) != Some(LOCAL_RUNTIME))
       <==> (fleetId.None? && (exists x <- listed :: x.Thread() == Some(thread))
             && forall x <- listed :: x.Thread() == Some(thread) ==> x.Runtime() != Some(LOCAL_RUNTIME))
  {
    OursIsRankedFirst(fleet, listed, thread);
    BestIsTop(listed, thread);
    if Best(listed, thread).Some? {
      var x :| x in listed && Lists(x, thread) && CopyOf(x) == Best(listed, thread).value;
      assert x.Runtime() == Some(CopyOf(x).runtime);
    }
  }

  /** A list without this computer's runtime takes none of its threads into account until its fleet id is known. */
  lemma NoneTrusted(fleet: Fleet, listed: seq<Summary>, thread: string)
    requires OneOfUs(fleet) && Ours(fleet, thread) && HonestListed(fleet, listed) && forall x <- listed :: x.RunsIt()
    ensures forall x <- listed :: x.Thread() == Some(thread) ==> x.Runtime() == Some(LOCAL_RUNTIME)
  {
    assert forall x <- listed :: HonestSummary(fleet, x.Runtime().value, x);
  }

  /**
   Exactly when a list records a thread this computer runs as living on a paired machine: this
   computer answered it, no list has named its fleet id, and some copy of the thread is kept.
   */
  lemma MovedExactly(fleet: Fleet, s: Records, pages: seq<RuntimePage>, thread: string)
    requires OneOfUs(fleet) && HonestPages(fleet, pages) && OncePerMachine(pages)
    requires KnowsItself(fleet, s.fleetId) && Ours(fleet, thread)
    ensures (Recorded(s, pages, thread).Some? && Recorded(s, pages, thread) != Some(LOCAL_RUNTIME))
       <==> (LocalPage(pages).Some? && FleetIdAfter(s, pages).None? && ListsKept(pages, DeletedAfter(s, pages), thread))
  {
    var listed := Considered(s, pages);
    ConsideredIs(fleet, s, pages, thread);
    FleetIdIsRight(fleet, s, pages);
    LivesElsewhere(fleet, listed, FleetIdAfter(s, pages), thread);
    if FleetIdAfter(s, pages).None? {
      if LocalPage(pages).Some? {
        NotListedHere(fleet, s, pages, thread);
      } else {
        NoneTrusted(fleet, listed, thread);
      }
    }
  }

  /**
   Such a list of honest pages: this computer's runtime answers with no thread of its own, and the hub
   lists its copy of a thread that this computer runs.
   */
  lemma AnEmptyOwnPageMovesACopy(copy: Summary, pages: seq<RuntimePage>) returns (fleet: Fleet)
    requires copy == Fields(Some("ours"), None, Some("2026"), Some("core-mac"), Some(true), "")
    requires pages == [RuntimePage(LOCAL_RUNTIME, Page([], None, [])), RuntimePage("hub", Page([copy], None, []))]
    ensures OneOfUs(fleet) && HonestPages(fleet, pages) && OncePerMachine(pages) && Ours(fleet, "ours")
    ensures Recorded(Records({}, None, map[]), pages, "ours") == Some("hub")
  {
    fleet := Fleet(_ => "core-mac", runtime => if runtime == LOCAL_RUNTIME then "core-mac" else "core-hub");
    var s := Records({}, None, map[]);
    assert DeletedAfter(s, pages) == {} && FleetIdAfter(s, pages).None?;
    assert pages[..1] == [RuntimePage(LOCAL_RUNTIME, Page([], None, []))];
    assert [copy][..0] == [];
    assert Contributed("hub", [copy], {}) == [copy.On("hub")];
    assert pages[..1][..0] == [];
    assert AllContributed(pages[..1], {}) == [];
    assert AllContributed(pages, {}) == [copy.On("hub")];
    assert Sorted([copy.On("hub")]) == [copy.On("hub")];
    assert [copy.On("hub")][..0] == [];
    assert Considered(s, pages) == [copy.On("hub")];
    assert Best([copy.On("hub")], "ours") == Some(Copy(0, "hub", Some("core-mac")));
  }

  lemma {:induction false} ContributedFrom(runtime: string, summaries: seq<Summary>, deleted: set<string>)
    ensures forall x <- Contributed(runtime, summaries, deleted) :: exists y <- summaries :: x == y.On(runtime)
  {
    if summaries != [] {
      var front, last := summaries[..|summaries| - 1], summaries[|summaries| - 1];
      assert summaries == front + [last];
      ContributedFrom(runtime, front, deleted);
      forall x | x in Contributed(runtime, summaries, deleted) ensures exists y <- summaries :: x == y.On(runtime) {
        if x in Contributed(runtime, front, deleted) {
          var y :| y in front && x == y.On(runtime);
          assert y in summaries;
        } else {
          assert last in summaries;
        }
      }
    }
  }

  /** A listed copy on this computer comes from this computer's page. */
  lemma {:induction false} LocalCopiesFrom(fleet: Fleet, pages: seq<RuntimePage>, deleted: set<string>)
    requires HonestPages(fleet, pages)
    ensures forall x <- AllContributed(pages, deleted) :: x.Runtime() == Some(LOCAL_RUNTIME) ==>
              exists page <- pages :: page.runtimeId == LOCAL_RUNTIME
                && exists y <- page.page.summaries :: x == y.On(LOCAL_RUNTIME)
  {
    if pages != [] {
      var front, last := pages[..|pages| - 1], pages[|pages| - 1];
      assert pages == front + [last];
      assert last in pages && forall page <- front :: page in pages;
      LocalCopiesFrom(fleet, front, deleted);
      ContributedFrom(last.runtimeId, last.page.summaries, deleted);
      forall x | x in Contributed(last.runtimeId, last.page.summaries, deleted) && x.Runtime() == Some(LOCAL_RUNTIME)
        ensures last.runtimeId == LOCAL_RUNTIME && exists y <- last.page.summaries :: x == y.On(LOCAL_RUNTIME)
      {
        var y :| y in last.page.summaries && x == y.On(last.runtimeId);
        assert HonestSummary(fleet, last.runtimeId, y);
      }
    }
  }

  /** While its fleet id is unknown, this computer's page has listed no thread it runs. */
  lemma NotListedHere(fleet: Fleet, s: Records, pages: seq<RuntimePage>, thread: string)
    requires OneOfUs(fleet) && HonestPages(fleet, pages) && OncePerMachine(pages) && Ours(fleet, thread)
    requires LocalPage(pages).Some? && FleetIdAfter(s, pages).None?
    ensures forall x <- Considered(s, pages) :: x.Thread() == Some(thread) ==> x.Runtime() != Some(LOCAL_RUNTIME)
  {
    var all := AllContributed(pages, DeletedAfter(s, pages));
    SortedPermutes(all);
    LocalCopiesFrom(fleet, pages, DeletedAfter(s, pages));
    LocalPageIs(pages);
    var local := LocalPage(pages).value;
    assert HonestSummaries(fleet, local) by {
      assert RuntimePage(LOCAL_RUNTIME, local) in pages;
    }
    FirstOwnerIsLocal(fleet, local.summaries);
    forall x | x in Considered(s, pages) && x.Runtime() == Some(LOCAL_RUNTIME) ensures x.Thread() != Some(thread) {
      assert x in multiset(Sorted(all)) && x in all;
      var page :| page in pages && page.runtimeId == LOCAL_RUNTIME
                  && exists y <- page.page.summaries :: x == y.On(LOCAL_RUNTIME);
      assert page == RuntimePage(LOCAL_RUNTIME, local);
      var y :| y in local.summaries && x == y.On(LOCAL_RUNTIME);
      assert HonestSummary(fleet, LOCAL_RUNTIME, y) && !y.RunsIt();
    }
  }

  predicate HonestSummaries(fleet: Fleet, local: Page) {
    forall summary <- local.summaries :: HonestSummary(fleet, LOCAL_RUNTIME, summary)
  }

  // ------------------------------------------------------ sequences of lists

  /** No thread this computer runs is recorded as living elsewhere. */
  ghost predicate NoneMoved(fleet: Fleet, s: Records) {
    forall thread <- s.runtimes :: Ours(fleet, thread) ==> s.runtimes[thread] == LOCAL_RUNTIME
  }

  ghost predicate IsHistory(states: seq<Records>, lists: seq<seq<RuntimePage>>) {
    |states| == |lists| + 1 && forall i :: 0 <= i < |lists| ==> RecordsAfter(states[i], lists[i], states[i + 1])
  }

  lemma OneListMovesNone(fleet: Fleet, s: Records, pages: seq<RuntimePage>, t: Records)
    requires OneOfUs(fleet) && HonestPages(fleet, pages) && OncePerMachine(pages)
    requires KnowsItself(fleet, s.fleetId) && RecordsAfter(s, pages, t)
    requires NoneMoved(fleet, s) && (t.fleetId.Some? || LocalPage(pages).None?)
    ensures NoneMoved(fleet, t) && KnowsItself(fleet, t.fleetId)
  {
    FleetIdIsRight(fleet, s, pages);
    forall thread | thread in t.runtimes && Ours(fleet, thread) ensures t.runtimes[thread] == LOCAL_RUNTIME {
      MovedExactly(fleet, s, pages, thread);
      assert Lookup(t.runtimes, thread) == Some(t.runtimes[thread]);
      assert thread in s.runtimes ==> Lookup(s.runtimes, thread) == Some(s.runtimes[thread]);
    }
  }

  /**
   Over any sequence of lists from honest machines, each taken while this computer's fleet id is known
   or without this computer's runtime, no thread this computer runs is recorded as living elsewhere.
   */
  lemma {:induction false} ListsMoveNone(fleet: Fleet, states: seq<Records>, lists: seq<seq<RuntimePage>>, n: nat)
    requires OneOfUs(fleet) && IsHistory(states, lists) && n <= |lists|
    requires KnowsItself(fleet, states[0].fleetId) && NoneMoved(fleet, states[0])
    requires forall i :: 0 <= i < |lists| ==> HonestPages(fleet, lists[i]) && OncePerMachine(lists[i])
    requires forall i :: 0 <= i < |lists| ==> states[i + 1].fleetId.Some? || LocalPage(lists[i]).None?
    ensures NoneMoved(fleet, states[n]) && KnowsItself(fleet, states[n].fleetId)
  {
    if n > 0 {
      ListsMoveNone(fleet, states, lists, n - 1);
      OneListMovesNone(fleet, states[n - 1], lists[n - 1], states[n]);
    }
  }
}
