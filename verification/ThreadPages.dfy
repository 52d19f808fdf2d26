/**
 The merged list of conversation threads: each machine answers a page, the pages
 merge into one list, newest first, and the merged cursor asks each machine that
 has more for its next page.
 */
module ThreadPages {
  import opened Wrappers
  import opened Texts

  const LOCAL_RUNTIME := "local"

  /** A thread summary's members that the list reads, or a value that is no object. */
  datatype Summary =
    | Fields(
        threadId: Option<string>, runtimeId: Option<string>, updatedAt: Option<string>,
        owner: Option<string>, replica: Option<bool>, rest: string)
    | Scalar(value: string)
  {
    function Thread(): Option<string> {
      if Fields? then threadId else None
    }

    function Runtime(): Option<string> {
      if Fields? then runtimeId else None
    }

    function Owner(): Option<string> {
      if Fields? then owner else None
    }

    function Updated(): string {
      if Fields? && updatedAt.Some? then updatedAt.value else ""
    }

    /** Anything but an explicit replica mark counts as running the thread. */
    predicate RunsIt() {
      !(Fields? && replica == Some(true))
    }

    function On(runtime: string): Summary {
      if Fields? then this.(runtimeId := Some(runtime)) else this
    }
  }

  datatype Page = Page(summaries: seq<Summary>, nextCursor: Option<string>, deletedThreadIds: seq<string>)

  datatype RuntimePage = RuntimePage(runtimeId: string, page: Page)

  datatype Merged = Merged(summaries: seq<Summary>, nextCursor: Option<map<string, string>>, runtimeIds: seq<string>)

  // --------------------------------------------------------------- merging

  /** A paired machine's copy of a thread deleted here is left out. A summary that names no thread names "". */
  predicate Keeps(runtime: string, summary: Summary, deleted: set<string>) {
    runtime == LOCAL_RUNTIME || (if summary.Thread().Some? then summary.Thread().value else "") !in deleted
  }

  /** What one machine's summaries contribute: those kept, each naming its machine. */
  function Contributed(runtime: string, summaries: seq<Summary>, deleted: set<string>): seq<Summary> {
    if summaries == [] then []
    else
      var last := summaries[|summaries| - 1];
      Contributed(runtime, summaries[..|summaries| - 1], deleted)
      + (if Keeps(runtime, last, deleted) then [last.On(runtime)] else [])
  }

  function AllContributed(pages: seq<RuntimePage>, deleted: set<string>): seq<Summary> {
    if pages == [] then []
    else
      var last := pages[|pages| - 1];
      AllContributed(pages[..|pages| - 1], deleted) + Contributed(last.runtimeId, last.page.summaries, deleted)
  }

  function Cursors(pages: seq<RuntimePage>): map<string, string> {
    if pages == [] then map[]
    else
      var last, before := pages[|pages| - 1], Cursors(pages[..|pages| - 1]);
      if last.page.nextCursor.Some? then before[last.runtimeId := last.page.nextCursor.value] else before
  }

  function RuntimeIds(pages: seq<RuntimePage>): (ids: seq<string>)
    ensures |ids| == |pages|
    ensures forall i :: 0 <= i < |pages| ==> ids[i] == pages[i].runtimeId
  {
    seq(|pages|, i requires 0 <= i < |pages| => pages[i].runtimeId)
  }

  predicate NewestFirst(s: seq<Summary>) {
    forall i, j :: 0 <= i < j < |s| ==> AtMost(s[j].Updated(), s[i].Updated())
  }

  function Place(summary: Summary, sorted: seq<Summary>): seq<Summary> {
    if sorted == [] then [summary]
    else if AtMost(sorted[0].Updated(), summary.Updated()) then [summary] + sorted
    else [sorted[0]] + Place(summary, sorted[1..])
  }

  /** The stable sort by descending update time; `Sorted...` below say that it is the one. */
  function Sorted(s: seq<Summary>): seq<Summary> {
    if s == [] then [] else Place(s[0], Sorted(s[1..]))
  }

  lemma {:induction false} PlacePermutes(summary: Summary, sorted: seq<Summary>)
    ensures multiset(Place(summary, sorted)) == multiset(sorted) + multiset{summary}
  {
    if sorted != [] {
      PlacePermutes(summary, sorted[1..]);
      assert sorted == [sorted[0]] + sorted[1..];
    }
  }

  lemma {:induction false} SortedPermutes(s: seq<Summary>)
    ensures multiset(Sorted(s)) == multiset(s)
  {
    if s != [] {
      SortedPermutes(s[1..]);
      PlacePermutes(s[0], Sorted(s[1..]));
      assert s == [s[0]] + s[1..];
    }
  }

  lemma {:induction false} PlaceKeepsOrder(summary: Summary, sorted: seq<Summary>)
    requires NewestFirst(sorted)
    ensures NewestFirst(Place(summary, sorted))
  {
    if sorted != [] {
      var head := sorted[0];
      if AtMost(head.Updated(), summary.Updated()) {
        forall j | 0 <= j < |sorted| ensures AtMost(sorted[j].Updated(), summary.Updated()) {
          if j > 0 {
            OrderIsTransitive(sorted[j].Updated(), head.Updated(), summary.Updated());
          }
        }
      } else {
        var placed := Place(summary, sorted[1..]);
        PlaceKeepsOrder(summary, sorted[1..]);
        PlacePermutes(summary, sorted[1..]);
        OrderIsTotal(head.Updated(), summary.Updated());
        forall x | x in placed ensures AtMost(x.Updated(), head.Updated()) {
          assert x in multiset(placed);
          assert x == summary || x in sorted[1..];
        }
      }
    }
  }

  lemma {:induction false} SortedIsNewestFirst(s: seq<Summary>)
    ensures NewestFirst(Sorted(s))
  {
    if s != [] {
      SortedIsNewestFirst(s[1..]);
      PlaceKeepsOrder(s[0], Sorted(s[1..]));
    }
  }

  /** The summaries last updated at one time, in order. */
  function At(s: seq<Summary>, time: string): seq<Summary> {
    if s == [] then [] else (if s[0].Updated() == time then [s[0]] else []) + At(s[1..], time)
  }

  lemma {:induction false} PlaceIsStable(summary: Summary, sorted: seq<Summary>, time: string)
    ensures At(Place(summary, sorted), time) == At([summary] + sorted, time)
  {
    assert ([summary] + sorted)[1..] == sorted;
    if sorted != [] && !AtMost(sorted[0].Updated(), summary.Updated()) {
      OrderIsTotal(summary.Updated(), summary.Updated());
      PlaceIsStable(summary, sorted[1..], time);
      assert ([summary] + sorted[1..])[1..] == sorted[1..];
      assert Place(summary, sorted)[1..] == Place(summary, sorted[1..]);
    }
  }

  lemma {:induction false} SortedIsStable(s: seq<Summary>, time: string)
    ensures At(Sorted(s), time) == At(s, time)
  {
    if s != [] {
      SortedIsStable(s[1..], time);
      PlaceIsStable(s[0], Sorted(s[1..]), time);
      assert ([s[0]] + Sorted(s[1..]))[1..] == Sorted(s[1..]);
    }
  }

  function Merge(pages: seq<RuntimePage>, deleted: set<string>): Merged {
    var cursors := Cursors(pages);
    Merged(Sorted(AllContributed(pages, deleted)), if cursors == map[] then None else Some(cursors), RuntimeIds(pages))
  }

  /** `merge_thread_pages`. */
  method MergeThreadPages(pages: seq<RuntimePage>, deletedHere: set<string>) returns (merged: Merged)
    ensures merged == Merge(pages, deletedHere)
  {
    var summaries: seq<Summary> := [];
    var cursors: map<string, string> := map[];
    var answered: seq<string> := [];
    for p := 0 to |pages|
      invariant summaries == AllContributed(pages[..p], deletedHere)
      invariant cursors == Cursors(pages[..p])
      invariant answered == RuntimeIds(pages[..p])
    {
      var runtimeId, page := pages[p].runtimeId, pages[p].page;
      assert pages[..p + 1][..p] == pages[..p];
      answered := answered + [runtimeId];
      ghost var before := summaries;
      for i := 0 to |page.summaries|
        invariant summaries == before + Contributed(runtimeId, page.summaries[..i], deletedHere)
      {
        assert page.summaries[..i + 1][..i] == page.summaries[..i];
        var summary := page.summaries[i];
        if Keeps(runtimeId, summary, deletedHere) {
          summaries := summaries + [summary.On(runtimeId)];
        }
      }
      assert page.summaries[..|page.summaries|] == page.summaries;
      if page.nextCursor.Some? {
        cursors := cursors[runtimeId := page.nextCursor.value];
      }
    }
    assert pages[..|pages|] == pages;
    merged := Merged(Sorted(summaries), if cursors == map[] then None else Some(cursors), answered);
  }

  /** A page of the merged list is a permutation of what it keeps, newest first, equal times in the order read. */
  lemma MergedPageIsSortedPermutation(pages: seq<RuntimePage>, deleted: set<string>, time: string)
    ensures var merged := Merge(pages, deleted).summaries;
            && multiset(merged) == multiset(AllContributed(pages, deleted))
            && NewestFirst(merged)
            && At(merged, time) == At(AllContributed(pages, deleted), time)
  {
    SortedPermutes(AllContributed(pages, deleted));
    SortedIsNewestFirst(AllContributed(pages, deleted));
    SortedIsStable(AllContributed(pages, deleted), time);
  }
}
