/**
 Which summaries the merged list holds, counted: every listed summary as often as
 its machine lists it, except a paired machine's copies of threads deleted here.
 Nothing here speaks of how the pages are merged.
 */
module ThreadListing {
  import opened Wrappers
  import opened Texts
  import opened ThreadPages
  import opened ThreadPaging

  /** A listed summary as the merged list shows it: an object names the machine it came from. */
  function ShownAs(summary: Summary, runtime: string): Summary {
    match summary
    case Fields(thread, _, updated, owner, replica, rest) =>
      Fields(thread, Some(runtime), updated, owner, replica, rest)
    case Scalar(value) => Scalar(value)
  }

  /** The thread it names is deleted here; a summary without a thread names the empty one. */
  predicate NamesDeleted(summary: Summary, deleted: set<string>) {
    match summary
    case Fields(Some(thread), _, _, _, _, _) => thread in deleted
    case Fields(None, _, _, _, _, _) => "" in deleted
    case Scalar(_) => "" in deleted
  }

  /** How often a machine's summaries show as `x`, without a paired machine's copies of deleted threads. */
  function Times(x: Summary, runtime: string, summaries: seq<Summary>, deleted: set<string>): nat {
    if summaries == [] then 0
    else
      var last := summaries[|summaries| - 1];
      Times(x, runtime, summaries[..|summaries| - 1], deleted)
      + if ShownAs(last, runtime) == x && !(runtime != "local" && NamesDeleted(last, deleted)) then 1 else 0
  }

  function TimesOnPages(x: Summary, pages: seq<RuntimePage>, deleted: set<string>): nat {
    if pages == [] then 0
    else
      var last := pages[|pages| - 1];
      TimesOnPages(x, pages[..|pages| - 1], deleted) + Times(x, last.runtimeId, last.page.summaries, deleted)
  }

  /** On one machine's pages from a cursor on, as long as there is a next one and at most `n`. */
  function TimesFrom(
    x: Summary, id: string, cursor: Option<string>, answers: Answers, deleted: set<string>, n: nat): nat
    decreases n
  {
    if n == 0 then 0
    else
      var page := answers(id, cursor);
      Times(x, id, page.summaries, deleted)
      + if page.nextCursor.Some? then TimesFrom(x, id, page.nextCursor, answers, deleted, n - 1) else 0
  }

  /** On the pages of all the machines. */
  function TimesInAll(x: Summary, runtimes: seq<string>, answers: Answers, deleted: set<string>, n: nat): nat {
    if runtimes == [] then 0
    else
      TimesInAll(x, runtimes[..|runtimes| - 1], answers, deleted, n)
      + TimesFrom(x, runtimes[|runtimes| - 1], None, answers, deleted, n)
  }

  // ---------------------------------------------------------------- counting

  lemma OneTimes(x: Summary, runtime: string, last: Summary, deleted: set<string>)
    ensures multiset(if Keeps(runtime, last, deleted) then [last.On(runtime)] else [])[x]
         == if ShownAs(last, runtime) == x && !(runtime != "local" && NamesDeleted(last, deleted)) then 1 else 0
  {
  }

  lemma {:induction false} ContributedTimes(x: Summary, runtime: string, summaries: seq<Summary>, deleted: set<string>)
    ensures multiset(Contributed(runtime, summaries, deleted))[x] == Times(x, runtime, summaries, deleted)
  {
    if summaries != [] {
      ContributedTimes(x, runtime, summaries[..|summaries| - 1], deleted);
      OneTimes(x, runtime, summaries[|summaries| - 1], deleted);
    }
  }

  lemma {:induction false} AllContributedTimes(x: Summary, pages: seq<RuntimePage>, deleted: set<string>)
    ensures multiset(AllContributed(pages, deleted))[x] == TimesOnPages(x, pages, deleted)
  {
    if pages != [] {
      var last := pages[|pages| - 1];
      AllContributedTimes(x, pages[..|pages| - 1], deleted);
      ContributedTimes(x, last.runtimeId, last.page.summaries, deleted);
    }
  }

  lemma {:induction false} AloneTimes(x: Summary, target: Target, answers: Answers, deleted: set<string>, n: nat)
    ensures Alone(target, answers, deleted, n)[x] == TimesFrom(x, target.id, target.cursor, answers, deleted, n)
    decreases n
  {
    if n > 0 {
      var page := answers(target.id, target.cursor);
      ContributedTimes(x, target.id, page.summaries, deleted);
      if page.nextCursor.Some? {
        AloneTimes(x, Target(target.id, page.nextCursor), answers, deleted, n - 1);
      }
    }
  }

  lemma {:induction false} OneByOneTimes(
    x: Summary, targets: Targets, runtimes: seq<string>, answers: Answers, deleted: set<string>, n: nat)
    requires |targets| == |runtimes|
    requires forall i :: 0 <= i < |targets| ==> targets[i] == Target(runtimes[i], None)
    ensures OneByOne(targets, answers, deleted, n)[x] == TimesInAll(x, runtimes, answers, deleted, n)
  {
    if targets != [] {
      OneByOneTimes(x, targets[..|targets| - 1], runtimes[..|runtimes| - 1], answers, deleted, n);
      AloneTimes(x, targets[|targets| - 1], answers, deleted, n);
    }
  }

  /** What shows at all as an object names its machine, and a paired machine's names no thread deleted here. */
  predicate ShowsNoDeleted(x: Summary, deleted: set<string>) {
    x.Fields? ==> x.runtimeId.Some? && (x.runtimeId != Some("local") ==> !NamesDeleted(x, deleted))
  }

  lemma {:induction false} TimesShow(x: Summary, runtime: string, summaries: seq<Summary>, deleted: set<string>)
    requires Times(x, runtime, summaries, deleted) > 0
    ensures ShowsNoDeleted(x, deleted) && (x.Fields? ==> x.runtimeId == Some(runtime))
  {
    if Times(x, runtime, summaries[..|summaries| - 1], deleted) > 0 {
      TimesShow(x, runtime, summaries[..|summaries| - 1], deleted);
    }
  }

  lemma {:induction false} PagesShow(x: Summary, pages: seq<RuntimePage>, deleted: set<string>)
    requires TimesOnPages(x, pages, deleted) > 0
    ensures ShowsNoDeleted(x, deleted)
  {
    var last := pages[|pages| - 1];
    if Times(x, last.runtimeId, last.page.summaries, deleted) > 0 {
      TimesShow(x, last.runtimeId, last.page.summaries, deleted);
    } else {
      PagesShow(x, pages[..|pages| - 1], deleted);
    }
  }

  lemma {:induction false} FromShow(
    x: Summary, id: string, cursor: Option<string>, answers: Answers, deleted: set<string>, n: nat)
    requires TimesFrom(x, id, cursor, answers, deleted, n) > 0
    ensures ShowsNoDeleted(x, deleted)
    decreases n
  {
    var page := answers(id, cursor);
    if Times(x, id, page.summaries, deleted) > 0 {
      TimesShow(x, id, page.summaries, deleted);
    } else {
      FromShow(x, id, page.nextCursor, answers, deleted, n - 1);
    }
  }

  lemma {:induction false} AllShow(x: Summary, runtimes: seq<string>, answers: Answers, deleted: set<string>, n: nat)
    requires TimesInAll(x, runtimes, answers, deleted, n) > 0
    ensures ShowsNoDeleted(x, deleted)
  {
    var last := runtimes[|runtimes| - 1];
    if TimesFrom(x, last, None, answers, deleted, n) > 0 {
      FromShow(x, last, None, answers, deleted, n);
    } else {
      AllShow(x, runtimes[..|runtimes| - 1], answers, deleted, n);
    }
  }

  /** When a summary says it was updated, "" when it does not. */
  function TimeOf(summary: Summary): string {
    match summary
    case Fields(_, _, Some(time), _, _, _) => time
    case _ => ""
  }

  // ---------------------------------------------------------------- requests

  lemma {:induction false} InOrderAscends(cursors: map<string, string>, i: nat, j: nat)
    requires i < j < |InOrder(cursors)|
    ensures Below(InOrder(cursors)[i].id, InOrder(cursors)[j].id)
    decreases |cursors.Keys|
  {
    assert cursors.Keys != {};
    var least := Least(cursors.Keys);
    var rest := cursors - {least};
    assert rest.Keys == cursors.Keys - {least};
    assert InOrder(cursors) == [Target(least, Some(cursors[least]))] + InOrder(rest);
    if i == 0 {
      InOrderIsTheCursors(rest);
      var other := InOrder(rest)[j - 1];
      assert other in InOrder(rest) && other.id in rest;
      if AtMost(other.id, least) {
        OrderIsAntisymmetric(other.id, least);
      }
    } else {
      InOrderAscends(rest, i - 1, j - 1);
    }
  }

  /**
   A first request reads every machine from the start, in order; one with a cursor reads the cursor's
   machines, each from its own, in ascending order; text that is no cursor is refused.
   */
  lemma TargetsExactly(cursors: map<string, string>, runtimes: seq<string>)
    ensures TargetsOf(Garbled, runtimes) == Err("Conversation history is unavailable.")
    ensures TargetsOf(First, runtimes).Ok?
    ensures var targets := TargetsOf(First, runtimes).value;
            |targets| == |runtimes| && forall i :: 0 <= i < |runtimes| ==> targets[i] == Target(runtimes[i], None)
    ensures TargetsOf(Next(cursors), runtimes).Ok?
    ensures var targets := TargetsOf(Next(cursors), runtimes).value;
            && (forall id, cursor :: Target(id, cursor) in targets <==> id in cursors && cursor == Some(cursors[id]))
            && forall i, j :: 0 <= i < j < |targets| ==> Below(targets[i].id, targets[j].id)
  {
    InOrderIsTheCursors(cursors);
    var targets := TargetsOf(Next(cursors), runtimes).value;
    forall i, j | 0 <= i < j < |targets| ensures Below(targets[i].id, targets[j].id) {
      InOrderAscends(cursors, i, j);
    }
    forall id | id in cursors ensures Target(id, Some(cursors[id])) in targets {
      assert id in Names(targets);
    }
  }

  /** The pages are those of the machines that answered, in the order asked. */
  lemma {:induction false} AnsweredExactly(targets: Targets, replies: Replies, page: RuntimePage)
    ensures page in Answered(targets, replies) <==>
            exists target <- targets ::
              target.id == page.runtimeId && replies(target.id, target.cursor) == Ok(page.page)
  {
    if targets != [] {
      var front, last := targets[..|targets| - 1], targets[|targets| - 1];
      AnsweredExactly(front, replies, page);
      assert targets == front + [last];
    }
  }

  lemma {:induction false} AnsweredInOrder(a: Targets, b: Targets, replies: Replies)
    ensures Answered(a + b, replies) == Answered(a, replies) + Answered(b, replies)
  {
    if b == [] {
      assert a + b == a;
    } else {
      var front := b[..|b| - 1];
      assert (a + b)[..|a + b| - 1] == a + front;
      AnsweredInOrder(a, front, replies);
    }
  }

  predicate FailsHere(target: Target, replies: Replies) {
    target.id == "local" && replies(target.id, target.cursor).Err?
  }

  /** The error kept is that of the last failed reading of this computer's runtime. */
  lemma {:induction false} LocalErrorIsLast(targets: Targets, replies: Replies, i: nat)
    ensures i < |targets| && FailsHere(targets[i], replies)
            && (forall j :: i < j < |targets| ==> !FailsHere(targets[j], replies))
            ==> LocalError(targets, replies) == Some(replies(targets[i].id, targets[i].cursor).error)
    ensures (forall target <- targets :: !FailsHere(target, replies)) ==> LocalError(targets, replies) == None
  {
    if targets != [] {
      LocalErrorIsLast(targets[..|targets| - 1], replies, i);
      assert targets[|targets| - 1] in targets && forall target <- targets[..|targets| - 1] :: target in targets;
    }
  }

  // ------------------------------------------------------------ main results

  /** One text stands before another where they first differ, or where it ends. */
  lemma {:induction false} OrderedByFirstDifference(a: string, b: string)
    ensures AtMost(a, b) <==>
            a <= b || exists i :: 0 <= i < |a| && i < |b| && a[..i] == b[..i] && a[i] < b[i]
  {
    if a != "" && b != "" && a[0] == b[0] {
      OrderedByFirstDifference(a[1..], b[1..]);
      assert a <= b <==> a[1..] <= b[1..];
      if i :| 0 <= i < |a| && i < |b| && a[..i] == b[..i] && a[i] < b[i] {
        assert i > 0 && a[1..][..i - 1] == a[..i][1..] == b[..i][1..] == b[1..][..i - 1];
        assert a[1..][i - 1] < b[1..][i - 1];
      }
      if i :| 0 <= i < |a[1..]| && i < |b[1..]| && a[1..][..i] == b[1..][..i] && a[1..][i] < b[1..][i] {
        assert a[..i + 1] == [a[0]] + a[1..][..i] && b[..i + 1] == [b[0]] + b[1..][..i];
        assert a[i + 1] < b[i + 1];
      }
    } else if a != "" && b != "" && a[0] < b[0] {
      assert a[..0] == b[..0] && a[0] < b[0];
    }
  }

  /** A merged page is in descending order of those times. */
  lemma MergedPageDescends(pages: seq<RuntimePage>, deleted: set<string>, i: nat, j: nat)
    requires i < j < |Merge(pages, deleted).summaries|
    ensures AtMost(TimeOf(Merge(pages, deleted).summaries[j]), TimeOf(Merge(pages, deleted).summaries[i]))
  {
    SortedIsNewestFirst(AllContributed(pages, deleted));
  }

  /**
   A merged page shows every summary as often as the pages list it, except a paired machine's copies
   of threads deleted here, of which it shows none.
   */
  lemma MergedPageShows(x: Summary, pages: seq<RuntimePage>, deleted: set<string>)
    ensures multiset(Merge(pages, deleted).summaries)[x] == TimesOnPages(x, pages, deleted)
    ensures x in Merge(pages, deleted).summaries ==> ShowsNoDeleted(x, deleted)
  {
    SortedPermutes(AllContributed(pages, deleted));
    AllContributedTimes(x, pages, deleted);
    if x in Merge(pages, deleted).summaries {
      assert x in multiset(Merge(pages, deleted).summaries);
      PagesShow(x, pages, deleted);
    }
  }

  /**
   So does a whole run from the first request, over all the pages of all the machines, when each
   machine's pages end.
   */
  lemma WholeRunShows(x: Summary, runtimes: seq<string>, answers: Answers, deleted: set<string>, n: nat)
    requires forall i, j :: 0 <= i < j < |runtimes| ==> runtimes[i] != runtimes[j]
    requires n > 0 && forall id <- runtimes :: Ends(id, None, answers, n)
    ensures var targets := TargetsOf(First, runtimes).value;
            Returned(Run(targets, answers, deleted, n))[x] == TimesInAll(x, runtimes, answers, deleted, n)
    ensures var targets := TargetsOf(First, runtimes).value;
            x in Returned(Run(targets, answers, deleted, n)) ==> ShowsNoDeleted(x, deleted)
  {
    var targets := TargetsOf(First, runtimes).value;
    PagingReturnsEverySummaryOnce(runtimes, answers, deleted, n);
    OneByOneTimes(x, targets, runtimes, answers, deleted, n);
    if x in Returned(Run(targets, answers, deleted, n)) {
      AllShow(x, runtimes, answers, deleted, n);
    }
  }

  /** A paired machine's copy of a thread deleted here is not listed. */
  lemma ADeletedCopyIsLeftOut(copy: Summary)
    requires copy == Fields(Some("gone"), None, None, None, Some(true), "")
    ensures Merge([RuntimePage("hub", Page([copy], None, []))], {"gone"}).summaries == []
  {
    var pages := [RuntimePage("hub", Page([copy], None, []))];
    var listed := Merge(pages, {"gone"}).summaries;
    if listed != [] {
      var x := listed[0];
      assert pages[..0] == [] && [copy][..0] == [];
      assert Times(x, "hub", [copy], {"gone"}) == Times(x, "hub", [], {"gone"}) == 0;
      assert TimesOnPages(x, pages, {"gone"}) == 0;
      assert x in multiset(listed);
      MergedPageShows(x, pages, {"gone"});
    }
  }
}
