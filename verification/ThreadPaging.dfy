/**
 Following the merged cursor: the runs of requests a window makes until the
 cursor is null, when every machine answers and the deleted threads stay the same.
 */
module ThreadPaging {
  import opened Wrappers
  import opened Texts
  import opened ThreadPages

  /** What a request is given: nothing, a merged cursor, or text that is no cursor. */
  datatype Cursor = First | Next(cursors: map<string, string>) | Garbled

  /** A machine a request reads, and from where. */
  datatype Target = Target(id: string, cursor: Option<string>)

  type Targets = seq<Target>

  /** How each machine answers each cursor. */
  type Answers = (string, Option<string>) -> Page

  // -------------------------------------------------------------- targets

  ghost function Least(keys: set<string>): (least: string)
    requires keys != {}
    ensures least in keys && forall key <- keys :: AtMost(least, key)
  {
    assert exists least :: least in keys && forall key <- keys :: AtMost(least, key) by {
      var least := LeastExists(keys);
    }
    var least :| least in keys && forall key <- keys :: AtMost(least, key);
    least
  }

  /** The cursors' machines in ascending order, each with its cursor. */
  ghost function InOrder(cursors: map<string, string>): Targets
    decreases |cursors.Keys|
  {
    if cursors == map[] then []
    else
      assert cursors.Keys != {};
      var least := Least(cursors.Keys);
      assert (cursors - {least}).Keys == cursors.Keys - {least};
      [Target(least, Some(cursors[least]))] + InOrder(cursors - {least})
  }

  /** `merged_cursor_targets`. */
  ghost function TargetsOf(cursor: Cursor, runtimes: seq<string>): Result<Targets, string> {
    match cursor
    case First => Ok(seq(|runtimes|, i requires 0 <= i < |runtimes| => Target(runtimes[i], None)))
    case Next(cursors) => Ok(InOrder(cursors))
    case Garbled => Err("Conversation history is unavailable.")
  }

  function Ask(targets: Targets, answers: Answers): seq<RuntimePage> {
    if targets == [] then []
    else
      var last := targets[|targets| - 1];
      Ask(targets[..|targets| - 1], answers) + [RuntimePage(last.id, answers(last.id, last.cursor))]
  }

  // --------------------------------------------------------- reading pages

  type Replies = (string, Option<string>) -> Result<Page, string>

  const BACKGROUND_SERVICE_ERROR := "Muniment cannot reach its background service."

  /** The pages of the machines that answered. */
  function Answered(targets: Targets, replies: Replies): seq<RuntimePage> {
    if targets == [] then []
    else
      var last := targets[|targets| - 1];
      Answered(targets[..|targets| - 1], replies)
      + match replies(last.id, last.cursor)
        case Ok(page) => [RuntimePage(last.id, page)]
        case Err(_) => []
  }

  /** The last error of this computer's runtime. */
  function LocalError(targets: Targets, replies: Replies): Option<string> {
    if targets == [] then None
    else
      var last := targets[|targets| - 1];
      var reply := replies(last.id, last.cursor);
      if reply.Err? && last.id == LOCAL_RUNTIME then Some(reply.error)
      else LocalError(targets[..|targets| - 1], replies)
  }

  /** The page loop of `chat_thread_summaries`: a machine that is away leaves its threads out. */
  method ReadPages(targets: Targets, replies: Replies) returns (r: Result<seq<RuntimePage>, string>)
    ensures r.Ok? <==> exists target <- targets :: replies(target.id, target.cursor).Ok?
    ensures r.Ok? ==> r.value == Answered(targets, replies)
    ensures r.Err? ==> r.error == match LocalError(targets, replies)
                                  case Some(error) => error
                                  case None => BACKGROUND_SERVICE_ERROR
  {
    var pages: seq<RuntimePage> := [];
    var firstError: Option<string> := None;
    for i := 0 to |targets|
      invariant pages == Answered(targets[..i], replies) && firstError == LocalError(targets[..i], replies)
      invariant pages != [] <==> exists target <- targets[..i] :: replies(target.id, target.cursor).Ok?
    {
      assert targets[..i + 1][..i] == targets[..i];
      assert targets[..i + 1] == targets[..i] + [targets[i]];
      match replies(targets[i].id, targets[i].cursor) {
        case Ok(page) =>
          pages := pages + [RuntimePage(targets[i].id, page)];
          assert targets[i] in targets[..i + 1];
        case Err(error) =>
          if targets[i].id == LOCAL_RUNTIME {
            firstError := Some(error);
          }
      }
    }
    assert targets[..|targets|] == targets;
    if pages == [] {
      return Err(if firstError.Some? then firstError.value else BACKGROUND_SERVICE_ERROR);
    }
    return Ok(pages);
  }

  lemma {:induction false} EveryMachineAnswered(targets: Targets, replies: Replies, answers: Answers)
    requires forall target <- targets :: replies(target.id, target.cursor) == Ok(answers(target.id, target.cursor))
    ensures Answered(targets, replies) == Ask(targets, answers)
  {
    if targets != [] {
      assert targets[|targets| - 1] in targets && forall target <- targets[..|targets| - 1] :: target in targets;
      EveryMachineAnswered(targets[..|targets| - 1], replies, answers);
    }
  }

  // ------------------------------------------------------------------ runs

  /** The pages of a run of at most `n` requests that starts with `targets`. */
  ghost function Run(targets: Targets, answers: Answers, deleted: set<string>, n: nat): seq<Merged>
    decreases n
  {
    if n == 0 then []
    else
      var merged := Merge(Ask(targets, answers), deleted);
      [merged]
      + if merged.nextCursor.Some? then Run(InOrder(merged.nextCursor.value), answers, deleted, n - 1) else []
  }

  function Returned(pages: seq<Merged>): multiset<Summary> {
    if pages == [] then multiset{} else multiset(pages[0].summaries) + Returned(pages[1..])
  }

  // -------------------------------------------------- one machine on its own

  /** Reading the machine alone from `cursor` reaches a page with no next cursor within `n` pages. */
  predicate Ends(id: string, cursor: Option<string>, answers: Answers, n: nat)
    decreases n
  {
    n > 0 && var page := answers(id, cursor);
             page.nextCursor.None? || Ends(id, page.nextCursor, answers, n - 1)
  }

  /** What the pages of the machine read alone contribute. */
  ghost function Alone(target: Target, answers: Answers, deleted: set<string>, n: nat): multiset<Summary>
    decreases n, 0
  {
    if n == 0 then multiset{}
    else
      multiset(Contributed(target.id, answers(target.id, target.cursor).summaries, deleted))
      + Rest(target, answers, deleted, n - 1)
  }

  /** The pages after the first. */
  ghost function Rest(target: Target, answers: Answers, deleted: set<string>, n: nat): multiset<Summary>
    decreases n, 1
  {
    var next := answers(target.id, target.cursor).nextCursor;
    if next.Some? then Alone(Target(target.id, next), answers, deleted, n) else multiset{}
  }

  /** The machines read one after another, each to its end. */
  ghost function OneByOne(targets: Targets, answers: Answers, deleted: set<string>, n: nat): multiset<Summary> {
    if targets == [] then multiset{}
    else
      var last := targets[|targets| - 1];
      OneByOne(targets[..|targets| - 1], answers, deleted, n) + Alone(last, answers, deleted, n)
  }

  predicate Distinct(targets: Targets) {
    forall i, j :: 0 <= i < j < |targets| ==> targets[i].id != targets[j].id
  }

  function Names(targets: Targets): set<string> {
    set target <- targets :: target.id
  }

  // --------------------------------------------------------- adding it up

  /** The target's next one, when its page names a next cursor. */
  function Onward(target: Target, answers: Answers): Targets {
    var next := answers(target.id, target.cursor).nextCursor;
    if next.Some? then [Target(target.id, next)] else []
  }

  /** The targets that have more, with their next cursors, in the order asked. */
  function Continuing(targets: Targets, answers: Answers): Targets {
    if targets == [] then []
    else Continuing(targets[..|targets| - 1], answers) + Onward(targets[|targets| - 1], answers)
  }

  lemma AskedOneMore(front: Targets, last: Target, answers: Answers, deleted: set<string>)
    ensures var page := answers(last.id, last.cursor);
            && Ask(front + [last], answers) == Ask(front, answers) + [RuntimePage(last.id, page)]
            && multiset(AllContributed(Ask(front + [last], answers), deleted))
               == multiset(AllContributed(Ask(front, answers), deleted))
                  + multiset(Contributed(last.id, page.summaries, deleted))
            && Cursors(Ask(front + [last], answers))
               == if page.nextCursor.Some? then Cursors(Ask(front, answers))[last.id := page.nextCursor.value]
                  else Cursors(Ask(front, answers))
  {
    var asked := Ask(front + [last], answers);
    assert (front + [last])[..|front|] == front;
    assert asked[..|asked| - 1] == Ask(front, answers);
  }

  lemma OneByOneMore(front: Targets, last: Target, answers: Answers, deleted: set<string>, n: nat)
    ensures OneByOne(front + [last], answers, deleted, n)
         == OneByOne(front, answers, deleted, n) + Alone(last, answers, deleted, n)
  {
    assert (front + [last])[..|front|] == front;
  }

  lemma Rearranged(a: multiset<Summary>, b: multiset<Summary>, c: multiset<Summary>, d: multiset<Summary>)
    ensures (a + b) + (c + d) == (a + c) + (b + d)
  {
  }

  lemma LastFirst(a: multiset<Summary>, b: multiset<Summary>, c: multiset<Summary>)
    ensures (a + b) + c == (a + c) + b
  {
  }

  lemma OneByOneOnward(front: Targets, last: Target, answers: Answers, deleted: set<string>, n: nat)
    ensures OneByOne(front + Onward(last, answers), answers, deleted, n)
         == OneByOne(front, answers, deleted, n) + Rest(last, answers, deleted, n)
  {
    var next := answers(last.id, last.cursor).nextCursor;
    if next.Some? {
      OneByOneMore(front, Target(last.id, next), answers, deleted, n);
    } else {
      assert front + Onward(last, answers) == front;
    }
  }

  lemma {:induction false} OneByOneSplits(targets: Targets, answers: Answers, deleted: set<string>, n: nat)
    requires n > 0
    ensures OneByOne(targets, answers, deleted, n)
         == multiset(AllContributed(Ask(targets, answers), deleted))
            + OneByOne(Continuing(targets, answers), answers, deleted, n - 1)
  {
    if targets != [] {
      var front, last := targets[..|targets| - 1], targets[|targets| - 1];
      var page := answers(last.id, last.cursor);
      assert targets == front + [last];
      OneByOneSplits(front, answers, deleted, n);
      OneByOneMore(front, last, answers, deleted, n);
      AskedOneMore(front, last, answers, deleted);
      OneByOneOnward(Continuing(front, answers), last, answers, deleted, n - 1);
      Rearranged(
        multiset(AllContributed(Ask(front, answers), deleted)),
        OneByOne(Continuing(front, answers), answers, deleted, n - 1),
        multiset(Contributed(last.id, page.summaries, deleted)),
        Rest(last, answers, deleted, n - 1));
    }
  }

  /** The targets are the map's entries, in some order. */
  ghost predicate AreCursors(targets: Targets, cursors: map<string, string>) {
    && Distinct(targets)
    && Names(targets) == cursors.Keys
    && forall target <- targets :: target.cursor == Some(cursors[target.id])
  }

  /** The next cursor holds exactly the machines that have more. */
  lemma {:induction false} CursorsOfContinuing(targets: Targets, answers: Answers)
    requires Distinct(targets)
    ensures Names(Continuing(targets, answers)) <= Names(targets)
    ensures AreCursors(Continuing(targets, answers), Cursors(Ask(targets, answers)))
  {
    if targets != [] {
      var front, last := targets[..|targets| - 1], targets[|targets| - 1];
      assert targets == front + [last];
      CursorsOfContinuing(front, answers);
      AskedOneMore(front, last, answers, {});
      assert last.id !in Names(front);
      assert Names(targets) == Names(front) + {last.id};
      var next := answers(last.id, last.cursor).nextCursor;
      if next.None? {
        assert Continuing(targets, answers) == Continuing(front, answers);
      } else {
        AddCursor(Continuing(front, answers), Cursors(Ask(front, answers)), last.id, next.value);
      }
    }
  }

  lemma AddCursor(targets: Targets, cursors: map<string, string>, id: string, cursor: string)
    requires AreCursors(targets, cursors) && id !in cursors
    ensures AreCursors(targets + [Target(id, Some(cursor))], cursors[id := cursor])
    ensures Names(targets + [Target(id, Some(cursor))]) == Names(targets) + {id}
  {
    var more := targets + [Target(id, Some(cursor))];
    forall i | 0 <= i < |targets| ensures more[i].id != id {
      assert more[i] in targets && more[i].id in Names(targets);
    }
    assert Names(more) == Names(targets) + {id} by {
      assert more[|targets|] in more && forall target <- targets :: target in more;
    }
  }

  lemma Without(targets: Targets, at: nat)
    requires Distinct(targets) && at < |targets|
    ensures var rest := targets[..at] + targets[at + 1..];
            && Distinct(rest)
            && Names(rest) == Names(targets) - {targets[at].id}
            && forall target <- rest :: target in targets
  {
    var rest := targets[..at] + targets[at + 1..];
    forall i | 0 <= i < |rest| ensures rest[i] in targets && rest[i].id != targets[at].id {
      assert rest[i] == targets[if i < at then i else i + 1];
    }
    forall i | 0 <= i < |targets| && i != at ensures targets[i] in rest {
      assert rest[if i < at then i else i - 1] == targets[i];
    }
  }

  lemma RemoveTarget(targets: Targets, cursors: map<string, string>, id: string) returns (at: nat)
    requires AreCursors(targets, cursors) && id in cursors
    ensures at < |targets| && targets[at] == Target(id, Some(cursors[id]))
    ensures AreCursors(targets[..at] + targets[at + 1..], cursors - {id})
  {
    assert id in Names(targets);
    var target :| target in targets && target.id == id;
    at :| 0 <= at < |targets| && targets[at] == target;
    Without(targets, at);
    assert forall other <- targets[..at] + targets[at + 1..] :: other.id in Names(targets[..at] + targets[at + 1..]);
  }

  lemma {:induction false} TakeOut(a: Targets, x: Target, b: Targets, answers: Answers, deleted: set<string>, n: nat)
    ensures OneByOne(a + [x] + b, answers, deleted, n)
         == OneByOne(a + b, answers, deleted, n) + Alone(x, answers, deleted, n)
  {
    if b == [] {
      assert a + [x] + b == a + [x] && a + b == a;
      OneByOneMore(a, x, answers, deleted, n);
    } else {
      var front, last := b[..|b| - 1], b[|b| - 1];
      assert a + [x] + b == (a + [x] + front) + [last] && a + b == (a + front) + [last];
      TakeOut(a, x, front, answers, deleted, n);
      OneByOneMore(a + [x] + front, last, answers, deleted, n);
      OneByOneMore(a + front, last, answers, deleted, n);
      LastFirst(
        OneByOne(a + front, answers, deleted, n), Alone(x, answers, deleted, n), Alone(last, answers, deleted, n));
    }
  }

  lemma TakeOutAt(targets: Targets, at: nat, answers: Answers, deleted: set<string>, n: nat)
    requires at < |targets|
    ensures OneByOne(targets, answers, deleted, n)
         == OneByOne(targets[..at] + targets[at + 1..], answers, deleted, n) + Alone(targets[at], answers, deleted, n)
  {
    assert targets == targets[..at] + [targets[at]] + targets[at + 1..];
    TakeOut(targets[..at], targets[at], targets[at + 1..], answers, deleted, n);
  }

  lemma AddFirst(target: Target, targets: Targets, answers: Answers, deleted: set<string>, n: nat)
    ensures OneByOne([target] + targets, answers, deleted, n)
         == OneByOne(targets, answers, deleted, n) + Alone(target, answers, deleted, n)
  {
    var whole := [target] + targets;
    assert whole[..0] + whole[1..] == targets;
    TakeOutAt(whole, 0, answers, deleted, n);
  }

  /** The order the machines are asked in changes nothing. */
  lemma {:induction false} AnyOrder(
    targets: Targets, cursors: map<string, string>, answers: Answers, deleted: set<string>, n: nat)
    requires AreCursors(targets, cursors)
    ensures OneByOne(targets, answers, deleted, n) == OneByOne(InOrder(cursors), answers, deleted, n)
    decreases |cursors.Keys|
  {
    if cursors == map[] {
      assert forall target <- targets :: target.id in Names(targets);
    } else {
      assert cursors.Keys != {};
      var least := Least(cursors.Keys);
      assert InOrder(cursors) == [Target(least, Some(cursors[least]))] + InOrder(cursors - {least});
      var at := RemoveTarget(targets, cursors, least);
      assert (cursors - {least}).Keys == cursors.Keys - {least};
      var rest := targets[..at] + targets[at + 1..];
      AnyOrder(rest, cursors - {least}, answers, deleted, n);
      TakeOutAt(targets, at, answers, deleted, n);
      AddFirst(targets[at], InOrder(cursors - {least}), answers, deleted, n);
    }
  }

  lemma {:induction false} InOrderIsTheCursors(cursors: map<string, string>)
    ensures AreCursors(InOrder(cursors), cursors)
    decreases |cursors.Keys|
  {
    if cursors != map[] {
      assert cursors.Keys != {};
      var least := Least(cursors.Keys);
      assert (cursors - {least}).Keys == cursors.Keys - {least};
      InOrderIsTheCursors(cursors - {least});
      PutFirst(InOrder(cursors - {least}), cursors, least);
    }
  }

  lemma PutFirst(targets: Targets, cursors: map<string, string>, id: string)
    requires id in cursors && AreCursors(targets, cursors - {id})
    ensures AreCursors([Target(id, Some(cursors[id]))] + targets, cursors)
  {
    var all := [Target(id, Some(cursors[id]))] + targets;
    forall i | 0 <= i < |targets| ensures targets[i].id != id {
      assert targets[i] in targets && targets[i].id in Names(targets);
    }
    assert all[0] in all && forall target <- targets :: target in all && target.id in cursors;
    forall other | other in cursors.Keys ensures other in Names(all) {
      if other != id {
        assert other in Names(targets);
      }
    }
    assert Names(all) == cursors.Keys;
  }

  predicate AllEnd(targets: Targets, answers: Answers, n: nat) {
    forall target <- targets :: Ends(target.id, target.cursor, answers, n)
  }

  lemma {:induction false} ContinuingEnd(targets: Targets, answers: Answers, n: nat)
    requires n > 0 && AllEnd(targets, answers, n)
    ensures AllEnd(Continuing(targets, answers), answers, n - 1)
  {
    if targets != [] {
      var front, last := targets[..|targets| - 1], targets[|targets| - 1];
      assert last in targets && forall target <- front :: target in targets;
      ContinuingEnd(front, answers, n);
    }
  }

  /** The targets of the next request end one page sooner, and there are none when this request's page has no cursor. */
  lemma NextTargets(targets: Targets, answers: Answers, n: nat)
    requires Distinct(targets) && n > 0 && AllEnd(targets, answers, n)
    ensures var cursors, more := Cursors(Ask(targets, answers)), Continuing(targets, answers);
            && AreCursors(more, cursors)
            && (cursors == map[] ==> more == [])
            && (cursors != map[] ==> n > 1 && AllEnd(InOrder(cursors), answers, n - 1))
  {
    var cursors, more := Cursors(Ask(targets, answers)), Continuing(targets, answers);
    CursorsOfContinuing(targets, answers);
    ContinuingEnd(targets, answers, n);
    assert more != [] ==> more[0].id in Names(more);
    if cursors != map[] {
      InOrderIsTheCursors(cursors);
      SameTargets(more, InOrder(cursors), cursors);
      var id :| id in cursors;
      assert id in Names(more);
      FewerEnd(more, InOrder(cursors), answers, n - 1);
    }
  }

  lemma FewerEnd(a: Targets, b: Targets, answers: Answers, n: nat)
    requires a != [] && AllEnd(a, answers, n) && forall target <- b :: target in a
    ensures n > 0 && AllEnd(b, answers, n)
  {
    assert Ends(a[0].id, a[0].cursor, answers, n);
  }

  lemma SameTargets(a: Targets, b: Targets, cursors: map<string, string>)
    requires AreCursors(a, cursors) && AreCursors(b, cursors)
    ensures forall target <- b :: target in a
  {
    forall target | target in b ensures target in a {
      assert target.id in Names(b);
      var same :| same in a && same.id == target.id;
      assert same == target;
    }
  }

  /** A run that ends: its last page has no next cursor. */
  predicate Finished(run: seq<Merged>) {
    run != [] && run[|run| - 1].nextCursor.None?
  }

  /**
   When each machine's own pages end, so does the run, and its pages together return what each machine
   read alone returns, each machine once.
   */
  lemma {:induction false} RunReturnsEachMachineOnce(
    targets: Targets, answers: Answers, deleted: set<string>, n: nat)
    requires Distinct(targets) && n > 0 && AllEnd(targets, answers, n)
    ensures Finished(Run(targets, answers, deleted, n))
    ensures Returned(Run(targets, answers, deleted, n)) == OneByOne(targets, answers, deleted, n)
    decreases n
  {
    var pages, more := Ask(targets, answers), Continuing(targets, answers);
    var cursors, run := Cursors(pages), Run(targets, answers, deleted, n);
    SortedPermutes(AllContributed(pages, deleted));
    OneByOneSplits(targets, answers, deleted, n);
    NextTargets(targets, answers, n);
    if cursors != map[] {
      InOrderIsTheCursors(cursors);
      RunReturnsEachMachineOnce(InOrder(cursors), answers, deleted, n - 1);
      AnyOrder(more, cursors, answers, deleted, n - 1);
      assert run[1..] == Run(InOrder(cursors), answers, deleted, n - 1);
    } else {
      assert run[1..] == [];
    }
  }

  /** From the first request, with this computer's runtime and the paired ones each named once. */
  lemma PagingReturnsEverySummaryOnce(runtimes: seq<string>, answers: Answers, deleted: set<string>, n: nat)
    requires forall i, j :: 0 <= i < j < |runtimes| ==> runtimes[i] != runtimes[j]
    requires n > 0 && forall id <- runtimes :: Ends(id, None, answers, n)
    ensures var targets := TargetsOf(First, runtimes).value;
            && Finished(Run(targets, answers, deleted, n))
            && Returned(Run(targets, answers, deleted, n)) == OneByOne(targets, answers, deleted, n)
  {
    var targets := TargetsOf(First, runtimes).value;
    forall target <- targets ensures Ends(target.id, target.cursor, answers, n) {
      assert target.id in runtimes;
    }
    RunReturnsEachMachineOnce(targets, answers, deleted, n);
  }
}
