/** Retrieves the paginated activity history from a server that may answer anything. */
module ActivityFetch {
  import opened Outcomes

  datatype Page<T> = Page(activities: seq<T>, count: int)

  /** A server answers each request with the knowledge of all skips asked so far, the current one last. */
  type Server<!T> = seq<nat> -> Result<Page<T>>

  const UNKNOWN: int := -1

  function UpdateExpectedActivityCount(expected: int, pageCount: int): Result<int> {
    if expected == UNKNOWN then Success(pageCount)
    else if pageCount != expected then Failure(IncompatibleServer)
    else Success(expected)
  }

  function FinalizeEmptyActivityHistory<T>(page: Page<T>): Result<Page<T>> {
    if |page.activities| != 0 then Failure(IncompatibleServer) else Success(Page([], 0))
  }

  function AppendActivityPage<T>(all: seq<T>, added: seq<T>, expected: int): Result<seq<T>> {
    if |added| == 0 then Failure(IncompatibleServer)
    else if |all + added| > expected then Failure(IncompatibleServer)
    else Success(all + added)
  }

  /** What one answered request leads to. */
  datatype Progress<T> = Done(result: Result<Page<T>>) | More(all: seq<T>, expected: int)

  function Advance<T>(all: seq<T>, expected: int, reply: Result<Page<T>>): (p: Progress<T>)
    ensures p.More? ==> |all| < |p.all| < p.expected && (expected == UNKNOWN || p.expected == expected)
  {
    match reply
    case Failure(_) => Done(Failure(TransportFailed))
    case Success(page) =>
      match UpdateExpectedActivityCount(expected, page.count)
      case Failure(e) => Done(Failure(e))
      case Success(count) =>
        if count == 0 then Done(FinalizeEmptyActivityHistory(page))
        else
          match AppendActivityPage(all, page.activities, count)
          case Failure(e) => Done(Failure(e))
          case Success(next) => if |next| >= count then Done(Success(Page(next, count))) else More(next, count)
  }

  /** What is still missing; before the first answer that is unknown. */
  ghost function Missing<T>(all: seq<T>, expected: int): (int, int) {
    if expected == UNKNOWN then (1, 0) else (0, expected - |all|)
  }

  /** The history fetched from a state of the loop: the skips asked before, the activities held, the count expected. */
  ghost function FetchFrom<T>(server: Server<T>, asked: seq<nat>, all: seq<T>, expected: int): Result<Page<T>>
    decreases Missing(all, expected).0, Missing(all, expected).1
  {
    match Advance(all, expected, server(asked + [|all|]))
    case Done(result) => result
    case More(next, count) => FetchFrom(server, asked + [|all|], next, count)
  }

  method FetchActivitiesHistory<T>(server: Server<T>) returns (r: Result<Page<T>>)
    ensures r == FetchFrom(server, [], [], UNKNOWN)
  {
    var all: seq<T> := [];
    var expected := UNKNOWN;
    var asked: seq<nat> := [];
    while true
      invariant FetchFrom(server, [], [], UNKNOWN) == FetchFrom(server, asked, all, expected)
      decreases Missing(all, expected).0, Missing(all, expected).1
    {
      asked := asked + [|all|];
      var page := server(asked);
      if page.Failure? {
        return Failure(TransportFailed);
      }
      var count := UpdateExpectedActivityCount(expected, page.value.count);
      if count.Failure? {
        return Failure(count.error);
      }
      if count.value == 0 {
        return FinalizeEmptyActivityHistory(page.value);
      }
      var next := AppendActivityPage(all, page.value.activities, count.value);
      if next.Failure? {
        return Failure(next.error);
      }
      if |next.value| >= count.value {
        return Success(Page(next.value, count.value));
      }
      all, expected := next.value, count.value;
    }
  }

  // -------- what a fetched history is --------

  ghost function Joined<T>(pages: seq<Page<T>>): seq<T> {
    if pages == [] then [] else pages[0].activities + Joined(pages[1..])
  }

  /** The conversation a successful fetch had: each request skips what was held by then, each answer is the server's,
      reports the same count, and is not empty unless the whole history is. */
  ghost predicate Conversation<T>(server: Server<T>, asked: seq<nat>, held: nat, skips: seq<nat>, pages: seq<Page<T>>, count: int)
    decreases |skips|
  {
    && |skips| == |pages|
    && (skips != [] ==>
          && skips[0] == held
          && server(asked + [skips[0]]) == Success(pages[0])
          && pages[0].count == count
          && (count != 0 ==> pages[0].activities != [])
          && Conversation(server, asked + [skips[0]], held + |pages[0].activities|, skips[1..], pages[1..], count))
  }

  /** A success returns exactly the pages in order, as many activities as every page said there are. */
  lemma {:induction false} FetchedHistoryIsComplete<T>(server: Server<T>, asked: seq<nat>, all: seq<T>, expected: int)
    returns (skips: seq<nat>, pages: seq<Page<T>>)
    requires FetchFrom(server, asked, all, expected).Success?
    requires expected != 0 && (expected == UNKNOWN ==> all == [])
    ensures var history := FetchFrom(server, asked, all, expected).value;
            && pages != [] && Conversation(server, asked, |all|, skips, pages, history.count)
            && history.activities == all + Joined(pages) && |history.activities| == history.count
            && (expected != UNKNOWN ==> history.count == expected)
    decreases Missing(all, expected).0, Missing(all, expected).1
  {
    var reply := server(asked + [|all|]).value;
    var history := FetchFrom(server, asked, all, expected).value;
    match Advance(all, expected, Success(reply))
    case Done(_) =>
      skips, pages := [|all|], [reply];
      assert pages[1..] == [] && skips[1..] == [];
      assert Joined(pages) == reply.activities + Joined([]);
    case More(next, count) =>
      var laterSkips, laterPages := FetchedHistoryIsComplete(server, asked + [|all|], next, count);
      skips, pages := [|all|] + laterSkips, [reply] + laterPages;
      assert pages[1..] == laterPages && skips[1..] == laterSkips;
      assert all + (reply.activities + Joined(laterPages)) == (all + reply.activities) + Joined(laterPages);
  }

  /** Whatever the server does, a successful fetch starts at skip zero and holds a complete history. */
  lemma SuccessIsAWholeHistory<T>(server: Server<T>)
    requires FetchFrom(server, [], [], UNKNOWN).Success?
    ensures exists skips: seq<nat>, pages: seq<Page<T>> ::
              IsWholeHistory(server, skips, pages, FetchFrom(server, [], [], UNKNOWN).value)
  {
    var skips, pages := FetchedHistoryIsComplete(server, [], [], UNKNOWN);
    assert [] + Joined(pages) == Joined(pages);
    assert IsWholeHistory(server, skips, pages, FetchFrom(server, [], [], UNKNOWN).value);
  }

  ghost predicate IsWholeHistory<T>(server: Server<T>, skips: seq<nat>, pages: seq<Page<T>>, history: Page<T>) {
    && Conversation(server, [], 0, skips, pages, history.count) && skips != []
    && history.activities == Joined(pages) && |history.activities| == history.count
  }

  /** The other way round: such a conversation is one the loop has. */
  lemma {:induction false} ConversationIsFetched<T>(server: Server<T>, asked: seq<nat>, all: seq<T>, expected: int, skips: seq<nat>,
                                                    pages: seq<Page<T>>, count: nat)
    requires Conversation(server, asked, |all|, skips, pages, count) && pages != [] && |all + Joined(pages)| == count
    requires (expected == UNKNOWN && all == []) || (expected == count && |all| < count)
    ensures FetchFrom(server, asked, all, expected) == Success(Page(all + Joined(pages), count))
    decreases |pages|
  {
    var page, tail := pages[0], Joined(pages[1..]);
    assert all + Joined(pages) == (all + page.activities) + tail;
    if count == 0 {
      assert all + Joined(pages) == [];
    } else if |all + page.activities| == count {
      assert tail == [];
      assert all + Joined(pages) == all + page.activities;
    } else {
      ConversationIsFetched(server, asked + [|all|], all + page.activities, count, skips[1..], pages[1..], count);
    }
  }

  /** A fetch succeeds exactly when the server's answers make up a whole history: each asked at the number held, all reporting
      the length of the whole, none but the only one empty. */
  lemma FetchSucceedsExactlyWhen<T>(server: Server<T>, history: Page<T>)
    ensures FetchFrom(server, [], [], UNKNOWN) == Success(history)
            <==> exists skips: seq<nat>, pages: seq<Page<T>> :: IsWholeHistory(server, skips, pages, history)
  {
    if FetchFrom(server, [], [], UNKNOWN) == Success(history) {
      SuccessIsAWholeHistory(server);
    }
    if skips: seq<nat>, pages: seq<Page<T>> :| IsWholeHistory(server, skips, pages, history) {
      assert [] + Joined(pages) == Joined(pages);
      ConversationIsFetched(server, [], [], UNKNOWN, skips, pages, history.count);
    }
  }

  // -------- servers that page a fixed list --------

  function Slice<T>(list: seq<T>, skip: nat, take: nat): seq<T> {
    if skip >= |list| then [] else if skip + take <= |list| then list[skip..skip + take] else list[skip..]
  }

  /** Answers with the next entries of one list, and its length. */
  ghost predicate PagesList<T>(server: Server<T>, list: seq<T>, take: nat) {
    forall asked: seq<nat> :: asked != [] ==> server(asked) == Success(Page(Slice(list, asked[|asked| - 1], take), |list|))
  }

  lemma {:induction false} RestOfList<T>(server: Server<T>, list: seq<T>, take: nat, asked: seq<nat>, all: seq<T>, expected: int)
    requires PagesList(server, list, take) && take > 0
    requires all <= list && ((expected == |list| && |all| < |list|) || (expected == UNKNOWN && all == []))
    ensures FetchFrom(server, asked, all, expected) == Success(Page(list, |list|))
    decreases Missing(all, expected).0, Missing(all, expected).1
  {
    var now := asked + [|all|];
    assert server(now) == Success(Page(Slice(list, |all|, take), |list|));
    if |list| == 0 {
    } else {
      var next := all + Slice(list, |all|, take);
      assert next <= list && |next| > |all|;
      if |next| < |list| {
        RestOfList(server, list, take, now, next, |list|);
      } else {
        assert next == list;
      }
    }
  }

  /** A server that pages a fixed list, whatever the page size, yields exactly that list. */
  lemma ListServersAreFetchedWhole<T>(server: Server<T>, list: seq<T>, take: nat)
    requires PagesList(server, list, take) && take > 0
    ensures FetchFrom(server, [], [], UNKNOWN) == Success(Page(list, |list|))
  {
    RestOfList(server, list, take, [], [], UNKNOWN);
  }

  /** A negative first count, the loop's own marker for an unknown count included, never succeeds. */
  lemma NegativeCountsAreRefused<T>(server: Server<T>)
    requires server([0]).Success? && server([0]).value.count < 0
    ensures FetchFrom(server, [], [], UNKNOWN) == Failure(IncompatibleServer)
  {
    assert [] + [0] == [0];
  }
}
