/**
 * The cursor-based pagination state machine that `UserTweets` and `SearchTweets` both
 * implement: the state (cursor, is_next_page, accumulated tweets), one page step, a run of
 * `pages` steps with pauses between them, the per-item parse-and-filter rule, and the lookup
 * of the first `TimelineAddEntries` instruction. The two classes differ only in how a
 * response becomes a Harvest (the page's surviving items and the bottom cursor token found).
 */
module Paging {
  import opened Wrappers

  /** A raw JSON record of the service (a tweet result, a search entry); the engine never looks inside it. */
  type RawRecord = string

  /** A parsed tweet: `isRetweet` is the one field the engine reads; `fields` stands for the rest. */
  datatype Tweet = Tweet(fields: RawRecord, isRetweet: bool)

  /** A timeline instruction: its type tag and its `entries`, each of which may be missing. */
  datatype Instruction<E> = Instruction(tag: Option<string>, entries: Option<seq<E>>)

  predicate IsAddEntries<E>(ins: Instruction<E>) {
    ins.tag == Some("TimelineAddEntries")
  }

  /** Instruction `i` is tagged `TimelineAddEntries` and none before it is. */
  predicate FirstTagged<E>(instructions: seq<Instruction<E>>, i: int) {
    0 <= i < |instructions| && IsAddEntries(instructions[i]) &&
    forall j :: 0 <= j < i ==> !IsAddEntries(instructions[j])
  }

  /** The index of the first instruction tagged `TimelineAddEntries`, if there is one. */
  function FirstAddEntries<E>(instructions: seq<Instruction<E>>): (r: Option<nat>)
    ensures r.Some? ==> FirstTagged(instructions, r.value)
    ensures r.None? ==> forall j :: 0 <= j < |instructions| ==> !IsAddEntries(instructions[j])
  {
    if instructions == [] then None
    else if IsAddEntries(instructions[0]) then Some(0)
    else
      match FirstAddEntries(instructions[1..])
      case None => None
      case Some(i) => Some(i + 1)
  }

  // ---------------------------------------------------------------------------------------
  // Parsing and filtering the raw items of a page

  /** The retweet filter: a parsed tweet is skipped when it is a retweet and retweets are not wanted. */
  predicate Kept(t: Tweet, keepRetweets: bool)
    ensures !t.isRetweet ==> Kept(t, keepRetweets)
    ensures t.isRetweet ==> (Kept(t, keepRetweets) <==> keepRetweets)
  {
    !(t.isRetweet && !keepRetweets)
  }

  /**
   * The tweets that survive the parse of each raw item in turn: an item whose parse fails is
   * skipped, and so is a retweet when retweets are not wanted; the rest keep their order.
   */
  function Survivors<R>(parse: R -> Option<Tweet>, raws: seq<R>, keepRetweets: bool): (r: seq<Tweet>)
    ensures |r| <= |raws|
    ensures forall t :: t in r ==> Kept(t, keepRetweets)
    decreases |raws|
  {
    if raws == [] then []
    else
      var init := Survivors(parse, raws[..|raws| - 1], keepRetweets);
      match parse(raws[|raws| - 1])
      case None => init
      case Some(t) => if Kept(t, keepRetweets) then init + [t] else init
  }

  /** Handling one more raw item: it joins the survivors when it parses and the filter keeps it. */
  lemma SurvivorsSnoc<R>(parse: R -> Option<Tweet>, raws: seq<R>, j: nat, keepRetweets: bool)
    requires j < |raws|
    ensures Survivors(parse, raws[..j + 1], keepRetweets) ==
      Survivors(parse, raws[..j], keepRetweets) +
        (if parse(raws[j]).Some? && Kept(parse(raws[j]).value, keepRetweets) then [parse(raws[j]).value] else [])
  {
    assert raws[..j + 1][..j] == raws[..j];
  }

  /** The number of raw items whose parse fails. */
  function ParseFailures<R>(parse: R -> Option<Tweet>, raws: seq<R>): nat
    decreases |raws|
  {
    if raws == [] then 0
    else ParseFailures(parse, raws[..|raws| - 1]) + (if parse(raws[|raws| - 1]).None? then 1 else 0)
  }

  /** Survivors of a concatenation are the concatenation of the survivors: items are handled one at a time. */
  lemma {:induction false} SurvivorsAppend<R>(parse: R -> Option<Tweet>, a: seq<R>, b: seq<R>, keepRetweets: bool)
    ensures Survivors(parse, a + b, keepRetweets) == Survivors(parse, a, keepRetweets) + Survivors(parse, b, keepRetweets)
    decreases |b|
  {
    if b == [] {
      assert a + b == a;
    } else {
      var b' := b[..|b| - 1];
      assert (a + b)[..|a + b| - 1] == a + b';
      assert (a + b)[|a + b| - 1] == b[|b| - 1];
      SurvivorsAppend(parse, a, b', keepRetweets);
    }
  }

  /** A tweet survives exactly when some raw item parses to it and the filter keeps it. */
  lemma {:induction false} SurvivorsMember<R>(parse: R -> Option<Tweet>, raws: seq<R>, keepRetweets: bool, t: Tweet)
    ensures t in Survivors(parse, raws, keepRetweets) <==>
              Kept(t, keepRetweets) && exists i :: 0 <= i < |raws| && parse(raws[i]) == Some(t)
    decreases |raws|
  {
    if raws != [] {
      var init := raws[..|raws| - 1];
      SurvivorsMember(parse, init, keepRetweets, t);
      if Kept(t, keepRetweets) && exists i :: 0 <= i < |raws| && parse(raws[i]) == Some(t) {
        var i :| 0 <= i < |raws| && parse(raws[i]) == Some(t);
        if i < |raws| - 1 {
          assert init[i] == raws[i];
        }
      }
      if exists i :: 0 <= i < |init| && parse(init[i]) == Some(t) {
        var i :| 0 <= i < |init| && parse(init[i]) == Some(t);
        assert raws[i] == init[i];
      }
    }
  }

  /** When retweets are kept, the only items lost are those whose parse fails. */
  lemma {:induction false} SurvivorsCount<R>(parse: R -> Option<Tweet>, raws: seq<R>)
    ensures |Survivors(parse, raws, true)| + ParseFailures(parse, raws) == |raws|
    decreases |raws|
  {
    if raws != [] {
      SurvivorsCount(parse, raws[..|raws| - 1]);
    }
  }

  // ---------------------------------------------------------------------------------------
  // The cursor state machine

  /** The state a paginator carries between pages. */
  datatype PagerState = PagerState(cursor: Option<string>, isNextPage: bool, tweets: seq<Tweet>)

  /** What one response yields: the page's surviving items and the bottom cursor token found (if any). */
  datatype Harvest = Harvest(items: seq<Tweet>, token: Option<string>)

  /**
   * The cursor rule of `_get_cursor`: a token that is found and differs from the current
   * cursor becomes the cursor and another page is announced; a missing token, or one equal to
   * the current cursor, ends pagination and leaves the cursor as it was.
   */
  function Advance(cursor: Option<string>, token: Option<string>): (r: (Option<string>, bool))
    ensures r.1 <==> token.Some? && token != cursor
    ensures r.0 == (if r.1 then token else cursor)
  {
    if token.None? then (cursor, false)
    else if token == cursor then (cursor, false)
    else (token, true)
  }

  /** The state after a fetched page with harvest `h`. */
  function Apply(s: PagerState, h: Harvest): (r: PagerState)
    ensures r.tweets == s.tweets + h.items
    ensures r.isNextPage <==> h.token.Some? && h.token != s.cursor
    ensures r.cursor == (if r.isNextPage then h.token else s.cursor)
  {
    var (cursor, more) := Advance(s.cursor, h.token);
    PagerState(cursor, more, s.tweets + h.items)
  }

  /** The outcome of one `get_next_page`: the new state, the returned new items or the exception, and whether a request was made. */
  datatype PageOutcome = PageOutcome(state: PagerState, result: Result<seq<Tweet>>, requested: bool)

  /**
   * One `get_next_page` on state `s`, where `h` is what the response to a request would yield.
   * An exhausted paginator makes no request and returns no items; an error changes nothing;
   * a fetched page appends its items and applies the cursor rule.
   */
  function NextPage(s: PagerState, h: Result<Harvest>): (o: PageOutcome)
    ensures o.requested == s.isNextPage
    ensures !s.isNextPage ==> o.state == s && o.result == Ok([])
    ensures o.result.Err? ==> o.state == s
    ensures o.result.Ok? ==> o.state.tweets == s.tweets + o.result.value
    ensures o.state.isNextPage ==> s.isNextPage
    ensures o.requested && h.Ok? ==> o.state.isNextPage == (h.value.token.Some? && h.value.token != s.cursor)
    ensures o.requested && h.Ok? ==> o.result == Ok(h.value.items) && o.state.cursor == Advance(s.cursor, h.value.token).0
    ensures o.requested && h.Err? ==> o.result == Err(h.error)
  {
    if !s.isNextPage then PageOutcome(s, Ok([]), false)
    else
      match h
      case Err(e) => PageOutcome(s, Err(e), true)
      case Ok(hv) => PageOutcome(Apply(s, hv), Ok(hv.items), true)
  }

  /** The harvest of the next request, given the harvests of the responses still scripted. */
  function NextHarvest(hs: seq<Result<Harvest>>): Result<Harvest> {
    if hs == [] then Err(TransportError) else hs[0]
  }

  function Drop1<T>(hs: seq<T>): seq<T> {
    if hs == [] then [] else hs[1..]
  }

  /**
   * What `generator` leaves behind: the final state, the items it collected, its pauses, the
   * cursor each of its requests carried (in order), and the exception that ended it early, if any.
   */
  datatype RunResult = RunResult(state: PagerState, items: seq<Tweet>, pauses: nat, sent: seq<Option<string>>, failure: Option<Error>)
  {
    /** The number of requests made. */
    const requests: nat := |sent|
  }

  /**
   * Pages `page` to `pages` of `generator`: one `get_next_page` per page, the items of each
   * collected in order, a pause after a page that leaves `is_next_page` set unless it is the
   * last one, and an exception that stops the run where it happens. `hs` are the harvests of
   * the responses the requester will give, in order.
   */
  function Run(s: PagerState, hs: seq<Result<Harvest>>, page: int, pages: int): (r: RunResult)
    ensures r.state.tweets == s.tweets + r.items
    decreases if page <= pages then pages - page + 1 else 0
  {
    if page > pages then RunResult(s, [], 0, [], None)
    else
      var o := NextPage(s, NextHarvest(hs));
      var req := if o.requested then [s.cursor] else [];
      if o.result.Err? then RunResult(s, [], 0, req, Some(o.result.error))
      else
        var rest := Run(o.state, if o.requested then Drop1(hs) else hs, page + 1, pages);
        var pause := if o.state.isNextPage && page != pages then 1 else 0;
        RunResult(rest.state, o.result.value + rest.items, pause + rest.pauses, req + rest.sent, rest.failure)
  }

  /** A run of some pages with `items`, `pauses` and requests carrying `sent` before the run `rest`. */
  function Prepend(items: seq<Tweet>, pauses: nat, sent: seq<Option<string>>, rest: RunResult): RunResult {
    RunResult(rest.state, items + rest.items, pauses + rest.pauses, sent + rest.sent, rest.failure)
  }

  /** Prepending the successful first page of a run to the run of the rest gives the whole run: the loop step of `generator`. */
  lemma RunAdvances(total: RunResult, collected: seq<Tweet>, pauses: nat, sent: seq<Option<string>>,
                    s: PagerState, hs: seq<Result<Harvest>>, page: int, pages: int)
    requires page <= pages
    requires total == Prepend(collected, pauses, sent, Run(s, hs, page, pages))
    requires NextPage(s, NextHarvest(hs)).result.Ok?
    ensures var o := NextPage(s, NextHarvest(hs));
      total == Prepend(collected + o.result.value,
                       pauses + (if o.state.isNextPage && page != pages then 1 else 0),
                       sent + (if o.requested then [s.cursor] else []),
                       Run(o.state, if o.requested then Drop1(hs) else hs, page + 1, pages))
  {
    var o := NextPage(s, NextHarvest(hs));
    var rest := Run(o.state, if o.requested then Drop1(hs) else hs, page + 1, pages);
    assert collected + (o.result.value + rest.items) == (collected + o.result.value) + rest.items;
    var req := if o.requested then [s.cursor] else [];
    assert sent + (req + rest.sent) == (sent + req) + rest.sent;
  }

  /** A first page that raises ends the run with that exception, after one more request and no change of state. */
  lemma RunFails(total: RunResult, collected: seq<Tweet>, pauses: nat, sent: seq<Option<string>>,
                 s: PagerState, hs: seq<Result<Harvest>>, page: int, pages: int)
    requires page <= pages
    requires total == Prepend(collected, pauses, sent, Run(s, hs, page, pages))
    requires NextPage(s, NextHarvest(hs)).result.Err?
    ensures total == RunResult(s, collected, pauses, sent + [s.cursor], Some(NextPage(s, NextHarvest(hs)).result.error))
  {
    assert collected + [] == collected;
  }

  /** The items of the successful harvests, concatenated in order. */
  function Concat(hs: seq<Result<Harvest>>): seq<Tweet> {
    if hs == [] then []
    else (if hs[0].Ok? then hs[0].value.items else []) + Concat(hs[1..])
  }

  /** An exhausted paginator stays exhausted: every remaining page is a no-op with no request and no pause. */
  lemma {:induction false} RunExhausted(s: PagerState, hs: seq<Result<Harvest>>, page: int, pages: int)
    requires !s.isNextPage
    ensures Run(s, hs, page, pages) == RunResult(s, [], 0, [], None)
    decreases if page <= pages then pages - page + 1 else 0
  {
    if page <= pages {
      RunExhausted(s, hs, page + 1, pages);
    }
  }

  /** The run makes at most one request per page, and it ends exhausted if it stopped requesting before its last page without an error. */
  lemma {:induction false} RunRequests(s: PagerState, hs: seq<Result<Harvest>>, page: int, pages: int)
    ensures var r := Run(s, hs, page, pages);
      && r.requests <= (if page <= pages then pages - page + 1 else 0)
      && (r.failure.None? && r.requests < (if page <= pages then pages - page + 1 else 0) ==> !r.state.isNextPage)
      && (r.state.isNextPage ==> s.isNextPage)
    decreases if page <= pages then pages - page + 1 else 0
  {
    if page <= pages {
      var o := NextPage(s, NextHarvest(hs));
      if o.result.Ok? {
        if o.requested {
          RunRequests(o.state, Drop1(hs), page + 1, pages);
        } else {
          RunExhausted(s, hs, page, pages);
        }
      }
    }
  }

  /** Pauses fall only between requests: every request but the first of the run is preceded by exactly one pause. */
  lemma {:induction false} RunPauses(s: PagerState, hs: seq<Result<Harvest>>, page: int, pages: int)
    ensures Run(s, hs, page, pages).pauses + (if s.isNextPage && page <= pages then 1 else 0)
         == Run(s, hs, page, pages).requests
    decreases if page <= pages then pages - page + 1 else 0
  {
    if page <= pages {
      var o := NextPage(s, NextHarvest(hs));
      if o.result.Ok? {
        if o.requested {
          RunPauses(o.state, Drop1(hs), page + 1, pages);
        } else {
          RunExhausted(s, hs, page, pages);
        }
      }
    }
  }

  /** Without an exception, the run's items are the items of the harvests it requested, in fetch order. */
  lemma {:induction false} RunCollects(s: PagerState, hs: seq<Result<Harvest>>, page: int, pages: int)
    ensures var r := Run(s, hs, page, pages);
      r.failure.None? ==> r.requests <= |hs| && r.items == Concat(hs[..r.requests])
    decreases if page <= pages then pages - page + 1 else 0
  {
    var r := Run(s, hs, page, pages);
    if page <= pages {
      var o := NextPage(s, NextHarvest(hs));
      if o.result.Ok? {
        if o.requested {
          assert hs != [] && hs[0].Ok?;
          RunCollects(o.state, hs[1..], page + 1, pages);
          var rest := Run(o.state, hs[1..], page + 1, pages);
          if rest.failure.None? {
            assert hs[..1 + rest.requests][1..] == hs[1..][..rest.requests];
          }
        } else {
          RunExhausted(s, hs, page, pages);
        }
      }
    }
  }

  /** A cursor that does not advance stops the run: one request, its items, then exhaustion. */
  lemma RunStallsOnRepeatedCursor(s: PagerState, hs: seq<Result<Harvest>>, page: int, pages: int)
    requires s.isNextPage && page <= pages
    requires hs != [] && hs[0].Ok? && hs[0].value.token == s.cursor
    ensures var r := Run(s, hs, page, pages);
      r.requests == 1 && r.pauses == 0 && !r.state.isNextPage && r.failure.None?
      && r.items == hs[0].value.items && r.state.cursor == s.cursor
  {
    var o := NextPage(s, NextHarvest(hs));
    RunExhausted(o.state, hs[1..], page + 1, pages);
  }

  /** Request `j + 1` carries the token found by the page of request `j`, a new one. */
  predicate SentToken(sent: seq<Option<string>>, hs: seq<Result<Harvest>>, j: int)
    requires 0 <= j < |sent| - 1 && j < |hs|
  {
    hs[j].Ok? && sent[j + 1] == hs[j].value.token && sent[j + 1].Some? && sent[j + 1] != sent[j]
  }

  /**
   * The first request of a run carries the cursor it starts from, and every later request carries
   * the token the page before it found, which differed from the cursor that page was requested with.
   */
  lemma {:induction false} RunSendsTokens(s: PagerState, hs: seq<Result<Harvest>>, page: int, pages: int)
    ensures var r := Run(s, hs, page, pages);
      && |r.sent| <= |hs| + 1
      && (|r.sent| > 0 ==> r.sent[0] == s.cursor)
      && forall j :: 0 <= j < |r.sent| - 1 ==> SentToken(r.sent, hs, j)
    decreases if page <= pages then pages - page + 1 else 0
  {
    if page <= pages {
      var o := NextPage(s, NextHarvest(hs));
      if o.result.Ok? && o.requested {
        var rest := Run(o.state, Drop1(hs), page + 1, pages);
        RunSendsTokens(o.state, Drop1(hs), page + 1, pages);
        if !o.state.isNextPage {
          RunExhausted(o.state, Drop1(hs), page + 1, pages);
        }
        var r := Run(s, hs, page, pages);
        assert r.sent == [s.cursor] + rest.sent;
        forall j | 0 <= j < |r.sent| - 1 ensures SentToken(r.sent, hs, j) {
          assert r.sent[j + 1] == rest.sent[j];
          if j > 0 {
            assert SentToken(rest.sent, Drop1(hs), j - 1);
            assert r.sent[j] == rest.sent[j - 1];
            assert hs[j] == Drop1(hs)[j - 1];
          }
        }
      } else if o.result.Ok? {
        RunExhausted(s, hs, page, pages);
      }
    }
  }

  /**
   * Two scripted pages, `[a (a retweet), b]` then `[c]`, both ending on cursor "c1", run for
   * three pages with retweets dropped: `[b, c]` is collected, the second page exhausts the
   * paginator, and only two requests are made, with one pause between them.
   */
  lemma RepeatedCursorScenario(a: Tweet, b: Tweet, c: Tweet)
    requires a.isRetweet && !b.isRetweet && !c.isRetweet
    ensures var parse := (t: Tweet) => Some(t);
      var hs := [Ok(Harvest(Survivors(parse, [a, b], false), Some("c1"))), Ok(Harvest(Survivors(parse, [c], false), Some("c1")))];
      Run(PagerState(None, true, []), hs, 1, 3) == RunResult(PagerState(Some("c1"), false, [b, c]), [b, c], 1, [None, Some("c1")], None)
  {
    var parse := (t: Tweet) => Some(t);
    assert [a, b][..1] == [a];
    assert [a][..0] == [];
    assert Survivors(parse, [a, b], false) == [b];
    assert [c][..0] == [];
    assert Survivors(parse, [c], false) == [c];
    var hs := [Ok(Harvest([b], Some("c1"))), Ok(Harvest([c], Some("c1")))];
    var s1 := PagerState(Some("c1"), true, [b]);
    assert NextPage(PagerState(None, true, []), NextHarvest(hs)).state == s1;
    RunStallsOnRepeatedCursor(s1, hs[1..], 2, 3);
  }

  // ---------------------------------------------------------------------------------------
  // The dict view

  /** A value stored under one of the keys the paginator publishes in itself (it is a dict). */
  datatype DictValue = TweetsValue(tweets: seq<Tweet>) | FlagValue(flag: bool) | CursorValue(cursor: Option<string>)

  /** The keys "tweets", "is_next_page" and "cursor" holding the state's fields. */
  function Mirror(s: PagerState): (d: map<string, DictValue>)
    ensures d.Keys == {"tweets", "is_next_page", "cursor"}
  {
    map["tweets" := TweetsValue(s.tweets), "is_next_page" := FlagValue(s.isNextPage), "cursor" := CursorValue(s.cursor)]
  }

  /** The dict reflects the state exactly: two states publish the same entries only when they are equal. */
  lemma MirrorFaithful(s: PagerState, t: PagerState)
    ensures Mirror(s) == Mirror(t) <==> s == t
  {
    if Mirror(s) == Mirror(t) {
      assert Mirror(s)["tweets"] == Mirror(t)["tweets"];
      assert Mirror(s)["is_next_page"] == Mirror(t)["is_next_page"];
      assert Mirror(s)["cursor"] == Mirror(t)["cursor"];
    }
  }
}
