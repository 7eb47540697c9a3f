/**
 * `SearchTweets`: the paginator over the results of one search query. Entries come from the
 * first instruction whose `type` is `TimelineAddEntries`, falling back to `statuses`; every
 * entry is one raw tweet; the next cursor is the piece of `search_metadata.next_results`
 * between its first and second '=', cut before the first "&q". No retweet is filtered out.
 */
module SearchTimeline {
  import opened Wrappers
  import opened Text
  import opened Paging
  import opened Http

  /**
   * A search response, reduced to what the code reads, each field `None` when a key on its path
   * is missing: `status.search_by_raw_query.search_timeline.timeline.instructions`, `statuses`,
   * and `search_metadata.next_results`.
   */
  datatype SearchResponse = SearchResponse(
    instructions: Option<seq<Instruction<RawRecord>>>,
    statuses: Option<seq<RawRecord>>,
    nextResults: Option<string>)

  /** The arguments of `http.get_search_tweets`; the search filter is carried by its name. */
  datatype SearchRequest = SearchRequest(query: string, searchFilter: string, cursor: Option<string>)

  /** The instruction path is missing, or its first `TimelineAddEntries` instruction (if any) has no `entries`. */
  predicate FallsBack(response: SearchResponse) {
    response.instructions.None? ||
    forall i :: 0 <= i < |response.instructions.value| && FirstTagged(response.instructions.value, i) ==>
      response.instructions.value[i].entries.None?
  }

  /**
   * `_get_entries`: the entries of the first `TimelineAddEntries` instruction; a missing key on
   * the way is swallowed and `statuses` is used instead, whose absence raises.
   */
  function GetEntries(response: SearchResponse): (r: Result<seq<RawRecord>>)
    ensures r.Err? ==> r.error == KeyError
    ensures response.instructions.Some? ==>
      var instructions := response.instructions.value;
      forall i :: FirstTagged(instructions, i) && instructions[i].entries.Some? ==> r == Ok(instructions[i].entries.value)
    ensures FallsBack(response) ==>
      r == (if response.statuses.Some? then Ok(response.statuses.value) else Err(KeyError))
  {
    var tagged :=
      match response.instructions
      case None => None
      case Some(instructions) =>
        match FirstAddEntries(instructions)
        case None => None
        case Some(i) => instructions[i].entries;
    match tagged
    case Some(entries) => Ok(entries)
    case None =>
      match response.statuses
      case None => Err(KeyError)
      case Some(statuses) => Ok(statuses)
  }

  /** `_get_tweet_content_key`: every entry is a single raw tweet, the entry itself. */
  function GetTweetContentKey(entry: RawRecord): (r: seq<RawRecord>)
    ensures |r| == 1 && r[0] == entry
  {
    [entry]
  }

  /** The new items of a page: the raw tweets of each entry in turn, those whose parse fails skipped. */
  function PageItems(entries: seq<RawRecord>, parse: RawRecord -> Option<Tweet>): (r: seq<Tweet>)
    ensures |r| <= |entries|
    decreases |entries|
  {
    if entries == [] then []
    else PageItems(entries[..|entries| - 1], parse) + Survivors(parse, GetTweetContentKey(entries[|entries| - 1]), true)
  }

  /**
   * A search page keeps every entry that parses, in order, and nothing else: no retweet is
   * dropped, and the entries lost are exactly those whose parse fails.
   */
  lemma {:induction false} PageItemsSpec(entries: seq<RawRecord>, parse: RawRecord -> Option<Tweet>)
    ensures PageItems(entries, parse) == Survivors(parse, entries, true)
    ensures forall t :: t in PageItems(entries, parse) <==> exists i :: 0 <= i < |entries| && parse(entries[i]) == Some(t)
    ensures |PageItems(entries, parse)| + ParseFailures(parse, entries) == |entries|
    decreases |entries|
  {
    if entries != [] {
      var init := entries[..|entries| - 1];
      PageItemsSpec(init, parse);
      assert Survivors(parse, GetTweetContentKey(entries[|entries| - 1]), true) ==
        (if parse(entries[|entries| - 1]).Some? then [parse(entries[|entries| - 1]).value] else []) by {
        assert [entries[|entries| - 1]][..0] == [];
      }
    }
    forall t ensures t in PageItems(entries, parse) <==> exists i :: 0 <= i < |entries| && parse(entries[i]) == Some(t) {
      SurvivorsMember(parse, entries, true, t);
    }
    SurvivorsCount(parse, entries);
  }

  /**
   * The token `_get_cursor` finds: `None` when `next_results` is missing (the KeyError is
   * caught), the IndexError when it holds no '=', and otherwise `split("=")[1].split("&q")[0]`.
   */
  function NextToken(nextResults: Option<string>): (r: Result<Option<string>>)
    ensures nextResults.None? ==> r == Ok(None)
    ensures r.Err? <==> nextResults.Some? && forall j :: !OccursAt(nextResults.value, "=", j)
    ensures r.Err? ==> r.error == IndexError
    ensures r.Ok? && nextResults.Some? ==>
      r.value.Some? && forall j :: 0 <= j < |r.value.value| ==> !OccursAt(r.value.value, "=", j) && !OccursAt(r.value.value, "&q", j)
    ensures r.Ok? && nextResults.Some? ==> exists p, rest :: TokenCut(nextResults.value, p, r.value.value, rest)
  {
    match nextResults
    case None => Ok(None)
    case Some(s) =>
      match SplitSecond(s, "=")
      case None => Err(IndexError)
      case Some(piece) =>
        SplitHeadFree(s[|SplitHead(s, "=")| + 1..], "=");
        SplitHeadFree(piece, "&q");
        PrefixFree(SplitHead(piece, "&q"), piece, "=");
        TokenCutOf(s);
        Ok(Some(SplitHead(piece, "&q")))
  }

  /**
   * `s` reads `p=token` followed by `rest`, with no '=' in `p`, and `rest` is where the token
   * stops: the end of `s`, the second '=', or an "&q".
   */
  predicate TokenCut(s: string, p: string, token: string, rest: string) {
    && s == p + "=" + token + rest
    && '=' !in p
    && (rest == "" || rest[0] == '=' || (|rest| >= 2 && rest[..2] == "&q"))
  }

  /** The token cut from a text with an '=' is the text between its first '=' and the next '=', "&q" or the end. */
  lemma TokenCutOf(s: string)
    requires SplitSecond(s, "=").Some?
    ensures TokenCut(s, SplitHead(s, "="), SplitHead(SplitSecond(s, "=").value, "&q"),
                     s[|SplitHead(s, "=")| + 1 + |SplitHead(SplitSecond(s, "=").value, "&q")|..])
  {
    var p := SplitHead(s, "=");
    var b := s[|p| + 1..];
    var piece := SplitSecond(s, "=").value;
    var token := SplitHead(piece, "&q");
    assert OccursAt(s, "=", |p|);
    HeadLacksChar(s, '=');
    CutAround(s, p, token);
    TokenStops(b, token);
  }

  /** A text whose prefix `p` is followed by '=' and then by `token` reads `p`, '=', `token` and the rest. */
  lemma CutAround(s: string, p: string, token: string)
    requires p <= s && OccursAt(s, "=", |p|)
    requires token <= s[|p| + 1..]
    ensures s == p + "=" + token + s[|p| + 1 + |token|..]
  {
    var b := s[|p| + 1..];
    assert s == s[..|p|] + s[|p|..|p| + 1] + b;
    assert b == token + b[|token|..];
  }

  /** What follows the token cut from `b` is the end of `b`, an '=' or "&q". */
  lemma TokenStops(b: string, token: string)
    requires token == SplitHead(SplitHead(b, "="), "&q")
    ensures var rest := b[|token|..];
      rest == "" || rest[0] == '=' || (|rest| >= 2 && rest[..2] == "&q")
  {
    var piece := SplitHead(b, "=");
    var rest := b[|token|..];
    if |token| < |piece| {
      assert OccursAt(piece, "&q", |token|);
      assert rest[..2] == piece[|token|..|token| + 2];
    } else if |piece| < |b| {
      assert OccursAt(b, "=", |piece|);
      assert rest[0] == b[|piece|];
    }
  }

  /**
   * The token round trip: a `next_results` of the form `prefix=token&q...`, with no '=' before
   * the token and neither '=' nor '&' in it, yields exactly that token.
   */
  lemma NextTokenOfQuery(prefix: string, token: string, rest: string)
    requires '=' !in prefix
    requires '=' !in token && '&' !in token
    ensures NextToken(Some(prefix + "=" + token + "&q" + rest)) == Ok(Some(token))
  {
    var s, b := prefix + "=" + token + "&q" + rest, token + "&q" + rest;
    assert s == prefix + "=" + b;
    SecondPieceAfter(prefix, b);
    TokenBeforeQuery(token, rest);
    assert SplitSecond(s, "=") == Some(SplitHead(b, "="));
  }

  /** With no '=' in `prefix`, the second '='-piece of `prefix=b` is the first '='-piece of `b`. */
  lemma SecondPieceAfter(prefix: string, b: string)
    requires '=' !in prefix
    ensures SplitSecond(prefix + "=" + b, "=") == Some(SplitHead(b, "="))
  {
    NoStartBefore(prefix, "=" + b, "=");
    assert prefix + ("=" + b) == prefix + "=" + b;
    SplitSecondJoin(prefix, "=", b);
  }

  /** A token free of '=' and '&' followed by "&q" survives both cuts of `_get_cursor`. */
  lemma TokenBeforeQuery(token: string, rest: string)
    requires '=' !in token && '&' !in token
    ensures SplitHead(SplitHead(token + "&q" + rest, "="), "&q") == token
  {
    var b := token + "&q" + rest;
    var piece := SplitHead(b, "=");
    assert token + ("&q" + rest) == b;
    NoStartBefore(token, "&q" + rest, "=");
    assert b[|token|] == '&' && b[|token| + 1] == 'q';
    assert |piece| >= |token| + 2;
    NoStartBefore(token, "&q" + rest, "&q");
    SplitHeadJoin(token, "&q", rest);
    SplitHeadPrefix(b, piece, "&q");
  }

  /** The service's form of `next_results` gives the `max_id` value; one without '=' raises. */
  lemma NextTokenExamples()
    ensures NextToken(Some("?max_id=1234&q=tweety")) == Ok(Some("1234"))
    ensures NextToken(Some("?max_id")) == Err(IndexError)
  {
    assert "?max_id" + "=" + "1234" + "&q" + "=tweety" == "?max_id=1234&q=tweety";
    NextTokenOfQuery("?max_id", "1234", "=tweety");
    NoStartBefore("?max_id", "", "=");
    assert "?max_id" + "" == "?max_id";
  }

  /** The harvest of one response: the entries' surviving items and the token found, or the exception raised first. */
  function SearchHarvest(response: SearchResponse, parse: SearchResponse -> RawRecord -> Option<Tweet>): (r: Result<Harvest>)
    ensures r.Err? <==> GetEntries(response).Err? || NextToken(response.nextResults).Err?
    ensures GetEntries(response).Err? ==> r == Err(KeyError)
    ensures GetEntries(response).Ok? && NextToken(response.nextResults).Err? ==> r == Err(IndexError)
    ensures r.Ok? ==> r.value.token == NextToken(response.nextResults).value
    ensures r.Ok? ==> r.value.items == Survivors(parse(response), GetEntries(response).value, true)
    ensures r.Ok? ==> |r.value.items| + ParseFailures(parse(response), GetEntries(response).value) == |GetEntries(response).value|
  {
    match GetEntries(response)
    case Err(e) => Err(e)
    case Ok(entries) =>
      var items := PageItems(entries, parse(response));
      PageItemsSpec(entries, parse(response));
      match NextToken(response.nextResults)
      case Err(e) => Err(e)
      case Ok(token) => Ok(Harvest(items, token))
  }

  class SearchTweets {
    const query: string
    const searchFilter: string
    const http: ScriptedRequester<SearchRequest, SearchResponse>
    const pages: int
    const waitTime: int
    /** The `Tweet` constructor: a parse of a raw tweet in the context of its response, `None` where it raises. */
    const parse: SearchResponse -> RawRecord -> Option<Tweet>

    var tweets: seq<Tweet>
    var cursor: Option<string>
    var isNextPage: bool
    /** The object's own dict entries. */
    var dict: map<string, DictValue>
    /** The harvests of the answers the requester still has to give, in order. */
    ghost var pending: seq<Result<Harvest>>

    function State(): PagerState
      reads this
    {
      PagerState(cursor, isNextPage, tweets)
    }

    /** The dict is empty until a page is fetched, and mirrors the fields from then on. */
    ghost predicate Valid()
      reads this, http
    {
      && (dict == map[] || dict == Mirror(State()))
      && Answers(pending, |http.log|)
    }

    constructor (query: string, searchFilter: string, http: ScriptedRequester<SearchRequest, SearchResponse>,
                 parse: SearchResponse -> RawRecord -> Option<Tweet>,
                 pages: int := 1, waitTime: int := 2, cursor: Option<string> := None)
      ensures Valid()
      ensures tweets == [] && isNextPage && this.cursor == cursor && dict == map[] && pending == Harvests(|http.log|)
      ensures this.query == query && this.searchFilter == searchFilter && this.http == http && this.parse == parse
      ensures this.pages == pages && this.waitTime == waitTime
    {
      this.query := query;
      this.searchFilter := searchFilter;
      this.http := http;
      this.parse := parse;
      this.pages := pages;
      this.waitTime := waitTime;
      this.cursor := cursor;
      tweets := [];
      isNextPage := true;
      dict := map[];
      new;
      pending := Harvests(|http.log|);
      AnswersExactly(pending, |http.log|);
    }

    /** The harvests of the responses the requester will give once `k` requests were made. */
    function Harvests(k: nat): (hs: seq<Result<Harvest>>)
      ensures |hs| == if k < |http.script| then |http.script| - k else 0
      ensures forall i :: 0 <= i < |hs| ==> hs[i] == SearchHarvest(http.script[k + i], parse)
    {
      if k < |http.script|
      then seq(|http.script| - k, i requires 0 <= i < |http.script| - k => SearchHarvest(http.script[k + i], parse))
      else []
    }

    /** The requests of `get_next_page` carrying `cursors`, in order. */
    function Requests(cursors: seq<Option<string>>): seq<SearchRequest>
      decreases |cursors|
    {
      if cursors == [] then []
      else Requests(cursors[..|cursors| - 1]) + [SearchRequest(query, searchFilter, cursors[|cursors| - 1])]
    }

    /** One more cursor adds its request at the end. */
    lemma RequestsSnoc(cursors: seq<Option<string>>, c: Option<string>)
      ensures Requests(cursors + [c]) == Requests(cursors) + [SearchRequest(query, searchFilter, c)]
    {
      assert (cursors + [c])[..|cursors|] == cursors;
    }

    /** `hs[i]` is the harvest of the answer to request number `k + i`. */
    ghost predicate AnswerAt(hs: seq<Result<Harvest>>, k: nat, i: int)
      requires 0 <= i < |hs|
    {
      k + i < |http.script| && hs[i] == SearchHarvest(http.script[k + i], parse)
    }

    /** `hs` are the harvests of the answers to the requests from number `k` on. */
    ghost predicate Answers(hs: seq<Result<Harvest>>, k: nat) {
      && |hs| == (if k < |http.script| then |http.script| - k else 0)
      && forall i {:trigger AnswerAt(hs, k, i)} :: 0 <= i < |hs| ==> AnswerAt(hs, k, i)
    }

    /** The harvests still to come are determined by the number of requests made. */
    lemma AnswersExactly(hs: seq<Result<Harvest>>, k: nat)
      ensures Answers(hs, k) <==> hs == Harvests(k)
    {
      if hs == Harvests(k) {
        forall i | 0 <= i < |hs| ensures AnswerAt(hs, k, i) { }
      }
      if Answers(hs, k) {
        forall i | 0 <= i < |hs| ensures hs[i] == Harvests(k)[i] {
          assert AnswerAt(hs, k, i);
        }
      }
    }

    /** One more request consumes one harvest, and the next harvest is that of the requester's answer. */
    lemma AnswersShift(hs: seq<Result<Harvest>>, k: nat)
      requires Answers(hs, k)
      ensures Answers(Drop1(hs), k + 1)
      ensures NextHarvest(hs) ==
        match http.Respond(k) case Ok(response) => SearchHarvest(response, parse) case Err(e) => Err(e)
    {
      if hs != [] {
        assert AnswerAt(hs, k, 0);
        var rest, next := hs[1..], k + 1;
        forall i | 0 <= i < |rest| ensures AnswerAt(rest, next, i) {
          assert AnswerAt(hs, k, i + 1);
        }
      }
    }

    /** `_get_cursor`: applies the cursor rule to the token read from `next_results`. */
    method GetCursor(response: SearchResponse) returns (r: Result<bool>)
      modifies this`cursor
      ensures NextToken(response.nextResults).Err? ==> r == Err(IndexError) && cursor == old(cursor)
      ensures NextToken(response.nextResults).Ok? ==>
        var (next, more) := Advance(old(cursor), NextToken(response.nextResults).value);
        r == Ok(more) && cursor == next
    {
      if response.nextResults.None? {
        return Ok(false);
      }
      var second := SplitSecond(response.nextResults.value, "=");
      if second.None? {
        return Err(IndexError);
      }
      var newCursor := SplitHead(second.value, "&q");
      if Some(newCursor) == cursor {
        return Ok(false);
      }
      cursor := Some(newCursor);
      return Ok(true);
    }

    /** The inner loop of `get_next_page`: each raw tweet of an entry parsed on its own, failures skipped. */
    method ParseItems(response: SearchResponse, raws: seq<RawRecord>) returns (kept: seq<Tweet>)
      ensures kept == Survivors(parse(response), raws, true)
    {
      kept := [];
      var j := 0;
      while j < |raws|
        invariant 0 <= j <= |raws|
        invariant kept == Survivors(parse(response), raws[..j], true)
      {
        var parsed := parse(response)(raws[j]);
        SurvivorsSnoc(parse(response), raws, j, true);
        if parsed.Some? {
          kept := kept + [parsed.value];
        }
        j := j + 1;
      }
      assert raws[..|raws|] == raws;
    }

    /** The part of `get_next_page` between the request and `_get_cursor`: the entries and their surviving items. It changes nothing. */
    method ParsePage(response: SearchResponse) returns (r: Result<(seq<RawRecord>, seq<Tweet>)>)
      ensures r.Err? ==> GetEntries(response) == Err(r.error)
      ensures r.Ok? ==> GetEntries(response) == Ok(r.value.0) && r.value.1 == PageItems(r.value.0, parse(response))
    {
      var found := GetEntries(response);
      if found.Err? {
        return Err(found.error);
      }
      var entries := found.value;
      var page: seq<Tweet> := [];
      var i := 0;
      while i < |entries|
        invariant 0 <= i <= |entries|
        invariant page == PageItems(entries[..i], parse(response))
      {
        var kept := ParseItems(response, GetTweetContentKey(entries[i]));
        page := page + kept;
        assert entries[..i + 1][..i] == entries[..i];
        i := i + 1;
      }
      assert entries[..|entries|] == entries;
      return Ok((entries, page));
    }

    /** The loop of `get_next_page` that appends the page's items to `tweets`, one at a time. */
    method Extend(page: seq<Tweet>)
      modifies this`tweets
      ensures tweets == old(tweets) + page
    {
      var k := 0;
      while k < |page|
        invariant 0 <= k <= |page|
        invariant tweets == old(tweets) + page[..k]
      {
        tweets := tweets + [page[k]];
        k := k + 1;
      }
      assert page[..|page|] == page;
    }

    /** Stores the fields under the dict keys "tweets", "is_next_page" and "cursor". */
    method Publish()
      modifies this`dict
      ensures dict == old(dict) + Mirror(State())
    {
      dict := dict["tweets" := TweetsValue(tweets)]["is_next_page" := FlagValue(isNextPage)]["cursor" := CursorValue(cursor)];
    }

    /**
     * `get_next_page`: when another page is announced, one request with the query, the filter
     * and the current cursor, then the page's parsed items are appended, the cursor rule is
     * applied and the dict is refreshed; an exception leaves every field as it was. When no page
     * is announced it does nothing and returns no items.
     */
    method GetNextPage() returns (r: Result<seq<Tweet>>)
      requires Valid()
      modifies this, http
      ensures Valid()
      ensures var o := NextPage(old(State()), NextHarvest(old(pending)));
        && State() == o.state && r == o.result
        && pending == (if o.requested then Drop1(old(pending)) else old(pending))
        && http.log == old(http.log) + (if o.requested then [SearchRequest(query, searchFilter, old(cursor))] else [])
        && dict == (if o.requested && r.Ok? then Mirror(State()) else old(dict))
    {
      if !isNextPage {
        return Ok([]);
      }
      AnswersShift(pending, |http.log|);
      pending := Drop1(pending);
      var got := http.Get(SearchRequest(query, searchFilter, cursor));
      if got.Err? {
        return Err(got.error);
      }
      r := Absorb(got.value);
      if r.Ok? {
        assert old(dict).Keys <= Mirror(State()).Keys;
      }
    }

    /** The part of `get_next_page` after the request: parse the response, apply the cursor rule, append and publish. */
    method Absorb(response: SearchResponse) returns (r: Result<seq<Tweet>>)
      modifies this`tweets, this`cursor, this`isNextPage, this`dict
      ensures var h := SearchHarvest(response, parse);
        && r == (if h.Ok? then Ok(h.value.items) else Err(h.error))
        && State() == (if h.Ok? then Apply(old(State()), h.value) else old(State()))
        && dict == (if h.Ok? then old(dict) + Mirror(State()) else old(dict))
    {
      var parsed := ParsePage(response);
      if parsed.Err? {
        return Err(parsed.error);
      }
      var page := parsed.value.1;
      var more := GetCursor(response);
      if more.Err? {
        return Err(more.error);
      }
      isNextPage := more.value;
      Extend(page);
      Publish();
      r := Ok(page);
    }

    /**
     * The state of `generator` before page `page`: the pages before it collected `collected`
     * with `pauses` pauses and sent requests carrying `sent` after the log `log0`, and with the
     * run of the remaining pages they make up the whole run `total`.
     */
    ghost predicate Progress(total: RunResult, collected: seq<Tweet>, pauses: nat, sent: seq<Option<string>>, page: int,
                             log0: seq<SearchRequest>, d0: map<string, DictValue>)
      reads this, http
    {
      && Valid()
      && http.log == log0 + Requests(sent)
      && total == Prepend(collected, pauses, sent, Run(State(), pending, page, pages))
      && (sent == [] ==> dict == d0)
      && (sent != [] ==> dict == Mirror(State()))
    }

    /**
     * One turn of the loop of `generator`: `get_next_page`, its new items added to those
     * collected, and a pause when another page is announced and this is not the last page.
     */
    method Turn(page: int, ghost total: RunResult, collected: seq<Tweet>, pauses: nat, ghost sent: seq<Option<string>>,
                ghost log0: seq<SearchRequest>, ghost d0: map<string, DictValue>)
      returns (step: Result<seq<Tweet>>, collected': seq<Tweet>, pauses': nat, ghost sent': seq<Option<string>>)
      requires page <= pages
      requires Progress(total, collected, pauses, sent, page, log0, d0)
      modifies this, http
      ensures step.Ok? ==> Progress(total, collected', pauses', sent', page + 1, log0, d0)
      ensures step.Err? ==>
        && Valid() && http.log == log0 + Requests(sent') && |sent'| == |sent| + 1 && pauses' == pauses
        && total == RunResult(State(), collected, pauses, sent', Some(step.error))
        && (sent == [] ==> dict == d0) && (sent != [] ==> dict == Mirror(State()))
    {
      ghost var s, hs := State(), pending;
      step := GetNextPage();
      sent' := sent + (if s.isNextPage then [s.cursor] else []);
      if s.isNextPage {
        RequestsSnoc(sent, s.cursor);
        var q := SearchRequest(query, searchFilter, s.cursor);
        assert (log0 + Requests(sent)) + [q] == log0 + (Requests(sent) + [q]);
      } else {
        assert sent' == sent;
      }
      if step.Err? {
        RunFails(total, collected, pauses, sent, s, hs, page, pages);
        return step, collected, pauses, sent';
      }
      RunAdvances(total, collected, pauses, sent, s, hs, page, pages);
      collected' := collected + step.value;
      pauses' := pauses;
      if isNextPage && page != pages {
        pauses' := pauses + 1;
      }
    }

    /**
     * `generator`: `pages` calls of `get_next_page`, collecting their new items, with a pause of
     * `waitTime` after each page that leaves another page announced, unless it is the last; an
     * exception ends it where it happens, keeping the effect of the pages before.
     */
    method Generator() returns (r: Result<seq<Tweet>>, pauses: nat)
      requires Valid()
      modifies this, http
      ensures Valid()
      ensures var out := Run(old(State()), old(pending), 1, pages);
        && State() == out.state && pauses == out.pauses
        && http.log == old(http.log) + Requests(out.sent)
        && r == (if out.failure.None? then Ok(out.items) else Err(out.failure.value))
        && dict == (if out.requests > (if out.failure.Some? then 1 else 0) then Mirror(State()) else old(dict))
    {
      ghost var d0 := dict;
      ghost var total := Run(State(), pending, 1, pages);
      ghost var sent: seq<Option<string>> := [];
      var collected: seq<Tweet> := [];
      pauses := 0;
      var page := 1;
      assert old(http.log) + [] == old(http.log);
      while page <= pages
        invariant 1 <= page && (pages >= 1 ==> page <= pages + 1)
        invariant Progress(total, collected, pauses, sent, page, old(http.log), d0)
      {
        var step;
        step, collected, pauses, sent := Turn(page, total, collected, pauses, sent, old(http.log), d0);
        if step.Err? {
          r := Err(step.error);
          return;
        }
        page := page + 1;
      }
      assert collected + [] == collected && sent + [] == sent;
      r := Ok(collected);
    }

    /** `__getitem__`: Python list indexing, negative indices counting from the end. */
    function At(index: int): (r: Result<Tweet>)
      reads this
      ensures r.Ok? <==> -|tweets| <= index < |tweets|
      ensures r.Ok? ==> r.value == tweets[if index < 0 then index + |tweets| else index]
      ensures r.Err? ==> r.error == IndexError
    {
      if 0 <= index < |tweets| then Ok(tweets[index])
      else if -|tweets| <= index < 0 then Ok(tweets[index + |tweets|])
      else Err(IndexError)
    }

    /** `__len__`. */
    function Length(): (n: nat)
      reads this
      ensures n == |tweets|
    {
      |tweets|
    }

    /** `__iter__`: the accumulated tweets, one at a time, in order. */
    method Iterate() returns (yielded: seq<Tweet>)
      ensures yielded == tweets
    {
      yielded := [];
      var i := 0;
      while i < |tweets|
        invariant 0 <= i <= |tweets|
        invariant yielded == tweets[..i]
      {
        yielded := yielded + [tweets[i]];
        i := i + 1;
      }
    }
  }
}
