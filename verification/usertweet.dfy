/**
 * `UserTweets`: the paginator over one user's timeline. Entries come from the first
 * `TimelineAddEntries` instruction; an entry's kind is the part of its `entryId` before the
 * first '-'; a "tweet" entry carries at most one tweet and a "homeConversation" entry one per
 * conversation item; the next cursor is the value of the first "cursor" entry of type "Bottom".
 */
module UserTimeline {
  import opened Wrappers
  import opened Text
  import opened Paging
  import opened Http

  /**
   * One element of `entries`, reduced to what the code reads. Each field is `None` when a key on
   * its path is missing: `cursorType` and `cursorValue` are `content.cursorType` and
   * `content.value`, `tweetResult` is `content.content.tweetResult.result`, and `items` is
   * `content.items` with each item's `item.content.tweetResult.result`.
   */
  datatype TimelineEntry = TimelineEntry(
    entryId: Option<string>,
    cursorType: Option<string>,
    cursorValue: Option<string>,
    tweetResult: Option<RawRecord>,
    items: Option<seq<Option<RawRecord>>>)

  /** `data.user_result.result`, holding `timeline_response.timeline.instructions` (`None`: a key on that path is missing). */
  datatype UserResult = UserResult(instructions: Option<seq<Instruction<TimelineEntry>>>)

  /**
   * A response: whether `data.user_result` is present, and its `result`, `None` when that key is
   * missing or holds an empty (false) value.
   */
  datatype UserResponse = UserResponse(hasUserResult: bool, result: Option<UserResult>)

  /** The arguments of `http.get_tweets`. */
  datatype UserRequest = UserRequest(userId: string, replies: bool, cursor: Option<string>)

  /** The part of the entry's `entryId` before the first '-'; `None` when `entryId` is missing. */
  function EntryKind(e: TimelineEntry): Option<string> {
    if e.entryId.None? then None else Some(SplitHead(e.entryId.value, "-"))
  }

  /** The kind is missing exactly when `entryId` is; otherwise it is the prefix of `entryId` before its first '-'. */
  lemma EntryKindSpec(e: TimelineEntry)
    ensures EntryKind(e).None? <==> e.entryId.None?
    ensures EntryKind(e).Some? ==>
      && EntryKind(e).value <= e.entryId.value
      && (forall j :: 0 <= j < |EntryKind(e).value| ==> e.entryId.value[j] != '-')
      && (|EntryKind(e).value| < |e.entryId.value| ==> e.entryId.value[|EntryKind(e).value|] == '-')
  {
    if e.entryId.Some? {
      OccursAtChar(e.entryId.value, '-');
    }
  }

  /** `_get_entries`: the entries of the first `TimelineAddEntries` instruction, or none at all. */
  function GetEntries(result: UserResult): (r: Result<seq<TimelineEntry>>)
    ensures r.Err? ==> r.error == KeyError
    ensures result.instructions.None? ==> r.Err?
    ensures result.instructions.Some? ==>
      var instructions := result.instructions.value;
      && ((forall j :: 0 <= j < |instructions| ==> !IsAddEntries(instructions[j])) ==> r == Ok([]))
      && (forall i :: FirstTagged(instructions, i) ==>
            r == (if instructions[i].entries.Some? then Ok(instructions[i].entries.value) else Err(KeyError)))
  {
    match result.instructions
    case None => Err(KeyError)
    case Some(instructions) =>
      match FirstAddEntries(instructions)
      case None => Ok([])
      case Some(i) =>
        match instructions[i].entries
        case None => Err(KeyError)
        case Some(entries) => Ok(entries)
  }

  /** `_get_tweet_content_key`: the raw tweets an entry holds; `GetTweetContentKeySpec` says which. */
  function GetTweetContentKey(entry: TimelineEntry): (r: Result<seq<RawRecord>>)
    ensures r.Err? ==> r.error == KeyError
  {
    if entry.entryId.None? then Err(KeyError)
    else if SplitHead(entry.entryId.value, "-") == "tweet" then
      match entry.tweetResult
      case None => Ok([])
      case Some(t) => Ok([t])
    else if SplitHead(entry.entryId.value, "-") == "homeConversation" then
      match entry.items
      case None => Err(KeyError)
      case Some(items) =>
        if forall i :: 0 <= i < |items| ==> items[i].Some?
        then Ok(seq(|items|, i requires 0 <= i < |items| => items[i].value))
        else Err(KeyError)
    else Ok([])
  }

  /**
   * A "tweet" entry holds exactly its tweet result, or nothing when that path is missing; a
   * "homeConversation" entry holds each item's tweet result in order, and raises when `items`
   * or an item's path is missing; any other kind holds nothing; a missing `entryId` raises.
   */
  lemma GetTweetContentKeySpec(entry: TimelineEntry)
    ensures entry.entryId.None? ==> GetTweetContentKey(entry).Err?
    ensures EntryKind(entry) == Some("tweet") ==>
      GetTweetContentKey(entry) == (if entry.tweetResult.Some? then Ok([entry.tweetResult.value]) else Ok([]))
    ensures EntryKind(entry) == Some("homeConversation") ==>
      (GetTweetContentKey(entry).Ok? <==>
         entry.items.Some? && forall i :: 0 <= i < |entry.items.value| ==> entry.items.value[i].Some?)
    ensures EntryKind(entry) == Some("homeConversation") && GetTweetContentKey(entry).Ok? ==>
      |GetTweetContentKey(entry).value| == |entry.items.value| &&
      forall i :: 0 <= i < |entry.items.value| ==> entry.items.value[i] == Some(GetTweetContentKey(entry).value[i])
    ensures (EntryKind(entry).Some? && EntryKind(entry).value != "tweet" &&
             EntryKind(entry).value != "homeConversation") ==> GetTweetContentKey(entry) == Ok([])
  {
  }

  /**
   * The new items of a page: the survivors of each entry's raw tweets, entry after entry. A
   * missing key in any entry's content raises and the page yields nothing.
   */
  function PageItems(entries: seq<TimelineEntry>, parse: RawRecord -> Option<Tweet>, keepRetweets: bool): (r: Result<seq<Tweet>>)
    ensures r.Err? ==> r.error == KeyError
    ensures r.Ok? ==> forall t :: t in r.value ==> Kept(t, keepRetweets)
    decreases |entries|
  {
    if entries == [] then Ok([])
    else
      match PageItems(entries[..|entries| - 1], parse, keepRetweets)
      case Err(e) => Err(e)
      case Ok(items) =>
        match GetTweetContentKey(entries[|entries| - 1])
        case Err(e) => Err(e)
        case Ok(raws) => Ok(items + Survivors(parse, raws, keepRetweets))
  }

  /** A page fails exactly when some entry's content is missing a key; otherwise every entry is harvested. */
  lemma {:induction false} PageItemsFails(entries: seq<TimelineEntry>, parse: RawRecord -> Option<Tweet>, keepRetweets: bool)
    ensures PageItems(entries, parse, keepRetweets).Err? <==>
              exists i :: 0 <= i < |entries| && GetTweetContentKey(entries[i]).Err?
    decreases |entries|
  {
    if entries != [] {
      var init, n := entries[..|entries| - 1], |entries| - 1;
      PageItemsFails(init, parse, keepRetweets);
      PageItemsStepFails(entries, parse, keepRetweets);
      if PageItems(init, parse, keepRetweets).Err? {
        var i :| 0 <= i < |init| && GetTweetContentKey(init[i]).Err?;
        assert entries[i] == init[i];
      } else if GetTweetContentKey(entries[n]).Err? {
      } else {
        forall i | 0 <= i < |entries| ensures GetTweetContentKey(entries[i]).Ok? {
          if i < n {
            assert GetTweetContentKey(init[i]).Ok?;
            assert entries[i] == init[i];
          }
        }
      }
    }
  }

  /** The entry holds a raw tweet, read without an exception, that parses to `t`. */
  predicate EntryYields(entry: TimelineEntry, parse: RawRecord -> Option<Tweet>, t: Tweet) {
    GetTweetContentKey(entry).Ok? &&
    exists j :: 0 <= j < |GetTweetContentKey(entry).value| && parse(GetTweetContentKey(entry).value[j]) == Some(t)
  }

  /**
   * A page that does not raise keeps exactly the tweets that pass the retweet filter and that
   * some entry's raw tweets parse to.
   */
  lemma {:induction false} PageItemsMember(entries: seq<TimelineEntry>, parse: RawRecord -> Option<Tweet>, keepRetweets: bool, t: Tweet)
    requires PageItems(entries, parse, keepRetweets).Ok?
    ensures t in PageItems(entries, parse, keepRetweets).value <==>
      Kept(t, keepRetweets) && exists i :: 0 <= i < |entries| && EntryYields(entries[i], parse, t)
    decreases |entries|
  {
    if entries != [] {
      var init, last := entries[..|entries| - 1], entries[|entries| - 1];
      PageItemsStep(entries, parse, keepRetweets);
      PageItemsMember(init, parse, keepRetweets, t);
      SurvivorsMember(parse, GetTweetContentKey(last).value, keepRetweets, t);
      ExistsSnoc(entries, e => EntryYields(e, parse, t));
    }
  }

  /** A page of one more entry that does not raise is the page before it followed by that entry's survivors. */
  lemma PageItemsStep(entries: seq<TimelineEntry>, parse: RawRecord -> Option<Tweet>, keepRetweets: bool)
    requires entries != [] && PageItems(entries, parse, keepRetweets).Ok?
    ensures var init, last := entries[..|entries| - 1], entries[|entries| - 1];
      && PageItems(init, parse, keepRetweets).Ok?
      && GetTweetContentKey(last).Ok?
      && PageItems(entries, parse, keepRetweets).value ==
           PageItems(init, parse, keepRetweets).value + Survivors(parse, GetTweetContentKey(last).value, keepRetweets)
  {
  }

  /** Some element satisfies `p` exactly when some element before the last one does, or the last one does. */
  lemma ExistsSnoc<T>(xs: seq<T>, p: T -> bool)
    requires xs != []
    ensures var init := xs[..|xs| - 1];
      (exists i :: 0 <= i < |xs| && p(xs[i])) <==> (exists i :: 0 <= i < |init| && p(init[i])) || p(xs[|xs| - 1])
  {
    var init := xs[..|xs| - 1];
    if exists i :: 0 <= i < |xs| && p(xs[i]) {
      var i :| 0 <= i < |xs| && p(xs[i]);
      if i < |init| {
        assert init[i] == xs[i];
      }
    }
    if exists i :: 0 <= i < |init| && p(init[i]) {
      var i :| 0 <= i < |init| && p(init[i]);
      assert xs[i] == init[i];
    }
  }

  /** The page of one more entry fails exactly when the page before it or that entry's content fails. */
  lemma PageItemsStepFails(entries: seq<TimelineEntry>, parse: RawRecord -> Option<Tweet>, keepRetweets: bool)
    requires entries != []
    ensures PageItems(entries, parse, keepRetweets).Err? <==>
      PageItems(entries[..|entries| - 1], parse, keepRetweets).Err? || GetTweetContentKey(entries[|entries| - 1]).Err?
  {
  }

  predicate IsBottomCursor(e: TimelineEntry) {
    EntryKind(e) == Some("cursor") && e.cursorType == Some("Bottom")
  }

  /** An entry `_get_cursor` reads and moves past: it has an `entryId`, and it is no cursor entry or one of another type. */
  predicate PassedOver(e: TimelineEntry) {
    e.entryId.Some? && (EntryKind(e) != Some("cursor") || (e.cursorType.Some? && e.cursorType.value != "Bottom"))
  }

  /** Entry `i` is a bottom cursor entry and every entry before it is passed over. */
  predicate FirstBottom(entries: seq<TimelineEntry>, i: int) {
    0 <= i < |entries| && IsBottomCursor(entries[i]) && forall j :: 0 <= j < i ==> PassedOver(entries[j])
  }

  /** The token `_get_cursor` finds: the value of the first bottom cursor entry, or `None`; a missing key it reads raises. */
  function BottomCursor(entries: seq<TimelineEntry>): (r: Result<Option<string>>)
    ensures r.Err? ==> r.error == KeyError
  {
    if entries == [] then Ok(None)
    else
      var e := entries[0];
      if e.entryId.None? then Err(KeyError)
      else if SplitHead(e.entryId.value, "-") != "cursor" then BottomCursor(entries[1..])
      else if e.cursorType.None? then Err(KeyError)
      else if e.cursorType.value != "Bottom" then BottomCursor(entries[1..])
      else if e.cursorValue.None? then Err(KeyError)
      else Ok(e.cursorValue)
  }

  /** The token found is the value of the first bottom cursor entry; no token is found exactly when every entry is passed over. */
  lemma {:induction false} BottomCursorSpec(entries: seq<TimelineEntry>)
    ensures forall i :: FirstBottom(entries, i) ==>
      BottomCursor(entries) == (if entries[i].cursorValue.Some? then Ok(entries[i].cursorValue) else Err(KeyError))
    ensures BottomCursor(entries) == Ok(None) <==> forall j :: 0 <= j < |entries| ==> PassedOver(entries[j])
    ensures BottomCursor(entries).Ok? && BottomCursor(entries).value.Some? ==>
      exists i :: FirstBottom(entries, i) && entries[i].cursorValue == BottomCursor(entries).value
    decreases |entries|
  {
    if entries != [] {
      var rest := entries[1..];
      BottomCursorSpec(rest);
      forall i | FirstBottom(entries, i) && i > 0
        ensures FirstBottom(rest, i - 1)
      {
        forall j | 0 <= j < i - 1 ensures PassedOver(rest[j]) { assert rest[j] == entries[j + 1]; }
      }
      if PassedOver(entries[0]) {
        if forall j :: 0 <= j < |rest| ==> PassedOver(rest[j]) {
          forall j | 0 <= j < |entries| ensures PassedOver(entries[j]) {
            if j > 0 { assert entries[j] == rest[j - 1]; }
          }
        }
        if BottomCursor(rest).Ok? && BottomCursor(rest).value.Some? {
          var i :| FirstBottom(rest, i) && rest[i].cursorValue == BottomCursor(rest).value;
          forall j | 0 <= j < i + 1 ensures PassedOver(entries[j]) {
            if j > 0 { assert entries[j] == rest[j - 1]; }
          }
          assert FirstBottom(entries, i + 1);
        }
      } else if IsBottomCursor(entries[0]) {
        assert FirstBottom(entries, 0);
      }
    }
  }

  /** The harvest of one response: what `get_next_page` collects from it and the token `_get_cursor` finds, or the exception raised first. */
  function UserHarvest(response: UserResponse, keepRetweets: bool, parse: UserResponse -> RawRecord -> Option<Tweet>): (r: Result<Harvest>)
    ensures !response.hasUserResult ==> r == Err(KeyError)
    ensures response.hasUserResult && response.result.None? ==> r == Err(UserNotFound)
    ensures r.Ok? ==> forall t :: t in r.value.items ==> Kept(t, keepRetweets)
    ensures r.Ok? ==> (
      && response.result.Some?
      && GetEntries(response.result.value).Ok?
      && PageItems(GetEntries(response.result.value).value, parse(response), keepRetweets) == Ok(r.value.items)
      && BottomCursor(GetEntries(response.result.value).value) == Ok(r.value.token))
    ensures response.hasUserResult && response.result.Some? && GetEntries(response.result.value).Err? ==>
      r == Err(GetEntries(response.result.value).error)
    ensures r.Err? && response.hasUserResult && response.result.Some? && GetEntries(response.result.value).Ok? ==>
      var entries := GetEntries(response.result.value).value;
      r.error == KeyError && (PageItems(entries, parse(response), keepRetweets).Err? || BottomCursor(entries).Err?)
  {
    if !response.hasUserResult then Err(KeyError)
    else if response.result.None? then Err(UserNotFound)
    else
      match GetEntries(response.result.value)
      case Err(e) => Err(e)
      case Ok(entries) =>
        match PageItems(entries, parse(response), keepRetweets)
        case Err(e) => Err(e)
        case Ok(items) =>
          match BottomCursor(entries)
          case Err(e) => Err(e)
          case Ok(token) => Ok(Harvest(items, token))
  }

  class UserTweets {
    const userId: string
    const http: ScriptedRequester<UserRequest, UserResponse>
    const pages: int
    const getReplies: bool
    const getRetweets: bool
    const waitTime: int
    /** The `Tweet` constructor: a parse of a raw tweet in the context of its response, `None` where it raises. */
    const parse: UserResponse -> RawRecord -> Option<Tweet>

    var tweets: seq<Tweet>
    var cursor: Option<string>
    var isNextPage: bool
    /** The object's own dict entries. */
    var dict: map<string, DictValue>
    /** The harvests of the answers the requester still has to give, in order. */
    ghost var pending: seq<Result<Harvest>>

    function State(): PagerState
      reads this
    {
      PagerState(cursor, isNextPage, tweets)
    }

    /** The dict is empty until a page is fetched, and mirrors the fields from then on. */
    ghost predicate Valid()
      reads this, http
    {
      && (dict == map[] || dict == Mirror(State()))
      && Answers(pending, |http.log|)
    }

    constructor (userId: string, http: ScriptedRequester<UserRequest, UserResponse>, parse: UserResponse -> RawRecord -> Option<Tweet>,
                 pages: int := 1, getReplies: bool := true, getRetweets: bool := true, waitTime: int := 2,
                 cursor: Option<string> := None)
      ensures Valid()
      ensures tweets == [] && isNextPage && this.cursor == cursor && dict == map[] && pending == Harvests(|http.log|)
      ensures this.userId == userId && this.http == http && this.parse == parse && this.pages == pages
      ensures this.getReplies == getReplies && this.getRetweets == getRetweets && this.waitTime == waitTime
    {
      this.userId := userId;
      this.http := http;
      this.parse := parse;
      this.pages := pages;
      this.getReplies := getReplies;
      this.getRetweets := getRetweets;
      this.waitTime := waitTime;
      this.cursor := cursor;
      tweets := [];
      isNextPage := true;
      dict := map[];
      new;
      pending := Harvests(|http.log|);
      AnswersExactly(pending, |http.log|);
    }

    /** The harvests of the responses the requester will give once `k` requests were made. */
    function Harvests(k: nat): (hs: seq<Result<Harvest>>)
      ensures |hs| == if k < |http.script| then |http.script| - k else 0
      ensures forall i :: 0 <= i < |hs| ==> hs[i] == UserHarvest(http.script[k + i], getRetweets, parse)
    {
      if k < |http.script|
      then seq(|http.script| - k, i requires 0 <= i < |http.script| - k => UserHarvest(http.script[k + i], getRetweets, parse))
      else []
    }

    /** The requests of `get_next_page` carrying `cursors`, in order. */
    function Requests(cursors: seq<Option<string>>): seq<UserRequest>
      decreases |cursors|
    {
      if cursors == [] then []
      else Requests(cursors[..|cursors| - 1]) + [UserRequest(userId, getReplies, cursors[|cursors| - 1])]
    }

    /** One more cursor adds its request at the end. */
    lemma RequestsSnoc(cursors: seq<Option<string>>, c: Option<string>)
      ensures Requests(cursors + [c]) == Requests(cursors) + [UserRequest(userId, getReplies, c)]
    {
      assert (cursors + [c])[..|cursors|] == cursors;
    }

    /** `hs[i]` is the harvest of the answer to request number `k + i`. */
    ghost predicate AnswerAt(hs: seq<Result<Harvest>>, k: nat, i: int)
      requires 0 <= i < |hs|
    {
      k + i < |http.script| && hs[i] == UserHarvest(http.script[k + i], getRetweets, parse)
    }

    /** `hs` are the harvests of the answers to the requests from number `k` on. */
    ghost predicate Answers(hs: seq<Result<Harvest>>, k: nat) {
      && |hs| == (if k < |http.script| then |http.script| - k else 0)
      && forall i {:trigger AnswerAt(hs, k, i)} :: 0 <= i < |hs| ==> AnswerAt(hs, k, i)
    }

    /** The harvests still to come are determined by the number of requests made. */
    lemma AnswersExactly(hs: seq<Result<Harvest>>, k: nat)
      ensures Answers(hs, k) <==> hs == Harvests(k)
    {
      if hs == Harvests(k) {
        forall i | 0 <= i < |hs| ensures AnswerAt(hs, k, i) { }
      }
      if Answers(hs, k) {
        forall i | 0 <= i < |hs| ensures hs[i] == Harvests(k)[i] {
          assert AnswerAt(hs, k, i);
        }
      }
    }

    /** One more request consumes one harvest, and the next harvest is that of the requester's answer. */
    lemma AnswersShift(hs: seq<Result<Harvest>>, k: nat)
      requires Answers(hs, k)
      ensures Answers(Drop1(hs), k + 1)
      ensures NextHarvest(hs) ==
        match http.Respond(k) case Ok(response) => UserHarvest(response, getRetweets, parse) case Err(e) => Err(e)
    {
      if hs != [] {
        assert AnswerAt(hs, k, 0);
        var rest, next := hs[1..], k + 1;
        forall i | 0 <= i < |rest| ensures AnswerAt(rest, next, i) {
          assert AnswerAt(hs, k, i + 1);
        }
      }
    }

    /** `_get_cursor`: applies the cursor rule to the token found among `entries`. */
    method GetCursor(entries: seq<TimelineEntry>) returns (r: Result<bool>)
      modifies this`cursor
      ensures BottomCursor(entries).Err? ==> r == Err(KeyError) && cursor == old(cursor)
      ensures BottomCursor(entries).Ok? ==>
        var (next, more) := Advance(old(cursor), BottomCursor(entries).value);
        r == Ok(more) && cursor == next
    {
      var i := 0;
      while i < |entries|
        invariant 0 <= i <= |entries|
        invariant BottomCursor(entries) == BottomCursor(entries[i..])
        invariant cursor == old(cursor)
      {
        var entry := entries[i];
        assert entries[i..][1..] == entries[i + 1..];
        if entry.entryId.None? {
          return Err(KeyError);
        }
        if SplitHead(entry.entryId.value, "-") == "cursor" {
          if entry.cursorType.None? {
            return Err(KeyError);
          }
          if entry.cursorType.value == "Bottom" {
            if entry.cursorValue.None? {
              return Err(KeyError);
            }
            var newCursor := entry.cursorValue.value;
            if Some(newCursor) == cursor {
              return Ok(false);
            }
            cursor := Some(newCursor);
            return Ok(true);
          }
        }
        i := i + 1;
      }
      return Ok(false);
    }

    /** The inner loop of `get_next_page`: each raw tweet parsed on its own, failures and unwanted retweets skipped. */
    method ParseItems(response: UserResponse, raws: seq<RawRecord>) returns (kept: seq<Tweet>)
      ensures kept == Survivors(parse(response), raws, getRetweets)
    {
      kept := [];
      var j := 0;
      while j < |raws|
        invariant 0 <= j <= |raws|
        invariant kept == Survivors(parse(response), raws[..j], getRetweets)
      {
        var parsed := parse(response)(raws[j]);
        SurvivorsSnoc(parse(response), raws, j, getRetweets);
        if parsed.Some? {
          if parsed.value.isRetweet && !getRetweets {
          } else {
            kept := kept + [parsed.value];
          }
        }
        j := j + 1;
      }
      assert raws[..|raws|] == raws;
    }

    /**
     * The part of `get_next_page` between the request and `_get_cursor`: the `UserNotFound`
     * check, the entries, and the surviving items of each entry in turn. It changes nothing.
     */
    method ParsePage(response: UserResponse) returns (r: Result<(seq<TimelineEntry>, seq<Tweet>)>)
      ensures r.Err? ==> UserHarvest(response, getRetweets, parse) == Err(r.error)
      ensures r.Ok? ==>
        && response.hasUserResult && response.result.Some?
        && GetEntries(response.result.value) == Ok(r.value.0)
        && PageItems(r.value.0, parse(response), getRetweets) == Ok(r.value.1)
    {
      if !response.hasUserResult {
        return Err(KeyError);
      }
      if response.result.None? {
        return Err(UserNotFound);
      }
      var found := GetEntries(response.result.value);
      if found.Err? {
        return Err(found.error);
      }
      var entries := found.value;
      var page := ParseEntries(response, entries);
      if page.Err? {
        return Err(page.error);
      }
      return Ok((entries, page.value));
    }

    /** The loop of `get_next_page` over the entries: each entry's raw tweets in turn, a missing key raising. */
    method ParseEntries(response: UserResponse, entries: seq<TimelineEntry>) returns (r: Result<seq<Tweet>>)
      ensures r == PageItems(entries, parse(response), getRetweets)
    {
      var page: seq<Tweet> := [];
      var i := 0;
      while i < |entries|
        invariant 0 <= i <= |entries|
        invariant PageItems(entries[..i], parse(response), getRetweets) == Ok(page)
      {
        var content := GetTweetContentKey(entries[i]);
        if content.Err? {
          PageItemsFails(entries, parse(response), getRetweets);
          return Err(content.error);
        }
        var kept := ParseItems(response, content.value);
        page := page + kept;
        assert entries[..i + 1][..i] == entries[..i];
        i := i + 1;
      }
      assert entries[..|entries|] == entries;
      return Ok(page);
    }

    /** The loop of `get_next_page` that appends the page's items to `tweets`, one at a time. */
    method Extend(page: seq<Tweet>)
      modifies this`tweets
      ensures tweets == old(tweets) + page
    {
      var k := 0;
      while k < |page|
        invariant 0 <= k <= |page|
        invariant tweets == old(tweets) + page[..k]
      {
        tweets := tweets + [page[k]];
        k := k + 1;
      }
      assert page[..|page|] == page;
    }

    /** Stores the fields under the dict keys "tweets", "is_next_page" and "cursor". */
    method Publish()
      modifies this`dict
      ensures dict == old(dict) + Mirror(State())
    {
      dict := dict["tweets" := TweetsValue(tweets)]["is_next_page" := FlagValue(isNextPage)]["cursor" := CursorValue(cursor)];
    }

    /**
     * `get_next_page`: when another page is announced, one request with the current cursor, then
     * the page's surviving items are appended, the cursor rule is applied and the dict is
     * refreshed; an exception leaves every field as it was. When no page is announced it does
     * nothing and returns no items.
     */
    method GetNextPage() returns (r: Result<seq<Tweet>>)
      requires Valid()
      modifies this, http
      ensures Valid()
      ensures var o := NextPage(old(State()), NextHarvest(old(pending)));
        && State() == o.state && r == o.result
        && pending == (if o.requested then Drop1(old(pending)) else old(pending))
        && http.log == old(http.log) + (if o.requested then [UserRequest(userId, getReplies, old(cursor))] else [])
        && dict == (if o.requested && r.Ok? then Mirror(State()) else old(dict))
    {
      if !isNextPage {
        return Ok([]);
      }
      AnswersShift(pending, |http.log|);
      pending := Drop1(pending);
      var got := http.Get(UserRequest(userId, getReplies, cursor));
      if got.Err? {
        return Err(got.error);
      }
      r := Absorb(got.value);
      if r.Ok? {
        assert old(dict).Keys <= Mirror(State()).Keys;
      }
    }

    /** The part of `get_next_page` after the request: parse the response, apply the cursor rule, append and publish. */
    method Absorb(response: UserResponse) returns (r: Result<seq<Tweet>>)
      modifies this`tweets, this`cursor, this`isNextPage, this`dict
      ensures var h := UserHarvest(response, getRetweets, parse);
        && r == (if h.Ok? then Ok(h.value.items) else Err(h.error))
        && State() == (if h.Ok? then Apply(old(State()), h.value) else old(State()))
        && dict == (if h.Ok? then old(dict) + Mirror(State()) else old(dict))
    {
      var parsed := ParsePage(response);
      if parsed.Err? {
        return Err(parsed.error);
      }
      var entries, page := parsed.value.0, parsed.value.1;
      var more := GetCursor(entries);
      if more.Err? {
        return Err(more.error);
      }
      assert UserHarvest(response, getRetweets, parse) == Ok(Harvest(page, BottomCursor(entries).value));
      isNextPage := more.value;
      Extend(page);
      Publish();
      r := Ok(page);
    }

    /**
     * The state of `generator` before page `page`: the pages before it collected `collected`
     * with `pauses` pauses and sent requests carrying `sent` after the log `log0`, and with the
     * run of the remaining pages they make up the whole run `total`.
     */
    ghost predicate Progress(total: RunResult, collected: seq<Tweet>, pauses: nat, sent: seq<Option<string>>, page: int,
                             log0: seq<UserRequest>, d0: map<string, DictValue>)
      reads this, http
    {
      && Valid()
      && http.log == log0 + Requests(sent)
      && total == Prepend(collected, pauses, sent, Run(State(), pending, page, pages))
      && (sent == [] ==> dict == d0)
      && (sent != [] ==> dict == Mirror(State()))
    }

    /**
     * One turn of the loop of `generator`: `get_next_page`, its new items added to those
     * collected, and a pause when another page is announced and this is not the last page.
     */
    method Turn(page: int, ghost total: RunResult, collected: seq<Tweet>, pauses: nat, ghost sent: seq<Option<string>>,
                ghost log0: seq<UserRequest>, ghost d0: map<string, DictValue>)
      returns (step: Result<seq<Tweet>>, collected': seq<Tweet>, pauses': nat, ghost sent': seq<Option<string>>)
      requires page <= pages
      requires Progress(total, collected, pauses, sent, page, log0, d0)
      modifies this, http
      ensures step.Ok? ==> Progress(total, collected', pauses', sent', page + 1, log0, d0)
      ensures step.Err? ==>
        && Valid() && http.log == log0 + Requests(sent') && |sent'| == |sent| + 1 && pauses' == pauses
        && total == RunResult(State(), collected, pauses, sent', Some(step.error))
        && (sent == [] ==> dict == d0) && (sent != [] ==> dict == Mirror(State()))
    {
      ghost var s, hs := State(), pending;
      step := GetNextPage();
      sent' := sent + (if s.isNextPage then [s.cursor] else []);
      if s.isNextPage {
        RequestsSnoc(sent, s.cursor);
        var q := UserRequest(userId, getReplies, s.cursor);
        assert (log0 + Requests(sent)) + [q] == log0 + (Requests(sent) + [q]);
      } else {
        assert sent' == sent;
      }
      if step.Err? {
        RunFails(total, collected, pauses, sent, s, hs, page, pages);
        return step, collected, pauses, sent';
      }
      RunAdvances(total, collected, pauses, sent, s, hs, page, pages);
      collected' := collected + step.value;
      pauses' := pauses;
      if isNextPage && page != pages {
        pauses' := pauses + 1;
      }
    }

    /**
     * `generator`: `pages` calls of `get_next_page`, collecting their new items, with a pause of
     * `waitTime` after each page that leaves another page announced, unless it is the last; an
     * exception ends it where it happens, keeping the effect of the pages before.
     */
    method Generator() returns (r: Result<seq<Tweet>>, pauses: nat)
      requires Valid()
      modifies this, http
      ensures Valid()
      ensures var out := Run(old(State()), old(pending), 1, pages);
        && State() == out.state && pauses == out.pauses
        && http.log == old(http.log) + Requests(out.sent)
        && r == (if out.failure.None? then Ok(out.items) else Err(out.failure.value))
        && dict == (if out.requests > (if out.failure.Some? then 1 else 0) then Mirror(State()) else old(dict))
    {
      ghost var d0 := dict;
      ghost var total := Run(State(), pending, 1, pages);
      ghost var sent: seq<Option<string>> := [];
      var collected: seq<Tweet> := [];
      pauses := 0;
      var page := 1;
      assert old(http.log) + [] == old(http.log);
      while page <= pages
        invariant 1 <= page && (pages >= 1 ==> page <= pages + 1)
        invariant Progress(total, collected, pauses, sent, page, old(http.log), d0)
      {
        var step;
        step, collected, pauses, sent := Turn(page, total, collected, pauses, sent, old(http.log), d0);
        if step.Err? {
          r := Err(step.error);
          return;
        }
        page := page + 1;
      }
      assert collected + [] == collected && sent + [] == sent;
      r := Ok(collected);
    }

    /** `__getitem__`: Python list indexing, negative indices counting from the end. */
    function At(index: int): (r: Result<Tweet>)
      reads this
      ensures r.Ok? <==> -|tweets| <= index < |tweets|
      ensures r.Ok? ==> r.value == tweets[if index < 0 then index + |tweets| else index]
      ensures r.Err? ==> r.error == IndexError
    {
      if 0 <= index < |tweets| then Ok(tweets[index])
      else if -|tweets| <= index < 0 then Ok(tweets[index + |tweets|])
      else Err(IndexError)
    }

    /** `__len__`. */
    function Length(): (n: nat)
      reads this
      ensures n == |tweets|
    {
      |tweets|
    }

    /** `__iter__`: the accumulated tweets, one at a time, in order. */
    method Iterate() returns (yielded: seq<Tweet>)
      ensures yielded == tweets
    {
      yielded := [];
      var i := 0;
      while i < |tweets|
        invariant 0 <= i <= |tweets|
        invariant yielded == tweets[..i]
      {
        yielded := yielded + [tweets[i]];
        i := i + 1;
      }
    }
  }
}
