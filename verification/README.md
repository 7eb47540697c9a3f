# tweety pagination engine, modelled in Dafny

This project models the cursor-based pagination engine of the tweety Twitter client. Two
classes implement it: `UserTweets` (tweety/types/usertweet.py) pages through a user's
timeline, and `SearchTweets` (tweety/types/searchtweet.py) pages through search results.
Each class is a small state machine over three fields:

- `cursor`, the token for the next request;
- `is_next_page`, whether another page is announced;
- `tweets`, the accumulated tweets, which only ever grows.

Each class also publishes the three fields in itself, because it is a `dict`.

One `get_next_page` does the following:
- It requests a page with the current cursor, unless no page is announced; then it does nothing.
- It extracts the entries and each entry's raw tweets, and parses each raw tweet on its own.
  A tweet that fails to parse is skipped. For timelines, a retweet is skipped unless retweets are wanted.
- It applies the cursor rule: only a token that is found and differs from the current cursor
  advances the cursor and announces another page.
- It appends the page's tweets and refreshes the dict.

`generator` runs `pages` such steps and pauses between them. It yields once, with all new tweets.

Layout:

- `wrappers.dfy` (`Wrappers`): `Option`, `Result` and the exceptions that escape (`Error`).
- `text.dfy` (`Text`): the pieces of Python's `str.split` the extractors use, with their
  characterisation and join lemmas.
- `http.dfy` (`Http`): the requester, replaced by a scripted one. It answers the k-th call
  with the k-th scripted response and logs every request.
- `paging.dfy` (`Paging`): the state machine both classes share.
  - `NextPage` is one `get_next_page`, given the "harvest" of the response: its surviving
    items and the cursor token found, or the exception raised first.
  - `Run` is a whole `generator`.
  - `Survivors` is the per-item parse-and-filter rule, and `FirstAddEntries` is the
    instruction lookup.
  - Lemmas cover accumulation, exhaustion, request and pause counts, the stall on a repeated
    cursor, and the concrete two-page scenario.
- `usertweet.dfy` (`UserTimeline`) and `searchtweet.dfy` (`SearchTimeline`) each hold:
  - the response shapes, reduced to the keys the code reads;
  - the pure extractors (`GetEntries`, `GetTweetContentKey`, the cursor token) and the
    response's harvest;
  - the class itself, with the source's mutable fields. Its methods are proved against
    `Paging.NextPage` and `Paging.Run`.

A ghost field `pending` holds the harvests of the answers still scripted. `Valid()` ties it
to the requester's script and log.

The model follows the code in these points, where a reader might expect otherwise:

- A missing key raises `KeyError` out of `get_next_page` (`Err(KeyError)`, with the state
  unchanged). It is not treated as an empty page. Examples: the timeline instruction path,
  `entryId`, `content.items`, `content.cursorType`, `content.value`, and the search `statuses`.
- There is no item-level reply filter. `get_replies` is only passed to the request.
- After exhaustion, `generator` still calls `get_next_page` for each remaining page. Those
  calls are no-ops without requests.
- `generator` yields once, with every page's new items, and not once per page.
- After `UserNotFound`, nothing changes, so `is_next_page` stays true. A later call requests
  again, and it raises only if that answer is also "not found".
- The kind of a timeline entry is `str(entryId).split("-")[0]`. An `entryId` of exactly
  `tweet`, with no dash, counts as a tweet entry.
- The search cursor is `next_results.split("=")[1].split("&q")[0]`. A `next_results` without
  '=' raises an uncaught `IndexError`.

## Model

| member | source | states |
|---|---|---|
| `Text.IndexOf` | tweety/types/usertweet.py:44 | the first occurrence of the separator at or after a position, and none before it; `None` exactly when there is none |
| `Text.SplitHead` | tweety/types/usertweet.py:44 | `split(sep)[0]` is a prefix with no separator starting inside it, followed by the first separator when it is shorter than the text |
| `Text.SplitSecond` | tweety/types/searchtweet.py:89 | `split(sep)[1]` is missing (the IndexError) exactly when the separator never occurs; otherwise it is the first piece after the first separator |
| `Text.SplitHeadJoin` | tweety/types/usertweet.py:44 | splitting `a + sep + b` gives back `a` when no separator starts inside `a` |
| `Text.SplitSecondJoin` | tweety/types/searchtweet.py:89 | the second piece of `a + sep + b` is the first piece of `b` when no separator starts inside `a` |
| `Text.NoStartBefore` | tweety/types/searchtweet.py:89 | a text without the separator's first character holds no separator start, whatever follows it |
| `Text.SplitHeadFree` | tweety/types/searchtweet.py:89 | the first piece contains no separator at all |
| `Text.SplitHeadPrefix` | tweety/types/searchtweet.py:89 | cutting a text to a prefix that still holds its first separator keeps its first piece |
| `Text.PrefixFree` | tweety/types/searchtweet.py:89 | a prefix of a separator-free text is separator-free |
| `Text.HeadLacksChar` | tweety/types/searchtweet.py:89 | the first piece of a split at a one-character separator does not hold that character |
| `Http.ScriptedRequester.constructor` | tweety/types/usertweet.py:12-25 | a requester starts with its script and no request logged |
| `Http.ScriptedRequester.Respond` | tweety/types/searchtweet.py:51-53 | the answer to call k is the k-th scripted response; a call past the script fails with a transport error |
| `Http.ScriptedRequester.Get` | tweety/types/usertweet.py:61-63 | a call logs its request and returns the answer for the number of calls before it |
| `Paging.FirstAddEntries` | tweety/types/usertweet.py:36-40 | the index of the first instruction tagged `TimelineAddEntries`, or none when no instruction is tagged |
| `Paging.Survivors` | tweety/types/usertweet.py:80-88 | the parsed items are no more than the raw items, and every one passes the retweet filter |
| `Paging.Kept` | tweety/types/usertweet.py:83 | a tweet that is no retweet always passes the filter; a retweet passes exactly when retweets are wanted |
| `Paging.SurvivorsSnoc` | tweety/types/usertweet.py:80-88 | handling one more raw item adds its parse exactly when the parse succeeds and the filter keeps it |
| `Paging.SurvivorsAppend` | tweety/types/usertweet.py:78-88 | the items of a concatenation of raw items are the concatenation of their items, in order |
| `Paging.SurvivorsMember` | tweety/types/usertweet.py:80-88 | a tweet is kept if and only if some raw item parses to it and it is no retweet, or retweets are wanted |
| `Paging.SurvivorsCount` | tweety/types/searchtweet.py:58-64 | without retweet filtering, the kept items plus the parse failures are exactly the raw items |
| `Paging.Advance` | tweety/types/usertweet.py:116-122 | another page is announced if and only if a token is found that differs from the cursor; only then does the cursor become that token |
| `Paging.Apply` | tweety/types/usertweet.py:90-93 | after a fetched page, `tweets` is the old `tweets` followed by the page's items, `is_next_page` holds exactly when the token is found and new, and only then is the cursor that token |
| `Paging.NextPage` | tweety/types/usertweet.py:58-99 | one step: a request exactly when a page is announced; no request, no items and no change when exhausted; on a fetched page the returned items are the harvest's items, they are appended, the cursor follows the cursor rule and `is_next_page` becomes "token found and new"; an exception is passed through with no change; an exhausted paginator never revives |
| `Paging.RunAdvances` | tweety/types/usertweet.py:101-110 | a run is its first successful page, its pause, and then the run of the remaining pages |
| `Paging.RunFails` | tweety/types/usertweet.py:101-110 | an exception on the current page ends the run there, after one more request, with the state and the items of the pages before |
| `Paging.Run` | tweety/types/usertweet.py:101-110 | a whole `generator`: after it, `tweets` is the old `tweets` followed by exactly the items it collected, even when it stopped on an exception; its other properties are the `Run*` lemmas below |
| `Paging.RunExhausted` | tweety/types/usertweet.py:58-60 | on an exhausted paginator, every remaining page is a no-op: no request, no pause, no items, no change |
| `Paging.RunRequests` | tweety/types/usertweet.py:103-104 | at most one request per page; a run that requested less than once per page, without an exception, ends exhausted; a run never revives an exhausted paginator |
| `Paging.RunPauses` | tweety/types/usertweet.py:107-108 | pauses fall only between requests: one pause before every request but the first |
| `Paging.RunCollects` | tweety/types/usertweet.py:102-105 | without an exception, the collected items are the items of the responses requested, concatenated in fetch order |
| `Paging.RunStallsOnRepeatedCursor` | tweety/types/usertweet.py:118-119 | a response whose token equals the cursor ends the run after that single request, with its items, no pause and the cursor unchanged |
| `Paging.RunSendsTokens` | tweety/types/usertweet.py:58-122 | the first request of a run carries the starting cursor; every later request carries the token the page before it found, which is present and differs from that page's cursor; there is at most one request past the scripted answers |
| `Paging.RepeatedCursorScenario` | tweety/types/usertweet.py:101-110 | two pages `[retweet a, b]` and `[c]`, both with cursor "c1", run for three pages without retweets: collects `[b, c]` with two requests, carrying no cursor and then "c1", and one pause, and ends exhausted on cursor "c1" |
| `Paging.Mirror` | tweety/types/usertweet.py:95-97 | the published dict has exactly the keys "tweets", "is_next_page" and "cursor" |
| `Paging.MirrorFaithful` | tweety/types/usertweet.py:95-97 | two states publish the same dict if and only if they are equal |
| `UserTimeline.EntryKindSpec` | tweety/types/usertweet.py:44 | the kind is missing exactly when `entryId` is; otherwise it is the prefix of `entryId` before its first '-', with no '-' inside it |
| `UserTimeline.GetEntries` | tweety/types/usertweet.py:32-40 | the entries of the first `TimelineAddEntries` instruction, the empty list when none is tagged, and KeyError when the path or the tagged instruction's `entries` is missing |
| `UserTimeline.GetTweetContentKey` | tweety/types/usertweet.py:43-56 | the only exception an entry's content raises is KeyError |
| `UserTimeline.GetTweetContentKeySpec` | tweety/types/usertweet.py:43-56 | a "tweet" entry gives exactly its `content.content.tweetResult.result`, and nothing when those keys are missing; a "homeConversation" entry gives each item's tweet result, in order, and KeyError when `items` or an item's keys are missing; any other kind gives none; a missing `entryId` raises KeyError |
| `UserTimeline.PageItems` | tweety/types/usertweet.py:78-88 | the page's items pass the retweet filter, and the only exception is KeyError |
| `UserTimeline.PageItemsFails` | tweety/types/usertweet.py:78-79 | the page raises if and only if some entry's content raises |
| `UserTimeline.PageItemsMember` | tweety/types/usertweet.py:78-88 | a page that does not raise holds a tweet if and only if the tweet passes the retweet filter and some entry's raw tweets parse to it |
| `UserTimeline.BottomCursor` | tweety/types/usertweet.py:112-124 | a missing key the loop reads raises KeyError |
| `UserTimeline.BottomCursorSpec` | tweety/types/usertweet.py:112-124 | the token is the value of the first "cursor" entry of type "Bottom"; no token is found if and only if every entry is passed over |
| `UserTimeline.UserHarvest` | tweety/types/usertweet.py:65-90 | a missing `data`/`user_result` raises KeyError; a present `user_result` without a `result` raises UserNotFound; a failing entry lookup passes its KeyError on; a harvest's items are exactly the page items of the entries, which pass the retweet filter, and its token is the bottom cursor found among them; once the entries are found, a harvest fails only with KeyError and only when the page items or the cursor scan raise, so a response whose parts all succeed yields a harvest |
| `UserTimeline.UserTweets.constructor` | tweety/types/usertweet.py:9-28 | a fresh paginator has `is_next_page` true, no tweets, the given cursor (possibly none), an empty dict, and the given settings |
| `UserTimeline.UserTweets.AnswersExactly` | tweety/types/usertweet.py:61-63 | the pending harvests are determined by the number of requests made |
| `UserTimeline.UserTweets.AnswersShift` | tweety/types/usertweet.py:61-63 | a request consumes one pending harvest, and the next harvest is that of the requester's answer |
| `UserTimeline.UserTweets.GetCursor` | tweety/types/usertweet.py:112-124 | the cursor rule applied to the token found: a new token becomes the cursor and returns true; a repeated or missing token returns false with the cursor unchanged; a missing key raises with the cursor unchanged |
| `UserTimeline.UserTweets.ParseItems` | tweety/types/usertweet.py:80-88 | the inner loop keeps exactly the survivors of the entry's raw tweets, in order |
| `UserTimeline.UserTweets.ParsePage` | tweety/types/usertweet.py:65-88 | the loops over entries compute the entries and the page's items, or the exception the harvest raises |
| `UserTimeline.UserTweets.ParseEntries` | tweety/types/usertweet.py:78-88 | the loop over the entries computes exactly the page items of the entries, or the KeyError of the first entry whose content raises |
| `UserTimeline.UserTweets.Extend` | tweety/types/usertweet.py:92-93 | `tweets` becomes the old `tweets` followed by the page's items |
| `UserTimeline.UserTweets.Publish` | tweety/types/usertweet.py:95-97 | the dict keys "tweets", "is_next_page" and "cursor" are set to the fields |
| `UserTimeline.UserTweets.GetNextPage` | tweety/types/usertweet.py:58-99 | the fields move exactly as `Paging.NextPage` says; one request with the user, the replies flag and the old cursor exactly when a page was announced; the dict mirrors the fields after a fetched page and is untouched otherwise |
| `UserTimeline.UserTweets.Absorb` | tweety/types/usertweet.py:76-97 | after the request: the response's harvest is applied to the fields, or its exception returned with nothing changed |
| `UserTimeline.UserTweets.Turn` | tweety/types/usertweet.py:104-108 | one turn of the loop of `generator`: the page's items are added to those collected and the pause is counted when another page is announced and this is not the last page, so that the pages so far and the run of the remaining pages still make up the whole run; the request it sends is logged with the cursor the run records; an exception ends the run there |
| `UserTimeline.UserTweets.Generator` | tweety/types/usertweet.py:101-110 | the final fields, the pauses and the single result are those of `Paging.Run` over `pages` pages; the log gains exactly the run's requests, each with the user, the replies flag and the cursor `Paging.Run` records for it; the dict mirrors the fields once a page was fetched |
| `UserTimeline.UserTweets.At` | tweety/types/usertweet.py:129-130 | Python list indexing: negative indices count from the end, and an index out of range raises IndexError |
| `UserTimeline.UserTweets.Length` | tweety/types/usertweet.py:136-137 | `len` is the number of accumulated tweets |
| `UserTimeline.UserTweets.Iterate` | tweety/types/usertweet.py:132-134 | iteration yields the accumulated tweets in order |
| `SearchTimeline.GetEntries` | tweety/types/searchtweet.py:32-42 | the entries of the first `TimelineAddEntries` instruction when it has `entries`; otherwise (path missing, none tagged, or no `entries`) `statuses`, and KeyError when `statuses` is missing |
| `SearchTimeline.GetTweetContentKey` | tweety/types/searchtweet.py:45-46 | every entry is exactly one raw tweet, the entry itself |
| `SearchTimeline.PageItems` | tweety/types/searchtweet.py:56-64 | a page has no more items than entries |
| `SearchTimeline.PageItemsSpec` | tweety/types/searchtweet.py:45-64 | every entry is one raw tweet: the page keeps, in order, exactly the entries that parse, with no retweet filtering, and the items plus the parse failures are the entries |
| `SearchTimeline.NextToken` | tweety/types/searchtweet.py:86-96 | a missing `next_results` gives no token (the KeyError is caught); a `next_results` without '=' raises IndexError, and only then; otherwise a token with neither '=' nor "&q" in it; that token is what follows the first '=' up to the end, the next '=' or the first "&q" |
| `SearchTimeline.TokenCutOf` | tweety/types/searchtweet.py:88-90 | a `next_results` with an '=' reads: a prefix free of '=', the '=', the token, then the end, a second '=' or "&q" |
| `SearchTimeline.NextTokenOfQuery` | tweety/types/searchtweet.py:88-90 | for `prefix=token&q...`, with no '=' in the prefix and neither '=' nor '&' in the token, the token read back is exactly that token |
| `SearchTimeline.SecondPieceAfter` | tweety/types/searchtweet.py:89 | with no '=' in the prefix, the piece after the first '=' is read from what follows it |
| `SearchTimeline.TokenBeforeQuery` | tweety/types/searchtweet.py:89 | a token free of '=' and '&' and followed by "&q" survives both cuts |
| `SearchTimeline.NextTokenExamples` | tweety/types/searchtweet.py:86-96 | "?max_id=1234&q=tweety" gives the token "1234"; "?max_id" raises IndexError |
| `SearchTimeline.SearchHarvest` | tweety/types/searchtweet.py:51-66 | the harvest raises if and only if the entries or the token raise, KeyError taking precedence over IndexError; the items are exactly the entries that parse, in order; the token is the one read; the items plus the parse failures are the entries |
| `SearchTimeline.SearchTweets.constructor` | tweety/types/searchtweet.py:12-29 | a fresh paginator has `is_next_page` true, no tweets, the given cursor (possibly none), an empty dict, and the given settings |
| `SearchTimeline.SearchTweets.AnswersExactly` | tweety/types/searchtweet.py:51-53 | the pending harvests are determined by the number of requests made |
| `SearchTimeline.SearchTweets.AnswersShift` | tweety/types/searchtweet.py:51-53 | a request consumes one pending harvest, and the next harvest is that of the requester's answer |
| `SearchTimeline.SearchTweets.GetCursor` | tweety/types/searchtweet.py:86-96 | the cursor rule applied to the token read: a new token becomes the cursor and returns true; a repeated or missing token returns false with the cursor unchanged; no '=' raises IndexError with the cursor unchanged |
| `SearchTimeline.SearchTweets.ParseItems` | tweety/types/searchtweet.py:58-64 | the inner loop keeps exactly the entry's raw tweets that parse, in order |
| `SearchTimeline.SearchTweets.ParsePage` | tweety/types/searchtweet.py:54-64 | the loops over entries compute the entries and the page's items, or the KeyError of a missing `statuses` |
| `SearchTimeline.SearchTweets.Extend` | tweety/types/searchtweet.py:68-69 | `tweets` becomes the old `tweets` followed by the page's items |
| `SearchTimeline.SearchTweets.Publish` | tweety/types/searchtweet.py:71-73 | the dict keys "tweets", "is_next_page" and "cursor" are set to the fields |
| `SearchTimeline.SearchTweets.GetNextPage` | tweety/types/searchtweet.py:48-74 | the fields move exactly as `Paging.NextPage` says; one request with the query, the filter and the old cursor exactly when a page was announced; the dict mirrors the fields after a fetched page and is untouched otherwise |
| `SearchTimeline.SearchTweets.Absorb` | tweety/types/searchtweet.py:54-73 | after the request: the response's harvest is applied to the fields, or its exception returned with nothing changed |
| `SearchTimeline.SearchTweets.Turn` | tweety/types/searchtweet.py:79-83 | one turn of the loop of `generator`: the page's items are added to those collected and the pause is counted when another page is announced and this is not the last page, so that the pages so far and the run of the remaining pages still make up the whole run; the request it sends is logged with the cursor the run records; an exception ends the run there |
| `SearchTimeline.SearchTweets.Generator` | tweety/types/searchtweet.py:76-84 | the final fields, the pauses and the single result are those of `Paging.Run` over `pages` pages; the log gains exactly the run's requests, each with the query, the filter and the cursor `Paging.Run` records for it; the dict mirrors the fields once a page was fetched |
| `SearchTimeline.SearchTweets.At` | tweety/types/searchtweet.py:101-102 | Python list indexing: negative indices count from the end, and an index out of range raises IndexError |
| `SearchTimeline.SearchTweets.Length` | tweety/types/searchtweet.py:108-109 | `len` is the number of accumulated tweets |
| `SearchTimeline.SearchTweets.Iterate` | tweety/types/searchtweet.py:104-106 | iteration yields the accumulated tweets in order |

## Left out

- The HTTP layer (`http.get_tweets`, `http.get_search_tweets`) is a scripted requester. It
  answers from a fixed sequence of responses and fails with a transport error past its end.
  Authentication, rate limits and real transport errors are not modelled.
- The `Tweet` parser is an oracle. It is a total function from the response and a raw tweet
  to an optional tweet: `None` stands for any exception it raises, which `except
  BaseException` swallows. Only `is_retweet` is observed.
- `time.sleep(wait_time)` is a pause counter returned by `Generator`. `wait_time` is stored but
  never used for timing.
- `generator` is a Python generator. It is modelled as a method that returns its single
  yielded value; a consumer that never resumes it is not modelled.
- `to_xlsx`/`Excel`, `urllib.parse.quote`, `__repr__` and the deprecated `to_dict` are
  export and formatting calls into code that is not part of this model.
- `SearchFilter` is defined in tweety/types/n_types.py, which is not part of this model. It
  is carried as its name.
- JSON values are reduced to the keys the code reads. Each key is present with a value of
  the expected type, or missing. Values of another type are not modelled: a non-string
  `next_results` (AttributeError), a non-list `instructions`, or a non-integer `pages`
  (`int(self.pages)`).
- Missing "data" or "user_result" is the KeyError of `response["data"]["user_result"]`. A
  present but falsy `result` is modelled as missing: both raise UserNotFound.
- The dict the classes inherit from is modelled as a map of the three published keys.
  Python stores the `tweets` list itself under "tweets", so later appends show through it.
  The model stores its value at the time of publishing, which equals `tweets` whenever the
  mirror holds.
- tweety/bot.py, src/tweety/bot.py and tests/test_search.py are facades and a live network
  script. They are not part of this model.
- `UserTimeline.PageItems`: it states only the error kind and the filter. Which tweets a page
  keeps is stated by `PageItemsMember`, and when it raises by `PageItemsFails`.
- `UserTimeline.GetTweetContentKey`: its own contract states only the error kind. Which raw
  tweets each kind of entry holds is stated by `GetTweetContentKeySpec`.
- `UserTimeline.BottomCursor`: it states only the error kind. The token it finds is
  characterised by `BottomCursorSpec`.
