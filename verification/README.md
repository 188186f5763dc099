# fetchaller: verified models of its stateful and arithmetic core

fetchaller fetches pages and searches boards on behalf of other programs. Most of
it is plumbing; this project models the parts that hold state or do arithmetic,
and proves what they promise over every input, every run or every interleaving.

| file | what it models |
|---|---|
| `Slots.dfy` | who may give a parser-process slot back: the owning task, or a thread once the slot is transferred |
| `Isolated.dfy`, `IsolatedSafety.dfy`, `IsolatedProgress.dfy`, `IsolatedHistory.dfy`, `IsolatedCauses.dfy`, `IsolatedHypotheses.dfy` | the race of owner, start thread and cleanup thread over four flags and a pool of two permits, for any number of calls |
| `Token.dfy`, `Mtop.dfy` | the MTop signing token with its generation counter, and any number of concurrent requests that share it, cut at every await |
| `CacheControl.dfy`, `CacheHeaders.dfy`, `ResponseCache.dfy`, `CacheLaws.dfy`, `CacheAdmission.dfy` | the response cache: origin policy, ordered map with expiry and eviction, and its agreement with an unbounded store |
| `RateLimiter.dfy` | spacing and backoff for one domain, with time as real numbers |
| `JsonExtract.dfy`, `HtmlText.dfy`, `HtmlLayout.dfy` | the string-aware brace scanner and the linear tag stripper |
| `Jobfilter.dfy`, `JobfilterLaws.dfy`, `Locations.dfy`, `LocationLaws.dfy`, `JobSearch.dfy`, `JobSearchLaws.dfy` | title and place matching, query widening, paged searches and their counts |
| `PriceTiers.dfy`, `BoundedOutput.dfy` | greedy interval tiers; whole items under an output cap |
| `Aartech.dfy`, `AartechLaws.dfy` | the paging window, its survival of a query rewrite, and the next-page hint |
| `Text.dfy`, `Basics.dfy` | string operations and an option type |

Objects that update fields are classes (`SlotHandle`, `SharedState`, `MTopClient`,
`Cache`, `DomainRateLimiter`), loops are methods, and each is proved against a
function on plain values; the theorems are about those functions, so about the
methods. Concurrent protocols are transition systems whose atomic step is what
runs between two awaits, or under one lock; a schedule is any sequence of enabled
steps.

## Where the code falls short of a promise

Each of these is a lemma with a concrete input, next to the exact condition under
which the promise holds.

- The isolated pool loses a permit for good when cancellation drops a start job
  that is still queued in the executor (`DroppedJobLeaks`). Exactly: once nothing is
  left to do, an open pool has both permits back if and only if the run dropped no
  start job, and is otherwise short by their number (`DrainedExactly`).
- A child can outlive its permit when the await of the final stop is cancelled, and
  then nothing bounds the live children (`CancelledStopUnbounded`). Exactly: when stops
  that run reap, a call has an uncovered child if and only if the run cancelled that
  await and let the owner go before the stop ran (`ReapedExactly`).
- A late answer can destroy a newer MTop token: a challenge solve begun under one
  generation clears the token installed under the next when the cookie jar does not
  carry it (`LateSolveClearsNewer`; exact condition in `StaleStepClearsExactly`). It is
  deliberate in the code, and no late answer ever installs a token.
- The `max-age` clamp strips ASCII zeros only, so ten non-ASCII zeros and a five
  become 2^31 (`ClampOvershoots`; exact condition in `ClampExact`).
- A job search asked for 0 results returns up to 25, so 0 results is no prefix of
  10 results (`AmazonPrefixExact`, `ApplePrefixExact`, `EffectiveOrder`).
- The Apple search promises a window that does not depend on the limit. For any two
  different limits it keeps that promise on every board if and only if the title is
  filtered, no location is asked for, or the board resolved it
  (`AppleTruncatesExactly`). What is shown is a prefix all the same
  (`AppleLimitIsPrefix`).
- Two spellings of one country are not interchangeable in a query that names a
  second country (`TwoCountriesDiffer`). Exactly: two ways to write a place agree on
  every value if and only if every variant of either contains some variant of the
  other (`SpellingsAgreeExactly`).
- The output cap always gives up one item before it tries the marker, so an item
  that would have fitted can be lost (`ShortLineLost`; exact condition in
  `KeptPrefixExact`).
- Aartech's next-page hint leads back to the same window when the URL has a fragment
  or ends in a bare `?` (`HintAdvancesExactly`). A term that cannot be conveyed does
  not always raise: it is dropped when an empty term follows it
  (`TermLostBehindEmpty`) or when the query already addresses another control
  (`TermArrives`).

## Model

| member | source | states |
|---|---|---|
| `Slots.SlotHandle.Transfer` | src/fetchaller/content/_slots.py:42-45 | hands the release to a thread: from then on the owner's release is silent |
| `Slots.SlotHandle.Untransfer` | src/fetchaller/content/_slots.py:47-51 | gives the right back to the owner, unless the slot is already released |
| `Slots.SlotHandle.Release` | src/fetchaller/content/_slots.py:53-59 | adds one permit exactly when neither released nor transferred, and marks the slot released; otherwise changes nothing |
| `Slots.SlotHandle.ReleaseFromThread` | src/fetchaller/content/_slots.py:61-72 | posts one release to an open loop exactly when not yet released; a closed loop drops it |
| `Isolated.SharedState.PublishStart` | src/fetchaller/content/_isolated.py:119-133 | records how the start went; the start thread gets the cleanup exactly when cancelled and unclaimed |
| `Isolated.SharedState.PublishCancel` | src/fetchaller/content/_isolated.py:191-201 | records the cancellation; the owner gets the cleanup of a started child, or the slot of a failed start, exactly when unclaimed |
| `IsolatedSafety.PermitsConserved` | src/fetchaller/content/_isolated.py:79-294 | over every interleaving of any number of calls, with no hypothesis: free, held, posted and lost permits add up to two, permits are lost only to a closed loop, no call releases twice |
| `IsolatedSafety.CleanupClaimedOnce` | src/fetchaller/content/_isolated.py:118-140 | a cleanup claimed by the start thread is never also run, handed on or returned by the owner, and an owner still awaiting the start never meets the answer False, so line 213 is unreachable |
| `IsolatedSafety.ReapBeforeRelease` | src/fetchaller/content/_isolated.py:25-30 | when stops reap and the final one is not cancelled, every live child is covered by a permit its call has not given back, so at most two live at once, whatever is cancelled or fails to start |
| `IsolatedProgress.RunsAreBounded` | src/fetchaller/content/_isolated.py:175-257 | no schedule of n calls has more than 180 n + 1 steps |
| `IsolatedProgress.QuietIsDrained` | src/fetchaller/content/_isolated.py:184-206 | when submitted start jobs run and the loop stays open, a schedule with nothing left to do has both permits back and every call that got one gave it back exactly once |
| `IsolatedCauses.DrainedExactly` | src/fetchaller/content/_isolated.py:175-206 | with no hypothesis, an open pool with nothing left to do is short by exactly the number of dropped start jobs, every other call that got a permit gave it back exactly once, and both permits are back if and only if the run cancelled no queued start job |
| `IsolatedCauses.ReapedExactly` | src/fetchaller/content/_isolated.py:235-257 | when stops that run reap, a call has a live child behind a returned permit if and only if its owner is done, kept the slot and its stop job has not run; and the run did that if and only if it cancelled the final stop's await and released before that stop ran |
| `IsolatedCauses.AbandonedOnlyAfter` | src/fetchaller/content/_isolated.py:235-257 | a child is only abandoned that way after a normal end, or when a cancelled owner could not start its cleanup thread |
| `IsolatedCauses.HowCallsEnd` | src/fetchaller/content/_isolated.py:175-259 | a finished call that ended normally left only after its stop ran or the await of it was cancelled; one cancelled while serving had started a cleanup thread or failed to; one that saw its start fail left only after that stop ran or was cancelled |
| `IsolatedCauses.AnythingMayFail` | src/fetchaller/content/_isolated.py:96-257 | every await of the owner can be cancelled, and every thread, process and pipe can fail to start, with or without a child left behind |
| `IsolatedCauses.StopsMayNotReap` | src/fetchaller/content/_isolated.py:70-102 | behind every stop the child is alive exactly when it was and was not reaped |
| `IsolatedCauses.ClosedLoopIsDead` | src/fetchaller/content/_slots.py:61-72 | once the loop is closed no permit returns to the semaphore and no release is queued |
| `IsolatedHypotheses.DroppedJobLeaks` | src/fetchaller/content/_isolated.py:176-206 | a run of one call that leaves the pool one permit short, by a dropped start job alone |
| `IsolatedHypotheses.CancelledStopUnbounded` | src/fetchaller/content/_isolated.py:235-257 | for every n, a run by cancelled final stops alone that leaves n children alive with both permits free |
| `Token.MTopClient.SetTokenCookie` | src/fetchaller/aliexpress/mtop.py:199-211 | installs a well-formed, different cookie under a new generation and reports it; leaves everything alone otherwise |
| `Token.MTopClient.ClearTokenIfCurrent` | src/fetchaller/aliexpress/mtop.py:223-232 | clears the token under a new generation exactly when the expected generation is still current |
| `Token.CookieParsesExactly` | src/fetchaller/aliexpress/mtop.py:51-59 | a cookie gives a token if and only if it is 1 to 128 letters and digits, an underscore and 10 to 16 digits, and then it gives that first part |
| `Mtop.GenerationIdentifiesToken` | src/fetchaller/aliexpress/mtop.py:199-232 | the generation never falls, and two moments of a run with equal generation have the same token, cookie and time |
| `Mtop.StaleStepClearsExactly` | src/fetchaller/aliexpress/mtop.py:223-461 | a step of an operation not begun under the current generation never installs a token, and clears it if and only if it ends a recovery as solved while the token is unexpired and the cookie jar does not carry it; every other late answer is inert |
| `Mtop.LateSolveClearsNewer` | src/fetchaller/aliexpress/mtop.py:447-461 | a reachable run of two requests in which a solve begun under generation 1 clears the token installed as generation 2 |
| `Mtop.CurrentAnswerExactly` | src/fetchaller/aliexpress/mtop.py:199-331 | an answer to an operation of the current generation installs the cookie it delivers, unless it is the very one refused; without one, the token is dropped if and only if it was refused, or a solve left an unexpired one the jar does not carry |
| `Mtop.RefusedTokenIsDropped` | src/fetchaller/aliexpress/mtop.py:417-428 | in every reachable state, after an answer that refuses the first token the generation is past the one it was signed under, and a bootstrap comes next |
| `Mtop.SecondSendIsNewer` | src/fetchaller/aliexpress/mtop.py:417-428 | in every reachable state, a send that follows a refusal is signed under a newer generation than the first |
| `Mtop.RequestEndsExactly` | src/fetchaller/aliexpress/mtop.py:430-469 | a request ends if and only if it is aborted, answered, blocked without means of recovery, or its recovery fails; otherwise a blocked answer leads to the issued challenge, or to priming when there is none and a solver |
| `Mtop.OperationsBeginHonestly` | src/fetchaller/aliexpress/mtop.py:234-394 | every operation captures the current generation and signs with its token; a bootstrap starts only for a token absent or over an hour old, a send skips it only for a younger one, and no recovery starts that another request has completed |
| `Mtop.AbortLeavesNoLock` | src/fetchaller/aliexpress/mtop.py:182-197 | a request can be aborted at every await, and then holds no lock and has not touched the token |
| `Mtop.RecoveryIsShared` | src/fetchaller/aliexpress/mtop.py:286-335 | however many callers queue, each observed recovery generation has exactly one successful solve, and neither two solves nor two bootstraps are ever in flight together |
| `Mtop.RequestIsBounded` | src/fetchaller/aliexpress/mtop.py:396-469 | one request makes at most three signed sends and starts at most one recovery |
| `Mtop.RetryIsSigned` | src/fetchaller/aliexpress/mtop.py:447-467 | the send after a recovery is signed with the current token, which is present and unexpired |
| `Mtop.RequestsEnd` | src/fetchaller/aliexpress/mtop.py:182-197 | n requests take at most 12 n steps, and while one is unfinished some request can move without being aborted: the locks never deadlock |
| `CacheControl.CachePolicy` | src/fetchaller/cache/response_cache.py:190-242 | the loop agrees with the policy read off the set of directives |
| `CacheHeaders.WrittenIsRead` | src/fetchaller/cache/response_cache.py:203-232 | a directive in any case, with any spaces, is read for what is written: restricting, an age with that clamped number bare or quoted, or a garbled age |
| `CacheHeaders.FieldMeans` | src/fetchaller/cache/response_cache.py:190-242 | a written field refuses if and only if a directive is private, no-cache or no-store, or an age is garbled or zero, or two of a kind differ; it grants n if and only if it does not refuse and s-maxage, or max-age in its absence, states n |
| `CacheHeaders.ForbiddenFieldRefuses` | src/fetchaller/cache/response_cache.py:208-211 | a field with such a directive anywhere, between any texts, is never stored |
| `CacheControl.OrderFree` | src/fetchaller/cache/response_cache.py:202-242 | headers with the same directives, in any order and any number of copies, have the same policy |
| `CacheControl.FailClosed` | src/fetchaller/cache/response_cache.py:194-197 | a refused header stays refused whatever is appended or prepended |
| `CacheControl.SharedAgeOverrides` | src/fetchaller/cache/response_cache.py:238-242 | an accepted s-maxage decides the lifetime, max-age only in its absence (section 5.2.2.10 of RFC 9111) |
| `CacheControl.GrantedAgeIsStated` | src/fetchaller/cache/response_cache.py:217-232 | a granted lifetime is positive, at most 2^31, and is the clamped value of a directive of the header |
| `CacheControl.ClampExact` | src/fetchaller/cache/response_cache.py:221-229 | the length-based clamp equals min(value, 2^31) if and only if at most ten characters are left behind the ASCII zeros or the number really reaches 2^31 |
| `CacheControl.ClampOnAscii` | src/fetchaller/cache/response_cache.py:221-229 | on ASCII digits of any length the clamp is min(value, 2^31) (section 1.2.2 of RFC 9111) |
| `CacheControl.ClampOvershoots` | src/fetchaller/cache/response_cache.py:224-229 | ten or more non-ASCII zeros before a five are read as 2^31 instead of 5 |
| `ResponseCache.Cache.Get` | src/fetchaller/cache/response_cache.py:79-99 | answers the unexpired entry and makes it most recently used; drops an expired one; changes nothing on a miss |
| `ResponseCache.Cache.Set` | src/fetchaller/cache/response_cache.py:101-188 | a rejected response removes its URL; an accepted one replaces it as most recently used, after purging the expired and, if still full, evicting the least recently used |
| `ResponseCache.Cache.Invalidate` | src/fetchaller/cache/response_cache.py:244-246 | removes that URL and keeps every other entry in order |
| `ResponseCache.Cache.Clear` | src/fetchaller/cache/response_cache.py:248-250 | leaves nothing |
| `ResponseCache.Admit` | src/fetchaller/cache/response_cache.py:124-165 | the chain of early returns gives the lifetime of an accepted response and nothing for a rejected one |
| `ResponseCache.PurgeExpired` | src/fetchaller/cache/response_cache.py:174-177 | listing the expired keys and deleting them one by one keeps exactly the unexpired entries, in order |
| `CacheAdmission.SetThenGet` | src/fetchaller/cache/response_cache.py:67-188 | after a set, exactly the response is hit, exactly until the smaller of the requested and the origin's lifetime is over, if and only if it may be kept: finite, unvarying, permitted, positive, of a kept type and address, and small enough |
| `CacheAdmission.DisplacesExactly` | src/fetchaller/cache/response_cache.py:167-180 | a stored response displaces another entry if and only if the cache is full of others and that entry has expired, or none has and it is the least recently used |
| `CacheAdmission.SizeAdds` | src/fetchaller/cache/response_cache.py:158-161 | the size of a text is that of its parts, one to four bytes a character |
| `CacheLaws.ApplyKeepsSound` | src/fetchaller/cache/response_cache.py:170-188 | every operation keeps URLs distinct and the size at most `max_entries` |
| `CacheLaws.LruStackDistance` | src/fetchaller/cache/response_cache.py:86-99 | a touched URL still hits before its expiry, through any spared operations, while fewer than `max_entries` distinct other URLs were touched since |
| `CacheLaws.RefreshEvictsNothing` | src/fetchaller/cache/response_cache.py:167-170 | refreshing a stored URL, even in a full cache, evicts no other entry |
| `CacheLaws.CacheWithinStore` | src/fetchaller/cache/response_cache.py:79-188 | after any operations the cache holds only what an unbounded, never-expiring store holds, entry for entry |
| `CacheLaws.StoreIsLatest` | src/fetchaller/cache/response_cache.py:101-188 | that store holds an entry for a URL exactly when it comes from the latest operation that decided about the URL, and that was an accepted set |
| `CacheLaws.HitIsLatestSet` | src/fetchaller/cache/response_cache.py:86-188 | a hit is unexpired, carries the content of the latest set of its URL, which was accepted, and lives no longer than the requested lifetime and the origin's |
| `CacheLaws.RejectedSetLeavesAbsent` | src/fetchaller/cache/response_cache.py:130-165 | a rejected set leaves its URL absent, whatever was stored before |
| `RateLimiter.DomainRateLimiter.DeferFor` | src/fetchaller/ratelimit.py:37-43 | the backoff only moves later, and nothing else changes |
| `RateLimiter.DomainRateLimiter.BeginWait` | src/fetchaller/ratelimit.py:52-60 | a waiter inside the lock gets one spacing target from the last pass, zero before the first |
| `RateLimiter.DomainRateLimiter.Recheck` | src/fetchaller/ratelimit.py:61-69 | passes exactly when spacing and backoff have both come, and otherwise sleeps for what is missing of the later one |
| `RateLimiter.WindowBound` | src/fetchaller/ratelimit.py:45-69 | for any waiters, delays, cancellations and backoffs, a window of length W holds at most 1 + floor(W / (min_interval + jitter_min)) passes |
| `RateLimiter.BackoffHolds` | src/fetchaller/ratelimit.py:61-69 | from any state, no new pass is stamped before a time the backoff has reached |
| `RateLimiter.DeferredWaitersWait` | src/fetchaller/ratelimit.py:37-69 | after `defer(s)` at time d nobody passes before d + s, not even a waiter already asleep |
| `RateLimiter.DomainRateLimiter.Abandon` | src/fetchaller/ratelimit.py:52-69 | a waiter cancelled inside the lock leaves it without a pass and without touching the last pass or the backoff |
| `RateLimiter.TurnIsShort` | src/fetchaller/ratelimit.py:52-69 | a waiter that looks when its sleep is over looks at most twice, and once more per `defer` that moved the backoff; it passes on a look no later after its entry, spacing target and the backoff than its sleeps overran |
| `RateLimiter.ExtraDelayHonoured` | src/fetchaller/ratelimit.py:45-60 | behind an earlier pass a waiter passes at most once in its turn, and no sooner than base interval, its own extra delay and its jitter after that pass |
| `RateLimiter.BackoffIsLatest` | src/fetchaller/ratelimit.py:37-43 | the backoff is the latest end of all deferrals, negative ones counting as none, and nothing later |
| `RateLimiter.LockIsFreeAgain` | src/fetchaller/ratelimit.py:52-69 | behind a waiter that passed or gave up the next may enter at once, and giving up changes no pass and no backoff |
| `JsonExtract.Extract` | src/fetchaller/content/_json_extract.py:37-67 | the loop hands over the shortest complete prefix of the window, or nothing |
| `JsonExtract.ShortestMeans` | src/fetchaller/content/_json_extract.py:54-66 | what is handed over is a complete string-aware balanced prefix of the window and none shorter is; nothing is handed over exactly when no prefix is complete |
| `JsonExtract.ObjectIsComplete` | src/fetchaller/content/_json_extract.py:41-58 | every object of the JSON grammar, however spaced, escaped and nested, is complete and no proper prefix of it is |
| `JsonExtract.ScannerUndoesPrinter` | src/fetchaller/content/_json_extract.py:26-67 | for every JSON object in every spelling and any text around it, what reaches the decoder is exactly the object when it fits in `max_scan`, and nothing when it does not |
| `HtmlText.StripMarkup` | src/fetchaller/content/_html_text.py:6-40 | the loop computes the stripped text and examines at most twelve characters per input character, also for unterminated openers |
| `HtmlText.NextPiece` | src/fetchaller/content/_html_text.py:20-39 | one turn appends the right text, moves the cursor on, and looks at no more than nine characters for each it advances |
| `HtmlText.NothingLeft` | src/fetchaller/content/_html_text.py:26-40 | in the output no `>` follows a `<` and no `-->` remains |
| `HtmlText.StripIsIdempotent` | src/fetchaller/content/_html_text.py:6-40 | stripping twice is stripping once |
| `HtmlLayout.StripUndoesPrinter` | src/fetchaller/content/_html_text.py:6-40 | however text, tags and comments are laid out, with a tag or comment left open behind them or not, the result is the text with one space per tag or comment if and only if that holds no comment closer, and otherwise that with its closers replaced |
| `HtmlLayout.EveryTextIsLaidOut` | src/fetchaller/content/_html_text.py:18-39 | every input is such a layout |
| `HtmlLayout.CloserBecomesSpace` | src/fetchaller/content/_html_text.py:40 | the first comment closer becomes one space, and text before it is untouched |
| `Jobfilter.StemLoop` | src/fetchaller/jobfilter.py:268-277 | the nested loop ends and computes the stem |
| `Jobfilter.StemMeans` | src/fetchaller/jobfilter.py:268-277 | a stem is a prefix of its word, at least four characters unless it is the word, no suffix can be taken off it, and stemming it again changes nothing |
| `Jobfilter.StemmingWidens` | src/fetchaller/jobfilter.py:54-76 | every title that matches the wanted tokens matches their stems |
| `Jobfilter.FindAllJoin` | src/fetchaller/jobfilter.py:47-51 | words joined by spaces are tokenized back into the same words |
| `Jobfilter.BroadenedTokens` | src/fetchaller/jobfilter.py:476-493 | the tokens of a broadened query are the stems of the title's tokens, less any that are stopwords |
| `Jobfilter.BroadeningStops` | src/fetchaller/jobfilter.py:476-493 | broadening a broadened query yields nothing |
| `JobfilterLaws.WordsOfText` | src/fetchaller/jobfilter.py:26-51 | any character but a letter, digit, plus or hash separates, a run of those is one word, and twelve words carry no signal; this determines the words of every text |
| `JobfilterLaws.HitExactly` | src/fetchaller/jobfilter.py:54-61 | two words meet if and only if they are equal, or one is a prefix of the other and neither is shorter than four |
| `JobfilterLaws.SuffixDoesNotMatter` | src/fetchaller/jobfilter.py:262-277 | a word of four characters or more has the same stem with any of the four suffixes behind it |
| `JobfilterLaws.StemChangesExactly` | src/fetchaller/jobfilter.py:268-277 | a word is its own stem if and only if it is no such word with a suffix behind it |
| `JobfilterLaws.BroadensExactly` | src/fetchaller/jobfilter.py:476-493 | a title broadens if and only if one of its words carries such a suffix |
| `Locations.CountryVariants` | src/fetchaller/jobfilter.py:122-136 | the loops list exactly the wanted words with at most one country spelling replaced by another of the same country |
| `Locations.LocationMatches` | src/fetchaller/jobfilter.py:79-107 | answers true exactly when nothing is wanted, or the value has words and some respelling of the wanted words is hit by them and by the spellings its subdivisions imply |
| `LocationLaws.ExtendedExactly` | src/fetchaller/jobfilter.py:98-103 | the words searched are the value's own and those of every spelling of each implied country, and no others |
| `LocationLaws.ImpliedCountryMatches` | src/fetchaller/jobfilter.py:91-107 | a value that implies a country answers every spelling of it |
| `LocationLaws.ImplyingOnlyWidens` | src/fetchaller/jobfilter.py:101-107 | what the words alone answer is answered with any countries implied, too |
| `LocationLaws.OwnWordsMatch` | src/fetchaller/jobfilter.py:79-107 | a value answers any place whose words are among its own |
| `LocationLaws.EmptyCases` | src/fetchaller/jobfilter.py:96-100 | an empty wish is always met, and a value without words meets no other |
| `LocationLaws.SubdivisionAnswersCountry` | src/fetchaller/jobfilter.py:91-107 | a value that names subdivisions of one country only, with nothing against it, implies that country alone and answers every spelling of it |
| `Locations.SpellingsInterchange` | src/fetchaller/jobfilter.py:85-107 | inside any longer place that names one country, each spelling of that country gives the same answer for every value |
| `Locations.CountryNamesInterchange` | src/fetchaller/jobfilter.py:85-136 | where no spelling of another country occurs inside this one's, all its spellings are one constraint, for every value |
| `Locations.SpellingsAgreeExactly` | src/fetchaller/jobfilter.py:79-136 | two ways to write a place, with nonempty variants whose words hit each other only as equals, give the same answer for every value if and only if every variant of either contains, as words, some variant of the other |
| `Locations.TwoCountriesDiffer` | src/fetchaller/jobfilter.py:126-135 | with a second country among the wanted words the spelling changes the answer |
| `Locations.NamedSubdivisions` | src/fetchaller/jobfilter.py:420-425 | the window scan finds exactly the countries of the subdivisions named in the value |
| `Locations.ImpliedCountries` | src/fetchaller/jobfilter.py:403-441 | never more than one country: the unique one that everything the value says allows, else the one all its subdivision readings agree on |
| `LocationLaws.NamedCountryImplied` | src/fetchaller/jobfilter.py:420-441 | subdivision names of one country, with no abbreviation against it, imply that country alone |
| `LocationLaws.SingleAbbreviation` | src/fetchaller/jobfilter.py:411-441 | of one abbreviation the subdivision reading counts, and the country reading only in its absence |
| `LocationLaws.NeighbourSettles` | src/fetchaller/jobfilter.py:406-409 | a neighbour with one reading settles an abbreviation that could be read that way, in either order |
| `JobSearch.SearchPages` | src/fetchaller/amazon_jobs/api.py:165-191 | the paging loop returns the first `limit` postings of what the board serves, with the first page's total, and fails only if a page it needed raises |
| `JobSearchLaws.WalkExactly` | src/fetchaller/amazon_jobs/api.py:165-191 | a walk goes through full pages up to the first that is not; it fails if and only if that page raises while postings are still wanted, and otherwise returns the first `limit` postings up to and with it, and the first page's total |
| `JobSearch.WalkTruncates` | src/fetchaller/amazon_jobs/api.py:165-191 | a walk for fewer postings succeeds whenever the longer one does and returns its truncation |
| `JobSearch.Merge` | src/fetchaller/amazon_jobs/search.py:111-116 | the merge loop appends the new postings of the wider query, each key once |
| `JobSearch.NewJobsMeans` | src/fetchaller/amazon_jobs/search.py:111-116 | merging adds nothing foreign, repeats no key among what it adds and loses no key |
| `JobSearch.SearchAmazon` | src/fetchaller/amazon_jobs/search.py:86-158 | the whole pipeline gives the reported outcome: what is shown and where every other posting went |
| `JobSearchLaws.AmazonFinds` | src/fetchaller/amazon_jobs/search.py:86-158 | the search shows only postings of its passes that satisfy title and place; unless the limit cut some off it shows every one of the first pass, and for every posting of the wider pass one with the same key that was examined, if that satisfies them; the count is the larger of the passes' |
| `JobSearch.SearchApplePages` | src/fetchaller/apple_jobs/api.py:214-293 | the pages answer exactly when the JSON interface found nothing and they found something |
| `JobSearch.SearchApple` | src/fetchaller/apple_jobs/search.py:94-148 | the same pipeline with the filter for a location the board could not resolve |
| `JobSearchLaws.AppleFinds` | src/fetchaller/apple_jobs/search.py:89-148 | the same for the Apple search |
| `JobSearchLaws.PagesStandIn` | src/fetchaller/apple_jobs/api.py:232-243 | when the JSON interface knows nothing, the pages give the postings and the total an interface with those pages would |
| `JobSearchLaws.ShowsWhatIsAskedFor` | src/fetchaller/amazon_jobs/search.py:55 | on a board of acceptable postings, 25 are shown for a limit of 0, and otherwise the limit held to 1 to 100 |
| `JobSearch.CountsReconcile` | src/fetchaller/amazon_jobs/search.py:119-158 | shown, truncated and dropped add up to examined; everything shown passes the filters; with nothing truncated, everything that passes is shown |
| `JobSearch.AmazonLimitTruncates` | src/fetchaller/amazon_jobs/search.py:86-144 | on a fixed board a smaller limit shows the truncation of what a larger one shows, through paging, widening, merge and both filters |
| `JobSearch.AppleLimitTruncates` | src/fetchaller/apple_jobs/search.py:89-135 | the same through the fallback, unless an unresolved location is filtered without a title filter |
| `JobSearch.AppleLimitIsPrefix` | src/fetchaller/apple_jobs/search.py:94-135 | in every case a smaller limit shows a prefix of what a larger one shows |
| `JobSearch.AppleTruncatesExactly` | src/fetchaller/apple_jobs/search.py:89-135 | for any two limits that differ, a smaller one truncates what a larger one shows on every board if and only if the title is filtered, no location is asked for, or the board resolved it |
| `JobSearch.FarShows` | src/fetchaller/apple_jobs/search.py:94-128 | on a board with n postings elsewhere and then one nearby, an unresolved location shows the nearby one exactly when the limit exceeds n |
| `JobSearch.EffectiveOrder` | src/fetchaller/amazon_jobs/search.py:55 | effective limits are ordered as requested ones unless the smaller is 0 and the larger between 1 and 24 |
| `JobSearch.AmazonPrefixExact` | src/fetchaller/amazon_jobs/search.py:55-144 | for any query some posting satisfies, the prefix property holds on every board if and only if the effective limits are ordered |
| `JobSearch.ApplePrefixExact` | src/fetchaller/apple_jobs/search.py:79-135 | the same for the Apple search with its fallback |
| `PriceTiers.NormalizedPriceTiers` | src/fetchaller/alibaba/product.py:148-186 | the two loops and the sort compute the greedy chain of the valid candidates |
| `PriceTiers.CandidateExactly` | src/fetchaller/alibaba/product.py:113-167 | a raw tier is valid if and only if its minimum is a positive integer, its upper end is open (absent, empty, 0 or -1) or an integer not below it, and its price is positive |
| `PriceTiers.LoneTierStays` | src/fetchaller/alibaba/product.py:151-186 | a valid tier alone is the answer, and only the first twenty raw tiers are looked at |
| `PriceTiers.SortMeans` | src/fetchaller/alibaba/product.py:181 | the sort is a permutation in order of minimum and keeps the order of equal minima |
| `PriceTiers.TiersAreMaximalChain` | src/fetchaller/alibaba/product.py:148-186 | the tiers are strictly sorted, pairwise disjoint, all valid candidates, and every valid candidate among the first twenty is kept or overlaps a kept tier starting no later |
| `PriceTiers.OneTierPerQuantity` | src/fetchaller/alibaba/product.py:432-446 | any order quantity lies in at most one tier |
| `PriceTiers.NormalizingIsIdempotent` | src/fetchaller/alibaba/product.py:148-186 | normalizing the normalized tiers changes nothing |
| `BoundedOutput.Assemble` | src/fetchaller/alibaba/product.py:387-406 | keeping the length as a running number through appends and pops gives the same output as measuring the joined text at every step |
| `BoundedOutput.MakeRoom` | src/fetchaller/alibaba/product.py:393-401 | the popping loop stops at the longest shorter prefix with room for the marker, or at nothing |
| `BoundedOutput.LengthIsJoined` | src/fetchaller/content/aliexpress.py:497-521 | the accounted length is the length of the joined text |
| `BoundedOutput.JoinedConcat` | src/fetchaller/alibaba/product.py:406 | joining two lists puts one separator between them |
| `BoundedOutput.CapHolds` | src/fetchaller/alibaba/product.py:387-406 | with a start and marker that fit, the output fits |
| `BoundedOutput.MarkerMeansOmission` | src/fetchaller/alibaba/product.py:384-406 | items that fit are all there without a marker; otherwise a proper prefix of them is, and then the marker |
| `BoundedOutput.KeptPrefixExact` | src/fetchaller/alibaba/product.py:393-405 | the kept prefix is the longest that leaves room for the marker if and only if the marker would not have fitted behind all items appended |
| `BoundedOutput.ShortLineLost` | src/fetchaller/alibaba/product.py:393-405 | a short line that fits together with the marker is lost with the long one behind it |
| `BoundedOutput.ProductOutput` | src/fetchaller/alibaba/product.py:384-406 | the product text is the stripped, joined output and never exceeds 100,000 characters |
| `BoundedOutput.SearchOutput` | src/fetchaller/content/aliexpress.py:483-521 | the search text is header and joined output of the first sixty products, numbered across pages, and never exceeds 100,000 characters when header and marker fit |
| `BoundedOutput.NumberedAcrossPages` | src/fetchaller/content/aliexpress.py:500-505 | at most sixty products are listed, numbered on from page to page |
| `Aartech.ResolveWindow` | src/fetchaller/aartech/api.py:193-215 | the last `page` and the last `limit` decide the window, whatever the earlier ones said, with defaults for unreadable ones |
| `Aartech.NormalizeQuery` | src/fetchaller/aartech/api.py:218-258 | the loop keeps every segment but limits and terms, in order, adds the control for the last term and the clamped limit; it fails if and only if the last term is not empty and the page names no control |
| `Aartech.WindowSurvives` | src/fetchaller/aartech/api.py:193-258 | for every query that normalizes, the normalized query names the same window |
| `Aartech.NormalizingIsIdempotent` | src/fetchaller/aartech/api.py:218-258 | a normalized query normalizes to itself, whatever control the page names then |
| `Aartech.TermArrives` | src/fetchaller/aartech/api.py:247-256 | no term key is ever sent, and a nonempty last term is sent as this page's control if and only if the caller had written no other control |
| `AartechLaws.TermGiven` | src/fetchaller/aartech/api.py:230-243 | a term added under any of the six names, in any case, is the term of the query, and is not carried through |
| `AartechLaws.TermAlone` | src/fetchaller/aartech/api.py:218-258 | a term alone is sent as this page's control with the default limit |
| `AartechLaws.OthersCarriedThrough` | src/fetchaller/aartech/api.py:232-245 | every other parameter except the limit is carried through as written |
| `AartechLaws.WindowGiven` | src/fetchaller/aartech/api.py:199-215 | an added limit is held to 1 to 100, an added page to at least 1, and what is no number falls back to 24 and 1 |
| `AartechLaws.ControlsExactly` | src/fetchaller/aartech/api.py:253-256 | a caller's control is a segment that begins with `controls[` in any case, the bracket written or escaped |
| `Aartech.FilteredExactly` | src/fetchaller/aartech/api.py:229-256 | the query sent addresses some control, instead of the whole catalogue, if and only if the last term is not empty or the caller wrote a control |
| `Aartech.TermLostBehindEmpty` | src/fetchaller/aartech/api.py:242-247 | a real term followed by an empty one silently asks for the whole catalogue |
| `Aartech.HintAdvancesExactly` | src/fetchaller/aartech/search.py:130-140 | the hinted URL names the next page at the same limit if and only if the URL has no fragment and no bare `?` at its end; else it names the same window again |
| `Aartech.HintsReachEveryRow` | src/fetchaller/aartech/search.py:111-141 | given a server that fills each window, following the hints shows every row from the first page's offset to the total, in order and exactly once, and then stops |
| `AartechLaws.RemainingIsWhatFollows` | src/fetchaller/aartech/search.py:112-137 | the number said to be still to come is the number of rows that following the hint then shows |

## Left out

- CountryNamesInterchange: its hypothesis on the spelling tables is sufficient; what is also necessary is `SpellingsAgreeExactly`.
- SpellingsInterchange: likewise sufficient.
- SpellingsAgreeExactly: where a word of one variant is a long enough prefix of a different word of another, agreement can also come from those hits; the condition does not describe that case.
- WindowBound: assumes a monotone positive clock, delays that are not negative and jitter inside its range.
- QuietIsDrained: assumes start jobs that run; `DrainedExactly` does not, and both assume an open loop.
- ReapBeforeRelease: assumes a final stop whose await is not cancelled; `ReapedExactly` does not, and both assume that a stop that runs reaps.
- TurnIsShort: how far a sleep overruns is a parameter, as is the order in which waiters get the lock.
- Parser processes beyond "alive" and "reaped": pipes, worker limits, polling, the payload of a result.
- The order in which the semaphore serves its waiters, and limiter waiters that are not yet inside the lock.
- HTTP sessions, browser solving, the cookie jar and signatures: what comes back is an arbitrary input, the jar is read once per step, and an expired deadline is an abort.
- The cache's hashing of keys: URLs are the keys. Clock readings are arbitrary reals, so float rounding is not modelled.
- Case mapping and white space beyond ASCII and Latin-1, and digits beyond five decimal blocks.
- Unicode and case folding of titles and places: texts enter the model after both.
- `json.loads` behind the brace scanner, including its rejection of non-finite numbers.
- Regular expressions, `str.find` and `str.replace` are modelled by naive scans; the cost bound of the stripper counts every character such a scan compares.
- The contents of the country and subdivision tables, the price-text checks and the text clean-up: parameters with stated hypotheses.
- `strip_country_tokens`, `counts_line`, `country_alpha3` and all rendering: finite lookups and text assembly.
- Resolving a location through the boards' own vocabularies: a posting's place test and whether the board took the location are inputs of a query.
- Percent-decoding and `int` in the Aartech client: given functions that leave plain text alone and read back what `str` writes. `urlparse` is cut down to the first `#` and the first `?`.
- URL allowlists, credentials and other security checks, configuration, tool schemas and live scripts: long but shallow, they would only add easy members.
