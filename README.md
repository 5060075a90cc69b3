# Match engine of facebook-bot-saas, in Dafny

This project models the scheduled jobs of the football bot in
`app/tasks.py` and the Fedapay plan table of `app/plans.py`, and proves
properties about them.

The jobs covered are:

- **`run_centralized_checks`**, in two phases.
  - The live phase scrapes the live listing into a snapshot of match
    records and compares each record with the stored one. It announces
    now-live, half-time, goal and disallowed-goal events, then saves the
    snapshot.
  - The finished phase announces every ended match whose id was never
    published, then saves the set of published ids.
- **`post_live_scores_summary`** publishes a digest of the matches in
  progress.
- **`publish_news_for_business_users`** publishes unpublished articles,
  oldest first, and records each URL after it is announced.
- **`check_expired_subscriptions`** and **`run_daily_renewals`** update
  the user table.
- **`broadcast_to_facebook`** stores each message in the history, then
  makes one posting attempt per page. A failed attempt does not stop the
  others.

Module layout:

- `Text`: the Python string operations the code relies on (`strip`,
  `in`, `split`, `join`, `lower`, `int`), with Python's semantics.
- `Plans`: the plan table.
- `Records`: turning a row into a record and a listing into a snapshot,
  the statistics URL and block, and article truncation.
- `LiveDiff`: the event a fresh record raises against the stored one, the
  message it renders to, and the announcements of one live cycle.
- `Announcer`: the posting log.
- `Finished`, `News`, `Summary`, `Subscriptions`: one job each, as pure
  specification functions.
- `Engine.Bot`: a class holding the durable state. That state is the live
  store, the published finished ids, the published news URLs, the user
  table, the broadcast history and the posting log. Each job is a method
  with loops, proved to leave exactly the state its specification
  function describes.

Everything the jobs read from the outside is a parameter:

- a `Web` value gives the statistics page, the goal details and the
  penalty score of a match URL;
- `deliver` tells whether posting a message on a page succeeds;
- `charge` tells whether a Fedapay charge is approved;
- the clock is an `int`;
- a scraped page is an `Option`, which is `None` when loading fails.

Behaviour of the code that the model keeps, some of it surprising:

- A live fetch that fails returns an empty dictionary, and the job saves
  it. The store is therefore cleared, and every match on the clock is
  re-announced as now-live on the next cycle
  (`LiveDiff.EmptyStoreAnnouncesAllLive`).
- When both scores rise between two fetches, only one goal is announced,
  credited to the home side (`LiveDiff.GoalOnRise`).
- Suppose a row of the results page has no minute cell. Its lookup raises
  outside the per-row handler, so the rest of the phase is skipped and the
  ids published during that run are not saved. Those matches are announced
  again on the next cycle (`Finished.MissingCellStops`,
  `Engine.Bot.FinishedCycle`).
- An article listed twice in one scrape is announced twice. Recording its
  URL the second time breaks the unique constraint on `article_url`
  (`app/models.py:89`), and the job stops there
  (`News.DuplicateAnnouncedTwice`).
- The summary job keeps no hash of its last digest. It publishes whenever
  a match is in progress.
- The expiry sweep filters on `subscription_expires_at`, a column that
  `app/models.py` does not declare. Here the model gives the intended
  sweep, not the code as written (see `Engine.Bot.ExpireSubscriptions`
  under "## Left out").

## Model

| member | source | states |
|---|---|---|
| Text.Strip | app/tasks.py:97-98 | the result has no whitespace at either end and uses only characters of the input; `Text.StripPadded` and `Text.StripUnique` fix its value |
| Text.StripPadded | app/tasks.py:97-98 | the stripped text sits in the input with only whitespace before and after it, has no whitespace at either end, and is empty exactly when the input is all whitespace |
| Text.StripUnique | app/tasks.py:97-98 | any infix with those three properties is the stripped text, so they determine it |
| Text.StripIdempotent | app/tasks.py:369 | stripping twice is stripping once |
| Text.StripNoSpace | app/tasks.py:97-98 | a text without whitespace is unchanged by strip |
| Text.IndexOf | app/tasks.py:429 | the first occurrence of the needle, or none when it does not occur at all |
| Text.ContainsChar | app/tasks.py:429 | the substring test on a one-character needle is membership of that character |
| Text.Split | app/tasks.py:430-431 | joining the pieces with the separator gives back the input, and no piece contains the separator (the split point is fixed by `Text.SplitLeftmost`) |
| Text.SplitLeftmost | app/tasks.py:430-431 | the first piece is what precedes the first occurrence of the separator and the rest is the split of what follows it; without an occurrence the input stays whole |
| Text.SplitWithout | app/tasks.py:130 | a text without the separator splits into itself alone |
| Text.SplitPair | app/tasks.py:430-431 | two space-free pieces joined by a separator that starts with a space split back into those two pieces |
| Text.Lower | app/tasks.py:103 | no capital A-Z is left, each capital becomes its small letter, every other character is unchanged, and the length is kept |
| Text.LowerIdempotent | app/tasks.py:103 | lower-casing twice is lower-casing once |
| Text.ParseInt | app/tasks.py:430-431 | Python's `int()` on one score piece: whitespace around, an optional sign, then at least one ASCII digit, else `None` for `ValueError` (value facts: `Text.ParseDigits`) |
| Text.ContainsInfix | app/tasks.py:429 | a string placed between two others is found by `in` in the whole |
| Text.ContainsExtend | app/tasks.py:429 | what `in` finds in a string it still finds once more text follows |
| Text.StripKeepsHead | app/tasks.py:369 | `strip()` of a text that opens with a piece whose ends are not whitespace keeps that piece at its head |
| Text.ParseDigits | app/tasks.py:430-431 | `int()` of a non-empty run of ASCII digits is `Some` of its decimal value |
| Plans.LookupPlan | app/plans.py:3-8 | a plan is found exactly for the four table ids, and its plan name is pro or business |
| Plans.ExactlyFourPlans | app/plans.py:3-8 | the table has exactly the four ids |
| Plans.PlanIdShape | app/plans.py:3-8 | every id is its plan name plus `_monthly` with 30 days, or plus `_annual` with 365 days |
| Plans.PlanNameIsIdPrefix | app/plans.py:3-8 | the plan name is the part of the id before its underscore |
| Plans.MonthlyPlanExistsForEveryName | app/plans.py:3-8 | every plan name has a 30-day monthly plan of the same name |
| Records.Status | app/tasks.py:103 | the status is one of MT, TER or empty; which one is fixed by `Records.StatusCases` |
| Records.StatusCases | app/tasks.py:103 | MT exactly when "mi-temps" or "mt" occurs in the lower-cased cell; TER exactly when "ter" occurs and no half-time marker does; empty exactly when neither occurs |
| Records.StatusIgnoresCase | app/tasks.py:103 | the status does not depend on the case of the minute cell |
| Records.ClockHasNoStatus | app/tasks.py:103 | a running clock (digits and `'`) has the empty status |
| Records.HalfTimeMarker | app/tasks.py:103 | a minute cell holding "mt" in any case has status MT, whatever else it holds |
| Records.MatchKey | app/tasks.py:104 | the dictionary key of a row, `eq1 vs eq2`; by `Records.LastRowWins` and `Records.KeyUntouched` the last row with a key decides its record |
| Records.ScoreText | app/tasks.py:105 | the stored score, the two score cells around `" - "`; by `LiveDiff.ParseScoreText` two digit cells parse back to their values |
| Records.RowUrl | app/tasks.py:102 | a row has a URL exactly when its link has a non-empty href |
| Records.Lookup | app/tasks.py:412-417 | a key is found only with an entry of the snapshot, and is missing only when no entry has it |
| Records.LookupEntry | app/tasks.py:417 | in a snapshot without duplicate keys, every entry is what its key looks up |
| Records.Put | app/tasks.py:105 | storing under a new key appends the entry; storing under an existing key keeps every key in its place and every entry with another key unchanged |
| Records.PutLookup | app/tasks.py:105 | after storing, the key looks up the new record and every other key is unchanged |
| Records.PutDistinct | app/tasks.py:105 | storing keeps the keys distinct |
| Records.AbsorbLookup | app/tasks.py:104-105 | after one row is stored, its key reads its record and every other key reads what it read before |
| Records.CollectRows | app/tasks.py:95-106 | collecting rows into a dictionary keeps its keys distinct |
| Records.RowRecord | app/tasks.py:97-105 | the record of a row: score cells joined by " - ", the status of the minute cell, the minute, both teams and the URL |
| Records.LiveSnapshot | app/tasks.py:87-110 | a snapshot has distinct keys, and a failed fetch gives the empty snapshot |
| Records.LastRowWins | app/tasks.py:104-105 | a key takes the record of the last row with that key |
| Records.KeyUntouched | app/tasks.py:104-105 | a key that no row produces keeps its earlier value |
| Records.ScrapeLiveScores | app/tasks.py:87-110 | the loop over the rows builds exactly the snapshot of the page, with distinct keys |
| Records.BeforeQuery | app/tasks.py:130 | the part before the first `?`: a prefix of the URL without `?`, followed in the URL by `?` when shorter |
| Records.StatUrl | app/tasks.py:128-130 | there is a statistics URL exactly for a non-empty URL, and it is the URL without its query plus `?p=stats` |
| Records.BeforeQueryOf | app/tasks.py:130 | a query-free base followed by any query string gives back the base |
| Records.StatUrlIdempotent | app/tasks.py:128-130 | the statistics URL of a statistics URL is itself |
| Records.ArticleText | app/tasks.py:248-252 | the article text is the stripped content when it is at most 1500 characters, else its first 1500 characters plus `...` |
| Records.ArticleTextIdempotent | app/tasks.py:248-252 | truncating a truncated article changes nothing |
| Records.StatEntries | app/tasks.py:139-145 | each kept statistic is the first complete block with its title, and no title is kept twice |
| Records.StatEntriesCover | app/tasks.py:139-145 | every title of a complete block is kept |
| Records.StatsText | app/tasks.py:139-146 | the kept statistics as `title : v1 - v2` lines, each after a chart bullet, or empty without one |
| Records.CollectStats | app/tasks.py:138-146 | the loop over the blocks produces the statistics text of the page |
| LiveDiff.ParseScoreText | app/tasks.py:430-431 | a stored score made of two digit cells parses back to their values |
| LiveDiff.ParseScore | app/tasks.py:430-431 | `map(int, score.split(" - "))` unpacked into two: exactly two pieces, each an integer, else `None` for the `ValueError` the handler swallows (properties: `LiveDiff.ParseScoreText`, `LiveDiff.ParsedScoreHasDash`) |
| LiveDiff.ScoreMove | app/tasks.py:433-448 | the comparison of parsed counts: a rise on either side is a goal, credited to the home side when its count rose; else a fall is a disallowed goal; else nothing (cases: `LiveDiff.MoveCases`) |
| LiveDiff.ParsedScoreHasDash | app/tasks.py:429-431 | a score that parses is non-empty and contains a dash |
| LiveDiff.MoveCases | app/tasks.py:433-448 | a goal exactly when a count rose, credited home exactly when the home count rose; a disallowed goal exactly when no count rose and one fell |
| LiveDiff.ScoreEventParsed | app/tasks.py:429-431 | scores that parse always reach the comparison, because the guard before the parse never hides them |
| LiveDiff.ScoreEvent | app/tasks.py:426-449 | the guard on the old and new scores, the parse, and the goal or disallowed-goal decision (properties: `LiveDiff.ScoreEventParsed`, `LiveDiff.MalformedScoreSilent`) |
| LiveDiff.Derive | app/tasks.py:412-449 | the event of a fresh record against the stored one: now-live for a new key, half-time on entering MT, else the score event (properties: the lemmas below) |
| LiveDiff.DeriveParsed | app/tasks.py:419-431 | without a half-time transition, a changed score that parses on both sides is judged on the counts alone |
| LiveDiff.NewKeyOnlyNowLive | app/tasks.py:412-416 | a new match raises only now-live, exactly when it has a score and a running clock |
| LiveDiff.HalfTimeOnTransition | app/tasks.py:419-425 | half-time is announced exactly on the transition into MT, and it hides any goal |
| LiveDiff.GoalOnRise | app/tasks.py:433-445 | a goal exactly when a count rose, credited to the home side whenever its count rose |
| LiveDiff.DisallowedOnFall | app/tasks.py:446-448 | a disallowed goal exactly when no count rose and one fell, charged to the home side whenever its count fell |
| LiveDiff.MalformedScoreSilent | app/tasks.py:429-449 | a score that does not parse announces nothing |
| LiveDiff.UnchangedSilent | app/tasks.py:419-426 | an unchanged record announces nothing |
| LiveDiff.GoalAndReversal | app/tasks.py:433-448 | one more home goal is a home goal, and going back is a disallowed home goal |
| LiveDiff.ScorerName | app/tasks.py:437-443 | no scorer for a missing cell or one starting with `(`; a cell without `(` is shown as is; otherwise the stripped text before the first `(` followed by a flame; a shown name never holds `(` |
| LiveDiff.ScorerHead | app/tasks.py:440 | the text before the first `(` of a cell is the first piece of its split and holds no `(` |
| LiveDiff.GoalDetail | app/tasks.py:111-126 | the scorer cell and goal minute of the match page, none for a missing URL |
| LiveDiff.MatchStats | app/tasks.py:128-148 | the statistics text of the match's statistics page, empty without a URL or when the page fails |
| LiveDiff.GoalHeadline | app/tasks.py:434-443 | the goal line: the scorer and the team when a name is shown, the team alone otherwise (properties: `LiveDiff.GoalHeadlineNames`) |
| LiveDiff.Render | app/tasks.py:412-448 | the message of each event: clock and line, half-time with statistics (stripped), goal headline with minute and line, or the disallowed-goal text (properties: the four `Render` lemmas below) |
| LiveDiff.TeamHeadline | app/tasks.py:438 | a headline without a scorer opens with the rocket banner and names the team |
| LiveDiff.ScorerHeadline | app/tasks.py:441-442 | a headline with a scorer opens with the rocket banner and names both the scorer and the team |
| LiveDiff.GoalHeadlineNames | app/tasks.py:434-443 | the goal headline opens with the rocket banner, names the scoring team, and names the scorer when one is shown |
| LiveDiff.RenderNowLive | app/tasks.py:414-415 | a match going live is announced by its clock, then holds its `eq1 score eq2` line |
| LiveDiff.RenderHalfTime | app/tasks.py:423-425 | the half-time message opens with its banner and the match line, which survives the strip when the away name ends in a non-space character |
| LiveDiff.RenderGoal | app/tasks.py:433-445 | a goal message opens with the rocket banner and holds the scoring team, the scorer when shown, and the match line |
| LiveDiff.GoalTextNames | app/tasks.py:445 | a goal message keeps the banner, team and scorer of its headline and holds the match line |
| LiveDiff.RenderDisallowed | app/tasks.py:446-448 | a disallowed-goal message holds the team that lost the goal and the match line with the restored score |
| LiveDiff.DisallowedTextNames | app/tasks.py:447 | the disallowed-goal text holds the team and the match line |
| LiveDiff.LiveAnnouncement | app/tasks.py:412-448 | the message a fresh record announces against its stored record: none when `Derive` finds no event, else that event rendered (properties: `LiveDiff.AtMostOnePerRecord`, the `Render` lemmas) |
| LiveDiff.Announcements | app/tasks.py:409-449 | the messages of one live cycle, one per announcing record, in the order of the fresh snapshot (properties: the lemmas below) |
| LiveDiff.AtMostOnePerRecord | app/tasks.py:409-449 | a cycle announces at most one message per fresh record |
| LiveDiff.MatchingStoreSilent | app/tasks.py:409-449 | records that equal the stored ones announce nothing |
| LiveDiff.RepeatedSnapshotSilent | app/tasks.py:409-451 | against the snapshot it saved itself, a cycle announces nothing |
| LiveDiff.SameFetchTwiceSilent | app/tasks.py:406-451 | the same page fetched twice in a row announces nothing the second time |
| LiveDiff.EmptyStoreAnnouncesAllLive | app/tasks.py:406-416 | against an empty store, the announcements are the now-live messages of every match on the clock |
| Announcer.AttemptsEveryPage | app/tasks.py:184-196 | one attempt per page, in page order, whatever happened on the pages before |
| Announcer.NoPagesNoAttempts | app/tasks.py:184-186 | with no page, nothing is posted |
| Announcer.FanoutLength | app/tasks.py:188-196 | broadcasting n messages makes n attempts per page |
| Announcer.FanoutReaches | app/tasks.py:188-196 | every message is attempted on every page |
| Announcer.FanoutOnly | app/tasks.py:188-196 | every attempt is that of some message on some page |
| Announcer.FanoutCovers | app/tasks.py:188-196 | an attempt is logged if and only if it is that of a broadcast message on a page |
| Announcer.FanoutAppend | app/tasks.py:166-196 | broadcasting two batches logs the attempts of the first, then those of the second |
| Announcer.Attempts | app/tasks.py:184-196 | the attempts of one broadcast: one per active page in page order, none without a page, a failure not stopping the rest (properties: `Announcer.AttemptsEveryPage`, `Announcer.NoPagesNoAttempts`) |
| Announcer.Fanout | app/tasks.py:166-196 | the attempts of several broadcasts in a row, each broadcast's attempts after the previous one's (properties: `Announcer.FanoutLength`, `Announcer.FanoutReaches`, `Announcer.FanoutOnly`, `Announcer.FanoutAppend`) |
| Finished.FinishedMessage | app/tasks.py:465-474 | the end-of-match message: result line, shoot-out score when there is one, then the statistics, stripped (properties: `Finished.FinishedMessageOpens`) |
| Finished.Unstripped | app/tasks.py:469-474 | the text the message strips: the result line, `\n` and the shoot-out text when there is one, then a blank line and the statistics |
| Finished.UnstrippedOpens | app/tasks.py:469-474 | stripping keeps the headline whose ends are not whitespace, and the shoot-out line after it when that line ends in a non-space character |
| Finished.FinishedMessageOpens | app/tasks.py:469-474 | the message opens with `Terminé` and the result line, then the shoot-out score when there is one, each whole when it ends in a non-space character |
| Finished.FinishedStep | app/tasks.py:461-477 | one row: a missing minute cell stops the phase; an ended, unpublished, readable row is announced and its id added; any other row changes nothing |
| Finished.FinishedRun | app/tasks.py:460-477 | the rows in page order from the published set (properties: the lemmas below) |
| Finished.FinishedPhase | app/tasks.py:454-458 | a results page that does not load stops the phase before any row, with nothing announced; otherwise the rows are run in order (used by `Engine.Bot.FinishedCycle`, which then keeps the saved ids) |
| Finished.FinishedIdsCount | app/tasks.py:460-476 | the published set only grows, by one id per message broadcast |
| Finished.FinishedIdFromRow | app/tasks.py:460-476 | every new id is that of an ended, readable row |
| Finished.FinishedIdsGrow | app/tasks.py:460-476 | the set grows by exactly one id per message, each from an ended, readable row |
| Finished.CompletedRunPublishesAll | app/tasks.py:460-476 | after a phase that completes, every ended, readable row is published |
| Finished.PublishedRowsSilent | app/tasks.py:463 | rows whose ids are all published announce nothing |
| Finished.RerunSilent | app/tasks.py:460-479 | running a completed phase again on its saved set announces nothing |
| Finished.MissingCellStops | app/tasks.py:460-481 | once a row without a minute cell stops the phase, later rows change nothing |
| News.NewsQueue | app/tasks.py:599-602 | the scraped articles in reverse order, without those whose URL is published (properties: `News.QueueMembership`, `News.QueueReverses`) |
| News.FreshNews | app/tasks.py:599-602 | the loop over the reversed scrape yields exactly the queue of unpublished articles |
| News.NewsMessage | app/tasks.py:613 | the news message: banner, bold title, then the content (properties: `News.NewsMessageNames`) |
| News.NewsMessageNames | app/tasks.py:613 | the message opens with the banner and the bold title, and holds the title and the article's text |
| News.NewsMessages | app/tasks.py:611-618 | the messages of the announced articles, in publishing order (properties: `News.NewsMessagesEach`) |
| News.NewsMessagesEach | app/tasks.py:611-618 | one message per announced article, the k-th being the k-th article's message |
| News.NewsStep | app/tasks.py:611-625 | announce, then record the URL; a URL already recorded fails the commit and stops the job |
| News.NewsRun | app/tasks.py:611-625 | the queue published in order (properties: the lemmas below) |
| News.NewsStopped | app/tasks.py:623-625 | after the failed commit, the rest of the queue is not published |
| News.QueueMembership | app/tasks.py:596-602 | an article is queued exactly when it was scraped and its URL was never published |
| News.QueueReverses | app/tasks.py:600 | the queue reverses the scrape order |
| News.DistinctQueueCompletes | app/tasks.py:611-625 | a queue of distinct, unrecorded URLs is published in full, in order, with every URL recorded |
| News.RecordedAfterAnnounced | app/tasks.py:611-625 | recorded URLs are those of announced articles, and the announced articles are a prefix of the queue |
| News.CompletedAnnouncesAll | app/tasks.py:611-625 | a run that completes announces its whole queue |
| News.NeverRepublished | app/tasks.py:596-602 | an announced article was scraped and its URL was never published |
| News.AnnouncedFromQueue | app/tasks.py:611 | every announced article comes from the queue |
| News.AllPublishedQueuesNothing | app/tasks.py:600-602 | a scrape whose URLs are all published queues nothing |
| News.SecondRunSilent | app/tasks.py:596-625 | once the queue is recorded, the same scrape queues nothing |
| News.DuplicateAnnouncedTwice | app/tasks.py:600-625 | an article listed twice is queued and announced twice, and the job stops on recording it again |
| Summary.SummaryLine | app/tasks.py:356-361 | the line of a match: teams and score, then `(MT)` at half-time or the running clock (properties: `Summary.SummaryLineOpens`, `Summary.SummaryLineMarks`) |
| Summary.SummaryLineOpens | app/tasks.py:356-361 | a line opens with the match line, and is only that line without half-time or a running clock |
| Summary.SummaryLineMarks | app/tasks.py:358-361 | half-time is marked ` (MT)`; otherwise a minute holding a running clock is shown |
| Summary.SummaryText | app/tasks.py:350-369 | the digest posted: the title, a blank line and one bullet per match in progress, stripped (properties: `Summary.SummaryStartsWithTitle`) |
| Summary.SummaryAnnouncement | app/tasks.py:339-369 | nothing without an active page, without stored scores or without a match in progress, else the digest (properties: `Summary.SummaryPublishedIff`) |
| Summary.SummaryLines | app/tasks.py:350-364 | the lines of the unfinished matches with both teams, in stored order |
| Summary.BuildSummary | app/tasks.py:350-364 | the loop builds the header plus one bullet per match in progress, and counts those matches |
| Summary.SummaryLinesListInProgress | app/tasks.py:351-363 | a line is in the digest if and only if it is the line of a match in progress |
| Summary.SummaryLinesNonEmpty | app/tasks.py:351-366 | the digest has a line if and only if some match is in progress |
| Summary.SummaryPublishedIff | app/tasks.py:339-369 | a digest is published if and only if there is a page and some match in progress |
| Summary.SummaryStartsWithTitle | app/tasks.py:350-369 | the published digest starts with its title |
| Subscriptions.ExpireAll | app/tasks.py:207-221 | the intended sweep: every active user with a past expiry becomes inactive without a plan, everyone else is unchanged |
| Subscriptions.IsExpired | app/tasks.py:207-211 | the expiry filter: active, with an expiry date, that date in the past (properties: `Subscriptions.ExpirySweepSound`) |
| Subscriptions.RenewOne | app/tasks.py:537-553 | a due user: deactivated without a monthly plan or a token; billed again after the plan's duration on approval; deactivated, planless and unbilled on refusal |
| Subscriptions.DueForRenewal | app/tasks.py:521-524 | the renewal filter: billed through Fedapay and due today (properties: `Subscriptions.NoSecondChargeSameDay`) |
| Subscriptions.RenewalPlanId | app/tasks.py:537-538 | the plan renewed: the user's plan name, `None` when missing, followed by `_monthly` (properties: `Subscriptions.NoPlanNeverCharged`, `Subscriptions.TablePlanRenewsMonthly`) |
| Subscriptions.UnchargeableDeactivated | app/tasks.py:540-543 | a due user with no monthly plan under its plan name or no token is set inactive and nothing else changes, whatever the payment provider would answer |
| Subscriptions.RenewAll | app/tasks.py:521-553 | the renewal sweep: due users renewed, everyone else unchanged |
| Subscriptions.ExpirySweepSound | app/tasks.py:207-221 | after the sweep no user is active with a past expiry; only selected users change, and only in status and plan |
| Subscriptions.ExpiryIdempotent | app/tasks.py:207-221 | a second sweep changes nothing |
| Subscriptions.NoSecondChargeSameDay | app/tasks.py:537-553 | a charged user is not due again that day: approval moves billing at least 30 days ahead, refusal clears it and deactivates |
| Subscriptions.RenewalIdempotent | app/tasks.py:521-553 | a second renewal sweep on the same day changes nothing |
| Subscriptions.NoPlanNeverCharged | app/tasks.py:537-543 | a user without a plan is never charged |
| Subscriptions.TablePlanRenewsMonthly | app/tasks.py:537-548 | a user with a table plan and a token is charged the monthly plan and, on approval, billed again in 30 days |
| Engine.Bot.constructor | app/tasks.py:70-76 | the bot starts as a fresh install does: files that do not exist load as empty stores, with no history and no attempts |
| Engine.Bot.Broadcast | app/tasks.py:166-196 | the message joins the history, and one attempt per page joins the log |
| Engine.Bot.LiveCycle | app/tasks.py:406-451 | the store becomes the fresh snapshot, keeping the store a dictionary, and the cycle's announcements are broadcast in order to every page |
| Engine.Bot.Announce | app/tasks.py:415-448 | a row's announcement, when it has one, is added to the history and tried on every page; nothing else is sent |
| Engine.Bot.StoreRepeatSilent | app/tasks.py:406-451 | against a store that is a dictionary, fetching the same scores again announces nothing |
| Engine.Bot.FinishedRowStep | app/tasks.py:460-477 | one row advances the finished phase as its specification does, broadcasting what it announces |
| Engine.Bot.FinishedCycle | app/tasks.py:454-479 | the phase broadcasts its messages, and the published set is saved unless the phase stopped |
| Engine.Bot.RunCentralizedChecks | app/tasks.py:377-487 | without a browser nothing changes; otherwise the live phase, then the finished phase |
| Engine.Bot.PublishNews | app/tasks.py:579-625 | without a business page, a browser or a scrape nothing changes; otherwise the queue is published as specified |
| Engine.Bot.PublishItem | app/tasks.py:611-625 | one article is announced on every page, then its URL recorded; an already recorded URL stops the job |
| Engine.Bot.PostSummary | app/tasks.py:339-369 | the digest is broadcast exactly when the summary specification publishes one |
| Engine.Bot.ExpireSubscriptions | app/tasks.py:199-224 | the user table becomes the swept table |
| Engine.Bot.RunDailyRenewals | app/tasks.py:514-556 | the user table becomes the renewed table |

## Left out

- Selenium, page loads and HTML parsing are not modelled. A scraped page
  is a parameter: rows of cells, or `None` when loading fails.
- `get_match_details`, `get_penalty_shootout_score` and the statistics
  page are lookups in the `Web` parameter. The messages built from their
  results are modelled.
- `scrape_football_news` and `get_article_content` are not modelled as
  page loads. Truncating an article is modelled (`Records.ArticleText`);
  the scrape is the `latest` parameter.
- Token decryption and the Graph API call are the `deliver` parameter.
  The log records the outcome of each attempt.
- A failed commit of a history entry is not modelled. The code swallows
  it, and the model always records the message.
- JSON files and database commits are not modelled. They are fields of
  `Engine.Bot` that are written where the code saves or commits.
- The queries that choose the eligible pages are not modelled. The pages
  are a parameter, and `PostSummary` and `PublishNews` are given the pages
  the query returns.
- The `Web` lookups are total functions. This matches the code:
  `get_match_details` (app/tasks.py:125), `get_match_stats`
  (app/tasks.py:147) and `get_penalty_shootout_score`
  (app/tasks.py:161-162) catch every exception and return `None` or an
  empty string, which a `Web` value can return as well. Two paths do escape
  to the outer handler of `run_centralized_checks` (app/tasks.py:481), and
  both are modelled: the read of a missing `td.lm2` cell (app/tasks.py:461),
  in `Finished.MissingCellStops`, and a results page that does not load
  (app/tasks.py:456), as a `None` page. A failing `save_to_json` is not
  modelled.
- Engine.Bot.ExpireSubscriptions: gives the intended sweep, not the code
  as written. The query at app/tasks.py:207-211 names
  `User.subscription_expires_at`, and the `User` model (app/models.py:10-26)
  has no such column. As written, that attribute lookup raises before any
  user is read, and the job changes nothing. `Subscriptions.ExpireAll`
  filters on an optional expiry timestamp of the user instead.
- The scheduler, concurrency, `time.sleep` and the wall clock are left
  out. Time is an `int` parameter.
- `charge_with_fedapay_token` is the `charge` parameter.
- The order of the users returned by the queries is not modelled. The
  sweeps are defined on the whole table, position by position.
- Text.Lower: lowers ASCII letters only. Python lowers all of Unicode.
  Within the needles the status test looks for ("mi-temps", "mt", "ter"),
  this makes no difference.
- Text.ParseInt: does not accept the underscores or non-ASCII digits
  that Python's `int()` does. It accepts the surrounding whitespace and
  the sign.
- The web routes, forms, models, utilities and configuration of the
  application are not modelled.
