# compte — a verified model of the contest tracker's core

compte gathers programming contests from LeetCode, CodeChef and Codeforces. Users bookmark contests and get an e-mail reminder before each one starts. Admins edit the contest list, and post-contest-discussion (PCD) videos are linked to the contests they discuss.

This Dafny project models the logic of that system and proves what it promises. Browsers, HTTP, MongoDB, Redis and the mailer are replaced by plain inputs and values.

- **Scraping service.** Modules `TimeNormalizer`, `Regex`, `Adapters` and `Reconciler`:
  - the time helpers `parseTime`, `getDayIndex`, `convertLeetCodeTimeToDate`, `convertRelativeTimeToDate` and `convertDurationToHHMM`;
  - the regular expressions they apply;
  - the three adapters, which build contest objects and upsert them by name with `$set`.
- **PCD backfill.** Module `PcdBackfill`: `extractContestName` (a case-insensitive, lazy regex) and the `processVideos` loop, which only ever sets `pcdLink` on an existing contest.
- **Scheduled scrape.** Module `Orchestrator`: `scrapeContests` runs the three adapters in order, each in its own try/catch, and the cron expression `0 */12 * * *` schedules it.
- **Bookmark handlers.** Module `BookmarkController`:
  - `addBookmark`: ordered validation, the default reminder 15 minutes before the start, and a job enqueued only when the reminder is still ahead;
  - `removeBookmark`;
  - `getBookmarks`, with pagination.
- **Contest handlers.** Module `ContestController`: the admin gate, `createContest` (an upsert), `updateContest` (a partial update with a rename check), `deleteContest`, `addPcdLink`, `getContest`, and `getAllContests` (filter, sort and pagination). The sort and pagination pieces shared by both sets of handlers are in module `Query`.
- **Reminder worker.** Module `ReminderWorker`: the mail the worker builds from a job, and which queue's jobs it consumes.
- **Schemas.** Module `Schema`: the Contest, Bookmark and User documents, with their required fields, enums, defaults and trimming.
- **Client.**
  - Modules `ClientDuration`, `ContestsView` and `BookmarksView` cover:
    - the platform-filter selection;
    - the two `parseDuration` helpers;
    - the past/upcoming split on both pages;
    - `isBookmarked` and the bookmark-list updates.
  - Module `AuthForms` covers the sign-up and login validators and the three-step tour counter.

Instants are integer milliseconds. "Now" and the machine's time-zone offset (`getTimezoneOffset`, in minutes) are parameters. The contest collection is a sequence of documents with ids: lookups by name or id, sorting and paging are then functions of it. Its validity invariant says ids are distinct and names unique.

The handlers and the adapters' loops are methods that take the store and return the new store. Client component state that the source updates through setters is a class with fields. Only the state-changing operations are methods:
- the adapters' loops;
- the scrape run;
- the handlers;
- the PCD loop;
- the page-state updates.

## Model

| member | source | states |
|---|---|---|
| Schema.NewContest | server/models/contest.model.js:4-28 | a contest document exists iff name, url and duration are present and the platform is one of the six enum values; the stored name, platform, url, duration and `pcdLink` are the ones given, and an omitted start time becomes the creation time |
| Schema.ParseRole | server/models/user.model.js:15-19 | a role is accepted iff it is "user", "admin" or "moderator"; it is the admin role iff it is "admin" |
| Schema.NewUser | server/models/user.model.js:4-22 | a user exists iff `userId` and the trimmed `emailId` are non-empty and any role given is in the enum; the stored key and `userId` are the ones given and the stored e-mail is the trimmed one; the role defaults to "user"; the avatar is optional |
| Schema.NewBookmark | server/models/bookmark.model.js:4-20 | the bookmark keeps its user, contest and optional reminder; `createdAt` defaults to now |
| Text.TwoDigits | server/services/scrapper.js:261 | `String(n).padStart(2, '0')` is all digits, at least two long, and reads back as `n` |
| Text.TrimExact | server/services/pcdScrapper.js:15 | `trim` of a string whose non-space content spans `x[a..c]` is exactly `x[a..c]` |
| Text.Utf16Length | client/src/pages/Signup.jsx:50 | the JavaScript length of a string is between its code-point count and twice that |
| Regex.MatchPatternComplete | server/services/scrapper.js:206-207 | for a pattern whose atoms cannot hand characters to each other, any regex match is unique and is the one the greedy engine finds |
| Regex.SearchIsLeftmost | server/services/scrapper.js:207 | `match` reports the leftmost position at which the pattern matches, with that match's pieces |
| Regex.SearchFailsIffNoMatch | server/services/scrapper.js:207-209 | for such a pattern, the search fails iff the regex matches at no position of the text |
| TimeNormalizer.GetDayIndex | server/services/scrapper.js:238-240 | the index is -1 iff the name is not a weekday, otherwise the name's position in the week starting on Sunday |
| TimeNormalizer.DaysAhead | server/services/scrapper.js:218 | the shift `(dayIndex - today + 7) % 7` is in 0..6, lands on the named weekday, is 0 when that weekday is today, and for index -1 lands on Saturday |
| TimeNormalizer.LeetCodePatternDeterministic | server/services/scrapper.js:206 | no atom of the LeetCode regex can give characters back to the next, so its match is unique |
| TimeNormalizer.ParseTime | server/services/scrapper.js:228-236 | `parseTime` yields numbers iff the clock text is split from its period by a plain space (otherwise NaN) |
| TimeNormalizer.ParseTimeAm | server/services/scrapper.js:233 | on "h:mm AM", 12 becomes 0 and other hours pass through, with minutes unchanged |
| TimeNormalizer.ParseTimePm | server/services/scrapper.js:232 | on "h:mm PM", 12 stays 12 and other hours gain 12, with minutes unchanged |
| TimeNormalizer.ParseTimeInverts12Hour | server/services/scrapper.js:228-236 | every 24-hour hour rendered as a twelve-hour clock with AM/PM parses back to itself |
| TimeNormalizer.ParseTimeOn12HourInput | server/services/scrapper.js:228-236 | every well-formed twelve-hour input gives a 24-hour hour that renders back to the same input: the conversion is a bijection |
| TimeNormalizer.OffsetSignExamples | server/services/scrapper.js:221-222 | the offset is `h*60 + m` with a signed hour and unsigned minutes: "GMT+5:30" gives 330 minutes, "GMT-5:30" gives -270 |
| TimeNormalizer.LeetCodeStartNullIffNoMatch | server/services/scrapper.js:206-209 | `convertLeetCodeTimeToDate` returns null exactly when the regex matches nowhere in the text |
| TimeNormalizer.ConvertLeetCodeTimeToDate | server/services/scrapper.js:205-226 | the `Date` steps (`setHours`, `setDate`, offset corrections) compute the LeetCode start of the specification function |
| TimeNormalizer.LeetCodeTextRoundTrip | server/services/scrapper.js:205-226 | reading a rendered card "Weekday h:mm AM/PM GMT±h:mm" gives the instant for that 24-hour time, weekday and stated offset |
| TimeNormalizer.ResolvedWithinAWeek | server/services/scrapper.js:214-225 | the result lies 0 to 6 days after the day the clock time lands on, at that clock time, on a clock at the stated offset |
| TimeNormalizer.ResolvedWeekday | server/services/scrapper.js:214-218 | the resolved day has the named weekday; an unknown name behaves like Saturday |
| TimeNormalizer.TodayEvenIfPassed | server/services/scrapper.js:215-218 | when the named weekday is today, today is chosen even if that clock time has already passed |
| TimeNormalizer.RelativePatternDeterministic | server/services/scrapper.js:245 | the "N Days M Hrs" regex has a unique match |
| TimeNormalizer.RelativeStartNullIffNoMatch | server/services/scrapper.js:242-246 | `convertRelativeTimeToDate` returns null exactly when the regex matches nowhere, the empty text included |
| TimeNormalizer.RelativeTextRoundTrip | server/services/scrapper.js:242-256 | "N Days M Hrs" resolves to now + N days + M hours |
| TimeNormalizer.ConvertRelativeTimeToDate | server/services/scrapper.js:242-256 | the `setDate`/`setHours` steps compute the relative start of the specification function |
| TimeNormalizer.DurationFields | server/services/scrapper.js:258-262 | the text before the first ':' is at least two digits reading `floor(s / 3600)`, and the text after it is exactly two digits reading `floor((s mod 3600) / 60)` |
| TimeNormalizer.DurationRoundTrip | server/services/scrapper.js:258-262 | read back as "HH:MM", the duration gives the seconds minus the leftover seconds |
| TimeNormalizer.TwoHoursIs0200 | server/services/scrapper.js:258-262 | 7200 seconds format as "02:00" |
| Reconciler.IndexOfName | server/services/scrapper.js:65 | the position found is the first document with that name, or -1 iff no document has it |
| Reconciler.IndexOfId | server/controllers/contest.controller.js:62 | the position found holds that id, or -1 iff no document has it |
| Reconciler.FindAt | server/services/scrapper.js:64-68 | in a valid store, the lookup by name finds the document at that name's position |
| Reconciler.UpsertFound | server/services/scrapper.js:64-68 | after an upsert, the name holds exactly the `$set` fields over the previous document; an existing `pcdLink` survives a `$set` without that key |
| Reconciler.UpsertOthers | server/services/scrapper.js:64-68 | an upsert changes no other name's lookup |
| Reconciler.UpsertValid | server/services/scrapper.js:64-68 | an upsert inserts iff the name is absent, keeps every existing id at its place, and keeps the store valid |
| Reconciler.LastWriteWins | server/services/scrapper.js:61-74 | a later `$set` of the same name with the same `pcdLink` key overrides an earlier one entirely |
| Reconciler.UpsertIdempotent | server/services/scrapper.js:64-68 | applying the same `$set` twice equals applying it once |
| Reconciler.UpsertAllValid | server/services/scrapper.js:61-74 | a batch of upserts keeps the store valid |
| Reconciler.UpsertAllOthers | server/services/scrapper.js:61-74 | names a batch does not mention keep their documents |
| Reconciler.UpsertAllLastWins | server/services/scrapper.js:61-74 | after a batch, a name holds what its last update in the batch wrote |
| Reconciler.UpsertAllKeepsPcd | server/services/scrapper.js:61-74 | a batch that never mentions `pcdLink` leaves every name's link as it was |
| Reconciler.UpsertAllRerun | server/services/scrapper.js:61-74 | re-running the same batch changes no lookup |
| Reconciler.SetPcdLinkByNameValid | server/services/pcdScrapper.js:41-46 | setting a link keeps the number of documents, every id and validity |
| Reconciler.SetPcdLinkByNameFind | server/services/pcdScrapper.js:41-49 | the named contest, if present, gains the link and nothing else; no name appears or disappears |
| Adapters.RowUpdate | server/services/scrapper.js:64-72 | an object yields no write iff its start time is an Invalid Date (the cast fails and the error is caught); a write targets its name and never carries `pcdLink` |
| Adapters.UpsertEach | server/services/scrapper.js:61-74 | the upsert loop over the objects gives the store of the specification function |
| Adapters.UpdatesNames | server/services/scrapper.js:61-74 | a name is written iff some non-null object without an Invalid Date carries it |
| Adapters.UpsertRowsSpec | server/services/scrapper.js:54-74 | the loop keeps the store valid and every stored `pcdLink`, leaves names it does not write alone, and is idempotent |
| Adapters.UpsertOneRow | server/services/scrapper.js:64-68 | one object is written under its name with exactly its fields, a null start as null and the old `pcdLink` kept; an Invalid Date writes nothing |
| Adapters.LeetCodeScrape | server/services/scrapper.js:36-50 | a card yields an object iff it has a time element; the name is the trimmed title or "Unknown", the url is the LeetCode prefix plus href or "#", with duration "01:30" and platform "Leetcode" |
| Adapters.NormalizeLeetCodeAll | server/services/scrapper.js:54-58 | every non-null object's time text is replaced by its converted start, position by position |
| Adapters.FetchLeetcodeContests | server/services/scrapper.js:7-78 | a browser failure rejects and changes nothing; otherwise the call resolves to the converted objects and the store is their upsert |
| Adapters.LeetCodeUnmatchedTime | server/services/scrapper.js:36-68 | a card whose time matches nowhere is still written, with a null start and its old `pcdLink`; a card without a time element writes nothing |
| Adapters.CodeChefScrape | server/services/scrapper.js:107-120 | a row yields an object iff it has exactly two timer texts; the name is trimmed, `starts_in` joins the two trimmed texts, with duration "02:00" and platform "Codechef" |
| Adapters.NormalizeCodeChefAll | server/services/scrapper.js:125-130 | every non-null object's `starts_in` is replaced by its relative start, position by position |
| Adapters.FetchCodeChefContests | server/services/scrapper.js:84-148 | a browser failure rejects and changes nothing; otherwise the call resolves to the converted objects and the store is their upsert |
| Adapters.CfMap | server/services/scrapper.js:166-172 | the object keeps the name and the duration in seconds (absent when the contest has none), gets the url ".../contest/<id>" and the start `startTimeSeconds * 1000` (Invalid Date when absent) |
| Adapters.CfUpcomingMembers | server/services/scrapper.js:164-172 | the upcoming list holds exactly the mapped contests in phase "BEFORE" |
| Adapters.NormalizeCodeforcesAll | server/services/scrapper.js:174-179 | every object's seconds become its "HH:MM" duration, position by position |
| Adapters.FetchCodeforcesContests | server/services/scrapper.js:153-202 | the call never rejects; a failed fetch or a non-"OK" status resolves to [] and changes nothing; otherwise the store is the upsert of the upcoming objects |
| Adapters.CodeforcesRowsSpec | server/services/scrapper.js:160-197 | every object written comes from an OK response and a "BEFORE" contest, with that contest's name, url, start, and a duration that reads back as its whole minutes, or "NaN:NaN" when the contest has no duration |
| Adapters.CodeforcesKeepsUpcoming | server/services/scrapper.js:164-197 | every "BEFORE" contest of an OK response is among the returned objects |
| Adapters.UpsertRowsStores | server/services/scrapper.js:60-68 | every non-null returned object whose start is not an Invalid Date leaves a document under its name |
| Adapters.CodeforcesStoresUpcoming | server/services/scrapper.js:164-197 | every "BEFORE" contest of an OK response that has a start time is in the store after the upsert loop |
| PcdBackfill.PlatformWordsExclusive | server/services/pcdScrapper.js:14 | at most one of the platform words can start a title, whatever the case |
| PcdBackfill.NoBarNoName | server/services/pcdScrapper.js:14-15 | a title without '\|' yields null |
| PcdBackfill.NoPlatformNoName | server/services/pcdScrapper.js:14-15 | a title that does not start with Leetcode, CodeChef or Codeforces (in any case) yields null |
| PcdBackfill.NameBetweenWordAndBar | server/services/pcdScrapper.js:13-16 | the name is the text between the platform word and the first bar, with the whitespace around it removed |
| PcdBackfill.FetchPlaylistVideos | server/services/pcdScrapper.js:18-27 | the first five items in the service's order, or all of them when there are fewer; a failed request or a body without items gives none |
| PcdBackfill.ProcessVideos | server/services/pcdScrapper.js:30-51 | the loop gives the store and the sequence of lookups of the specification functions |
| PcdBackfill.BackfillOnlyLinks | server/services/pcdScrapper.js:41-49 | the backfill creates and removes nothing, changes no id and nothing but `pcdLink`, and keeps the store valid |
| PcdBackfill.BackfillOthers | server/services/pcdScrapper.js:38-49 | a name no video yields keeps its document |
| PcdBackfill.BackfillLastWins | server/services/pcdScrapper.js:33-50 | for an existing contest, the last video naming it decides its link, "https://www.youtube.com/watch?v=" + the video id |
| PcdBackfill.FailedFetchChangesNothing | server/services/pcdScrapper.js:20-26 | a failed request or a body without items changes nothing and looks nothing up |
| PcdBackfill.AtMostFiveLookups | server/services/pcdScrapper.js:20-41 | at most five store lookups happen per call, and skipped videos cause none |
| Orchestrator.ScrapeContests | server/cron.js:4-27 | LeetCode, then CodeChef, then Codeforces; a failure is logged and the next adapter still runs; the store is one upsert pass over the objects of the adapters that did not throw, in that order, and stays valid |
| Orchestrator.RunLeavesUnwritten | server/cron.js:4-27 | a name no adapter writes keeps its document |
| Orchestrator.LeetCodeFailureIrrelevant | server/cron.js:7-26 | for a name CodeChef or Codeforces writes, the store ends the same whether LeetCode succeeded or threw |
| Orchestrator.ScheduleTimes | server/cron.js:29 | "0 */12 * * *" fires at 00:00 and 12:00 and at no other minute |
| Orchestrator.ScheduleEvery720 | server/cron.js:29-32 | counted in minutes since midnight, the job fires exactly at multiples of 720 |
| Query.FindUser | server/controllers/bookmark.controller.js:21 | the user found has that `userId`; none is found iff no user has it |
| Query.SortBy | server/controllers/contest.controller.js:198 | the sort returns a sorted permutation of its input |
| Query.Window | server/controllers/contest.controller.js:199-200 | `.skip(s).limit(l)` returns the elements from position s on, at most \|l\| of them (0 means no limit) |
| Query.TotalPages | server/controllers/contest.controller.js:206 | `Math.ceil(total / limit)` is finite iff the limit is non-zero; for a positive limit it is the least page count that covers the total |
| Query.PagesCoverAll | server/controllers/contest.controller.js:193-206 | pages 1 to `totalPages` read in turn return every document exactly once, in order |
| Query.SortedPermutationUnique | server/controllers/contest.controller.js:198 | when different documents have different sort keys, two sorted arrangements of the same documents are equal |
| Query.ServedPagesOneOrder | server/controllers/contest.controller.js:198-200 | when every page request sees the same order, the pages served are the pages of that order |
| Query.ServedPagesSorted | server/controllers/contest.controller.js:193-206 | with distinct keys, pages 1 to `totalPages` cut from separately sorted requests together give the sorted list |
| Query.PagesBeyondEmpty | server/controllers/contest.controller.js:193-200 | a page after the last one is empty |
| BookmarkController.ReminderAt | server/controllers/bookmark.controller.js:42-49 | the reminder is the custom one when given, otherwise 15 minutes before the start |
| BookmarkController.AddBookmark | server/controllers/bookmark.controller.js:8-81 | 401, 400, 404 user, 404 contest and 409 duplicate, in that order, and a failure changes nothing; on success the bookmark is stored, and a job carrying the snapshot is added iff the reminder is ahead, delayed by the time left, with 3 attempts |
| BookmarkController.AddBookmarkKeepsPairsUnique | server/controllers/bookmark.controller.js:33-51 | the lookup before `create` keeps (user, contest) pairs unique, which the schema does not |
| BookmarkController.ReminderFiresOnTime | server/controllers/bookmark.controller.js:42-73 | the job fires at the reminder instant and carries the user's e-mail and the contest title; a default reminder for a contest more than 15 minutes away is always enqueued |
| BookmarkController.RemoveBookmark | server/controllers/bookmark.controller.js:83-103 | 401, 404 user, 404 bookmark; otherwise the first bookmark of that (contest, user) is deleted, and the queue is not an input |
| BookmarkController.RemoveAfterAdd | server/controllers/bookmark.controller.js:51-96 | removing the bookmark just added restores the bookmark list |
| BookmarkController.DeletePairEffect | server/controllers/bookmark.controller.js:96 | one bookmark goes; with unique pairs the pair is gone and every other bookmark stays |
| BookmarkController.OwnBookmarks | server/controllers/bookmark.controller.js:126 | `find({ user })` returns exactly the caller's bookmarks |
| BookmarkController.Populate | server/controllers/bookmark.controller.js:127 | each listed bookmark carries its contest, or null when the contest is gone |
| BookmarkController.GetBookmarks | server/controllers/bookmark.controller.js:105-147 | 401 and 404 user; defaults page 1 and limit 1000; the listing with `skip = (page-1)*limit` and `totalPages = ceil(total/limit)`; a negative skip fails |
| BookmarkController.ListedPageIsOwnAndNewestFirst | server/controllers/bookmark.controller.js:126-130 | a listed page holds only the caller's bookmarks, newest first |
| ContestController.AdminGate | server/controllers/contest.controller.js:10-18 | go on iff the user id is present and belongs to an admin; 401 without an id, 403 otherwise |
| ContestController.CreateContest | server/controllers/contest.controller.js:6-40 | the gate, then 409 when a required field is missing; otherwise an upsert by name of all six fields that answers with the document written, leaves other names alone and keeps the store valid |
| ContestController.RewriteFound | server/controllers/contest.controller.js:84-88 | after rewriting the document found by id, the lookup by id finds the new fields; validity is kept when the new name is unused |
| ContestController.UpdateContest | server/controllers/contest.controller.js:43-91 | the gate, 400, 404, and 409 for a rename to a taken name, none changing anything; otherwise the truthy fields and any `pcdLink` key are applied to that document only, and the store stays valid |
| ContestController.RemoveAtValid | server/controllers/contest.controller.js:116 | deleting by id leaves no document with that id and keeps the store valid |
| ContestController.DeleteContest | server/controllers/contest.controller.js:93-119 | the gate, 400 and 404 change nothing; otherwise exactly the document with that id is removed |
| ContestController.AddPcdLink | server/controllers/contest.controller.js:121-156 | the gate, 400, 409 for an empty link, 404, none changing anything; otherwise only that contest's `pcdLink` changes |
| ContestController.GetContest | server/controllers/contest.controller.js:158-171 | 400 without an id, 404 for an unknown one, otherwise the contest |
| ContestController.Filtered | server/controllers/contest.controller.js:179-191 | a document is kept iff it matches the exact platform and the inclusive start bounds |
| ContestController.GetAllContests | server/controllers/contest.controller.js:173-217 | defaults page 1 and limit 100; the filtered, start-ordered window with its pagination; a negative skip fails |
| ContestController.ListingMatchesAndIsOrdered | server/controllers/contest.controller.js:195-200 | every listed contest is stored and matches the filter, and the page is in start-time order |
| ContestController.ListingComplete | server/controllers/contest.controller.js:193-206 | when no two matching contests share a start time, pages 1 to `totalPages` return exactly the matching contests sorted earliest first, whatever start-ordered arrangement each page request sees, so every match appears |
| ReminderWorker.ReminderMail | server/workers/bookmark.worker.js:6-19 | the mail goes to the job's e-mail |
| ReminderWorker.SubjectNamesContest | server/workers/bookmark.worker.js:10 | the subject is "Reminder: " + title + " starts soon!": reading it back gives the title |
| ReminderWorker.BodiesCarryContest | server/workers/bookmark.worker.js:11-21 | the text and the html name the contest and its start, the text ends with ". Join here: " + url, and the html links to the url |
| ReminderWorker.Delivered | server/workers/bookmark.worker.js:5-25 | a queue with the consumed name yields one mail per job; any other queue yields none |
| ReminderWorker.ProducerJobsNeverDelivered | server/configs/redis.config.js:27 | no job added to the queue as named yields a mail |
| ReminderWorker.ReminderDelivered | server/workers/bookmark.worker.js:5 | with a shared queue name, the job `addBookmark` adds yields exactly one more mail, to the user, naming the contest |
| ClientDuration.FirstCountLeading | client/src/components/Contests.jsx:70 | a text starting with "<n>h" yields n from `/(\d+)h/` |
| ClientDuration.FirstCountAbsent | client/src/components/Contests.jsx:70 | a text without the letter yields no match |
| ClientDuration.HHMMReadsAsTwoHours | client/src/components/Contests.jsx:68-72 | every "HH:MM" duration the server stores reads as 2 hours in both helpers |
| ClientDuration.HoursTakePrecedence | client/src/pages/BookmarkPage.jsx:252-255 | "<n>h..." reads as n hours in both helpers, even when minutes follow |
| ClientDuration.MinutesOnly | client/src/pages/BookmarkPage.jsx:256-257 | without an 'h', "<n>m..." reads as n/60 hours on the bookmark page and as 2 on the contest list |
| ContestsView.Without | client/src/components/Contests.jsx:91 | the filter keeps exactly the other platforms |
| ContestsView.SelectPlatformCases | client/src/components/Contests.jsx:80-97 | "All" gives ["All"]; a platform picked while "All" is selected gives just it; otherwise it is appended, or dropped if selected, and an empty result becomes ["All"] |
| ContestsView.SelectPlatformKeepsValid | client/src/components/Contests.jsx:80-97 | the selection stays non-empty and duplicate-free, and "All" never sits beside another platform |
| ContestsView.SelectPlatformTwice | client/src/components/Contests.jsx:80-97 | picking a platform that is not selected twice restores the selection, from ["All"] too |
| ContestsView.SelectPlatformTwiceMovesToEnd | client/src/components/Contests.jsx:88-92 | picking a selected platform twice, when another is selected too, moves it to the end of the selection |
| ContestsView.ShownContestsMembers | client/src/components/Contests.jsx:124-130 | a contest is past iff it is dated and ended by now, and upcoming iff it is dated and ends after now |
| ContestsView.ShownContestsSplit | client/src/components/Contests.jsx:124-130 | the two listings of a page together hold each dated contest exactly once |
| ContestsView.UnbookmarkAsWrittenThrows | client/src/components/Contests.jsx:177-179 | as written, one bookmark whose contest was deleted makes every removal throw |
| ContestsView.UnbookmarkAsWrittenExample | client/src/components/Contests.jsx:177-179 | the filter throws on [{_id: "b1", contest: null}] |
| ContestsView.UnbookmarkAgrees | client/src/components/Contests.jsx:177-179 | where every bookmark has its contest, the code as written and the guarded filter agree |
| ContestsView.UnbookmarkClears | client/src/components/Contests.jsx:177-179 | after the guarded removal the contest is no longer bookmarked, and exactly the other bookmarks remain |
| ContestsView.UnbookmarkAppend | client/src/components/Contests.jsx:177-179 | the removal of a concatenation is the concatenation of the removals, so the kept bookmarks stay in order with their repetitions |
| ContestsView.UnbookmarkSingle | client/src/components/Contests.jsx:177-179 | one bookmark is kept iff it does not refer to the contest |
| ContestsView.AddedIsBookmarked | client/src/components/Contests.jsx:188 | appending the returned bookmark makes its contest bookmarked |
| ContestsView.ContestsPage.HandlePlatformSelect | client/src/components/Contests.jsx:80-97 | the updater alone: the selection becomes its result and stays valid; nothing else changes |
| ContestsView.ContestsPage.LoadInitialData | client/src/components/Contests.jsx:250-267 | the bookmarks are replaced when fetched, and each listing becomes page 1's contests of its kind; selection and page counters are kept |
| ContestsView.ContestsPage.SelectionChanged | client/src/components/Contests.jsx:274-284 | after a selection change both page counters are back at 1 and both listings hold only page 1's contests for the new selection; the selection stays valid |
| ContestsView.ContestsPage.RemoveBookmarked | client/src/components/Contests.jsx:177-179 | the list loses exactly the matching bookmarks, and the contest is no longer bookmarked |
| ContestsView.ContestsPage.AppendBookmark | client/src/components/Contests.jsx:188 | the returned bookmark goes after the existing ones |
| ContestsView.ContestsPage.FetchMoreUpcoming | client/src/components/Contests.jsx:286-293 | the page counter advances and the next page's upcoming contests go after those shown |
| ContestsView.ContestsPage.FetchMorePast | client/src/components/Contests.jsx:295-302 | the page counter advances and the next page's past contests go after those shown |
| BookmarksView.FilterCount | client/src/pages/BookmarkPage.jsx:77 | `filter` keeps each element as often as it occurs when it passes, and never otherwise |
| BookmarksView.FilterAppend | client/src/pages/BookmarkPage.jsx:77 | `filter` of a concatenation is the concatenation of the filters, and one element is kept iff it passes: kept elements stay in order |
| BookmarksView.FilterBookmarksMembers | client/src/pages/BookmarkPage.jsx:75-85 | a bookmark is past iff it has a dated contest that ended before now, and upcoming iff it ends at now or later |
| BookmarksView.FilterBookmarksSplit | client/src/pages/BookmarkPage.jsx:75-85 | the two tabs together hold every dated bookmark exactly as often as the list, and no undated one |
| BookmarksView.FilterBookmarksIgnoreOrder | client/src/pages/BookmarkPage.jsx:67-77 | whatever order the sorted copy has, each tab shows the same bookmarks as filtering the state itself |
| BookmarksView.RemoveAsWrittenThrows | client/src/pages/BookmarkPage.jsx:48 | as written, one bookmark whose contest was deleted makes the removal throw |
| BookmarksView.RemoveAgrees | client/src/pages/BookmarkPage.jsx:48 | where every bookmark has its contest, the code as written and the guarded filter agree |
| BookmarksView.RemoveFromKeepsOthers | client/src/pages/BookmarkPage.jsx:48 | the guarded removal keeps exactly the bookmarks of other contests, each as often as before |
| BookmarksView.BookmarksPage.Loaded | client/src/pages/BookmarkPage.jsx:30 | the state becomes the fetched bookmarks |
| BookmarksView.BookmarksPage.RemoveBookmark | client/src/pages/BookmarkPage.jsx:48 | the state becomes the guarded removal, and no kept bookmark refers to the contest |
| AuthForms.HandleSignup | client/src/pages/Signup.jsx:45-55 | `register(email, password)` is called iff all fields are present, the passwords agree and the password is at least 8 long; otherwise one toast is shown |
| AuthForms.SignupFirstFailureWins | client/src/pages/Signup.jsx:46-51 | the first failing check's message is the one shown, in the order empty field, mismatch, short password |
| AuthForms.HandleLogin | client/src/pages/Login.jsx:40-46 | `login(email, password)` is called iff both fields are present, otherwise "Some fields are empty" is shown |
| AuthForms.TourSteps | client/src/pages/Signup.jsx:57-63 | next and prev keep the step in 0..2, each undoes the other, and three nexts return to the start |
| AuthForms.Tour.Next | client/src/pages/Login.jsx:48-50 | the step becomes `(s + 1) % 3` and stays valid |
| AuthForms.Tour.Prev | client/src/pages/Login.jsx:52-54 | the step becomes `(s - 1 + 3) % 3` and stays valid |

## Left out

- Adapters.CodeChefScrape: does not model a row without an `a span` or `a` element, which the source turns into an object with a null name or url and upserts under the filter `{name: null}`. The card's title and link are always present here, because the store is keyed by a string name.
- Browser automation and DOM extraction. The model starts from what the page scripts read from each card, given as input.
- The network and external services: `node-fetch`/`axios` calls, the YouTube API, Redis, the BullMQ runtime (retries, backoff, delivery timing) and the nodemailer wrapper in `server/services/mail.js`. An enqueue is an append to a sequence. A delivery is one mail per job of the consumed queue.
- The worker waiting for `sendMail` to settle, and a rejection failing the job. Sending is outside the model, which is also why `mail.js` is not part of this model.
- The `node-cron` runtime and the server wiring in `server/server.js`. Only the cron expression's firing times are modelled.
- The browser is closed only on the LeetCode adapter's success path. Resource cleanup is not modelled.
- Local time:
  - daylight-saving changes;
  - `Date` overflow outside the representable range;
  - date-fns' `addHours`, taken as adding real hours.
- Rendering: the ISO text of a `Date` in a mail is the parameter `iso`. "null" stands for a null start time.
- `parseInt`/`Number` on huge digit strings, which lose precision. They are read as exact integers.
- Mongoose:
  - save and cast errors other than the Invalid Date start time;
  - `AsyncHandler` turning a rejection into a 500, beyond the negative-skip failure;
  - database sort order among equal keys: the model breaks ties by storage order, the same in every request. MongoDB promises no stable order among equal keys across separate queries, so ContestController.ListingComplete assumes that no two matching contests share a start time;
  - query strings arriving as strings. Page and limit are integers, and an absent `userId` is the empty string.
- ContestController.CreateContest: does not model that a `$set` from the admin handler bypasses the platform enum, because `findOneAndUpdate` runs no validators by default. The stored platform is what the body sent.
- ContestController.CreateContest: a numeric `start_time` of 0 is falsy in the source and answers 409 (`server/controllers/contest.controller.js:20`). The model takes a start time as present or absent, so `Some(0)` is accepted.
- ContestController.UpdateContest: a numeric `start_time` of 0 is falsy in the source and is not copied into the update (`server/controllers/contest.controller.js:72`). The model applies `Some(0)`.
- BookmarkController.AddBookmark: a `customRemainder` of 0 is falsy in the source and falls back to the default. The model's `Some(0)` is taken as a custom reminder at the epoch.
- BookmarksView.FilterBookmarks: the sort comparator in `BookmarkPage.jsx:68-72` returns a boolean, so it gives no ordering guarantee. The model filters any order of the state and proves that the tabs do not depend on it.
- The client's `sort` and `platform[i]` query parameters, and its reading of `currentPage`, `totalPages` and `data.bookmark`: the server does not answer in those terms. `hasMore` flags are not modelled, and bookmark creation is modelled only where a bookmark comes back.
- Toasts, navigation and all rendering; the landing page, navbar, routing, OAuth callback and the Clerk wrapper.
- `processVideos` is exported but scheduled nowhere in the repository. It is modelled as a callable operation.
- The worker imports its Redis connection from a path that does not exist (`../db/redis.config.js`). The model assumes the worker starts.

## Findings

| source | as written | input that shows it | evidently intended | confidence | as-written member | corrected member |
|---|---|---|---|---|---|---|
| server/configs/redis.config.js:27 | the producer's queue is named 'bookmarkRem5inderQueue' while the worker (server/workers/bookmark.worker.js:5) consumes 'bookmarkReminderQueue' | any bookmark whose reminder is ahead: its job is added and never delivered | one queue name shared by producer and worker | not executed | ReminderWorker.ProducerJobsNeverDelivered | ReminderWorker.ReminderDelivered |
| client/src/components/Contests.jsx:177-179 | the unbookmark filter reads `bookmark.contest._id` with no null check, although `isBookmarked` (244-248) guards it | bookmarks [{_id: "b1", contest: null}] (contest deleted after bookmarking) and any removal | skip null contests, as `isBookmarked` does | not executed | ContestsView.UnbookmarkAsWrittenThrows | ContestsView.UnbookmarkClears |
| client/src/pages/BookmarkPage.jsx:48 | `removeBookmark` filters with `bookmark.contest._id` and no null check | a bookmark list holding one bookmark whose contest was deleted | drop only bookmarks whose contest has that id | not executed | BookmarksView.RemoveAsWrittenThrows | BookmarksView.RemoveFromKeepsOthers |
