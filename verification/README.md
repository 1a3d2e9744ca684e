# MaintainPro: verified models of the calendar, import, session and migration code

This project models the parts of MaintainPro whose correctness does not show from one function alone, and proves it in
Dafny 4.11. `dafny verify dfyconfig.toml` checks everything.

| file | models |
|---|---|
| `Text.dfy`, `Options.dfy` | numerals, splitting, trimming and plain string order, as the web client uses them |
| `CivilDate.dfy` | day numbers and civil dates as section 21.4.1 of ECMA-262 defines them, carries and the 0–99 year rule included |
| `ColomboDate.dfy`, `TypedDate.dfy`, `MonthCalendar.dfy` | date texts, adding days and months, typed dates, weeks, the month grid, date ranges |
| `Csv.dfy` | the vehicle importer's two-pass CSV reader and the asset register's CSV writer (section 2 of RFC 4180) |
| `ParentChain.dfy`, `SaveOrder.dfy`, `PlanCircles.dfy` | parent links that may run in circles, the parent-first order of the asset import, and the planner that removes the circles |
| `MoveTargets.dfy` | the places a location may be moved to |
| `SingleFlight.dfy` | the two shared token refreshes and all their interleavings |
| `UpstreamFetch.dfy`, `BffProxy.dfy`, `SessionProtocol.dfy`, `SessionCounts.dfy`, `TokenRotation.dfy` | retries, silent refresh and replay of one server request, all browser requests interleaved, what their counters count, and the refreshes of one token that are at the API at once |
| `OfflineQueue.dfy`, `RequestSequencer.dfy` | the offline action queue and the request numbers of polled lists |
| `MeterReading.dfy` | the meter reading field and the grouping of its digits |
| `Documents.dfy`, `ObjectIdPass.dfy`, `CoercionPasses.dfy`, `PassesTogether.dfy`, `RunTwice.dfy`, `JsonTextPass.dfy` | the Mongo to SQL document passes, what they give together, and what a second run of them does |

Code that works step by step is a method or a class, proved against a function or a step relation; the results are
lemmas about these. A run of a protocol is a sequence of steps folded over the start state, so a lemma about every
sequence is a statement about every interleaving.

## Where the code does less than its comments say

* Dates of the years 100 to 999 pass `isCalendarDate`, but `ymd` does not pad the year, so they are not printed back
  (`ColomboDate.CalendarDateReprints`, `ColomboDate.AddZeroDays`) and their printed form is not read at all
  (`TypedDate.FormatThenParse`): "0999-12-31" gives "999-12-31" (`ColomboDate.YearNineNineNine`,
  `TypedDate.YearNineNineNineIsNotRead`). Years 0 to 99 are read back as 1900 to 1999, and the text of a year before 0 as
  another date (`ColomboDate.AddDaysAction`): one day back from 1 January 100 and one day on leads to 1 January 2000
  (`ColomboDate.OneDayBackAndOn`), and the Monday of that week has another week (`MonthCalendar.WeekOfYearHundred`).
* "Parents saved before children" holds in `chunkForSave` for a pair exactly when the parent is not on a cycle of parent
  links or has the smaller row number (`SaveOrder.ParentsFirst`); two lines that name each other are saved child first
  (`SaveOrder.ParentBehindChild`). The planner, which makes these lines, removes every circle before, so that behind it
  parents always come first (`PlanCircles.NoCycleIsLeft`, `PlanCircles.PlannedParentsFirst`).
* `objectIdToString` says that it leaves other values alone. It turns them into texts, the key hint ignores case, and what
  lies below a hinted key goes with it. A document keeps all its dates exactly when none lies in the value of an id key,
  among the items under an "ids" key or in an object that stands for an ObjectId (`ObjectIdPass.DatesSurviveIffSafe`); a
  date under "paid", or under "at" below "userId", becomes text (`ObjectIdPass.PaidDateIsLost`,
  `ObjectIdPass.NestedDateIsLost`).
* A second run of `convertObjectIdsDeep` changes nothing exactly when the first gave no object the tag of an ObjectId
  (`ObjectIdPass.ConvertTwice`, `ObjectIdPass.SecondRunMakesText`).
* A second run of the three passes gives their result back exactly when the first made no decimal and no such tag
  (`RunTwice.SecondRunKeepsIffSafe`): `convertObjectIdsDeep` takes a decimal apart, and the text of what is left is no
  number, so the second run fails on a cost (`RunTwice.SecondRunFailsOnCost`).
* Date keys hold dates after the three passes exactly when they did so before below every object that gets the tag of an
  ObjectId, where the date pass does not go (`PassesTogether.ThreePassesDeliver`); one such object keeps the text of its
  `createdAt` (`PassesTogether.TaggedObjectKeepsText`).
* "A burst of 401s cannot rotate tokens in parallel" holds of each latch alone (`SessionProtocol.OneRefreshAtATime`). The
  server forwards the browser's refreshes past its own latch, and the browser frees its latch when it gives one up. So
  several refreshes of one token can be at the API, exactly when the server forwards one beside its own or beside one
  that was given up or not shared (`TokenRotation.WhenRefreshesOverlap`), and never exactly when none starts beside another
  (`TokenRotation.OneAtATimeIff`): an expired read beside a forwarded refresh makes two
  (`TokenRotation.SilentBesideForwarded`), and there is no bound on them (`TokenRotation.AnyNumberAtApi`).
* The reader's skip of the line feed behind a carriage return has no effect, since empty lines are dropped anyway: the
  reference scanner has no such rule and agrees with the reader (`Csv.SplitLines`).

## Model

| member | source | states |
|---|---|---|
| CivilDate.FormulaCountsYears | maintainpro/apps/web/lib/colombo-datetime.ts:19-20 | the standard's formula for the first day of a year counts exactly the days of the years since 1970, leap years included |
| CivilDate.YearNear | maintainpro/apps/web/lib/colombo-datetime.ts:19-20 | the year found for a day number is the one whose first day is the last not after it |
| CivilDate.DayNumberOfCivil | maintainpro/apps/web/lib/colombo-datetime.ts:17-21 | every day number has an existing date whose day number it is |
| CivilDate.CivilOfDayNumber | maintainpro/apps/web/lib/colombo-datetime.ts:17-21 | every existing date is the date of its day number, so the two directions are a bijection |
| CivilDate.DayOrder | maintainpro/apps/web/lib/colombo-datetime.ts:17-21 | day numbers order existing dates exactly as year, month and day do |
| CivilDate.RangeOfDates | maintainpro/apps/web/lib/colombo-datetime.ts:17-21 | dates run from 20 April of the year -271821 to 13 September of the year 275760 |
| ColomboDate.CalendarDateExistsIff | maintainpro/apps/web/lib/colombo-datetime.ts:17-21 | the rebuild test accepts exactly the dates told by the month lengths, without the years 0 to 99 |
| ColomboDate.PrintedIsCalendarDate | maintainpro/apps/web/lib/colombo-datetime.ts:11-25 | a printed date passes `isCalendarDate` exactly when its year has four digits |
| ColomboDate.CalendarDateReprints | maintainpro/apps/web/lib/colombo-datetime.ts:11-25 | printing the fields of a date text gives it back exactly from the year 1000 on |
| ColomboDate.YmdInjective | maintainpro/apps/web/lib/colombo-datetime.ts:23-25 | different dates are printed differently, for all years |
| ColomboDate.AddDaysMovesDayNumber | maintainpro/apps/web/lib/colombo-datetime.ts:137-141 | adding n days moves the day number by exactly n, across months, leap years and centuries, up to the range of dates |
| ColomboDate.AddDaysStaysCalendarDate | maintainpro/apps/web/lib/colombo-datetime.ts:137-141 | the result is a calendar date exactly when it falls in a four-digit year, and its fields are those of the new day |
| ColomboDate.AddZeroDays | maintainpro/apps/web/lib/colombo-datetime.ts:137-141 | adding no days is the identity exactly from the year 1000 on |
| ColomboDate.ShortYearIsShortened | maintainpro/apps/web/lib/colombo-datetime.ts:11-25 | every date of the years 100 to 999 has a calendar date text whose reprint is no calendar date |
| ColomboDate.YearNineNineNine | maintainpro/apps/web/lib/colombo-datetime.ts:11-25 | "0999-12-31" is one of them and is printed as "999-12-31" |
| ColomboDate.AddDaysAction | maintainpro/apps/web/lib/colombo-datetime.ts:137-141 | adding a and then b days is adding a + b exactly when the date in between is of the year 100 or later, years before 0 included |
| ColomboDate.OneDayBackAndOn | maintainpro/apps/web/lib/colombo-datetime.ts:137-141 | from 1 January 100, one day back and one day on leads to 1 January 2000 |
| TypedDate.NumericFormReads | maintainpro/apps/web/lib/colombo-datetime.ts:33-60 | one or two digits of day and month and four of year, with slashes or dashes, read as the date they name if it exists and is not of the years 0 to 99, and as nothing otherwise |
| TypedDate.MonthIndexIff | maintainpro/apps/web/lib/colombo-datetime.ts:5-9 | a word has the number of a month exactly when it is one of its names, which are written out for each month |
| TypedDate.NamedFormReads | maintainpro/apps/web/lib/colombo-datetime.ts:33-60 | a day, any name of a month in any case and a four-digit year read as the date they name; another word or another length of the year is not read |
| Text.SpacesAre | maintainpro/apps/web/lib/colombo-datetime.ts:34-34 | the characters that count as white space, by their numbers |
| TypedDate.SpacesDoNotMatter | maintainpro/apps/web/lib/colombo-datetime.ts:33-41 | however much white space stands around and between day, word and year, the same is read |
| TypedDate.OuterSpacesDoNotMatter | maintainpro/apps/web/lib/colombo-datetime.ts:33-41 | white space around a date of any form changes nothing |
| TypedDate.FormatIs | maintainpro/apps/web/lib/colombo-datetime.ts:27-31 | a calendar date is printed as its two-digit day, the name of its month, written out for each, and its year; other texts as nothing |
| TypedDate.IsoFormReads | maintainpro/apps/web/lib/colombo-datetime.ts:33-60 | every text of the iso form reads as the date it names, if there is one, and every calendar date text as its own date |
| TypedDate.FormatThenParse | maintainpro/apps/web/lib/colombo-datetime.ts:27-60 | reading a formatted date gives it back exactly from the year 1000 on, and nothing before |
| TypedDate.YearNineNineNineIsNotRead | maintainpro/apps/web/lib/colombo-datetime.ts:27-60 | the formatted text of "0999-12-31" is not read |
| TypedDate.ParsedDateIsFixpoint | maintainpro/apps/web/lib/colombo-datetime.ts:33-60 | whatever was typed, a date that is read exists, is of the years 100 to 9999, and from 1000 on is a fixpoint |
| MonthCalendar.AddMonthsLands | maintainpro/apps/web/lib/colombo-datetime.ts:143-148 | in every year the result lies exactly n months on, at the same day or the last day of the month, but for 29 February of the year 0; beyond the range of dates it is no date |
| MonthCalendar.AddMonthsStaysCalendarDate | maintainpro/apps/web/lib/colombo-datetime.ts:143-148 | the result for a calendar date is one exactly when its year has four digits |
| MonthCalendar.AddMonthsUndone | maintainpro/apps/web/lib/colombo-datetime.ts:143-148 | for every calendar date and every month within the range of dates, moving there and back gives its fields back exactly when the month in between has its day and is not before the year 100; from the year 1000 on that is the text itself |
| MonthCalendar.AddMonthsMonotone | maintainpro/apps/web/lib/colombo-datetime.ts:143-148 | of two dates moved by the same months the later one is never earlier, in any year within the range of dates |
| MonthCalendar.AddMonthsAddUp | maintainpro/apps/web/lib/colombo-datetime.ts:143-148 | two steps add up exactly when the date in between is not before the year 100 and keeps the day or lies in a month no shorter than the final one |
| MonthCalendar.MonthEndsDoNotAddUp | maintainpro/apps/web/lib/colombo-datetime.ts:143-148 | from "2026-01-31", one month and one month lead to "2026-03-28", two months to "2026-03-31" |
| MonthCalendar.WeekEncloses | maintainpro/apps/web/lib/colombo-datetime.ts:150-155 | for every calendar date the bounds are a Monday and the Sunday six days on and enclose the date; the Sunday has the same bounds, and the Monday exactly when it is not of the year 99 |
| MonthCalendar.WeekOfYearHundred | maintainpro/apps/web/lib/colombo-datetime.ts:150-155 | the Monday of "0100-01-01" is of the year 99, and its own bound is a Monday of 1999 |
| MonthCalendar.CalendarMonthGrid | maintainpro/apps/web/lib/colombo-datetime.ts:171-179 | days 1 to the last of the month meant, once each in order, every one in the column of its weekday, empty cells only in front; month indexes from 12 on and the ends of the range of dates included |
| MonthCalendar.StringOrderIsDayOrder | maintainpro/apps/web/lib/colombo-datetime.ts:185-189 | plain string order of calendar dates is the order of the days |
| MonthCalendar.OutsideRangeIff | maintainpro/apps/web/lib/colombo-datetime.ts:185-189 | a date is outside the range exactly when its day is before the first or after the last allowed day |
| Csv.InsideIsOddQuotes | maintainpro/apps/api/scripts/import-vehicles.ts:83-126 | the scanner is inside quotes exactly when an odd number of quotes of the whole text lies behind it |
| Csv.SeparatorsAtEvenQuotes | maintainpro/apps/api/scripts/import-vehicles.ts:83-126 | a comma or newline separates exactly behind an even number of quotes, anywhere in any text |
| Csv.QuoteIsRead | maintainpro/apps/api/scripts/import-vehicles.ts:83-126 | a quote is left out of the field unless it directly follows another with an even number before it, anywhere in any text |
| Csv.CharacterIsRead | maintainpro/apps/api/scripts/import-vehicles.ts:83-126 | every other character becomes one of the field |
| Csv.SplitLines | maintainpro/apps/api/scripts/import-vehicles.ts:83-102 | the first pass cuts one line per record of the single scanner, and each line holds that record |
| Csv.SplitRow | maintainpro/apps/api/scripts/import-vehicles.ts:104-126 | the second pass with its lookahead gives the fields of the scanner that never looks ahead |
| Csv.ParseCsv | maintainpro/apps/api/scripts/import-vehicles.ts:81-140 | both passes compute the rows of the single scanner: first record names the columns, blank records are skipped, no record is an error |
| Csv.ParsedIs | maintainpro/apps/api/scripts/import-vehicles.ts:128-140 | the rows are, in order, those of all records behind the first but those of a single field of white space, under its trimmed names |
| Csv.RowIs | maintainpro/apps/api/scripts/import-vehicles.ts:131-138 | under a name stands the trimmed field of the last column of that name, or nothing below a short row |
| Csv.ReadAfterWrite | maintainpro/apps/web/lib/asset-register-import.ts:246-249 | reading a written error list gives one row per entry, in order, with the trimmed original fields, whatever quotes, commas and line ends they hold |
| Csv.OneEntryWritten | maintainpro/apps/web/lib/asset-register-import.ts:246-249 | the text written for one entry, written out |
| ParentChain.DepthCountsAncestors | maintainpro/apps/web/lib/asset-register-import.ts:228-234 | the depth is the number of distinct rows reached over parent links, on any parent map |
| ParentChain.ChildDepth | maintainpro/apps/web/lib/asset-register-import.ts:228-234 | a child is one deeper than its parent unless the parent is on a cycle, when both are equally deep |
| SaveOrder.CountDepth | maintainpro/apps/web/lib/asset-register-import.ts:228-234 | the recursion with its shared set ends on every parent map and counts the ancestors not seen before |
| SaveOrder.OrderedSorts | maintainpro/apps/web/lib/asset-register-import.ts:235 | sorting keeps all rows and obeys the comparison |
| SaveOrder.OrderedByAncestors | maintainpro/apps/web/lib/asset-register-import.ts:235 | of two saved rows the earlier has fewer distinct rows above it, or as many and no larger row number |
| SaveOrder.ParentsAre | maintainpro/apps/web/lib/asset-register-import.ts:225-232 | a row's parent is the row of the last line that carries the tag which the row's last line names, unless that is row 0 |
| SaveOrder.OrderIsUnique | maintainpro/apps/web/lib/asset-register-import.ts:235 | with distinct row numbers any sort that obeys the comparison gives this order |
| SaveOrder.ParentsFirst | maintainpro/apps/web/lib/asset-register-import.ts:224-239 | a parent row comes before its child exactly when it is not on a cycle or has the smaller row number |
| SaveOrder.ParentBehindChild | maintainpro/apps/web/lib/asset-register-import.ts:224-239 | of two lines that name each other the child is saved first |
| PlanCircles.ClearCircles | maintainpro/apps/api/src/modules/assets/asset-register-import.ts:640-654 | the planner's walk from every line, with its index by tag, computes the clearing step by step |
| PlanCircles.CirclesIff | maintainpro/apps/api/src/modules/assets/asset-register-import.ts:640-654 | a line is taken for circling exactly when its parents never end or lead back to its own tag |
| PlanCircles.OnlyCirclesAreCleared | maintainpro/apps/api/src/modules/assets/asset-register-import.ts:640-654 | lines change only by losing their link, and only lines that circle in the file lose it |
| PlanCircles.LosesLinkIff | maintainpro/apps/api/src/modules/assets/asset-register-import.ts:640-654 | a line loses its link exactly when it circles among the lines as they stand at its turn |
| PlanCircles.EachCycleLosesOneLink | maintainpro/apps/api/src/modules/assets/asset-register-import.ts:640-654 | of every cycle of tags exactly one line loses its link, the first of them in the file |
| PlanCircles.UnchangedIffNoCircles | maintainpro/apps/api/src/modules/assets/asset-register-import.ts:640-654 | nothing is removed exactly when no line circles |
| PlanCircles.NoCycleIsLeft | maintainpro/apps/api/src/modules/assets/asset-register-import.ts:619-654 | behind the planner the browser's parent rows have no cycle |
| PlanCircles.PlannedParentsFirst | maintainpro/apps/api/src/modules/assets/asset-register-import.ts:639-654 | so every parent row is saved before its child |
| SaveOrder.ChunkForSave | maintainpro/apps/web/lib/asset-register-import.ts:225-239 | the parts join to the sorted rows, a permutation of the input; none is empty or too long, only the last may be short |
| ParentChain.ReparentAcyclic | maintainpro/apps/web/lib/places-import.ts:112-127 | in a forest, a new parent makes a cycle exactly when it is the moved element or lies below it |
| MoveTargets.Walker.Walk | maintainpro/apps/web/lib/places-import.ts:118-124 | the recursive walk appends the listed locations behind what is there |
| MoveTargets.ListedIsSelected | maintainpro/apps/web/lib/places-import.ts:116-127 | the list is, in preorder with true depth, exactly the active locations whose path avoids the moved one |
| MoveTargets.VisitsInPreorder | maintainpro/apps/web/lib/places-import.ts:118-124 | a location is met before all below it, and these before its later siblings and all below them |
| MoveTargets.ForestIsAcyclic | maintainpro/apps/web/lib/places-import.ts:116-127 | the parent links of a forest with unique ids have no cycle |
| MoveTargets.ListedTargetsAreTheSafeOnes | maintainpro/apps/web/lib/places-import.ts:112-127 | an active location is listed, by its id, name with code and depth, exactly when moving under it leaves the parent links without a cycle |
| SingleFlight.InvHolds | maintainpro/apps/web/lib/bff-silent-refresh.ts:54-89 | in every interleaving, resets included, a latch points to a run of its key that nobody has seen finish, and callers hold runs of their key |
| SingleFlight.CallJoinsRunInFlight | maintainpro/apps/web/lib/bff-silent-refresh.ts:66-84 | a caller is promised a run of its own key in flight at its call |
| SingleFlight.LaterExtends | maintainpro/apps/web/lib/bff-silent-refresh.ts:66-84 | promises never change later, what a run ended with becomes its outcome, and visible outcomes stay |
| SingleFlight.SharersHaveOneToken | maintainpro/apps/web/lib/bff-silent-refresh.ts:60-65 | different sessions never share a refresh when the digest is injective |
| SingleFlight.CleanUpSparesOthers | maintainpro/apps/web/lib/bff-silent-refresh.ts:76-80 | a finished run never removes the latch of a newer one |
| SingleFlight.AtMostOneRunPerKey | maintainpro/apps/web/lib/bff-silent-refresh.ts:60-84 | without a reset at most one refresh per token is in flight |
| SingleFlight.ResetAllowsTwoRuns | maintainpro/apps/web/lib/bff-silent-refresh.ts:86-89 | a reset between two calls does put two runs in flight |
| SingleFlight.SilentRefreshLatches.RunExclusive | maintainpro/apps/web/lib/bff-silent-refresh.ts:66-84 | the method takes the call step of the machine and returns the run promised |
| SingleFlight.SilentRefreshLatches.Finally | maintainpro/apps/web/lib/bff-silent-refresh.ts:76-80 | the clean-up takes the machine's clean-up step |
| SingleFlight.AccessTokenRefresh.Share | maintainpro/apps/web/lib/access-token-refresh.ts:11-18 | the browser's latch takes the call step of the same machine with one key |
| SingleFlight.AccessTokenRefresh.Finally | maintainpro/apps/web/lib/access-token-refresh.ts:13-15 | its clean-up takes the machine's clean-up step |
| UpstreamFetch.ReadCauseCode | maintainpro/apps/web/lib/bff-upstream-fetch.ts:44-55 | the code of the i-th cause for the least i of 1 to 3 with one, else the error's own, else the empty text |
| UpstreamFetch.RetryPolicy | maintainpro/apps/web/lib/bff-upstream-fetch.ts:57-91 | the documented retry policy, from any thrown error to the decision, told by its name, its message and the code of its nearest cause, the codes written out |
| UpstreamFetch.SafeMethods | maintainpro/apps/web/lib/bff-upstream-fetch.ts:32-32 | GET, HEAD and OPTIONS in any case of letters are the methods that count as safe |
| UpstreamFetch.FailureTold | maintainpro/apps/web/lib/bff-upstream-fetch.ts:57-80 | status and reported code of every error: 500 for a misconfiguration, 504 for a timeout, 503 for all else |
| UpstreamFetch.RefusedGetIsRetried | maintainpro/apps/web/lib/bff-upstream-fetch.ts:44-91 | a GET whose error has its only code, ECONNREFUSED, on the cause is tried again |
| UpstreamFetch.TimeoutsAreFinal | maintainpro/apps/web/lib/bff-upstream-fetch.ts:57-91 | an error that is a timeout by name, code or message is never tried again |
| UpstreamFetch.FetchUpstreamWithRetry | maintainpro/apps/web/lib/bff-upstream-fetch.ts:137-176 | one to three attempts, all but the last failed retryably, the last not; the log matches, and the waits are 250 and 750 ms |
| BffProxy.ProxyBffRequest | maintainpro/apps/web/lib/bff-proxy.ts:343-394 | the answer and the kept tokens are told by the last attempt, the refresh and the one replay, which are for reads only; they are those of a run of the server's phases fed with exactly these replies |
| BffProxy.ChangeRun | maintainpro/apps/web/lib/bff-proxy.ts:343-394 | a change is refused unasked, or asked for, again only behind refused connections with a key, so exactly once without one; it is never replayed |
| SessionProtocol.NextKeepsInv | maintainpro/apps/web/lib/api-client.ts:267-335 | every step of browser, server and latches keeps the invariant of all requests: bounds, links, and that a request is sent again after a successful refresh and ends with 401 after a failed one |
| SessionProtocol.RetriedAsRefreshed | maintainpro/apps/web/lib/api-client.ts:310-331 | over every run a request is sent a second time exactly when the refresh it waited for was a success, and ends unsent with 401 exactly when it was none; every other status is the server's answer |
| SessionProtocol.RefreshSucceedsIff | maintainpro/apps/web/lib/api-client.ts:217-243 | over every run an ended refresh was a success exactly when its request got a 2xx, or an error that told of a sibling's rotation |
| SessionProtocol.EndDecides | maintainpro/apps/web/lib/api-client.ts:228-243 | a rotation by a sibling or a 2xx ends the refresh as a success, anything else as none |
| SessionProtocol.AnswerDecides | maintainpro/apps/web/lib/api-client.ts:310-334 | an answer makes a request wait exactly when it is the first 401 of a request without credentials that asks for no password change; else it ends with the answer's status |
| SessionProtocol.WaitingStartsRefresh | maintainpro/apps/web/lib/api-client.ts:217-231 | a request that comes to wait joins the refresh in flight, or starts one, which sends a request exactly with a CSRF cookie |
| SessionCounts.CountersCount | maintainpro/apps/web/lib/api-client.ts:267-335 | the counters of a request are the numbers of the run's steps that send it, ask the API for it and apply it |
| SessionCounts.ChangeCanBeApplied | maintainpro/apps/web/lib/api-client.ts:310-331 | behind every answer but a 401 a change can have been applied, and the browser gets that answer |
| SessionProtocol.ChangeAppliedAtMostOnce | maintainpro/apps/web/lib/api-client.ts:310-331 | over every interleaving a changing request is applied at most once, if a refused connection and a 401 mean not applied |
| SessionProtocol.RequestsAreBounded | maintainpro/apps/web/lib/api-client.ts:310-331 | the browser sends a request at most twice, with credentials once; per send the API is asked at most four times for a GET, three for other reads and changes with a key, once otherwise |
| SessionProtocol.OneRefreshAtATime | maintainpro/apps/web/lib/access-token-refresh.ts:7-18 | each latch has at most one run in flight per key: one shared refresh of the browser, one refresh of the server's own per token |
| TokenRotation.WhenRefreshesOverlap | maintainpro/apps/web/lib/bff-proxy.ts:325-378 | over every run, refreshes of one token at the API number at most one of the server's own plus the forwarded ones, and exceed one exactly when a forwarded one overlaps the server's own or one that the browser gave up or never shared |
| TokenRotation.StepsCount | maintainpro/apps/web/lib/bff-proxy.ts:325-378 | exactly the sending of a forwarded refresh and a 401 that finds no run of the token raise their number by one, exactly the ends of these lower it |
| TokenRotation.OneAtATimeIff | maintainpro/apps/web/lib/bff-silent-refresh.ts:1-8 | in a run at most one refresh of a token is ever at the API exactly when none starts beside another |
| TokenRotation.SilentBesideForwarded | maintainpro/apps/web/lib/bff-silent-refresh.ts:60-84 | a concrete run with a refresh of the server's own beside a forwarded one of the same token |
| TokenRotation.AnyNumberAtApi | maintainpro/apps/web/lib/access-token-refresh.ts:7-18 | for every n a run with n forwarded refreshes of one token at the API at once |
| SessionProtocol.RefreshNeverWaits | maintainpro/apps/web/lib/api-client.ts:217-243 | the refresh request is sent and asked for at most once and never itself waits for a refresh |
| SessionProtocol.WaitingMovesOn | maintainpro/apps/web/lib/api-client.ts:310-331 | whatever step is taken, a waiting request stops waiting or waits on for the same run, no farther from its end |
| SessionProtocol.WaitingIsBounded | maintainpro/apps/web/lib/api-client.ts:310-331 | however other requests interleave, a request that still waits has seen at most four steps of its own refresh, and another is possible |
| SessionProtocol.WaitingCanStop | maintainpro/apps/web/lib/api-client.ts:310-331 | from every state of every run a waiting request is sent again after a success, or ends with 401, by at most five steps of its own refresh and no others |
| SessionProtocol.TokensAreOwn | maintainpro/apps/web/lib/bff-proxy.ts:373-378 | a server request waits for the tokens of its own refresh token |
| OfflineQueue.KeysStayDistinct | maintainpro/apps/web/lib/offline-queue.ts:71-102 | no sequence of operations makes two items share an idempotency key |
| OfflineQueue.OrderAndIdentityStay | maintainpro/apps/web/lib/offline-queue.ts:71-147 | after any operations the old items that are left keep identity and order, behind the newly queued ones |
| OfflineQueue.DroppedOnlyWhenSent | maintainpro/apps/web/lib/offline-queue.ts:142-147 | an item disappears only by a pruning that found it sent and old, or without a readable time |
| OfflineQueue.ReplayIsOwnersItems | maintainpro/apps/web/lib/offline-queue.ts:125-140 | what is replayed is exactly what is due of the owner, unchanged and in queue order; without a user nothing |
| OfflineQueue.OwnersAreDisjoint | maintainpro/apps/web/lib/offline-queue.ts:121-140 | two different owners never replay items with a common idempotency key, whatever kinds of action they replay |
| OfflineQueue.PruneKeepsReplay | maintainpro/apps/web/lib/offline-queue.ts:121-147 | pruning leaves every owner's replay as it is, in the same order |
| OfflineQueue.SentIsNotReplayed | maintainpro/apps/web/lib/offline-queue.ts:93-140 | once marked as sent, an action is in no replay any more, and every other replayed item stays |
| OfflineQueue.QueuedIsReplayed | maintainpro/apps/web/lib/offline-queue.ts:71-91 | a new key puts one item, unsent and without retries, in front of its owner's replay of its kind; other replays and the rest of the queue stay, and a known key changes nothing |
| OfflineQueue.DueUntilUpdated | maintainpro/apps/web/lib/offline-queue.ts:71-147 | over all operations an item that is due stays in its owner's replay until an update names it |
| OfflineQueue.QueuedIsDue | maintainpro/apps/web/lib/offline-queue.ts:71-147 | a user's queued action is in the user's replay after any operations that do not update it |
| OfflineQueue.UpdateChanges | maintainpro/apps/web/lib/offline-queue.ts:93-102 | an update changes in the named items the fields that the patch names, and nothing else |
| OfflineQueue.PruneKeeps | maintainpro/apps/web/lib/offline-queue.ts:142-147 | a pruning keeps in order exactly the items not sent, or sent less than a day ago at a readable time |
| OfflineQueue.Queue.EnqueueOfflineAction | maintainpro/apps/web/lib/offline-queue.ts:71-91 | the stored queue takes the enqueue step |
| OfflineQueue.Queue.UpdateOfflineAction | maintainpro/apps/web/lib/offline-queue.ts:93-102 | the stored queue takes the update step |
| OfflineQueue.Queue.PruneSyncedOfflineActions | maintainpro/apps/web/lib/offline-queue.ts:143-147 | the stored queue takes the prune step, written only when something goes |
| OfflineQueue.Queue.ReplayableOfflineActions | maintainpro/apps/web/lib/offline-queue.ts:125-140 | the method returns exactly what is due of the owner in the stored queue, unchanged and in order |
| RequestSequencer.UsedUntilNextAction | maintainpro/apps/web/lib/list-query-state.ts:51-68 | over every sequence of requests and cancellations, the answer to a request is used exactly as long as nothing was begun or cancelled after it |
| RequestSequencer.Sequencer.Begin | maintainpro/apps/web/lib/list-query-state.ts:55-60 | takes the machine's step: a fresh number becomes the only open one, and every earlier controller is aborted |
| RequestSequencer.Sequencer.IsLatest | maintainpro/apps/web/lib/list-query-state.ts:61-63 | an answer counts exactly when it carries the latest number, and of those handed out exactly that of the open request |
| RequestSequencer.Sequencer.Cancel | maintainpro/apps/web/lib/list-query-state.ts:64-68 | takes the machine's step: no request is open and every controller is aborted |
| MeterReading.AcceptedIffAlive | maintainpro/apps/web/lib/meter-reading-input.ts:36-47 | the field takes exactly the language of a small key-by-key automaton |
| MeterReading.EditDecides | maintainpro/apps/web/lib/meter-reading-input.ts:36-47 | an edit in that language becomes the draft, and any other leaves the draft as it is |
| MeterReading.EditsStayAccepted | maintainpro/apps/web/lib/meter-reading-input.ts:32-47 | after any edits the draft is in that language |
| MeterReading.PrefixAccepted | maintainpro/apps/web/lib/meter-reading-input.ts:32-47 | the language is closed under front parts |
| MeterReading.TypableIffAccepted | maintainpro/apps/web/lib/meter-reading-input.ts:32-47 | a text can be typed key by key exactly when it is accepted |
| MeterReading.SavableIffFinishedDraft | maintainpro/apps/web/lib/meter-reading-input.ts:12-26 | a text has no field error exactly when it is, without the white space around it, a draft that is not empty and neither starts nor ends with a dot |
| MeterReading.ErrorTold | maintainpro/apps/web/lib/meter-reading-input.ts:12-26 | which error is told: nothing entered, digits that end in a dot, no reading at any precision, or a reading with too many digits behind the dot |
| MeterReading.WholeInGroups | maintainpro/apps/web/lib/meter-readings-display.ts:24-29 | the whole part is cut into one group of one to three digits and groups of exactly three |
| MeterReading.FractionIsShown | maintainpro/apps/web/lib/meter-readings-display.ts:23-29 | only the whole part is grouped; the dot and what is behind it are shown as they are |
| MeterReading.GroupingIsUndone | maintainpro/apps/web/lib/meter-readings-display.ts:23-29 | deleting the commas gives every accepted draft back |
| ObjectIdPass.ConvertObjectIdsDeep | maintainpro/scripts/mongo-to-sqlserver/transforms.ts:31-59 | the pass with its loops computes the recursive conversion |
| ObjectIdPass.NoObjectIdRemains | maintainpro/scripts/mongo-to-sqlserver/transforms.ts:31-59 | no ObjectId is left at any depth of any document |
| ObjectIdPass.UnchangedIffClean | maintainpro/scripts/mongo-to-sqlserver/transforms.ts:31-59 | the pass changes nothing exactly on documents with nothing to change, told without running it |
| ObjectIdPass.ConvertTwice | maintainpro/scripts/mongo-to-sqlserver/transforms.ts:31-59 | a second run changes nothing exactly when the first gave no object the tag of an ObjectId |
| ObjectIdPass.SecondRunMakesText | maintainpro/scripts/mongo-to-sqlserver/transforms.ts:31-59 | an object whose type is named by an ObjectId is such an object, and the second run makes it a text |
| ObjectIdPass.ConvertKeeps | maintainpro/scripts/mongo-to-sqlserver/transforms.ts:31-59 | the pass gives exactly this: arrays with their length, other objects with their keys in order, texts under hinted keys, all other values as they are |
| ObjectIdPass.IdKeyIff | maintainpro/scripts/mongo-to-sqlserver/transforms.ts:28-29 | the hinted keys are those that end in "id" or "ids" in any case, with no line end in front |
| ObjectIdPass.IdLikeIff | maintainpro/scripts/mongo-to-sqlserver/transforms.ts:40-45 | an object stands for an ObjectId by a `$oid` that is not falsy, or by its tag |
| ObjectIdPass.DatesSurviveIffSafe | maintainpro/scripts/mongo-to-sqlserver/transforms.ts:28-59 | all dates of a document survive, in order, exactly when none lies in the value of an id key, among the items under an "ids" key or in an object that stands for an ObjectId |
| ObjectIdPass.PaidDateIsLost | maintainpro/scripts/mongo-to-sqlserver/transforms.ts:28-55 | a date under "paid" becomes a text |
| ObjectIdPass.NestedDateIsLost | maintainpro/scripts/mongo-to-sqlserver/transforms.ts:28-55 | a date under "at" below "userId" becomes part of a text |
| CoercionPasses.CoerceDeep | maintainpro/scripts/mongo-to-sqlserver/transforms.ts:119-134 | the date and decimal passes with their loops compute the recursive conversion and fail at the first bad value |
| CoercionPasses.DatesGive | maintainpro/scripts/mongo-to-sqlserver/transforms.ts:62-134 | the date pass gives exactly this, value by value, or fails: under date keys the date of that very text or number, a date as it is, the rest of the document in its shape |
| CoercionPasses.DecimalsGive | maintainpro/scripts/mongo-to-sqlserver/transforms.ts:136-182 | the decimal pass likewise, with the decimal of that very value under its keys |
| CoercionPasses.UnchangedIffSettled | maintainpro/scripts/mongo-to-sqlserver/transforms.ts:170-182 | a pass changes nothing exactly on documents with nothing to change |
| CoercionPasses.CoerceTwice | maintainpro/scripts/mongo-to-sqlserver/transforms.ts:170-182 | a second run of the date pass or the decimal pass succeeds and changes nothing |
| PassesTogether.ThreePassesDeliver | maintainpro/scripts/mongo-to-sqlserver/transforms.ts:301-304 | after the three passes no ObjectId is left and decimal keys hold decimals at every depth; date keys hold dates at every depth exactly when they held dates below each object that gets the tag of an ObjectId |
| PassesTogether.ThreePassesGive | maintainpro/scripts/mongo-to-sqlserver/transforms.ts:301-304 | the three passes give a result exactly when the three relations lead to it from the raw document, and fail otherwise |
| PassesTogether.ThreePassesDeliverEach | maintainpro/scripts/mongo-to-sqlserver/transforms.ts:301-304 | what every raw value becomes at every depth: the date of a text or number under a date key, the decimal under a decimal key, a text in an id's place, and else itself |
| PassesTogether.TaggedObjectKeepsText | maintainpro/scripts/mongo-to-sqlserver/transforms.ts:119-134 | an object whose type is named by an ObjectId keeps the text of its `createdAt` |
| RunTwice.SecondRunKeepsIffSafe | maintainpro/scripts/mongo-to-sqlserver/transforms.ts:301-304 | a second run of the three passes gives their result back exactly when no decimal key that is walked to held a value and no object got the tag of an ObjectId, told from the first input alone |
| RunTwice.SecondRunFailsOnCost | maintainpro/scripts/mongo-to-sqlserver/transforms.ts:301-304 | the cost "1" becomes a decimal in the first run and an error in the second |
| JsonTextPass.ApplyJsonTextFields | maintainpro/scripts/mongo-to-sqlserver/transforms.ts:289-299 | every known field gets its text under its old key and the others stay, or some field has no text |
| JsonTextPass.TextIsIff | maintainpro/scripts/mongo-to-sqlserver/transforms.ts:184-202 | the text of a field is the printed list or object that stands in it, a list's text printed anew, an object's text as it is if it is JSON |
| JsonTextPass.TextsAreStable | maintainpro/scripts/mongo-to-sqlserver/transforms.ts:184-202 | a second run changes nothing and every known field holds a text or nothing |

## Left out

- ColomboDate.AddDaysAction: the dates in between and at the end lie in the range of dates; beyond it the text is the invalid one. Texts other than digits between dashes are not read. Numbers are exact integers, as the program's are up to 2^53.
- MonthCalendar.AddMonthsAddUp: the dates in between and at the end lie in the range of dates.
- MonthCalendar.CalendarMonthGrid: negative month indexes are left out.
- SaveOrder.OrderedSorts: the library sort is represented by insertion; SaveOrder.OrderIsUnique shows that the choice does not matter for distinct row numbers. `toUpperCase` of tags is a parameter.
- SaveOrder.CountDepth: what it requires of the shared set holds of the empty set, with which every outer call starts.
- SaveOrder.ParentsFirst: for distinct row numbers, as the rows of one sheet have.
- PlanCircles.ClearCircles: the status and the message that a line gets with the loss of its link, and the lines rejected because of their parent's status, are left out; a line keeps the row, tag and link that the browser uses.
- MoveTargets.ListedTargetsAreTheSafeOnes: for forests with unique ids, as the locations of one site have.
- UpstreamFetch.ReadCauseCode: chains of causes are finite; the program reads four levels at most.
- BffProxy.ProxyBffRequest: cookies, headers, bodies, CSRF values and the reply's content type are left out; every refusal before the API is asked is one parameter.
- SessionProtocol.ChangeAppliedAtMostOnce: assumes, as the source does, that a refused connection and a 401 mean that nothing was applied; timers, page redirects and the tenant reset are left out, and a password change only ends the request.
- SessionProtocol.WaitingIsBounded: no timers are modelled, so that the steps of the refresh are taken at all is up to the network; an answer that never comes is a request given up.
- TokenRotation.WhenRefreshesOverlap: what the API does with several refreshes of one token, a rotated or a refused one, is not modelled; a refresh is at the API until the server has its answer or error, also when the browser waits no longer.
- SingleFlight.SharersHaveOneToken: SHA-256 is any injective function.
- OfflineQueue.Queue.EnqueueOfflineAction: the storage is a sequence that is never lost; the IndexedDB mirror and hydration from it are left out, as is the derived `syncState`.
- ObjectIdPass.ConvertObjectIdsDeep: Buffers are not part of the documents, and `String(value)` is any function.
- CoercionPasses.CoerceDeep: `new Date` and `new Decimal` are any functions that may fail; an ObjectId has no entries of its own.
- RunTwice.SecondRunKeepsIffSafe: assumes that the text of an object is no number and that a decimal's own fields do not stand for an ObjectId.
- JsonTextPass.TextsAreStable: JSON is any pair of functions in which printed values can be read and printed lists read back as lists that print the same.
- Texts are sequences of Unicode scalar values rather than UTF-16 units; all rules look at ASCII characters or white space only, and upper-casing of methods and error codes is that of ASCII.
- `rowsToSave`, `comparableConsumptions`, `clampPage`, `totalPagesFor`, `calendarKeyTarget`, `parseTypedTime` and the `id` handling of `transformDocument`: linear or field-by-field code that would only add easy members.
- Time zones, clocks, Prisma, React, sockets, browser storage and the upload of workbooks: services outside these files.
