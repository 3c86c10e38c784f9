# Daily checklist tracker: scoring, streaks and achievements in Dafny

This project models the engine of a daily-checklist tracker (a Next.js app written in TypeScript) and proves properties of that model. A user keeps one entry per day. Each entry holds a checklist that follows a template of sections and items, plus fibre and water amounts. The modelled parts:

- the day's score, and the section and day completion flags derived from it (`lib/utils.ts`);
- the entry store, its upsert and the streak it recomputes (`lib/storage.ts`);
- the achievement catalog and the choice of newly unlocked badges (`lib/achievements.ts`);
- the default template (`lib/defaults.ts`);
- the item toggle and lazy creation of today's entry (`app/page.tsx`);
- the month grid and day status of the calendar page (`app/calendar/page.tsx`).

Modules, one per source file or concern:

| module | file | models |
|---|---|---|
| `Types` | types.dfy | the records of `lib/types.ts`, with the `fiber`/`water` targets the code reads |
| `Utils` | utils.dfy | `lib/utils.ts` (pure functions) |
| `Defaults` | defaults.dfy | `DEFAULT_TEMPLATE` |
| `EntryOrder` | entry_order.dfy | the `find`, `findIndex` and newest-first `sort` that `lib/storage.ts` applies to entries |
| `Streaks` | streak.dfy | `calculateStreak`: a filter function, then a method with the two counting loops |
| `Storage` | storage.dfy | `AppData` as the class `AppStore`, whose methods update its fields |
| `Achievements` | achievements.dfy | the catalog, the stats, `checkNewAchievements` (a loop), the emoji and milestone helpers |
| `Today` | today.dfy | the today page as the class `TodayPage`, over an `AppStore` |
| `Calendar` | calendar.dfy | the Gregorian calendar behind `Date`, the month grid (a loop method) and the day status |

Modelling choices:

- **Dates are day numbers.** An entry's date is an `int` that counts days from 1 January of year 0 in the proleptic Gregorian calendar. The code compares `YYYY-MM-DD` strings and takes a rounded millisecond difference between two dates.
  - `Utils.FormatDate` and `Utils.ParseDate` model the string form.
  - `Calendar.DateTextMatchesDayNumber` proves that for valid dates with four-digit years, two date strings are equal exactly when the day numbers are. So string keys and number keys pick out the same entry.
  - `Calendar.NextDateIsNextDay` proves that consecutive calendar days have consecutive numbers.
  - Sorting with `localeCompare` on such strings is sorting by day number.
  - "Today" is a parameter.
- **Scores are exact rationals (`real`).**
  - The score is (checked items + fibre point + water point) / (template items + 2).
  - Checked items are counted over all of the entry's sections, whatever their ids.
  - `checkDayComplete` (`lib/utils.ts:66`) and the above-80 count (`lib/achievements.ts:142`) use 0.8.
  - The streak counts days at 0.7 or more (`lib/storage.ts:89`).
- **Default targets.** `DEFAULT_TARGETS` is imported but not defined in `lib/defaults.ts`. The model takes the targets shown on the labels there, 25 and 1.5.
- **Store updates.** `updateTodayEntry` forwards to `storage.saveEntry` (`lib/context.tsx:47-51`), so the today page calls `AppStore.SaveEntry`.
- **Stale test fixtures.** The fixtures of the two test files lack the fibre and water points (targets 25 and 1.5), which the score always counts. Their fixtures therefore score less than the tests expect:
  - a fully checked four-item day scores 4/6, below the streak threshold (`Streaks.TestFixtureBelowThreshold`);
  - a fully checked two-item day scores 2/4, neither perfect nor 80% (`Achievements.FixtureStats`).

  The code's intent is clear ("2 additional points"), so the model follows the code. The test vectors for the streak runs are proved on day numbers directly (`Streaks.StreakSingleDays` and the lemmas after it).

## Model

| member | source | states |
|---|---|---|
| Utils.NatToString | lib/utils.ts:6-7 | `String(n)`: a non-empty string of decimal digits |
| Utils.DigitsValueOfNatToString | lib/utils.ts:6-7 | reading the digits of `String(n)` back gives `n` |
| Utils.NatToStringLength | lib/utils.ts:5-8 | one to four digits for numbers below 10, 100, 1000, 10000 |
| Utils.PadStart2 | lib/utils.ts:6-7 | `padStart(2, '0')`: strings of length 2 or more are unchanged; shorter ones get leading zeros up to length 2 |
| Utils.PaddedTwoDigits | lib/utils.ts:6-7 | a padded number below 100 is two digits whose value is the number |
| Utils.FormatDate | lib/utils.ts:4-9 | the text starts with the year as written, followed by a dash, with room for two two-digit fields |
| Utils.FormatDateShape | lib/utils.ts:4-9 | for a four-digit year: 10 characters, dashes at 4 and 7, year, month+1 and day as zero-padded digits |
| Utils.ParseFormatRoundTrip | lib/utils.ts:4-9 | parsing a formatted date gives the date back |
| Utils.FormatDateInjective | lib/utils.ts:4-9 | different dates (four-digit year, month < 12, day <= 31) format to different strings |
| Utils.CreateEmptyEntry | lib/utils.ts:15-31 | same section names and item ids in template order; all unchecked with no timestamp; section and day flags false; fibre and water 0 with the default targets; empty notes |
| Utils.IndexOfSection | lib/utils.ts:34 | `find` by name: the first section with that name, or -1 when there is none |
| Utils.CheckSectionComplete | lib/utils.ts:33-41 | false when the template has no section of that name; otherwise true exactly when the checked count reaches the section's minimum |
| Utils.SectionCompleteWithMinimum | lib/utils.ts:37-40 | with a nonzero `minRequired`, complete iff at least that many items are checked |
| Utils.SectionCompleteFallback | lib/utils.ts:38 | with `minRequired` absent or 0, complete iff the checked count reaches the number of required template items |
| Utils.SectionCompleteMonotone | lib/utils.ts:37-40 | checking more items never makes a complete section incomplete |
| Utils.CheckedInMonotone | lib/utils.ts:37 | more checked positions give a count at least as large |
| Utils.TargetPoint | lib/utils.ts:52-54 | a missing tracker counts value 0 against the default target; the point is 0 or 1 |
| Utils.DailyScore | lib/utils.ts:43-62 | score × (items + 2) = earned points; score >= 0; score <= 1 when no more items are checked than the template has; score = 1 iff every point is earned |
| Utils.RatioAtLeast | lib/utils.ts:61 | a ratio reaches a bound iff the numerator reaches bound × denominator |
| Utils.CheckDayComplete | lib/utils.ts:64-67 | complete iff 5 × earned >= 4 × maximum, i.e. score >= 0.8 |
| Utils.MatchingSectionsCount | lib/utils.ts:46-50 | sections that mirror the template have at most as many checked items as the template has items, and exactly as many when all are checked |
| Utils.NoPointsScoreZero | lib/utils.ts:43-62 | any entry with no item checked and neither target met scores 0 and is not complete, whatever the template |
| Utils.EmptyEntryScoresZero | lib/utils.ts:15-62 | a fresh entry scores 0 and is not complete |
| Utils.MatchingEntryScoreAtMostOne | lib/utils.ts:43-62 | an entry shaped like its template scores at most 1 |
| Utils.FullEntryScoresOne | lib/utils.ts:43-62 | all items checked and both targets met: score 1, day complete |
| Utils.RecentEntries | lib/utils.ts:70 | `slice(0, days)`: a prefix of the list; `days` entries when there are that many; the whole list when `days` is larger; JavaScript's counting from the end for negative `days` |
| Utils.CountDayComplete | lib/utils.ts:72 | the number of positions whose stored `dayComplete` is set, and no more than the entries counted |
| Utils.RoundPercent | lib/utils.ts:74 | `Math.round(100·part/whole)` as an integer: within half a unit of the exact percentage; 0 for no part and 100 for all |
| Utils.RoundPercentFacts | lib/utils.ts:74 | the rounded percentage of a part of the whole lies in 0..100 |
| Utils.CalculateCompletionRate | lib/utils.ts:69-75 | 0 for an empty window; otherwise the rounded percentage of complete days among the first `days` entries, in 0..100 |
| Utils.IndexOfDailySection | lib/utils.ts:82 | the first section of the entry with that name, or -1 |
| Utils.CountSectionComplete | lib/utils.ts:81-84 | the number of positions whose first section of that name is marked complete, and no more than the entries counted |
| Utils.CalculateSectionCompletionRate | lib/utils.ts:77-87 | 0 for an empty window; otherwise the rounded percentage of days whose named section is marked complete, in 0..100 |
| Defaults.DefaultSections | lib/defaults.ts:3-99 | `DEFAULT_TEMPLATE` (the constant `Defaults.DefaultTemplate`) has three sections, Activitate, Dietă, Medicație, with distinct names |
| Defaults.DefaultItemIds | lib/defaults.ts:8-95 | item ids a1-a4, d1-d10, m1, all distinct |
| Defaults.DefaultMinimumsReachable | lib/defaults.ts:11-96 | every item required; minimums 3, 8 and 1, each positive and at most the section's item count |
| Defaults.DefaultScoreDenominator | lib/defaults.ts:3-99 | 15 items, so scores under the default template are out of 17 |
| EntryOrder.FindEntry | lib/storage.ts:58-61 | `find` by date: a found entry is in the list with that date; nothing found iff no entry has the date |
| EntryOrder.FindIndex | lib/storage.ts:65 | `findIndex` by date: the first index with that date, or -1 when there is none |
| EntryOrder.InsertSorted | lib/storage.ts:73 | inserting into a newest-first list keeps it newest first |
| EntryOrder.SortByDate | lib/storage.ts:88-90 | the sort is a permutation and leaves the list newest first |
| EntryOrder.SortStrict | lib/storage.ts:73 | a list with one entry per date sorts into strictly descending dates |
| EntryOrder.FindInDistinct | lib/storage.ts:58-61 | with one entry per date, `find` returns exactly the entry of that date |
| EntryOrder.Dates | lib/storage.ts:101-150 | the dates of the entries, position by position |
| Streaks.Qualifying | lib/storage.ts:88-89 | the filter keeps each entry scoring at least 0.7, as many times as it occurs, and drops the rest |
| Streaks.QualifyingDates | lib/storage.ts:88-90 | the dates of the qualifying days are newest first |
| Streaks.StreakOf | lib/storage.ts:82-151 | the streak of the entries: runs over the qualifying dates, with current <= longest |
| Streaks.CalculateStreak | lib/storage.ts:82-151 | the method returns the streak given by the run definitions, `{0, 0}` for an empty list and when nothing qualifies |
| Streaks.CountRuns | lib/storage.ts:101-150 | its two loops compute the current run (from the newest day, when that is today or yesterday) and the longest run, folded with the current one |
| Streaks.RunEndingAt | lib/storage.ts:129-149 | `tempStreak` after index i lies between 1 and i + 1 |
| Streaks.LongestStep | lib/storage.ts:129-149 | one step of the longest-run loop: the running maximum advances by the run ending at the new index |
| Streaks.RunEndingAtIsRun | lib/storage.ts:129-149 | the run counted by `tempStreak` is a run of consecutive days |
| Streaks.RunEndingAtIsLongest | lib/storage.ts:129-149 | no run ending at that index is longer |
| Streaks.LongestBelowIsMax | lib/storage.ts:129-150 | the loop's maximum is the length of some run, and no run before that point is longer |
| Streaks.LongestRunIsMaximal | lib/storage.ts:129-150 | `longest` is 0 iff there are no qualifying days; otherwise a run of that length exists and every run is at most that long |
| Streaks.RunFromIsMaximalRun | lib/storage.ts:110-127 | counting forward from an index yields a run that stops at a gap or at the end |
| Streaks.CurrentRunIsPrefixRun | lib/storage.ts:107-127 | `current` > 0 iff the newest qualifying day is today or yesterday; then it is the run from that day up to the first gap |
| Streaks.LongestAtLeastCurrent | lib/storage.ts:150 | current <= longest |
| Streaks.StreakBounds | lib/storage.ts:82-151 | the streak is `{0, 0}` iff no entry scores 0.7; current <= longest always |
| Streaks.SortedDatesUnique | lib/storage.ts:88-90 | two newest-first lists holding the same entries have the same dates |
| Streaks.SameQualifyingSameDates | lib/storage.ts:88-90 | lists with the same entries, in any order, have the same qualifying dates |
| Streaks.StreakOrderIndependent | lib/storage.ts:88-90 | reordering the entry list does not change the streak |
| Streaks.BelowThresholdIgnored | lib/storage.ts:88-89 | adding a day that scores below 0.7 changes nothing: it breaks a run just as a missing day does |
| Streaks.StreakSingleDays | lib/__tests__/storage.test.ts:110-131 | empty gives {0,0}; one day today or yesterday gives {1,1}; one day two days ago gives {0,1} |
| Streaks.StreakStopsAtGap | lib/__tests__/storage.test.ts:152-162 | today, yesterday, then a gap: {2,2} |
| Streaks.StreakHistoricalLonger | lib/__tests__/storage.test.ts:164-173 | today alone, then an older run of three days: current 1, longest 3 |
| Streaks.StreakSeveralRuns | lib/__tests__/storage.test.ts:202-217 | several runs separated by gaps: current 2, longest 4 |
| Streaks.TestFixtureBelowThreshold | lib/__tests__/storage.test.ts:27-70 | the fixture's fully checked day scores 4/6 and yields no streak |
| Storage.Upserted | lib/storage.ts:63-73 | the saved entry is in the list, which is newest first; as long as before when the date was present, one longer otherwise |
| Storage.UpsertCorrect | lib/storage.ts:63-73 | after saving: still strictly newest first; the saved entry is what its date finds; every other date finds what it found before; one longer iff the date was new, else the same length |
| Storage.PlacedEntries | lib/storage.ts:65-71 | replace-or-append keeps one entry per date and touches no other date |
| Storage.Unlocked | lib/storage.ts:157-163 | the id is in the result, which is the old list or one longer |
| Storage.UnlockedGrows | lib/storage.ts:157-163 | earlier ids stay in place as a prefix; the id is present; nothing else is added; one longer iff the id was absent; no duplicates are created |
| Storage.UnlockedIdempotent | lib/storage.ts:157-163 | unlocking the same id twice is the same as once |
| Storage.AppStore.constructor | lib/storage.ts:35-42 | default template, no entries, streak {0,0}, nothing unlocked |
| Storage.AppStore.GetEntry | lib/storage.ts:58-61 | the stored entry of that date, if any; in a valid store exactly the entry with that date |
| Storage.AppStore.SaveEntry | lib/storage.ts:63-76 | entries become the upserted, re-sorted list; the streak is recomputed from the new list; the template and unlocked ids are untouched; validity is kept |
| Storage.AppStore.UnlockAchievement | lib/storage.ts:157-163 | the id list becomes the unlocked list; nothing else changes |
| Storage.FindInDistinctAll | lib/storage.ts:58-61 | in a strictly sorted list, `find` by date returns exactly the entry with that date |
| Achievements.CatalogIdsDistinct | lib/achievements.ts:21-133 | the 13 ids of `ACHIEVEMENTS` (the constant `Achievements.Catalog`) are pairwise distinct |
| Achievements.CatalogStreakThresholds | lib/achievements.ts:21-133 | the streak badges require 3, 7, 14, 21, 30, 60, 90, 180, 365 days, strictly increasing |
| Achievements.CatalogThresholdsPositive | lib/achievements.ts:29-131 | every condition's threshold is positive |
| Achievements.CountPerfect | lib/achievements.ts:141 | the number of positions whose score is exactly 1, and no more than the entries counted |
| Achievements.CountAbove80 | lib/achievements.ts:142 | the number of positions whose score is at least 0.8, and no more than the entries counted |
| Achievements.PerfectAtMostAbove80 | lib/achievements.ts:141-142 | perfect days never outnumber days at 80% |
| Achievements.CalculateAchievementStats | lib/achievements.ts:135-151 | streak fields pass through; total is the entry count; perfect days are the positions scoring exactly 1, 80% days those scoring at least 0.8; 0 <= perfect <= 80% days <= total |
| Achievements.Unlockable | lib/achievements.ts:158-163 | the filter over a catalog keeps at most as many badges as the catalog has (which ones it keeps is `Achievements.UnlockableMembers`) |
| Achievements.CheckNewAchievements | lib/achievements.ts:153-166 | its loop returns the badges not yet unlocked whose condition holds, in catalog order |
| Achievements.UnlockableMembers | lib/achievements.ts:159-161 | a badge is chosen iff it is in the catalog, not unlocked, and its condition holds |
| Achievements.UnlockableInCatalogOrder | lib/achievements.ts:158-163 | the chosen badges appear in strictly increasing catalog positions |
| Achievements.NothingNewTwice | lib/achievements.ts:159-161 | once the chosen ids are added to the unlocked list, the same stats choose nothing |
| Achievements.AllUnlockedChoosesNothing | lib/achievements.ts:159-161 | with every id unlocked, nothing is chosen |
| Achievements.ZeroStatsChooseNothing | lib/achievements.ts:29-131 | for a catalog with positive thresholds, all-zero stats choose nothing |
| Achievements.ZeroStatsChooseNothingInCatalog | lib/achievements.ts:29-131 | all-zero stats unlock nothing from the catalog |
| Achievements.ConditionsMonotone | lib/achievements.ts:29-131 | larger stats keep every condition that held |
| Achievements.UnlockableMonotone | lib/achievements.ts:153-166 | larger stats choose every badge chosen before |
| Achievements.StreakEmoji | lib/achievements.ts:168-173 | empty exactly at 0; one flame for any other streak below 7, negatives included; two for 7-29; three from 30 |
| Achievements.StreakEmojiMonotone | lib/achievements.ts:168-173 | a longer streak never shows fewer flames |
| Achievements.StreakEmojiExamples | lib/__tests__/achievements.test.ts:188-196 | the emoji test values |
| Achievements.StreakMilestone | lib/achievements.ts:175-181 | a message exactly for 7, 14, 21, 30, 60, 90, 180, 365, beginning with the number and a space |
| Achievements.StreakMilestoneExamples | lib/__tests__/achievements.test.ts:198-211 | the milestone test values |
| Achievements.FixtureStats | lib/__tests__/achievements.test.ts:42-68 | the two-item fixture's full day scores 0.5; its stats count no perfect and no 80% days |
| Today.IndexOfItem | app/page.tsx:31 | `find` by id: the first item with that id, or -1 |
| Today.Toggled | app/page.tsx:24-42 | the toggled entry keeps its date and its number of sections |
| Today.ToggleMissingIsNoOp | app/page.tsx:25-32 | no section of that name or no item of that id: the entry is unchanged |
| Today.ToggleFlipsOneItem | app/page.tsx:27-39 | exactly the first matching item of the first matching section flips; its timestamp is set, to the time given, iff it is now checked; section and day flags are recomputed; everything else is unchanged |
| Today.ToggleTwiceRestoresChecked | app/page.tsx:34 | toggling twice restores the item's checked value and leaves every other item and section as it was |
| Today.CheckedInUpdate | app/page.tsx:34 | replacing one item changes the checked count by that item alone |
| Today.SectionsCheckedUpdate | app/page.tsx:34-39 | replacing one section changes the day's checked count by that section alone |
| Today.ToggleCountsOne | app/page.tsx:34-39 | checking adds one to the day's checked count; unchecking takes one away |
| Today.TodayPage.constructor | app/page.tsx:10-11 | the page starts with no entry, over the given store |
| Today.TodayPage.Load | app/page.tsx:13-22 | given the context's `todayEntry`: shows it when present, leaving the store alone; when absent, creates the empty entry from the template, shows it and saves it (list upserted, streak recomputed), so the store's entry for today, if any, becomes that empty entry; when the context agrees with the store, the page shows the stored entry |
| Today.TodayPage.HandleToggleItem | app/page.tsx:24-42 | a no-op without an entry, section or item; otherwise the entry shown becomes the toggled entry, it is saved (list upserted, streak recomputed) and the store then finds it for its date |
| Calendar.DaysInMonth | app/calendar/page.tsx:23-24 | a month has 28 to 31 days |
| Calendar.LeapRule | app/calendar/page.tsx:23-24 | February has 29 days iff the year is a Gregorian leap year (1900 no; 2000, 2024 yes) |
| Calendar.DaysBeforeNextYear | app/calendar/page.tsx:22-23 | each year adds its own length to the day count |
| Calendar.MonthsFillYear | app/calendar/page.tsx:23 | the twelve months add up to the year's length |
| Calendar.LastDayPrecedesNextMonth | app/calendar/page.tsx:23 | `new Date(year, month + 1, 0)` is the last day of the month: the day before the first of the next month, rolling into January of the next year |
| Calendar.NextDateIsNextDay | lib/storage.ts:114-117 | the next calendar day is valid and one day number later |
| Calendar.DayNumberInYear | app/calendar/page.tsx:22 | a valid date's number falls inside its own year |
| Calendar.DayNumberOrdered | lib/storage.ts:73 | day numbers follow calendar order |
| Calendar.DayNumberInjective | app/calendar/page.tsx:31 | different valid dates have different day numbers |
| Calendar.DateTextMatchesDayNumber | app/calendar/page.tsx:48-49 | for four-digit years, equal date strings iff equal day numbers |
| Calendar.Weekday | app/calendar/page.tsx:25 | `getDay()` lies in 0..6 |
| Calendar.WeekdayExamples | app/calendar/page.tsx:25 | 1 January 2000 was a Saturday; 1 October 2026 a Thursday |
| Calendar.FullYear | app/calendar/page.tsx:19-28 | the year `new Date` builds: 1900 + y for y <= 99, y otherwise |
| Calendar.GetDaysInMonth | app/calendar/page.tsx:19-28 | the length (28 to 31) and the weekday of the first (0..6) of the month in the year `new Date` builds; year and month pass through |
| Calendar.TwoDigitYearExample | app/calendar/page.tsx:19-28 | year 0 is a leap year, yet the page shows its February with the 28 days of February 1900, starting on a Thursday |
| Calendar.BuildDays | app/calendar/page.tsx:56-62 | its loops build `startingDayOfWeek + daysInMonth` cells: blanks first, then 1 to `daysInMonth` in order |
| Calendar.GridColumnIsWeekday | app/calendar/page.tsx:56-62 | in the seven-column grid (Sunday first), each day of the month shown sits in the column of its weekday |
| Calendar.DateKey | app/calendar/page.tsx:128 | the page's date string is the `formatDate` string of that day |
| Calendar.AnyItemChecked | app/calendar/page.tsx:34 | true iff some item is checked |
| Calendar.AnyChecked | app/calendar/page.tsx:34 | true iff some item of some section is checked |
| Calendar.GetEntryStatus | app/calendar/page.tsx:30-36 | missed without an entry; completed iff the entry's stored `dayComplete` is set; partial iff it is not set and some item is checked; missed otherwise |
| Calendar.EmptyEntryIsMissed | app/calendar/page.tsx:30-36 | a day holding a freshly created entry shows as missed |
| Calendar.HandleDayClick | app/calendar/page.tsx:46-51 | for a day of the grid, the selected entry is the one with that day's date; none iff no entry has it |

## Left out

- Rendering, React state and hooks, `lib/context.tsx`, the components and the other pages are not modelled. The same goes for `cn`, which only joins CSS class names.
- Reading and writing localStorage is not modelled. This covers JSON parsing, the fallback to default data on errors and `clearData`. The store is an object in memory.
- The Supabase cloud storage and authentication modules are asynchronous network calls and are not modelled.
- Clocks and time zones are not modelled:
  - "today" and the toggle timestamp are parameters;
  - UTC versus local midnight in the streak's date arithmetic is not modelled;
  - UTC versus local time in the context's "today" is not modelled either.
- Dates before year 0 are left out: years are natural numbers.
- Calendar.GetDaysInMonth: for years 0 to 99 it follows `new Date`, which reads them as 1900 to 1999; the rest of the model (date keys, entry dates) keeps the year as given, so the calendar of such a year shows the twentieth-century month.
- Floating point is left out. Scores are exact rationals, and `Math.round` is modelled on integers.
- The shallow copy in the toggle is not modelled. `{ ...entry }` shares its sections, so the old page state is changed in place too. The model treats the toggle as an update of one entry value.
- `notes` is carried along but never read by the modelled code.
- Streaks.CountRuns: the two loops of `calculateStreak` sit in a method of their own, separate from the filter and the empty checks. The behaviour is the same.
- A longest streak that never decreases as entries accumulate is not proved. Replacing a day's entry with one that scores below 0.7 lowers it.
- Today.TodayPage.Load: the page keeps its own copy of the entry. The context's `todayEntry` is a parameter: it starts as `null` and is filled from the store by the provider's own effect (`lib/context.tsx:22-39`). Which of the two effects runs first, and React re-running the page's effect whenever its inputs change, are not modelled. The contract states what happens for either value, including the overwrite of a stored entry while the context still holds `null`.
