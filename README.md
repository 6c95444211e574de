# CliniQuest study engine in Dafny

CliniQuest is a single-page study app for clinicians. Users write question cards, review them
with a spaced-repetition scheduler, and earn XP, levels, titles, stats and a daily streak.
This project models the engine behind those screens. The icon generator's pixel helpers are
modelled too.

- **Progression** (`progression.dfy`, `stat_generator.dfy`):
  - the level of an XP total and the XP still missing to the next level;
  - the title table;
  - the per-user seed, a 32-bit FNV-1a hash of the uid's UTF-16 code units;
  - the stat generator. It adds one allocation template per level gained, reordered by one
    row of the 24-row permutation table. That table is built by recursive in-place swaps on
    an array.
- **Calendar** (`calendar.dfy`): `yyyymmdd` strings in Japan time, mapped to proleptic
  Gregorian day numbers. Day differences and day shifts are arithmetic on those numbers.
- **Streak** (`streak.dfy`): the daily streak update.
- **Scheduler** (`scheduler.dfy`):
  - the SM-2-like review update of a card's `srs` record, with ease in integer hundredths;
  - the manual "pick the next date" path after a correct answer;
  - the edit dialog's date override;
  - the due test;
  - the card queries and the count of due cards.
- **Awards** (`awards.dfy`): the three XP transactions on the user document and the daily
  log, each one atomic step on plain records. They are card creation (+5 XP once),
  a correct answer (+1, or +2 on a critical hit) and an arbitrary award with an XP-only
  fallback.
- **Study session** (`study.dfy`): a class holding the session history and filters. It
  covers:
  - drawing the next card from the filtered pool;
  - pushing it onto the history, and resetting the history when a filter changes;
  - the buttons for right and wrong answers.
- **Helpers** (`helpers.dfy`, `sequences.dfy`):
  - `slugify`;
  - the comma-separated tag parser;
  - the link diff when an article is saved;
  - the swipe navigation index;
  - `Array.prototype.filter`.
- **Icons** (`icons.dfy`): a class over the RGBA byte array of a square PNG. Its methods
  are `set` (one pixel, ignored off-image), `fill` (nested loops of `set`), the background
  fill and the letter cell `px`.

JavaScript semantics are written out where they matter:
- `^` is a signed 32-bit XOR (`JsXor`).
- `%` truncates toward zero (`JsRem`).
- `Math.imul(…) >>> 0` is multiplication on `bv32`.
- String `<=` compares code units (`LexLe`).

## Model

| member | source | states |
|---|---|---|
| Progression.ComputeLevel | app.js:528-530 | the level is the 80-XP band that contains the XP total: (level−1)·80 ≤ xp < level·80, and level ≥ 1 for xp ≥ 0 |
| Progression.ComputeLevelMonotone | app.js:528-530 | more XP never gives a lower level |
| Progression.ComputeLevelAtBoundary | app.js:528-530 | level k+1 starts exactly at k·80 XP; one point less is level k |
| Progression.XpToNext | app.js:1127 | the XP missing is between 1 and 80; gaining exactly that much raises the level by one, and one point less does not |
| Progression.LevelTitle | app.js:298-304 | the loop over the title table returns the title of the highest threshold reached, or "-" below level 2 |
| Progression.ScanIsTitleFor | app.js:245-304 | on any table whose i-th threshold is 2(i+1), as `titlesByLevel`'s are, scanning the first k entries keeps entry min(level/2, k), and "-" below level 2 |
| Progression.TitleForIsHighestReached | app.js:245-304 | the chosen title's threshold is reached, and every later threshold is above the level |
| Progression.SeedFromUid | app.js:306-313 | the hashing loop computes the FNV-1a hash of the uid's code units, as an unsigned 32-bit number |
| Progression.Fnv1aAppend | app.js:306-313 | hashing a longer id continues from the hash of its prefix |
| Progression.Fnv1aTestVectors | app.js:306-313 | the published FNV-1a vectors for "", "a" and "foobar" |
| StatGenerator.Permute | app.js:221-232 | the recursive in-place swap appends exactly the rows of `Permutations` and leaves the array as it found it |
| StatGenerator.BuildPerms | app.js:219-235 | running the swap procedure on [0,1,2,3] yields `PermTable`, row for row in that order |
| StatGenerator.PermutationsOfBase | app.js:219-235 | the swap order starting at [0,1,2,3] is the 24-row table beginning [0,1,2,3], [0,1,3,2] |
| StatGenerator.PermTableRows | app.js:219-235 | the table has 24 rows, each a rearrangement (multiset) of {0,1,2,3} |
| StatGenerator.TemplateTotal | app.js:213-218 | every template, reordered by any table row, totals 10 with every entry at least 1 |
| StatGenerator.ToInt32 | app.js:536 | the operand of a bitwise operator is the signed 32-bit number congruent to x modulo 2^32 |
| StatGenerator.JsRem | app.js:536-537 | JavaScript `%` lies in (−n, n) and takes the sign of the dividend |
| StatGenerator.ComputeLevelUpIncrements | app.js:532-546 | the loop returns the increments of the levels (from, to], or `None` where the source throws on an undefined table row |
| StatGenerator.IncrementsTotal | app.js:532-546 | when defined, the increments total 10 points per level gained, and 0 for an empty range |
| StatGenerator.IncrementsAdditive | app.js:532-546 | increments over (a,b] combined with those over (b,c] equal those over (a,c] |
| StatGenerator.RollDefinedBelow2To31 | app.js:536-539 | for a seed below 2^31, the permutation index lies in 0..23 and the roll is defined |
| StatGenerator.IncrementsDefinedBelow2To31 | app.js:532-546 | for a seed below 2^31, every range of levels is defined |
| StatGenerator.RollAtOrAbove2To31 | app.js:536-539 | for a seed in [2^31, 2^32), the signed XOR is negative, and the roll is defined iff it is a multiple of 24 |
| StatGenerator.LevelUpThrowsForSeed2To31 | app.js:536-539 | seed 2^31 going from level 1 to 2 gives index −18, and the source throws |
| StatGenerator.UnsignedPermIndex | app.js:536 | the unsigned index always lies in 0..23 |
| StatGenerator.FixedIncrementsTotal | app.js:532-546 | with the unsigned index, every level gained adds exactly 10 points, for every seed |
| StatGenerator.FixedIncrementsAdditive | app.js:532-546 | the corrected increments split at any level |
| StatGenerator.FixedAgreesBelow2To31 | app.js:532-546 | below 2^31 the as-written and the corrected generators agree on every range |
| Calendar.FormatOfDateOf | app.js:549-564 | a valid `yyyymmdd` string parses to a date that formats back to the same string |
| Calendar.DateOfFormat | app.js:549-564 | a date formats to a valid string that parses back to the same date |
| Calendar.YmdDiffSelf | app.js:566-570 | ymdDiff(a, a) = 0 |
| Calendar.YmdDiffAntisymmetric | app.js:566-570 | ymdDiff(a, b) = −ymdDiff(b, a) |
| Calendar.AddZeroDays | app.js:573-577 | adding 0 days to a valid day returns it unchanged |
| Calendar.AddDaysThenDiff | app.js:566-577 | ymdDiff(addDaysToYmd(y, n), y) = n |
| Calendar.DiffThenAddDays | app.js:566-577 | addDaysToYmd(b, ymdDiff(a, b)) = a for real days a and b |
| Calendar.AddDaysCompose | app.js:573-577 | adding n days and then k days is adding n+k days |
| Calendar.ZeroDiffSameYmd | app.js:566-570 | two valid days with difference 0 are the same string |
| Calendar.LexLeIsChronological | app.js:2053-2058 | on valid days, JavaScript string `<=` is the same as "not later in the calendar" |
| Calendar.JstYmdNextDay | app.js:549-556 | one day later in epoch time is the next JST calendar day |
| Streaks.NextStreakConsistent | app.js:579-591 | activity keeps current ≤ best |
| Streaks.NextStreakBestGrows | app.js:579-591 | the best run never decreases |
| Streaks.NextStreakLastIsToday | app.js:579-591 | after activity the last active day is today, also on the same-day path |
| Streaks.NextStreakSameDayIdempotent | app.js:582-584 | activity twice on one day counts once; a stored 0 reads as 1 |
| Streaks.NextDayExtends | app.js:585-589 | on the next day, current becomes current+1 and best becomes max(best, current+1) |
| Streaks.NextStreakGapResets | app.js:590 | a gap of two or more days, or a day before the last one, resets current to 1 with best = max(best, 1) |
| Streaks.ConsecutiveDays | app.js:579-591 | from no streak, n consecutive days give a run of n that is also the best |
| Scheduler.UpdateQaSrs | app.js:661-700 | the transaction fails when signed out, when the card is missing or when it belongs to another user; otherwise only that card's `srs` changes |
| Scheduler.ReviewEaseFloor | app.js:679-691 | the ease after any review is at least 1.30 |
| Scheduler.CorrectReview | app.js:679-694 | a correct answer adds one repetition and an interval ≥ 1, and the card is next due exactly that many days later |
| Scheduler.IncorrectReview | app.js:687-693 | a wrong answer gives reps 0, interval 0, ease max(1.30, ease−0.20), due today |
| Scheduler.CorrectNeverShortens | app.js:686 | from the third correct answer on, the interval never shrinks |
| Scheduler.ThreeCorrectFromNew | app.js:672-686 | a new card answered right three times waits 1, 3 and then 8 days, with ease 2.52, 2.54, 2.56 |
| Scheduler.ManualAndAutomaticDiffer | app.js:2318-2325 | on a card with stored interval 0 after two repetitions, the automatic path schedules 1 day and the manual suggestion schedules round(ease) days |
| Scheduler.ManualAgreesWhenIntervalSet | app.js:2318-2325 | with a non-zero stored interval, both correct paths compute the same reps, ease and interval |
| Scheduler.AcceptSuggestion | app.js:2326-2331 | accepting the suggested date stores exactly the suggested interval |
| Scheduler.DashedDateDigits | app.js:819-820 | a `yyyy-mm-dd` field loses exactly its two dashes and leaves eight digits |
| Scheduler.EditedSrsEffect | app.js:819-825 | a well-formed field sets the due day to its eight digits and the interval to max(0, days from today). It keeps reps, ease and last review, or uses 0, 2.5 and none for a card without `srs`. A malformed field leaves `srs` unchanged |
| Scheduler.EditedDueDay | app.js:819-825 | on real days the edited card is due today iff the picked day is not after today, its interval is 0 exactly then, and otherwise today plus the interval is the picked day |
| Scheduler.IsDueChronological | app.js:653-657 | on valid days a card is due iff its due day is not after today |
| Scheduler.IncorrectIsDueToday | app.js:687-693 | a card answered wrongly is due the same day |
| Scheduler.CorrectIsDueAfterInterval | app.js:680-693 | a card answered rightly is due on a later day iff at least `interval` days have passed |
| Scheduler.Take | app.js:2042 | `limit(n)` returns at most n cards, all from the collection |
| Scheduler.QueryResults | app.js:2042-2050 | every query result belongs to the user (and to the article, when given), and there are at most `limitN` |
| Scheduler.CountDueToday | app.js:644-657 | the count never exceeds the limit |
| Scheduler.CountAllDue | app.js:644-657 | when all of a user's cards are due and fit the limit, all are counted |
| Awards.LevelUpStats | app.js:895-915 | stats change only when the new level exceeds the stored one, and then by the increments of exactly the levels passed, 10 points each |
| Awards.LevelUpStatsSplit | app.js:895-897 | rising in two steps pays the same stats as rising in one |
| Awards.ApplyGainEffect | app.js:893-915 | after the shared step the stored level is `computeLevel` of the stored XP, and the XP grows by the gain. Stats change only on a level-up above the STORED level. Counters and seed stay unchanged |
| Awards.ApplyGainTwice | app.js:893-915 | two gains in a row on one day end where one gain of their sum ends |
| Awards.CreateQaAwardKeepsInStep | app.js:840-937 | after a card creation, the stored level equals the level of the stored XP |
| Awards.AwardCorrectKeepsInStep | app.js:939-990 | after a correct answer, the stored level equals the level of the stored XP |
| Awards.AwardXpKeepsInStep | app.js:993-1034 | after an award that goes through, the stored level equals the level of the stored XP |
| Awards.CreateQaAwardOnce | app.js:870-935 | a missing card aborts, and an awarded card is a no-op. Otherwise +5 XP, one more creation and one more in the day's log, and the flag makes a rerun a no-op |
| Awards.AwardCorrectEffect | app.js:946-988 | gain is 2 iff critical, else 1. XP grows by the gain and totalCorrect by the delta. `leveledUp` iff the new level exceeds the stored one. The day's log counts one correct answer |
| Awards.AwardCorrectNeedsProfile | app.js:946-947 | a correct answer for a user with no profile aborts with "user not found" |
| Awards.CriticalPeriodic | app.js:949 | critical hits recur every 20 correct answers |
| Awards.OneCriticalInTwenty | app.js:949 | among any 20 consecutive values of totalCorrect, exactly one is critical |
| Awards.AwardXpNothing | app.js:995-996 | `awardXp(0)` and an award while signed out change nothing |
| Awards.AwardXpFallback | app.js:1035-1047 | a failed transaction adds only to the XP total and the day's XP, leaving level, stats and streak behind |
| Awards.FallbackCatchesUp | app.js:1006-1047 | the next award after a fallback ends exactly where two successful awards end, paying every skipped level |
| Awards.EnsureUserInitialized | app.js:462-483 | a missing profile is created; an existing one, or a signed-out user, is left alone |
| Awards.InitialProfiles | app.js:876-889 | the eager profile has 5 in every stat and the lazy one 0; otherwise they are identical |
| Awards.InitialProfilesInStep | app.js:462-483 | both initial profiles are at level 1 = computeLevel(0), with a 32-bit seed |
| Study.Pool | app.js:2041-2070 | the draw pool holds at most 100 cards |
| Study.PoolMembers | app.js:2041-2070 | a card is in the pool iff the query returns it, it is not in the history and the mode accepts it. It is the user's own card, on the filtered article |
| Study.AgePoolOldEnough | app.js:2059-2070 | in age mode every pooled card was last studied at least `ageDays` days ago |
| Study.AgeOfUndatedCard | app.js:2062-2067 | a card with no review and no creation time counts as studied today |
| Study.DuePoolIsDue | app.js:2053-2058 | in due mode every pooled card is due today |
| Study.LoadNeverRepeats | app.js:2051 | a pooled card was never shown earlier in the session |
| Study.Find | app.js:2034-2035 | the lookup returns a card with that id, or none when no card has it |
| Study.Explicit | app.js:2032-2037 | an explicitly requested card is used only when it exists and belongs to the user |
| Study.ClampAgeDays | app.js:2217 | the age field is clamped to 0..365 and kept when already in range |
| Study.StudySession.LastId | app.js:2365 | the card on screen is the last id of the history, and there is none when the history is empty |
| Study.StudySession.FetchRandomQa | app.js:2025-2075 | no card when signed out. An explicit request wins and is cleared. Otherwise some pool card, or none iff the pool is empty. The history is unchanged |
| Study.StudySession.Load | app.js:2229-2237 | a drawn card's id is pushed onto the history, and a pool draw is never a repeat |
| Study.StudySession.SetStudyMode | app.js:2206-2214 | the mode is stored, `dueOnly` is set to (mode = due) and the history is reset |
| Study.StudySession.SetAgeDays | app.js:2216-2220 | the clamped age is stored and the history is reset |
| Study.StudySession.SetArticleFilter | app.js:2224-2227 | the trimmed article id is stored (none when blank) and the history is reset |
| Study.StudySession.OnIncorrect | app.js:2362-2367 | a wrong answer runs the automatic update on the card on screen; with none, nothing changes |
| Study.StudySession.OnCorrect | app.js:2303-2343 | after the award, the card on screen is rescheduled on the manual path; with none, nothing changes |
| Helpers.Trim | app.js:846 | `trim()` leaves a string that neither starts nor ends with white space |
| Helpers.TrimIsSlice | app.js:846 | `trim()` leaves a slice s[a..b] of its input, and everything it cuts is white space |
| Helpers.Slugify | app.js:316-325 | a slug has at most 64 characters, only kept non-space characters and never two dashes in a row |
| Helpers.SlugifyKeepsWords | app.js:316-325 | the slug's word characters (kept, neither white space nor a dash) are, in order, a prefix of those of the trimmed, lower-cased title, and all of them when the slug is shorter than 64 |
| Helpers.SlugifyJoinsWords | app.js:316-325 | two words separated by white space become the two words joined by exactly one dash |
| Helpers.SlugifyIdempotent | app.js:316-325 | slugifying a slug returns it unchanged |
| Helpers.CollapseDashes | app.js:323 | after the dash-run replacement, no two dashes are adjacent |
| Helpers.JoinSplit | app.js:845 | joining the pieces of `split(',')` with commas gives the input back |
| Helpers.SplitJoin | app.js:845 | splitting a comma-join of comma-free pieces gives the pieces back |
| Helpers.ParseTags | app.js:844-847 | every parsed tag is non-empty, has no comma and no white space at either end |
| Helpers.ParseJoinedTags | app.js:844-847 | parsing clean tags joined with ", " gives the same tags back |
| Helpers.LinkDiff | app.js:1736-1739 | added = selected ids not linked before; removed = old links not selected now (both iff) |
| Helpers.LinkDiffApplies | app.js:1736-1739 | old links minus removed plus added is the new selection |
| Helpers.IndexOf | app.js:186 | `indexOf` returns the first position of x, or −1 iff x is absent |
| Helpers.NavigateRelative | app.js:184-190 | the hash is one of the six pages, or `#undefined` |
| Helpers.NavPosition | app.js:186-187 | the position is one of the six, and names the page on screen when that page is in the order |
| Helpers.NavHash | app.js:188-189 | a non-negative index gives that page's hash; a negative one gives `#undefined` |
| Helpers.SwipeNeighbours | app.js:184-190 | a swipe moves to the neighbouring page, wrapping at both ends |
| Helpers.SwipeForwardBack | app.js:184-190 | swiping forward and then back returns to the start page |
| Helpers.SwipeFromUnknown | app.js:186-187 | an unknown page navigates as if from the first page |
| Helpers.SwipeFarBackUndefined | app.js:184-189 | when cur+step+6 < 0, the hash is `#undefined`, except when cur+step is a multiple of 6: the index is then −0, and the hash is `#/home` |
| Helpers.SwipeFarBackExamples | app.js:184-189 | from `/home`, step −7 gives `#undefined` and step −12 gives `#/home` |
| Sequences.SelectMembers | app.js:1738-1739 | `filter` keeps exactly the accepted elements |
| Icons.Canvas.Set | scripts/gen-icons.mjs:8-15 | the new buffer is the old one with pixel (x, y) set to the colour when it lies in the image; otherwise nothing changes |
| Icons.Canvas.Fill | scripts/gen-icons.mjs:16-18 | the nested loops leave exactly the in-image pixels of the rectangle coloured, with all other bytes unchanged |
| Icons.Canvas.DrawBackground | scripts/gen-icons.mjs:21 | after the background fill, every pixel is (0, 0, 0, 255) |
| Icons.Canvas.Px | scripts/gen-icons.mjs:42-43 | `px` fills the block of w×h grid cells at (gx + x·grid, gy + y·grid) in gold |
| Icons.PixelOfOffset | scripts/gen-icons.mjs:10-14 | the four bytes from 4·(size·y + x) are exactly the bytes of pixel (x, y) |
| Icons.FilledOutside | scripts/gen-icons.mjs:9 | a pixel outside the image leaves the buffer unchanged |
| Icons.FilledEmpty | scripts/gen-icons.mjs:16-18 | a rectangle with w ≤ 0 or h ≤ 0 changes nothing |
| Icons.FilledChanges | scripts/gen-icons.mjs:16-18 | a byte of an in-image pixel takes the colour iff the pixel is in the rectangle; otherwise it keeps its old value |
| Icons.PxCell | scripts/gen-icons.mjs:42-43 | one letter cell changes exactly the grid×grid block at (gx + x·grid, gy + y·grid) |
| Icons.Grid | scripts/gen-icons.mjs:39 | the cell size is at least 4, and equals size/64 from 256 pixels up |

## Left out

- User interface: DOM rendering, routing, dialogs, toasts, themes, and swipe and touch
  handling beyond the index arithmetic of `navigateRelative`.
- Firebase: initialisation, authentication, snapshots and the CDN imports. The signed-in
  user is a parameter (an absent uid, or an empty code-unit sequence in the awards). The
  collections are maps and sequences.
- Transactions:
  - each transaction is one atomic step;
  - retries, concurrency, `serverTimestamp` and `increment` are not modelled, beyond adding
    to a counter;
  - the lazy `tx.set` followed by `tx.update` in card creation is merged into one write;
  - whether `awardXp`'s transaction fails is the parameter `txFails`, and a failure of its
    fallback write is not modelled.
- `Math.random` in the study draw: it becomes a nondeterministic choice from the pool.
- Clocks: the current day and instant are parameters. `getJstYmd` is modelled from epoch
  milliseconds via day numbers. `Date.UTC`'s normalisation of invalid dates is not modelled,
  so the calendar lemmas require well-formed `yyyymmdd` strings in years 1000-9999.
- Floating point:
  - `ease` is kept in integer hundredths, and `Math.round` of a product is
    `(interval·ease + 50) / 100`;
  - a stored non-numeric `ease`, `reps` or `interval` is not modelled.
- Card creation: `createQaAndAward` writes a new card document before its transaction. Only
  the award transaction (`Awards.CreateQaAward`), the initial `srs` (`Scheduler.NewCardSrs`)
  and the tag parser are modelled. The question, answer and rationale fields are not.
- Edit dialog: its length checks on the question and answer and its article selection are
  UI validation and are not modelled. `Scheduler.EditedSrs` models only the date override.
- OnCorrect: `Study.StudySession.OnCorrect` models the rescheduling after the award succeeded.
  The award itself is `Awards.AwardCorrect`. The awards identify users by code units and the
  scheduler by strings, so the two are not composed into one step. The fallback to the
  automatic update when the manual path throws is not modelled.
- Helpers.Lower: `toLowerCase` is modelled for ASCII letters and for the two non-ASCII
  characters whose lower case is ASCII (U+0130 and U+212A). Other characters are kept as
  they are. Characters from other scripts that the slug filter does not keep are dropped
  either way. Other upper-case letters within the kept ranges are not lower-cased.
- `slugify`'s `(title || '').toString()` on non-string input: the model takes a string.
- The backlink regex when an article is renamed: it uses a foreign regex engine.
- Icons:
  - `drawIcon`'s window, border and letter layout: the `pad` and offset values come from
    floating-point `Math.round` and are left out;
  - `px` and `set`, which the layout is made of, are modelled with the grid origin and
    cell size as parameters;
  - the sequence of `px` calls that spells the letters is left out;
  - `savePng` and `main` (file output through pngjs) are left out;
  - a byte array element is an integer 0..255, so values out of that range, which the
    Uint8Array would wrap, are excluded by the type;
  - the byte offset `(size*y + x) << 2` is computed without 32-bit wrap-around, which only
    differs for images of more than 2^29 pixels.
- `service-worker.js` (caching and fetch interception) and `eslint.config.js` (lint
  configuration) contain no engine logic.
- Awards.LevelUpStats: uses the corrected unsigned permutation index (`FixedIncrements`)
  and a Euclidean `(seed + lv) % 4`. It agrees with the source for every seed in
  [0, 2^31). For seeds from 2^31, and for negative stored seeds, the source throws and the
  transaction aborts; see Findings.
- Streaks.NextStreak: a stored `current` or `best` is a natural number; non-numeric
  stored values are not modelled.

## Findings

| source | as written | input that shows it | evidently intended | confidence | as-written member | corrected member |
|---|---|---|---|---|---|---|
| app.js:536-539 | `(seed ^ (lv * 31)) % 24` uses the signed 32-bit XOR. For seeds ≥ 2^31 the index is negative, `PERMS[permIdx]` is `undefined`, and reading `perm[0]` throws, so the award transaction fails | seed 2^31 (`seedFromUid` returns values up to 2^32−1), level 1 → 2: the index is −18 | an index in 0..23 for every seed, e.g. `((seed ^ (lv * 31)) >>> 0) % 24` | high (the arithmetic is proved); not executed | StatGenerator.LevelUpThrowsForSeed2To31 | StatGenerator.FixedIncrementsTotal |
