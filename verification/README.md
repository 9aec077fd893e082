# Misiones: progression and unlock engine

A child works through fifty missions, ten per block. Mission `n` needs 1, 2 or
3 stars, depending on its position inside its block. A block is enabled once
every earlier block is complete. Each block ends with a reward. That reward
unlocks when the stars of the visible-complete missions from 1 to the end of
its block reach its threshold: 20, 40, 60, 80 and 100.

The project models two programs.

The child display, `script.js`, is modelled in `Display.Display`:

- a progress store (`acquired`, `visibleCompleted`, the completion timers,
  `selectedMission`), with its effects as functions in `Progress`;
- the unlock rule (`Unlock`) and the star totals (`Totals`);
- the five reward slots: shown count, counting tick, reveal timer and reveal
  flag. This state machine is in `Rewards`;
- the carousel (`Columns`);
- the mission catalogue (`Catalog`);
- the realtime `missions` and `user_meta` handlers.

The admin console, `Admin/script.js`, is modelled in `Admin.Console`:

- the mission list and its initial load;
- the star placeholders of a mission card;
- the accumulated count of a reward card;
- the ± buttons and the row update they send;
- the card selection;
- the realtime merge of `missions` rows;
- the `user_meta` selection push.

Shared pieces:

- JavaScript values that may be absent are `Js.Js<T>`: `Undefined`, `Null` or `Val(v)`.
- A realtime event is a `Rows.Payload` with an event type, a new row and an old row.
- A reward image URL is built in `ImageUrl`, including `encodeURIComponent` over UTF-8.

Timers are slots of state: a pending completion timer is a member of
`completionTimers`. A counting tick records the target and the completeness it
captured when it was armed. A pending reveal is a flag. Firing a timer is a
method call. Which pending timer fires next is the caller's choice, so every
interleaving of events and timer fires is covered.

Where the code does something a reader might not expect, the model follows
the code, except for the one defect listed under "## Findings":

- **Deletes remove missions.** A realtime DELETE removes the mission from the
  display's catalogue and from its progress (`Catalog.DeleteDropsOneEntry`).
  The admin merge ignores the event type, so a delete of an unknown mission
  inserts it (`Admin.DeleteIsMerged`).
- **Pushes skip the debounce and are not clamped.** A realtime push sets
  `visibleCompleted` at once, without the 1.5 s completion delay. It also
  stores the pushed star count unclamped (`Progress.PushStoresUnclamped`).
- **An estado-only push can break the visible-complete invariant.** A push that
  carries `estado` but no `estrellas` can make an incomplete mission visible
  (`Progress.EstadoPushShowsIncomplete`).
- **Timers check the state captured when they were armed.** A reward counting
  tick keeps the target of the render that armed it. When the target falls, the
  tick counts past it until the next render (`Rewards.StaleTickOvershoots`).
  The reveal timer re-checks the completeness captured at scheduling, which is
  always true when it is armed.
- **Repeating a push is idempotent only for some titles.** The title must be
  absent or non-empty. An empty title gives a placeholder the first time and
  the empty title the second (`Catalog.EmptyTitleRepeatDiffers`).

## Model

| member | source | states |
|---|---|---|
| Js.DigitsOnly | script.js:511 | stripping non-digits yields only digits and never lengthens the string |
| Js.DigitsOfIntToString | script.js:511 | stripping the non-digits of `String(n)` leaves exactly the decimal digits of the absolute value of `n` (the minus sign goes) |
| Scoring.JsRem10 | script.js:58 | JavaScript's `% 10`: the remainder lies in -9..9 and has the sign of the dividend |
| Scoring.CalcStars | script.js:57-62 | the stars a mission needs are always 1..3; a number of 0 or below needs 1 |
| Scoring.CalcStarsPattern | script.js:57-62 | for a mission number of 1 or more: positions 1-3 of a block need 1 star, 4-7 need 2, 8-10 need 3; each case in both directions |
| Scoring.BlockForMission | script.js:135-137 | a mission lies in the block whose ten numbers contain it: 10b+1 ≤ n ≤ 10b+10 |
| Scoring.Clamp | script.js:56 | the result lies in a..b whenever a ≤ b; a value inside is kept; one below goes to a; one above goes to b |
| Scoring.StarsUpTo | script.js:57-62 | the stars of missions 1..end, with none for end ≤ 0, lie between end and 3·end |
| Scoring.CalcStarsPeriodic | script.js:57-62 | the requirement repeats every ten missions |
| Scoring.TenMoreNeedTwenty | script.js:57-62 | any ten consecutive missions after 0 need exactly 20 stars |
| Scoring.StarsUpToBlocks | script.js:57-62 | the first k blocks need exactly 20·k stars |
| Scoring.ThresholdIsBlockStars | script.js:326-328 | each reward's threshold equals the stars needed by every mission from 1 to the end of its block: 20·(idx+1) |
| Totals.SetStarsRemove | script.js:147-151 | the star total of a set is one member's stars plus the total of the rest |
| Totals.SetStarsBounds | script.js:147-151 | a set of k visible missions is worth between k and 3k stars |
| Totals.TotalStars | script.js:147-151 | the loop over `visibleCompleted` returns the stars of the set |
| Totals.BlockStars | script.js:319-325 | the loop over 1..end returns the stars of the visible missions up to end |
| Totals.VisibleStarsIsSetStars | script.js:319-325 | the reward count up to end is the total of the visible missions numbered 1..end |
| Totals.RewardCountIsTotal | script.js:319-325 | when every visible mission lies in 1..end, the reward count equals the progress total |
| Totals.VisibleStarsBound | script.js:319-325 | the reward count up to end lies in 0..StarsUpTo(end) and reaches the top exactly when every mission 1..end is visible |
| Unlock.HighestIsFirstGap | script.js:113-128 | the highest completed block is in -1..4; every block up to it is complete; the next one is not |
| Unlock.HighestBelowGap | script.js:113-128 | the highest completed block lies below any incomplete block |
| Unlock.HighestCompletedBlock | script.js:113-128 | the nested loop with its early breaks returns the highest completed block, with blocks 0..h all complete and h+1 not |
| Unlock.IsLocked | script.js:129-134 | a mission is unlocked exactly when it is at most 50 and every block before its own is complete |
| Unlock.LockedIff | script.js:129-134 | both directions of the unlock rule: unlocked iff n ≤ 50 and all earlier blocks are complete |
| Unlock.FirstBlockNeverLocked | script.js:129-134 | missions 1..10 (and any lower number) are never locked |
| Unlock.IncompleteBlockLocksLater | script.js:129-134 | an incomplete block locks every mission after its end |
| Unlock.HighestMonotone | script.js:113-128 | more stars on every mission never lower the highest completed block |
| Unlock.UnlockedStaysUnlocked | script.js:129-134 | gaining stars never locks an unlocked mission |
| Rows.PlaceholderTitleTruthy | script.js:609 | the placeholder title is never empty, so it survives a truthiness filter |
| Lists.Insert | script.js:575 | inserting into a list adds exactly that element (as a multiset) |
| Lists.InsertKeepsOrder | script.js:575 | inserting into a sorted list keeps it sorted |
| Lists.SortBy | script.js:575 | sorting yields a sorted permutation of the input |
| Lists.SortByStable | script.js:575 | the sort is stable: the elements with any one key keep their relative order |
| Lists.SortBySortedIsIdentity | script.js:651 | sorting an already sorted list changes nothing |
| Lists.FindIndex | script.js:639 | the result is -1 exactly when no element has the key; otherwise it is the first element with the key |
| Lists.RemoveAt | script.js:641 | `splice(i, 1)` removes exactly the element at i; the elements before i stay in place and those after it move down by one |
| Lists.RemoveAtKeepsOrder | script.js:641 | removing an element keeps a sorted list sorted |
| Columns.MakeColumnsOrder | script.js:185-195 | the loop builds fifteen columns; column i is the one `ColumnAt` describes |
| Columns.EachMissionInOneColumn | script.js:185-195 | each mission 1..50 is shown in exactly one column, and that column comes before the reward column of its block |
| Columns.ColumnShape | script.js:185-195 | mission columns hold five missions of one block; every third column is a reward column for a reward 0..4 |
| Columns.Step | script.js:517-524 | the arrow buttons keep the cursor inside the carousel and move it by one when there is room |
| Columns.StepBackUndoesForward | script.js:517-524 | Next then Prev returns to the same column when Next could move |
| Columns.StepAtEdges | script.js:517-524 | Prev on the first column and Next on the last do nothing |
| Catalog.KeptEntries | script.js:572-574 | the kept entries are exactly the rows with a numeric number and a non-empty title |
| Catalog.Placeholders | script.js:605-610 | k entries numbered 1..k with their placeholder titles: ascending, no number repeated, number n found at position n-1, every title non-empty |
| Catalog.InitialCatalog | script.js:571-610 | the catalogue is sorted and non-empty, and every title is non-empty; it is a permutation of the kept rows, or 50 placeholders when nothing is kept |
| Catalog.FindEntry | script.js:639 | the first entry with a numeric `num`, or -1 exactly when there is none or `num` is not a number |
| Catalog.NewEntry | script.js:650 | a pushed unknown mission gets the pushed title, or the placeholder when that is empty |
| Catalog.PushKeepsCatalogSorted | script.js:639-651 | every `missions` push keeps the catalogue sorted |
| Catalog.PushTouchesOnlyItsNumber | script.js:639-651 | a push leaves every entry with another number present or absent as before |
| Catalog.PushMakesNumberKnown | script.js:646-651 | after a non-delete push with a numeric number, the catalogue has an entry with that number; a known entry takes the pushed title; a new one has a non-empty title |
| Catalog.DeleteDropsOneEntry | script.js:639-641 | a DELETE removes exactly the first entry with the number, or nothing when there is none |
| Catalog.DeleteRemovesNumber | script.js:639-641 | with distinct numbers, the deleted number is no longer in the catalogue |
| Catalog.PushIdempotent | script.js:639-651 | repeating a push is a no-op when its title is absent or non-empty and, for a DELETE, no number is repeated in the catalogue |
| Catalog.EmptyTitleRepeatDiffers | script.js:646-651 | an empty pushed title gives the placeholder first and the empty title on repeat |
| Progress.NextStars | script.js:265-266 | the second click adds one star below the maximum, resets at or above it, and reaches the maximum exactly from max-1 |
| Progress.ClicksCycle | script.js:265-266 | repeated clicks cycle 0, 1, …, max, 0, … |
| Progress.Click | script.js:256-300 | locked missions ignore clicks; the first click only selects; other missions are untouched; completion arms the timer; un-completion cancels it and hides the mission; a click that leaves completeness as it was leaves the timer and visibility of the mission as they were |
| Progress.FireCompletion | script.js:283-291 | the completion timer shows the mission only if it is still complete, and frees its slot |
| Progress.ClickKeepsVisibleComplete | script.js:256-300 | clicks keep the invariant that every visible mission is complete |
| Progress.FireKeepsVisibleComplete | script.js:283-291 | the completion timer keeps the invariant |
| Progress.CompletionShowsAfterFire | script.js:278-291 | the completing click leaves the mission hidden with its timer armed; the fire shows it and adds its stars to the total |
| Progress.RegressionBeforeFire | script.js:293-300 | a click back to 0 before the fire cancels the timer and keeps the mission hidden |
| Progress.LoadRowsVisible | script.js:74-82 | after the load, the visible set gains exactly the numbered rows whose stars reach the requirement |
| Progress.LoadRowsStars | script.js:74-82 | a mission no row names keeps its stars; when the final row names a mission, it decides that mission's stars |
| Progress.LoadRowsLastRowDecides | script.js:74-82 | the stars of a mission are those of the last row naming it, wherever that row is |
| Progress.PushedProgress | script.js:653-664 | a push never touches timers or selection |
| Progress.PushEffect | script.js:640-664 | other missions are untouched; DELETE removes the mission; stars are stored and set visibility; otherwise estado alone sets visibility |
| Progress.PushIdempotent | script.js:640-664 | repeating the same push changes nothing |
| Progress.PushStoresUnclamped | script.js:654-657 | a push of 7 stars to mission 1 stores 7, above its requirement |
| Progress.EstadoPushShowsIncomplete | script.js:661-663 | an estado-only push makes a mission with no stars visible |
| Progress.StarsPushKeepsVisibleComplete | script.js:640-659 | a DELETE or a push with stars keeps every visible mission complete |
| Progress.MetaPushed | script.js:677-690 | a `user_meta` row for another student is ignored; otherwise the selection becomes the pushed number, or none |
| Rewards.RenderReward | script.js:329-432 | the count never exceeds the target and snaps down to it; a running tick is untouched; a gap of one or less is closed at once; a larger gap arms a tick with the target and completeness; an incomplete block clears the reveal; a complete block at its threshold arms a reveal |
| Rewards.FireTick | script.js:368-403 | a tick adds one star below its target and keeps counting until it gets there, then stops; a count at or past the target stays; the revealed flag never changes; while counting, the pending reveal stays as it was; on stopping, a reveal is pending exactly when one was, or the captured block was complete, the count is at the threshold and the reward is not yet revealed |
| Rewards.RevealFired | script.js:375-381 | the reveal marks the reward revealed exactly when the count is at the threshold |
| Rewards.ViewOfOk | script.js:315-328 | a view's count is non-negative and its threshold is the reward's |
| Rewards.InitialOk | script.js:38-45 | the initial arrays form a sound slot |
| Rewards.InitialOkEverywhere | script.js:38-45 | all five initial slots are sound and fit any progress state |
| Rewards.RenderKeepsSlotOk | script.js:358-432 | a render keeps the count in 0..threshold and a tick below its target; a reveal pending or done only at the threshold; the unlock shown equals the reveal of a complete block |
| Rewards.TickKeepsSlotOk | script.js:368-403 | a tick keeps the slot invariant |
| Rewards.RevealKeepsSlotOk | script.js:375-432 | reveal then render then free keeps the invariant; the reward is revealed exactly when its block is complete |
| Rewards.RenderAll | script.js:306-432 | `render()` renders every reward slot against its own view |
| Rewards.RenderAllKeepsOk | script.js:306-432 | after `render()`, every sound slot stays sound and fits the progress state |
| Rewards.RevealAll | script.js:375-381 | the reveal timer's whole effect frees its slot |
| Rewards.RevealAllOk | script.js:375-381 | a reveal fire keeps all slots sound; the reward is revealed exactly when its block is complete |
| Rewards.TicksReachTarget | script.js:368-403 | left alone, a tick reaches its captured target in exactly target − count fires, then stops |
| Rewards.StaleTickOvershoots | script.js:358-410 | a target falling from 20 to 12 leaves the tick running to 20; the next render snaps the count back to 12 |
| Rewards.RewardCompleteIff | script.js:315-329 | a reward is complete exactly when its block is enabled and every mission up to its end is visible |
| Rewards.TargetBounds | script.js:358 | the target is in 0..threshold, and 0 after the active block |
| ImageUrl.Utf8 | script.js:510 | 1 to 4 bytes; ASCII as one equal byte; otherwise all bytes ≥ 0x80 |
| ImageUrl.EscapeByte | script.js:510 | an unreserved byte stays one character; any other becomes `%XX` with hex digits |
| ImageUrl.EscapeBytesSafe | script.js:510 | the escaped text holds only unreserved characters, `%` and hex digits |
| ImageUrl.EncodedIsOneSegment | script.js:510-513 | an encoded id never contains `/`, so it stays one path segment |
| ImageUrl.UnescapeEscapeBytes | script.js:510 | unescaping the escaped bytes gives the bytes back |
| ImageUrl.EncodeDecodes | script.js:510 | decoding `encodeURIComponent(s)` gives the UTF-8 bytes of s |
| ImageUrl.EncodeUnreservedIsIdentity | script.js:510 | a string of unreserved characters encodes to itself |
| ImageUrl.RewardImageUrlShape | script.js:509-514 | the URL is `../premios/<id>/<digits of n>.jpeg` with the id one segment; a missing id is the same as "default" |
| ImageUrl.DefaultRewardPath | script.js:620 | the default rewards (id "Mateo") load `../premios/Mateo/<n>.jpeg` |
| Display.CatalogAfterPush | script.js:639-651 | the handler's catalogue steps give the catalogue push |
| Display.Display.constructor | script.js:543-610 | initial state: empty progress, nothing selected, first column, initial slots; catalogue from the fetched rows; name from the user data |
| Display.Display.RenderReward | script.js:306-432 | one reward column's render changes that slot as the slot function says, and no other |
| Display.Display.Render | script.js:197-474 | `render()` leaves the progress untouched and renders every reward slot |
| Display.Display.Click | script.js:256-300 | a mission card click changes the store as `Progress.Click` says; the slots get one render, or two when the mission leaves completion; the state stays valid |
| Display.Display.Advance | script.js:265-300 | the second click: back to 0 with timer cancel, hiding and two renders; or one more star, arming the timer on completion, and one render |
| Display.Display.ResetStars | script.js:265-300 | reset to 0, render, cancel the timer, hide the mission, render again |
| Display.Display.AddStar | script.js:265-292 | store the next count, render, arm the completion timer when complete |
| Display.Display.HideMission | script.js:293-300 | cancel the timer, hide the mission, render |
| Display.Display.FireCompletion | script.js:283-291 | the completion timer's effect, with a render only when the mission is still complete |
| Display.Display.FireRewardTick | script.js:368-403 | a counting tick's fire changes only its own slot, as `Rewards.FireTick` says, and keeps the state valid |
| Display.Display.FireRewardReveal | script.js:375-381 | a reveal fire is `Rewards.RevealAll`; afterwards the reward is revealed exactly when its block is complete |
| Display.Display.RevealStep | script.js:375-381 | reveal and re-render only at the threshold; the timer slot is freed either way |
| Display.Display.LoadProgress | script.js:65-86 | loading applies the rows to the store and renders |
| Display.Display.OnMissionsPush | script.js:632-669 | a `missions` push updates the catalogue and the progress, then renders; an event without a row changes nothing |
| Display.Display.OnUserMetaPush | script.js:677-690 | a `user_meta` push changes the selection and renders; another student's row changes nothing |
| Display.Display.Prev | script.js:517-520 | Prev moves the cursor one column left, stopping at the first |
| Display.Display.Next | script.js:521-524 | Next moves the cursor one column right, stopping at the last |
| Admin.CalcStars | Admin/script.js:15-20 | the console's star rule agrees with the display's on every mission number |
| Admin.CompletedStars | Admin/script.js:21-29 | the header total lies between 0 and 3 per listed mission |
| Admin.CompletedStarsIsSetStars | Admin/script.js:21-29 | with distinct numbers, the console total equals the display total of the complete missions |
| Admin.FindMission | Admin/script.js:190 | `find` succeeds exactly when a mission has that number, and returns a mission with it |
| Admin.FindMissionFirst | Admin/script.js:190 | the mission `find` returns is the first with that number: no earlier mission has it |
| Admin.ShownMission | Admin/script.js:215 | the card shown for n is the listed mission, or a placeholder with 0 stars |
| Admin.AccBound | Admin/script.js:187-195 | the reward card count lies in 0..StarsUpTo(end) and equals it exactly when every mission 1..end is listed and complete |
| Admin.AccStep | Admin/script.js:189-195 | one loop step adds the mission's stars exactly when it is listed and complete |
| Admin.AccRange | Admin/script.js:187-195 | the count stays within 0..StarsUpTo(end) |
| Admin.AccFull | Admin/script.js:187-195 | the count is full exactly when every mission 1..end is listed and complete |
| Admin.AccIsVisibleStars | Admin/script.js:187-195 | with distinct numbers, the console's count is the display's count with the complete missions as the visible set |
| Admin.AccWithinThreshold | Admin/script.js:184-195 | the card's count never exceeds its threshold and reaches it exactly when every mission up to the end of its block is listed and complete |
| Admin.LastCardCountsTotal | Admin/script.js:187-195 | when all complete missions lie in 1..50, the last reward card shows the header total |
| Admin.StarPlaceholders | Admin/script.js:155-167 | a card has one placeholder per required star; the first clamp(got, 0, req) are filled; it is done exactly when complete, that is when all are filled |
| Admin.IncStars | Admin/script.js:358-368 | + gives 1..req: one more than the non-negative count, capped at req |
| Admin.DecStars | Admin/script.js:348-356 | − gives one less, never below 0 |
| Admin.IncsSaturate | Admin/script.js:358-368 | k presses of + give min(req, count + k) and stay at req |
| Admin.IncDecRoundTrip | Admin/script.js:348-368 | − undoes + below the maximum; + undoes − from 1..req |
| Admin.SelectedIndex | Admin/script.js:349-350 | ± act only on a selected mission with a non-zero number found in the list, and on the first mission with that number |
| Admin.NormalizedRow | Admin/script.js:55-60 | a row is kept exactly when its number is numeric; its title is never empty; stars and estado are copied |
| Admin.KeptMissions | Admin/script.js:55-60 | the kept missions are exactly the normalised rows |
| Admin.Placeholders | Admin/script.js:64-67 | the fallback is missions 1..100 with placeholder titles, 0 stars and not done: ascending, no number repeated, `find` of n returns the mission at position n-1, no mission complete |
| Admin.FetchedMissions | Admin/script.js:47-69 | the list is sorted and non-empty with non-empty titles; it is a permutation of the kept rows, or the 100 placeholders |
| Admin.Updated | Admin/script.js:398-402 | a listed mission takes each defined pushed field and keeps the others |
| Admin.Inserted | Admin/script.js:403-404 | an unknown mission gets its number, the title or the placeholder, the stars or 0, and estado true only for `true` |
| Admin.MergeKeepsSorted | Admin/script.js:389-406 | the merge keeps the list sorted |
| Admin.MergeEffect | Admin/script.js:389-406 | a non-numeric number changes nothing; a listed mission is updated in place; an unknown one is added |
| Admin.DeleteIsMerged | Admin/script.js:389-406 | a DELETE is merged like any other event: it can insert a mission and never removes one |
| Admin.MergeIdempotent | Admin/script.js:389-406 | repeating a push is a no-op when its title is absent or non-empty |
| Admin.InsertedIsFound | Admin/script.js:404-405 | after insert and sort, the new mission is found by its number |
| Rows.UserName | script.js:588 | the student name is `nombre`, else `id`, else the program's fallback ("Mateo" on the display, "Alumno" in the console at Admin/script.js:42); never empty |
| Admin.Console.constructor | Admin/script.js:371-373 | the console starts with the fetched name and list and no selection |
| Admin.Console.SumCompletedStars | Admin/script.js:21-29 | the loop returns the header total |
| Admin.Console.RewardAcc | Admin/script.js:180-195 | the loop returns the card's count and threshold |
| Admin.Console.SelectMissionCard | Admin/script.js:222-225 | clicking a mission card selects it |
| Admin.Console.SelectObjectiveCard | Admin/script.js:238-239 | clicking the objective card selects the objective |
| Admin.Console.LoadSelected | Admin/script.js:416-420 | a stored numeric selection is loaded; anything else keeps the current one |
| Admin.Console.OnMetaPush | Admin/script.js:429-444 | a row for this student sets or clears the selection; any other row is ignored |
| Admin.Console.OnInc | Admin/script.js:358-368 | + updates only the selected mission's stars and sends estado true exactly when complete; no selection changes nothing |
| Admin.Console.OnDec | Admin/script.js:348-356 | − does the same with one star less |
| Admin.Console.ApplyPush | Admin/script.js:389-406 | the realtime handler replaces the list with the merge and keeps the selection |
| Findings.JsCalcStars | script.js:57-62 | `calcStars` of an undefined number is 3 (NaN fails both tests); of null it is 1 |
| Findings.LiftTotal | script.js:147-151 | on numeric keys the JavaScript-keyed total is the display's total |
| Findings.NumberlessPushCountsPhantom | script.js:653-664 | a numberless push of 3 stars raises the total from 0 to 3; the corrected handler ignores it |
| Findings.NullNumberCountsPhantom | script.js:653-664 | with `numero: null` and one star, the phantom total is 1; the corrected handler ignores it |
| Findings.CorrectedMatchesOnNumbers | script.js:632-664 | the corrected handler agrees with the code on numbered rows and ignores the others |

## Left out

- Supabase and file I/O (queries, the column-name retries, `usuarios.json`, `premios.json`) are parameters. The fetched rows and user data are constructor arguments, and realtime events are method arguments.
- The writes are left out because their results are never read back: `upsertMissionProgress` (script.js:90-112), `upsertSelected`, `upsertObjective`, `updateMissionTitle` and the database part of `updateMissionStars`. `OnInc`/`OnDec` return the row update they send.
- The DOM is left out: card markup, CSS classes, the lock icon, `fillAnim`, `buildTicks`, `applyTransform`, track widths and the avatar initial.
- `calcProgress` (script.js:139-144) only writes a floating-point percentage to the DOM; its star total is `Totals.TotalStars`.
- `fetchObjective`, `renderObjective`, `onEdit` (Admin/script.js:251-327) and the edit modal are left out. They edit the objective text and rename the selected mission, saving the title with `updateMissionTitle`. No progression or unlock rule reads either.
- Numbers are integers: NaN, fractions and non-number field types are not modelled. The `typeof` guard on `rewardDisplay` (script.js:360) is always false here because the shown count is always an integer.
- The reward records (titles, conditions, `premio` indices from `premios.json`) are left out, apart from the image URL of the default rewards.
- Timer durations and `clearTimeout` handles are left out: a timer is a pending slot, and the caller chooses the order of fires.
- The keyboard arrows (script.js:525-528) only click Prev and Next.
- The admin ± buttons throw when the selected mission is not in the list. The model leaves the state unchanged in that case.
- Progress.NextStars: the 0..max range is stated only for a previous count of -1 or more. A lower count, which only an unclamped push could store, gives a negative next count.
- Scoring.CalcStars: its own contract gives only the 1..3 range and the non-positive case. The per-position pattern is stated by `Scoring.CalcStarsPattern`.
- Display.Display.OnMissionsPush: for a row whose number is missing or null, the progress part returns without writing, as the corrected handler `Progress.PushedProgress` does. The code writes under the undefined or null key; that behaviour is modelled by `Findings.PushedAsWritten` and reported under "## Findings".
- ImageUrl.Utf8: a Dafny `char` is a Unicode scalar value, so a lone surrogate cannot occur. On one, `encodeURIComponent` throws a `URIError` (script.js:510); that case is not modelled.
- The progress loader reads at most 1000 rows (`.limit(1000)`, script.js:69 and 71). The model takes the fetched rows as given, however many.
- Progress.PushedProgress: its own contract states only what a push never touches. Its effect is stated by `Progress.PushEffect`.

## Findings

| source | as written | input that shows it | evidently intended | confidence | as-written member | corrected member |
|---|---|---|---|---|---|---|
| script.js:653-664 | the `missions` handler writes `acquired` and `visibleCompleted` under `num` even when `row.number ?? row.numero` is undefined or null, and `calcStars(undefined)` is 3 (modelled by `Findings.PushedAsWritten`) | an UPDATE row with no number and `estrellas: 3` on an empty store: the total becomes 3 | ignore rows without a numeric number, as the catalogue branch and the loader do (`Progress.PushedProgress`, which the display uses) | not executed | Findings.NumberlessPushCountsPhantom | Findings.CorrectedMatchesOnNumbers |
