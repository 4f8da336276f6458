# 12 Blocks: the hour-block grid and the habit list, modelled in Dafny

12 Blocks is a habit tracker. The user keeps a list of named habits. Each habit
has a grid with one row per calendar day and 24 hour blocks per row. The grid is
a virtual list of 100,000 rows, and row 50,000 is today. Only the block of the
current hour of today can be checked or unchecked. A checked block stores the
moment it was checked. That moment decides how saturated the block is drawn:
the sooner after the top of the hour, the stronger.

The project models the two parts of the app that carry this logic.

- `streak_grid.dfy`, module `StreakGrid` (from `src/InfiniteStreakGrid.tsx`):
  - the mapping from rows to day numbers;
  - the unlock rule;
  - the block keys;
  - the toggle update and the click that issues it;
  - the saturation step function;
  - the layout arithmetic;
  - the countdown to the next hour and its `m:ss` text;
  - the "Jump Today" visibility test.

  Two classes hold the component's mutable state:
  - `Viewport` holds the measured container and the button flag;
  - `RowCountdown` holds a row's `timeLeft`.
- `habits.dfy`, module `Habits` (from `src/App.tsx`):
  - the pure list transforms (`findIndex`, `filter`, `map`, the name check and
    the two `splice` calls of a drop);
  - `Array.from` of a set, as a loop;
  - class `App`, whose fields are the app's `useState` values and whose methods
    are its event handlers, including the `setFilledBlocks` adapter handed to
    the grid.
- `clock.dfy`, module `Clock`: a timestamp in milliseconds split into a day
  number and the time of day, as `new Date()` exposes them.
- `text.dfy`, module `Text`: JavaScript's decimal rendering of a non-negative
  integer, `padStart(2, '0')` and `trim`.
- `optional.dfy`, module `Optional`: `undefined`/`null` as `Option`.

Time is one injected timestamp `now`. The component reads the clock afresh for
the row's date, for "today" and for the current hour
(`src/InfiniteStreakGrid.tsx` lines 18, 60 and 63). The model reads it once, so
"today" and the current hour always agree. The click's stored timestamp is a
separate parameter `stamp`, because the update reads `Date.now()` when React
runs it.

The two files disagree about the store's type. `App.tsx` hands the grid a
`Set<string>` and a set-based updater. The grid declares a
`Record<string, number>` of timestamps. Each side is modelled against its own
declared type, and no property is claimed across the two.

Behaviour of the code a reader may not expect, which the model reproduces:

- Box size: the `|| BOX_SIZE` fallback applies only when the floor is 0, which
  happens for widths 184 to 207. An unmeasured container (width 0) gives a box
  size of -8, not the fixed 40 (`StreakGrid.UnmeasuredBoxSize`). The list is
  not drawn at width 0 anyway.
- Delete: deleting a habit leaves its entry in the block store in place.
- Toggle: a key is removed only when it holds a truthy value. A key holding 0
  is treated like a missing key and set to the new timestamp.
- Ten-minute bands: each band includes its upper bound. A check exactly 60
  minutes after the top of the hour still scores 50. Outside the hour, and for
  a falsy timestamp, the level is 0.
- There is no debug time override and no timer registry in the code, so
  neither is modelled.

## Model

| member | source | states |
|---|---|---|
| `Clock.InstantOf` | src/InfiniteStreakGrid.tsx:60-63 | the calendar reading of a timestamp is a valid time of day whose timestamp is the input |
| `Clock.InstantOfTimestamp` | src/InfiniteStreakGrid.tsx:60-63 | a valid reading is recovered from its timestamp, so a timestamp has exactly one reading |
| `Clock.Today` | src/InfiniteStreakGrid.tsx:60-61 | today's day number is the day whose midnight is at or before `now`, with the next midnight after it |
| `Clock.HourStart` | src/InfiniteStreakGrid.tsx:264-265 | definition: the timestamp of hour `hour` of day `day`, as `setHours(colIdx, 0, 0, 0)` gives it |
| `Clock.CurrentHour` | src/InfiniteStreakGrid.tsx:63 | the current hour is in 0..23 |
| `Clock.CurrentHourContainsNow` | src/InfiniteStreakGrid.tsx:63 | `now` lies in the current hour of today: at or after its start, before the next hour's start |
| `StreakGrid.DateForRow` | src/InfiniteStreakGrid.tsx:17-23 | the day a row shows is today exactly for row 50,000, and `RowForDate` maps it back to the row |
| `StreakGrid.RowDateRoundTrip` | src/InfiniteStreakGrid.tsx:16-23 | row to day and day to row are inverse: row i shows today + (i - 50,000) |
| `StreakGrid.IsTodayRow` | src/InfiniteStreakGrid.tsx:60-62 | definition: the row's day equals today's day |
| `StreakGrid.IsUnlocked` | src/InfiniteStreakGrid.tsx:107 | a block is unlocked exactly when it is in row 50,000 and its column is the current hour |
| `StreakGrid.TodayRowIsMiddleRow` | src/InfiniteStreakGrid.tsx:58-62 | a row is today's row exactly when it is row 50,000 |
| `StreakGrid.ExactlyOneUnlockedBlock` | src/InfiniteStreakGrid.tsx:104-107 | under one `now`, the unlocked blocks of the 100,000 x 24 grid are exactly {(50,000, current hour)} |
| `StreakGrid.TodayVisible` | src/InfiniteStreakGrid.tsx:178 | definition: the visible range `start..stop` contains row 50,000 |
| `StreakGrid.TodayVisibleIffTodayRowShown` | src/InfiniteStreakGrid.tsx:177-183 | the visible range contains row 50,000 exactly when some visible row shows today |
| `StreakGrid.BlockKey` | src/InfiniteStreakGrid.tsx:105 | definition: the row's decimal digits, a dash, the column's decimal digits |
| `StreakGrid.Lookup` | src/InfiniteStreakGrid.tsx:108 | definition: the stored timestamp of a key, `None` for `undefined` |
| `StreakGrid.IsTruthy` | src/InfiniteStreakGrid.tsx:135 | definition: a stored value that is present and not 0 |
| `StreakGrid.BlockKeyInjective` | src/InfiniteStreakGrid.tsx:105 | two blocks with the same `${row}-${col}` key are the same block |
| `StreakGrid.Toggle` | src/InfiniteStreakGrid.tsx:133-141 | a truthy entry is deleted; a missing or 0 entry becomes `stamp`; every other key keeps its entry |
| `StreakGrid.ToggleTwiceRestores` | src/InfiniteStreakGrid.tsx:133-141 | toggling an absent key twice with a non-zero first stamp restores the store |
| `StreakGrid.ToggleTwiceDropsStoredZero` | src/InfiniteStreakGrid.tsx:135-139 | a stored 0 does not survive two toggles: the entry ends up removed |
| `StreakGrid.Click` | src/InfiniteStreakGrid.tsx:131-142 | a click on a locked block leaves the store unchanged; a click on the unlocked block toggles that block's own key |
| `StreakGrid.ClickTouchesOnlyUnlockedBlock` | src/InfiniteStreakGrid.tsx:105-141 | a click changes the entry of no block other than (50,000, current hour), so no locked block ever gets an entry |
| `StreakGrid.LevelForElapsed` | src/InfiniteStreakGrid.tsx:268-274 | within the hour the level is a multiple of 10 between 50 and 100 |
| `StreakGrid.LevelIsBandStep` | src/InfiniteStreakGrid.tsx:268-274 | the level is 100 - 10 x band, with six ten-minute bands, each including its upper bound |
| `StreakGrid.LevelNonIncreasing` | src/InfiniteStreakGrid.tsx:268-274 | a later check within the hour never scores higher |
| `StreakGrid.SaturationLevel` | src/InfiniteStreakGrid.tsx:261-275 | 0 exactly when `checkedAt` is falsy, before the block's hour, or more than 3,600,000 ms after its start; otherwise the step level (50..100) of the time elapsed since the start of the block's hour |
| `StreakGrid.FreshCheckIsScored` | src/InfiniteStreakGrid.tsx:261-274 | checking the unlocked block at `now` stores `now`, and its level is the step function of the time since the top of the hour |
| `StreakGrid.ScenarioPromptCheck` | src/InfiniteStreakGrid.tsx:261-274 | on 2024-01-01 at 10:03 the checked block scores 100 |
| `StreakGrid.ScenarioLateCheck` | src/InfiniteStreakGrid.tsx:261-274 | on 2024-01-01 at 10:58 the checked block scores 50 |
| `StreakGrid.BoxSize` | src/InfiniteStreakGrid.tsx:51-52 | the box size is the floor of (width - 184) / 24, except 40 where that floor is 0 (widths 184..207) |
| `StreakGrid.RowWidth` | src/InfiniteStreakGrid.tsx:53 | definition: 24 boxes plus the 23 gaps; its relation to the container is stated by `RowWidthFits` |
| `StreakGrid.RowHeight` | src/InfiniteStreakGrid.tsx:54 | definition: box plus date label plus gap; stated against `RowWidth` by `RowWidthFits` |
| `StreakGrid.RowWidthFits` | src/InfiniteStreakGrid.tsx:51-54 | the row fits the container exactly outside widths 184..207; from 208 on it leaves less than 24 px spare; the row is 24 boxes of (row height - 36) px plus the gaps |
| `StreakGrid.UnmeasuredBoxSize` | src/InfiniteStreakGrid.tsx:52 | width 0 gives box size -8 |
| `StreakGrid.ScenarioResize` | src/InfiniteStreakGrid.tsx:51-54 | width 1200 gives 42 px boxes, a 1192 px row and a 78 px row height |
| `StreakGrid.MsToNextHour` | src/InfiniteStreakGrid.tsx:67-69 | the countdown lies in 1..3,600,000 and ends exactly at the start of the next hour |
| `StreakGrid.FormatTime` | src/InfiniteStreakGrid.tsx:81-87 | the text is empty exactly for `null` |
| `StreakGrid.WholeSeconds` | src/InfiniteStreakGrid.tsx:83 | for a non-negative input, the floor of ms / 1000 (s x 1000 <= ms < (s + 1) x 1000); 0 below one second, negatives included |
| `StreakGrid.MinSecText` | src/InfiniteStreakGrid.tsx:84-86 | definition: minutes, a colon, two-digit seconds; read back by `MinSecTextReadsBack` |
| `StreakGrid.FormatTimeReadsBack` | src/InfiniteStreakGrid.tsx:81-87 | `m:ss` reads back as minutes x 60 + seconds = max(0, floor(ms / 1000)), with ss two digits below 60 |
| `StreakGrid.RowCountdown.constructor` | src/InfiniteStreakGrid.tsx:65-70 | a mounted row has a countdown exactly when it is today's row, and it starts at the time to the next hour |
| `StreakGrid.RowCountdown.Tick` | src/InfiniteStreakGrid.tsx:72-80 | each second today's row refreshes its countdown; other rows keep theirs; the countdown stays in range |
| `StreakGrid.RowCountdown.TimerLabel` | src/InfiniteStreakGrid.tsx:145-157 | the label on the unlocked block is empty exactly when the row is not today |
| `StreakGrid.Viewport.constructor` | src/InfiniteStreakGrid.tsx:33-35 | the grid starts unmeasured with the button hidden |
| `StreakGrid.Viewport.UpdateSize` | src/InfiniteStreakGrid.tsx:38-48 | a measurement sets width and height and nothing else |
| `StreakGrid.Viewport.HandleItemsRendered` | src/InfiniteStreakGrid.tsx:177-183 | "Jump Today" is shown exactly when row 50,000 is outside the visible range |
| `StreakGrid.Viewport.IsListShown` | src/InfiniteStreakGrid.tsx:190 | definition: the list is drawn once both width and height are positive |
| `Text.NatToDecimal` | src/InfiniteStreakGrid.tsx:105 | `String(n)` is a non-empty digit string, with a leading 0 only for 0 |
| `Text.DecimalRoundTrip` | src/InfiniteStreakGrid.tsx:105 | reading the digits of `String(n)` back gives `n` |
| `Text.NatToDecimalInjective` | src/InfiniteStreakGrid.tsx:105 | different numbers have different decimal texts |
| `Text.PadStart2` | src/InfiniteStreakGrid.tsx:86 | the input right-aligned in at least two characters, filled with '0' |
| `Text.PadStart2Value` | src/InfiniteStreakGrid.tsx:86 | padding digits with zeros keeps their value |
| `Text.TrimStart` | src/App.tsx:119 | the input minus a whitespace-only prefix, not starting with whitespace |
| `Text.TrimEnd` | src/App.tsx:119 | the input minus a whitespace-only suffix, not ending with whitespace |
| `Text.Trim` | src/App.tsx:119-124 | a contiguous part of the input, with only whitespace around it, neither starting nor ending with whitespace |
| `Text.TrimEmptyIffBlank` | src/App.tsx:119 | the trimmed name is empty exactly when the name is all whitespace |
| `Text.TrimIdempotent` | src/App.tsx:119-124 | trimming twice is trimming once |
| `Habits.FindIndex` | src/App.tsx:169-170 | -1 exactly when no habit has the id; otherwise the first position holding it |
| `Habits.RemoveWithId` | src/App.tsx:101 | the result is no longer than the input and holds no habit with the id |
| `Habits.RemoveWithIdCounts` | src/App.tsx:101 | each habit without the id survives as often as it occurred; none with the id survives |
| `Habits.RemoveWithIdDistributes` | src/App.tsx:101 | filtering a concatenation concatenates the filtered parts, so the survivors keep their order |
| `Habits.RemoveAbsentId` | src/App.tsx:101 | with no habit carrying the id, the list is unchanged |
| `Habits.RenameHabit` | src/App.tsx:124 | same length and same ids in the same places; the new name exactly where the id matches |
| `Habits.RenameLastWins` | src/App.tsx:124 | the later of two renames wins; renaming an absent id changes nothing |
| `Habits.CheckName` | src/App.tsx:119-124 | blank exactly for an all-whitespace name, too long exactly past 20 trimmed characters, otherwise the trimmed name of 1..20 characters |
| `Habits.RemoveAt` | src/App.tsx:173 | one element shorter, with the later elements shifted down; the multiset loses exactly that element |
| `Habits.InsertAt` | src/App.tsx:174 | one element longer, with `x` at `i` and the later elements shifted up; the multiset gains exactly `x` |
| `Habits.RemoveInsertedAt` | src/App.tsx:172-174 | taking out what was just inserted gives the original |
| `Habits.InsertRemovedAt` | src/App.tsx:172-174 | putting an element back where it was taken out gives the original |
| `Habits.MoveHabit` | src/App.tsx:172-174 | a permutation with the dragged habit at the target index and the other habits in their old relative order |
| `Habits.MoveHabitBack` | src/App.tsx:172-174 | dragging the habit back to its old index restores the list |
| `Habits.ArrayFrom` | src/App.tsx:404 | `Array.from(set)` holds each member of the set exactly once and nothing else |
| `Habits.ToSet` | src/App.tsx:183 | definition: `new Set(arr)`, the set of the array's elements |
| `Habits.StoredBlocks` | src/App.tsx:401 | definition: the stored array of a habit, a missing entry read as `[]` |
| `Habits.App.constructor` | src/App.tsx:49-83 | the app starts from the stored lists, or empty ones, with no edit, drag, deletion or selection pending |
| `Habits.App.RemoveHabit` | src/App.tsx:95-97 | asking to delete a habit records its id as pending |
| `Habits.App.ConfirmRemoveHabit` | src/App.tsx:99-104 | with a pending id, the habits with that id are filtered out and the pending id cleared; with none, nothing changes; the block store is never touched |
| `Habits.App.CancelRemoveHabit` | src/App.tsx:106-108 | the pending deletion is dropped |
| `Habits.App.StartEdit` | src/App.tsx:110-116 | the edit starts on the habit's id and name with no warning |
| `Habits.App.SaveEdit` | src/App.tsx:118-128 | a blank name changes nothing; a too-long name only sets the warning; otherwise the matching habits get the trimmed name and the edit ends |
| `Habits.App.HandleDoubleClick` | src/App.tsx:130-136 | the first habit with the id becomes the selection; an unknown id changes nothing |
| `Habits.App.HandleAddHabit` | src/App.tsx:138-146 | a non-blank input appends exactly one habit {newId, trimmed input} and sets `habitStreaks[newId] = []`; a blank input changes nothing |
| `Habits.App.HandleDragStart` | src/App.tsx:149-158 | the dragged habit is recorded |
| `Habits.App.HandleDragEnd` | src/App.tsx:159-162 | both drag markers are cleared |
| `Habits.App.HandleDragOver` | src/App.tsx:163-166 | the habit under the pointer is recorded |
| `Habits.App.DropIgnored` | src/App.tsx:168-171 | definition: no drag, a drop on the dragged habit itself, or an id not in the list |
| `Habits.App.HandleDrop` | src/App.tsx:167-178 | no drag, a drop on itself or an unknown id changes nothing; otherwise the list becomes the move of the dragged habit to the target's index and the drag ends |
| `Habits.App.GetFilledBlocksForSelected` | src/App.tsx:181-184 | the empty set without a selection; otherwise exactly the keys stored for the selected habit, none if it has no entry |
| `Habits.App.SetFilledBlocks` | src/App.tsx:398-406 | without a selection nothing changes; otherwise only the selected habit's entry is replaced, by a duplicate-free array of `setFn` applied to the old entry's keys (missing read as empty), so the grid's set view becomes `setFn` of the old view |

## Left out

- Rendering is not modelled: JSX, styles, colours, the `MenuPortal` listeners,
  the drag image, context-menu positions, modals and switching between the list
  and the grid. None of it decides a value the model computes.
- `react-window` is not modelled: virtualization, overscan, `scrollToItem`,
  `initialScrollOffset`, and the scroll back to today when `resetScrollKey` or
  the container size changes. These belong to a library whose behaviour is not
  shown.
- `localStorage` and `JSON` are not modelled. `Habits.App.constructor` takes the
  already parsed values, or `None` when nothing was stored or parsing failed.
- Timers and listeners are not modelled: `setInterval`, `clearInterval` and
  the resize listener. Their callbacks are `RowCountdown.Tick` and
  `Viewport.UpdateSize`.
- JavaScript `Date` is reduced to day numbers counted from the epoch in a single
  time zone without daylight saving. `toLocaleDateString`, which formats the
  row label, is not modelled.
- The clock, and `Date.now()` as a new habit's id, become parameters.
- The runtime effect of passing a `Set` where the grid expects a
  `Record<string, number>` is not modelled.
- `StreakGrid.RowCountdown.constructor`: the row's `isToday` is fixed when the
  row mounts. React re-renders that recompute `isToday` for a mounted row are
  not modelled.
- `Habits.ArrayFrom`: the order of the array, which JavaScript takes from set
  insertion, is left open.
- `Text.Trim`: string lengths count Dafny characters. JavaScript counts UTF-16
  code units, so a name with characters outside the Basic Multilingual Plane
  has a different `length` there.
- JavaScript numbers are modelled as unbounded integers: no `NaN`, no
  fractional timestamps, no loss of precision.
- `Habits.App.HandleAddHabit`: like the source, it has no 20-character check.
  The input's `maxLength` keeps typed names short, and that is not modelled.
- The `onChange` warnings and the `onBlur` revert of the edit inputs are not
  modelled (src/App.tsx:244-259, 319-326). They are input plumbing around
  `saveEdit` and `handleAddHabit`.
