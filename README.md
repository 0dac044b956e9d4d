# Schedule table, modelled in Dafny

A model of the logic inside the weekly schedule grid `ScheduleTable` of a course-timetabling
web application (`src/basic/ScheduleTable.tsx`). The component is a React view; the model
lifts out the four pieces of deterministic logic it contains and treats them as pure
functions:

- the 24 time-slot rows (`TIMES`): 18 half-hour slots back to back, then 6 evening slots of
  50 minutes on a 55-minute stride (`time_slots.dfy`);
- the block colours (`getColor`): lecture ids deduplicated in first-seen order, each given
  one of six colours by its position modulo 6 (`lecture_colors.dfy`, on top of `Dedup` and
  `IndexOf` in `seqs.dfy`);
- the drag highlight (`getActiveTableId` and the outline test): the part of the active drag
  id before its first `:` compared with the table id, where block drag ids are
  `tableId:index` (`drag_highlight.dfy`);
- the two callbacks (`schedule_actions.dfy`): a cell click reports the 1-based slot number of
  its row; the delete button hands the schedules-map updater a function that filters the
  table's list and leaves every other table alone.

`types.dfy` holds the records: `Lecture`, `Schedule`, the map from table id to schedules and
the search target. Times are integers in the source's minute unit (the constant `분`,
whose value is defined in `constants.ts`, which is not part of this model), counted from the
start of the first slot.

## Model

| member | source | states |
|---|---|---|
| `TimeSlots.Times` | src/basic/ScheduleTable.tsx:22-32 | exactly 24 rows; rows 0-17 last 30, rows 18-23 last 50; the first starts at 0 |
| `TimeSlots.SlotStart` | src/basic/ScheduleTable.tsx:23-30 | row k starts at 30k for k < 18 and at 540 + 55(k-18) after |
| `TimeSlots.FirstGroupContiguous` | src/basic/ScheduleTable.tsx:25-26 | each half-hour row ends exactly where the next one begins |
| `TimeSlots.GroupsMeet` | src/basic/ScheduleTable.tsx:26-29 | row 18 starts exactly at row 17's end, 540 |
| `TimeSlots.SecondGroupGaps` | src/basic/ScheduleTable.tsx:29-31 | consecutive evening rows are 5 apart (stride 55, length 50) |
| `TimeSlots.SlotsOrdered` | src/basic/ScheduleTable.tsx:22-32 | for any two rows i < j, row i ends no later than row j starts: starts strictly increase and no intervals overlap |
| `TimeSlots.TimesSpan` | src/basic/ScheduleTable.tsx:28-31 | the grid runs from 0 to 865 |
| `Seqs.IndexOf` | src/basic/ScheduleTable.tsx:42 | `indexOf`: -1 exactly when absent, otherwise a position holding the value with no earlier occurrence |
| `Seqs.IndexOfFirst` | src/basic/ScheduleTable.tsx:42 | the position with no earlier occurrence is the one `indexOf` returns |
| `Seqs.IndexOfNoDups` | src/basic/ScheduleTable.tsx:42 | in a duplicate-free list every element is found at its own position |
| `Seqs.IndexOfPrefix` | src/basic/ScheduleTable.tsx:42 | an element of a prefix is found where the prefix finds it |
| `Seqs.IndexOfAppend` | src/basic/ScheduleTable.tsx:42 | appending does not move an element already present |
| `Seqs.Dedup` | src/basic/ScheduleTable.tsx:40 | `[...new Set(ids)]` has no duplicates and exactly the elements of `ids` |
| `Seqs.DedupAppend` | src/basic/ScheduleTable.tsx:40 | inserting a seen id changes nothing; a new id goes to the end |
| `Seqs.DedupPrefix` | src/basic/ScheduleTable.tsx:40 | deduplicating a prefix gives a prefix of the deduplicated list |
| `Seqs.DedupFirstSeenOrder` | src/basic/ScheduleTable.tsx:40 | the distinct ids are listed in the order of their first occurrence |
| `Seqs.DedupRank` | src/basic/ScheduleTable.tsx:40-42 | an id's position among the distinct ids is the number of distinct ids before its first occurrence |
| `Seqs.DedupUnique` | src/basic/ScheduleTable.tsx:40 | any listing with the same elements in first-seen order equals `Dedup`: the three properties define it |
| `Seqs.TakeUntil` | src/basic/ScheduleTable.tsx:49 | `split(":")[0]` is a prefix without `:` that stops at the first `:` or at the end |
| `Seqs.TakeUntilUnique` | src/basic/ScheduleTable.tsx:49 | those three properties determine the result |
| `Seqs.TakeUntilJoin` | src/basic/ScheduleTable.tsx:49 | splitting `a:b` returns `a` when `a` has no `:` |
| `LectureColors.LectureIds` | src/basic/ScheduleTable.tsx:40 | one id per schedule, position for position |
| `LectureColors.DistinctLectures` | src/basic/ScheduleTable.tsx:40 | the distinct lecture ids hold no duplicates and are exactly the ids of the schedules |
| `LectureColors.ColorIndex` | src/basic/ScheduleTable.tsx:40-42 | for an id present in the schedules the colour index lies in [0, 6) |
| `LectureColors.GetColor` | src/basic/ScheduleTable.tsx:38-45 | the colour is one of the six |
| `LectureColors.ColorsDistinct` | src/basic/ScheduleTable.tsx:41 | the six colours are pairwise different |
| `LectureColors.ColorOfRank` | src/basic/ScheduleTable.tsx:40-42 | the i-th distinct lecture (in first-seen order) gets colour index i mod 6 |
| `LectureColors.SameColorIff` | src/basic/ScheduleTable.tsx:40-42 | two present lectures are shown in the same colour if and only if their colour indices are equal |
| `LectureColors.FirstSixDistinct` | src/basic/ScheduleTable.tsx:40-42 | different lectures among the first six distinct get different colours |
| `LectureColors.CyclicReuse` | src/basic/ScheduleTable.tsx:42 | the (6m+i)-th distinct lecture gets the i-th one's colour |
| `LectureColors.ColorCountsEarlierLectures` | src/basic/ScheduleTable.tsx:40-42 | a lecture's colour index is the number of distinct lectures before its first schedule, mod 6: only first-appearance order matters |
| `LectureColors.ColorStableOnAppend` | src/basic/ScheduleTable.tsx:40-42 | appending any schedule never recolours a lecture already present; a repeated lecture changes no colour |
| `LectureColors.BlockColors` | src/basic/ScheduleTable.tsx:131-136 | every rendered block gets one of the six colours, and blocks of the same lecture get the same one |
| `LectureColors.ExampleRepeatedLecture` | src/basic/ScheduleTable.tsx:38-45 | for any schedules whose lectures appear as a, b, a, c, the colour indices are 0, 1 and 2 |
| `LectureColors.ExampleSeventhReusesFirst` | src/basic/ScheduleTable.tsx:42 | seven schedules of seven different lectures: the seventh block has the first one's colour |
| `DragHighlight.Decimal` | src/basic/ScheduleTable.tsx:134 | the printed index is non-empty and all decimal digits, so it holds no `:` |
| `DragHighlight.DecimalInjective` | src/basic/ScheduleTable.tsx:134 | different indices print differently |
| `DragHighlight.DragId` | src/basic/ScheduleTable.tsx:134 | a block's drag id starts with its table id, then `:`, then at least one character, all decimal digits |
| `DragHighlight.DragIdsDistinct` | src/basic/ScheduleTable.tsx:134 | the blocks of one table get pairwise different drag ids |
| `DragHighlight.ActiveTableId` | src/basic/ScheduleTable.tsx:47-52 | no table when the drag id is absent or empty; otherwise the text before the first `:` |
| `DragHighlight.Outlined` | src/basic/ScheduleTable.tsx:79 | never outlined while nothing is dragged; when outlined the table id has no `:` and prefixes the drag id |
| `DragHighlight.ActiveTableOfDragId` | src/basic/ScheduleTable.tsx:47-52 | round trip: for a drag id `tableId:index` built at line 134 with no `:` in `tableId`, the active table is `tableId` and the outline shows |
| `DragHighlight.OutlinedIff` | src/basic/ScheduleTable.tsx:79 | dragging a block of table `owner` outlines table `t` if and only if `t == owner` |
| `DragHighlight.ColonTableNeverOutlined` | src/basic/ScheduleTable.tsx:79 | a table whose id contains `:` is never outlined |
| `ScheduleActions.TimeClick` | src/basic/ScheduleTable.tsx:57-62 | the search target carries the table id of the grid and the clicked day and slot number unchanged |
| `ScheduleActions.CellClick` | src/basic/ScheduleTable.tsx:116-124 | a cell click reports its table and day, and a slot number in 1..24 that names the clicked row |
| `ScheduleActions.CellClickInjective` | src/basic/ScheduleTable.tsx:116-124 | different cells report different search targets |
| `ScheduleActions.Covers` | src/basic/ScheduleTable.tsx:69 | `range.includes(time)`: a missing time and an empty range cover nothing |
| `ScheduleActions.Kept` | src/basic/ScheduleTable.tsx:69 | a schedule is removed if and only if it is on the clicked day and its range holds the time; schedules of other days and any delete without a time are kept |
| `ScheduleActions.KeepOthers` | src/basic/ScheduleTable.tsx:68-70 | the filter returns a subsequence of the list in which every schedule is on another day or does not cover the time |
| `ScheduleActions.KeepOthersCounts` | src/basic/ScheduleTable.tsx:68-70 | every passing schedule is kept as often as it occurs, every other one removed |
| `ScheduleActions.KeepOthersUnfold` | src/basic/ScheduleTable.tsx:68-70 | the filter decides each schedule on its own, front to back |
| `ScheduleActions.KeepOthersConcat` | src/basic/ScheduleTable.tsx:68-70 | filtering distributes over concatenation, so the kept schedules stay in order |
| `ScheduleActions.KeepOthersAllKept` | src/basic/ScheduleTable.tsx:68-70 | a list whose schedules all pass comes back unchanged |
| `ScheduleActions.DeleteSchedules` | src/basic/ScheduleTable.tsx:64-74 | the updater keeps the same table ids, leaves every other table's list unchanged, and filters the target table's list |
| `ScheduleActions.DeleteKeepsExactly` | src/basic/ScheduleTable.tsx:66-71 | after a delete a schedule is in the table if and only if it was there and is on another day or does not cover the time |
| `ScheduleActions.DeleteIdempotent` | src/basic/ScheduleTable.tsx:66-71 | deleting twice is deleting once |
| `ScheduleActions.DeleteWithoutTimeKeepsAll` | src/basic/ScheduleTable.tsx:69 | with an `undefined` time nothing is removed |
| `ScheduleActions.DeleteBlock` | src/basic/ScheduleTable.tsx:137-141 | the block's delete button passes its day and first slot (`None` for an empty range); the map keeps its table ids, other tables are unchanged, and the table's list only loses schedules (a subsequence); what it removes is stated by the next two rows |
| `ScheduleActions.DeleteBlockRemovesClicked` | src/basic/ScheduleTable.tsx:137-141 | a block with a non-empty range deletes its own schedule and exactly the same-day schedules covering its first slot |
| `ScheduleActions.DeleteEmptyBlockKeepsAll` | src/basic/ScheduleTable.tsx:137-141 | a block with an empty range passes `undefined` and deletes nothing |

## Left out

- Rendering: the JSX, the Chakra `Grid`/`GridItem`/`Box` layout, the row shading for rows after 17 and the header cells are UI and not modelled; the six colours are kept only as opaque strings.
- The formatted slot labels: `parseHnM` and `fill2` come from `utils.ts` and `분` from `constants.ts`, which are not part of this model; `TimeSlots.Times` gives each label's start and end as numbers instead.
- `DAY_LABELS` (from `constants.ts`) is not part of this model, so the set of day columns is a free parameter of `ScheduleActions.CellClick`.
- `Lecture` is reduced to `id` and `title` (the fields the component reads); `types.ts` is not part of this model.
- `DraggableSchedule`, `useDndActive` and `useScheduleContext` are a drag-and-drop library and a React context: the active drag id and the schedules map are parameters. The drag id is taken to be a string or absent; a numeric drag id (which the library allows) is not modelled.
- `memo`, `useCallback` and the React state setters are not modelled; each setter's argument is modelled as the value or the pure map-to-map updater it receives.
- LectureColors.GetColor: requires the id to occur in the schedules, so the `-1 % 6` lookup of an absent id (which yields `undefined`) is not modelled; the only caller passes a block's own lecture id.
- ScheduleActions.DeleteSchedules: requires the table id to be in the map; on a missing id the source's `prev[tableId].filter` throws, which is not modelled.
- Where a schedule's `range` is empty, `schedule.range[0]` is `undefined`; the model passes `None` for it, and `range.includes(undefined)` is false because ranges hold numbers.
- The invariant that a schedule's slot numbers are contiguous is not enforced by the component and is not assumed.
