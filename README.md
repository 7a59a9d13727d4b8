# Díaz Kanban: the board, its statistics and the hands-free "magic mode"

A Dafny model of the core of a single-page kanban board. The board holds a
list of tasks. Each task has an id, title, description, priority, progress,
column and creation time. The columns are pending, in progress and done, and
are shown in that order.

The modelled core has three parts:

- **Board** (`board.dfy`). These are the list transformations the
  application performs:
  - dropping a task on a column, with its progress rule: done sets 100, in
    progress sets 50, pending keeps the value;
  - saving a draft, which merges into an existing task or appends a new one
    with defaults;
  - deleting a task;
  - the per-column filters the columns render.
- **Stats** (`stats.dfy`). These are the header figures: task count, tasks in
  progress, tasks completed, and the mean progress rounded half-up to the
  nearest integer.
- **MagicMode** (`magic.dfy`). This is the camera-driven interaction of the
  magic-mode overlay. Each hand-tracking result runs one synchronous pass:
  - The pass classifies the hand as a pointer, a fist or an open hand, from
    how far three fingertips are from the wrist.
  - It moves the smoothed cursor 40 % of the way to the raw cursor.
  - In pointer pose it runs a dwell-click detector. The dwell is armed when
    the cursor moves more than 35 px from the last anchor: that pass
    re-anchors there and records the time. Once armed, keeping the cursor
    within 35 px of the anchor for 500 ms clicks the element under it,
    focuses the element as well if it is a text field, and restarts the
    timer. If no start time is recorded, a cursor that stays within 35 px
    never arms the dwell. An element without a `click` method, such as an
    SVG icon inside a button, makes the pass throw at the click: the target
    is shown, but nothing is clicked and the timer is not restarted.
  - In any other pose it runs a grab controller:
    - an open hand drops a grabbed task on the hovered column and highlights
      the nearest card within 300 px;
    - a fist grabs the highlighted card;
    - every non-pointer pass records the column under the cursor.

  The pass is defined as a pure function `Step` on a `Session` value. The
  class `InteractionSession` holds the same state in mutable fields. Its
  `Tick` method updates them in place with the source's loops
  (`FindNearest`, `FindColumn`), and it is proved to compute exactly `Step`.
  Lemmas about `Step` and about runs of passes (`Run`) state what the
  overlay promises. Two examples: two clicks are at least the dwell
  duration apart, and each drop is preceded by a fist.

`option.dfy` holds `Option` and `IsSet`. `IsSet` stands for JavaScript
truthiness of an optional string: present and non-empty. `arith.dfy` holds
five small lemmas about multiplying and scaling exact reals, which the proofs use.

The intended behaviour of the interaction differs from the code in a few
places. The model follows the code each time:

- Intended: the smoother is seeded with the first observed cursor.
  Code: it starts at (0, 0), so the first passes glide in from the corner.
- Intended: losing the hand resets all per-pose state, so a grab held
  across a tracking gap is discarded without committing a move.
  Code: a frame with no hand clears the highlight, the dwell target and the
  pointer flag, but keeps the grabbed task and the hovered column
  (`MagicMode.NoHandKeepsGrab`). A later open hand can still drop the task.
- Intended: entering pointer pose with no anchor anchors the dwell there
  and starts its timer.
  Code: it starts only when the cursor moves more than 35 px from the anchor.
  The anchor is (0, 0) at first, and it is kept after the dwell is cleared.
  So pointing within 35 px of the anchor with no recorded start never clicks
  (`MagicMode.UnarmedDwellStaysIdle`).
- Intended: the grab ends the moment the pose stops being a fist, and that
  commits the move to the hovered column.
  Code: only an open hand commits it. Switching from a fist straight to the
  pointer pose clears the grab without moving the task
  (`MagicMode.PointerDiscardsGrab`).
- A recorded dwell start of 0 counts as "no start", because the elapsed
  time is computed with `dwellStart || now`, which treats 0 as false.

Two board behaviours follow from the code and are easy to miss:

- Dropping a task on the column it is already in is not a no-op. The
  progress rule still applies, so a done task at 70 % goes to
  100 % (`Board.MoveToOwnColumn`).
- Saving a draft whose id matches no task changes nothing; the draft is
  not appended (`Board.SaveUnknownIdIsNoOp`).

## Model

| member | source | states |
|---|---|---|
| Board.ColumnOrderListsEveryColumnOnce | constants.tsx:15-19 | the board shows the three columns, each exactly once |
| Board.MoveTask | App.tsx:84-93 | a move keeps the number of tasks |
| Board.MoveTaskAt | App.tsx:84-93 | after a move, position i holds the moved form of the task that was at position i |
| Board.MoveTaskSpec | App.tsx:84-93 | only tasks with the dropped id change; they take the new column and get progress 100 on done, 50 on in progress, unchanged on pending, and keep every other field; the length and order of the list are kept |
| Board.MoveTaskIdempotent | App.tsx:84-93 | dropping the same task on the same column twice equals dropping it once |
| Board.MoveMissingIdIsNoOp | App.tsx:84-93 | dropping an id that no task has leaves the list unchanged |
| Board.MoveToOwnColumn | App.tsx:85-90 | dropping a task on its own column leaves it unchanged iff its progress already matches that column's rule |
| Board.MagicDrop | App.tsx:78-95 | a drop starts the celebration iff the column is done (or it was already showing), marks the task as recently moved, and replaces the list by the move of that task to that column, which MoveTaskSpec characterises |
| Board.CelebratesIffDone | App.tsx:79-82 | starting without the celebration, a drop shows it iff the target column is done |
| Board.UpdateTasks | App.tsx:62 | an update keeps the number of tasks |
| Board.UpdateTasksAt | App.tsx:62 | after an update, position i holds the update of the task that was at position i |
| Board.SaveExistingSpec | App.tsx:61-62 | saving a draft with an id keeps length and order; tasks with that id take each field the draft carries and keep the others; all other tasks are unchanged |
| Board.SaveUnknownIdIsNoOp | App.tsx:61-62 | a draft whose id no task has is dropped, not appended |
| Board.SaveNewSpec | App.tsx:63-73 | saving a draft without an id appends exactly one task after the old list; it gets the fresh id and the time, the draft's fields or the defaults ('' title, '' description, medium, pending), and progress 100/50/0 from its column |
| Board.DeleteTask | App.tsx:169 | a task survives a delete iff it was in the list and its id differs; the list never grows |
| Board.DeleteKeepsOrder | App.tsx:169 | deleting from a concatenation equals deleting from each part, so the survivors keep their order |
| Board.DeleteMissingIdIsNoOp | App.tsx:169 | deleting an id that no task has leaves the list unchanged |
| Board.ColumnTasks | App.tsx:163 | a column never lists more tasks than the board holds |
| Board.ColumnTasksMembers | App.tsx:163 | a column renders exactly the tasks of the list that sit in that column |
| Board.ColumnTasksConcat | App.tsx:163 | filtering a concatenation equals concatenating the filtered parts, so a column keeps the list's order and every occurrence of each of its tasks |
| Board.ColumnTasksSingle | App.tsx:163 | a one-task list renders that task under its own column and nothing under the others |
| Board.ColumnIndicesSnoc | App.tsx:150 | appending a task adds its position to its own column's positions and to no other |
| Board.ColumnTasksCount | App.tsx:150 | a column's count is the number of positions of the list whose task sits in that column |
| Board.ColumnsPartition | App.tsx:133-150 | the counts of the columns, taken in render order, add up to the number of tasks, and each task appears under its own column and under no other |
| Board.MovedTaskShowsInColumn | App.tsx:163 | after a drop on a column, every task with the dropped id is rendered under that column |
| Stats.Round | components/StatsBar.tsx:19 | rounding returns the integer within half a unit, halves going up |
| Stats.StatsOf | components/StatsBar.tsx:14-20 | the total is the list's length, and in progress plus completed never exceeds it |
| Stats.StatsCountColumns | components/StatsBar.tsx:14-16 | in progress and completed are the numbers of positions of the list whose task is in progress or done, and the rest of the total is the number of pending positions |
| Stats.GlobalProgressFormula | components/StatsBar.tsx:18-20 | on a non-empty board the rounded mean progress equals the integer (2·sum + n) div (2·n) |
| Stats.GlobalProgressOfEmpty | components/StatsBar.tsx:18-20 | an empty board shows 0 % |
| Stats.ProgressSumBounds | components/StatsBar.tsx:19 | if every progress lies in [lo, hi], the sum lies in [lo·n, hi·n] |
| Stats.GlobalProgressInRange | components/StatsBar.tsx:18-20 | if every progress lies in [0, 100], so does the shown percentage |
| Stats.GlobalProgressUniform | components/StatsBar.tsx:18-20 | if every task has the same progress p, the shown percentage is p |
| MagicMode.Classify | components/MagicModeOverlay.tsx:60-73 | the pose is pointer iff the index is extended past 0.18 and middle and ring are within 0.20; it is fist iff all three are within 0.15; otherwise it is open |
| MagicMode.PointerIsNeverFist | components/MagicModeOverlay.tsx:72-73 | no hand passes both the pointer test and the fist test |
| MagicMode.ShapesMatchDistances | components/MagicModeOverlay.tsx:65-73 | on non-negative lengths, the squared tests agree exactly with the square-root tests |
| MagicMode.RawCursorInViewport | components/MagicModeOverlay.tsx:77-78 | a tracked landmark inside the normalised [0, 1] frame puts the mirrored, scaled raw cursor inside the viewport |
| MagicMode.Smooth | components/MagicModeOverlay.tsx:81-82 | one smoothing step leaves 60 % of the gap to the raw cursor on each axis |
| MagicMode.SmoothRepeatedGap | components/MagicModeOverlay.tsx:81-82 | after n passes at a fixed raw cursor, the gap is the initial gap times 0.6^n |
| MagicMode.GapAfter | components/MagicModeOverlay.tsx:81-82 | the absolute gap after n passes is the absolute initial gap times 0.6^n |
| MagicMode.SmootherConverges | components/MagicModeOverlay.tsx:80-85 | for any eps > 0 there is a pass count after which the iterated smoother stays within eps of a fixed raw cursor on both axes |
| MagicMode.RunSmooths | components/MagicModeOverlay.tsx:75-85 | while every pass sees a usable hand with the same raw cursor, in any poses, the cursor of the run is the iterated smoother applied once per pass |
| MagicMode.RunCursorSettles | components/MagicModeOverlay.tsx:75-85 | while the hand holds still, for any eps > 0 there is a pass count after which the smoothed cursor of every longer run prefix is within eps of the raw cursor on both axes |
| MagicMode.NearestIndex | components/MagicModeOverlay.tsx:142-156 | the selected card, if any, is one of the cards scanned |
| MagicMode.NearestIndexSpec | components/MagicModeOverlay.tsx:142-157 | no card is highlighted iff no card lies strictly within 300 px; otherwise the highlighted card lies strictly within 300 px, every earlier card is strictly farther and no later card is closer; among equally near cards, the first one wins |
| MagicMode.HoveredIndex | components/MagicModeOverlay.tsx:167-174 | the selected column, if any, is one of the columns scanned |
| MagicMode.HoveredIndexSpec | components/MagicModeOverlay.tsx:167-175 | no column is hovered iff no column's extent covers x; otherwise the last covering column in document order wins |
| MagicMode.StepKeepsConsistent | components/MagicModeOverlay.tsx:160-165 | a pass never grabs an empty id |
| MagicMode.HandPassSmoothsCursor | components/MagicModeOverlay.tsx:75-85 | every usable hand pass moves the cursor 40 % of the way to landmark 8 (pointer) or landmark 9 (other poses), and sets the pointer flag to the pose |
| MagicMode.PointerMoveReanchors | components/MagicModeOverlay.tsx:93-101 | a pointer pass that moved beyond 35 px re-anchors at the cursor and restarts the dwell at now, clears the target and does not click |
| MagicMode.ClickIff | components/MagicModeOverlay.tsx:103-115 | a pass clicks iff it is a pointer pass, the cursor is within 35 px of the anchor, a non-zero start is recorded, 500 ms have passed since it, and an element with a `click` method is under the cursor; the effects then are exactly a click on that element, followed by a focus when it is a text field |
| MagicMode.DueDwellRestarts | components/MagicModeOverlay.tsx:109-128 | when the dwell is due, its timer restarts at now, whether or not something was clicked, unless the element under the cursor has no `click` method, in which case the start is kept |
| MagicMode.DwellOnIconAborts | components/MagicModeOverlay.tsx:105-111 | a due dwell over an element without `click` (an SVG icon) throws at the click: the target of line 107 is set, nothing is clicked, and the start and anchor are kept because line 127 is never reached |
| MagicMode.UnarmedDwellStaysIdle | components/MagicModeOverlay.tsx:103-109 | with no recorded start and the cursor inside the radius, a pointer pass neither clicks nor arms the dwell |
| MagicMode.PointerDiscardsGrab | components/MagicModeOverlay.tsx:88-90 | a pointer pass clears the grab and the highlight without dropping |
| MagicMode.NonPointerClearsDwell | components/MagicModeOverlay.tsx:130-182 | fist, open and no-hand passes clear the dwell start and the target and never click |
| MagicMode.DropIff | components/MagicModeOverlay.tsx:134-140 | a pass drops iff it is an open-hand pass that starts with a grabbed task and a recorded column; the only effect is then dropping that task on that column, and every open-hand pass ends with nothing grabbed |
| MagicMode.OpenHandHighlightsNearest | components/MagicModeOverlay.tsx:142-157 | an open-hand pass highlights the nearest card to the new cursor |
| MagicMode.FistGrabsHighlighted | components/MagicModeOverlay.tsx:160-165 | a fist pass keeps the highlight; with nothing grabbed and a highlight present it grabs the highlighted task, otherwise the grab is unchanged |
| MagicMode.HandPassRecordsColumn | components/MagicModeOverlay.tsx:167-175 | every fist or open pass records the column under the new cursor's x |
| MagicMode.NoHandKeepsGrab | components/MagicModeOverlay.tsx:177-182 | a pass with no hand has no effect, clears the highlight and the pointer flag, and keeps the grab, the column and the cursor |
| MagicMode.ShortFrameIsIgnored | components/MagicModeOverlay.tsx:58-65 | a hand with fewer than 17 landmarks changes nothing and has no effect |
| MagicMode.RunKeepsConsistent | components/MagicModeOverlay.tsx:160-165 | no run of passes ever grabs an empty id |
| MagicMode.StepDwellStart | components/MagicModeOverlay.tsx:98-132 | a pass keeps the dwell start, clears it, or sets it to now |
| MagicMode.DwellStartNotBefore | components/MagicModeOverlay.tsx:98-128 | after a click at some pass, every later dwell start is no earlier than that pass, given a clock that does not run backwards |
| MagicMode.ClicksAtLeastDwellApart | components/MagicModeOverlay.tsx:103-128 | with a clock that does not run backwards, any two clicks of a run are at least 500 ms apart |
| MagicMode.EmptyBoardNeverGrabs | components/MagicModeOverlay.tsx:142-165 | with no card on screen, starting with nothing highlighted or grabbed, nothing is ever highlighted, grabbed or dropped |
| MagicMode.GrabNeedsFist | components/MagicModeOverlay.tsx:160-165 | a grab held at one pass that was absent at an earlier pass was taken by a fist pass in between |
| MagicMode.DropsSeparatedByFist | components/MagicModeOverlay.tsx:134-165 | between two drops of a run there is a fist pass, whatever the run starts holding |
| MagicMode.DropFollowsFist | components/MagicModeOverlay.tsx:134-165 | in a run that starts with nothing grabbed, every drop comes after a fist pass |
| MagicMode.FindNearest | components/MagicModeOverlay.tsx:142-157 | the highlight loop, with its running minimum, returns the nearest card's id as NearestIndexSpec characterises it |
| MagicMode.FindColumn | components/MagicModeOverlay.tsx:167-175 | the column loop returns the hovered column as HoveredIndexSpec characterises it |
| MagicMode.InteractionSession.constructor | components/MagicModeOverlay.tsx:12-28 | a mounted overlay is live, with every ref and state at zero or null |
| MagicMode.InteractionSession.Teardown | components/MagicModeOverlay.tsx:200-201 | after unmount the session is no longer live |
| MagicMode.InteractionSession.Tick | components/MagicModeOverlay.tsx:54-183 | on a live session, a callback updates the fields in place and emits exactly the new session and effects that Step defines; on a dead session it changes nothing and emits nothing; the session stays consistent |
| MagicMode.InteractionSession.PointerPass | components/MagicModeOverlay.tsx:88-129 | the pointer branch updates the fields in place to exactly the session PointerStep gives at the current cursor, and emits its effects |
| MagicMode.InteractionSession.GrabPass | components/MagicModeOverlay.tsx:130-176 | the fist and open-hand branch updates the fields in place to exactly the session GrabStep gives at the current cursor, and emits its drop |

## Left out

- Camera and MediaPipe set-up, start, stop and close are not modelled. They are I/O; a pass receives a frame, or no hand, as input.
- The DOM is not modelled. `document.elementFromPoint`, `closest`, `getElementById`, `getBoundingClientRect` and `querySelectorAll` become inputs of each pass (`Layout`): the element under the cursor, its interactive ancestor's id, card centres and column extents. Tasks whose card is not rendered are absent from `Layout.cards`.
- `Date.now()` is read once per pass and passed in as `now`. The source may read it several times within one callback.
- The blue ripple after a click, the `handPos` state and all rendering and JSX are presentation only.
- React state scheduling is not modelled. The refs `grabbedTaskIdRef` and `targetColumnRef` are synced from state by effects after a render, but here a pass sees the previous pass's values directly. The functional `setHighlightedTaskId` updater in the fist branch is applied at once. The model thus assumes each callback runs after the previous callback's state has committed.
- The timers that later clear the celebration flag and the recently-moved id are not modelled; they are clock-driven.
- Persistence to `localStorage` and the sync timestamp are I/O and are not modelled.
- `crypto.randomUUID()` and the creation time of a new task are parameters of `SaveTask`. Randomness and the clock are not modelled.
- Board.Merge: a draft field that is present but `undefined` would overwrite the task's field with `undefined` under the spread. The model treats absent and `undefined` alike: the task's field is kept.
- The HTML5 drag-and-drop handler (App.tsx:97-102) only forwards to the drop function, which is modelled as `Board.MagicDrop`. The modal form, task card, assistant chat and the AI service (`services/gemini.ts`) are not part of this model.
- Stats.GlobalProgress: uses exact reals, not IEEE-754 doubles, so `Math.round` on a sum that is not exactly representable is not modelled bit for bit.
- MagicMode.Classify: landmark coordinates are exact reals, and the square roots in the source are replaced by comparisons of squared distances. `MagicMode.ShapesMatchDistances` shows that the two agree.
- MagicMode.Step: an exception thrown by a click listener is reported by the browser and does not reach the pass, so the model lets the pass go on after the click. The one later exception the pass itself raises, `click` called on an SVG element, is modelled (`MagicMode.DwellOnIconAborts`).
