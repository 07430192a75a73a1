# Minesweeper game logic in Dafny

A model of the game logic in the `Minesweeper` class of the Android Minesweeper
app. The model covers:

- sizing a board for a level;
- laying the mines on the first click, away from the clicked cell;
- the recursive reveal `expand`;
- the click listener, which reveals a cell, loses on a mine and wins when
  `countDown` reaches 0;
- the long-click listener, which toggles a flag;
- `gameOver`, which uncovers the mines after a loss;
- the face each cell shows.

The board is flattened: cell `p` is row `p / column`, column `p % column`, the
way the listeners and `getMapValue` address it. The source's `map` is the
field `field`. It holds `-k` for the k-th mine laid, and for any other cell
the number of mines among its in-bounds neighbours.

Modules:

- `Wrappers` defines `Option` and `Result`.
- `Grid` holds the geometry and the eight directions of `expand`, in the
  source's order.
- `Minefield` is `createMap`. The draws of `Math.random` are an explicit
  sequence of positions.
- `Minesweeper` holds the state, the constructor and `open`.
- `Expansion` is `expand` as written. The literal recursion with a stack-depth
  budget is `ExpandSteps`, and lemmas tie it to `Expand`.
- `Play` holds the listeners and `gameOver`.
- `Invariant` holds the invariant a game keeps between events.
- `Display` holds the cell faces.
- `Findings` holds three defects of `expand` and the corrected `expand`.

`expand` guards its recursion with `isOpen` only. `open` returns early on a
flagged cell without opening it, but `countDown--` and the recursion still run
after it. The model keeps this:

- A flagged cell next to a revealed empty cell costs one `countDown` each time
  the recursion reaches it, and it is never opened. A flagged empty cell
  between two revealed empty cells is reached twice. This can take
  `countDown` below 0, and then the game can never be won.
- Two touching flagged empty cells make the recursion call itself forever.
  `Expand` reports this as `Failure(EndlessRecursion)`, exactly at the first
  visit of a hidden flagged empty cell that has a hidden flagged empty
  neighbour. `ExpandIsLiteral` proves that this is precisely when no stack
  depth suffices for the literal recursion.

The click listener `Play.Click` uses this as-written `expand`. Its invariant
(`Invariant.ClickInv`) is therefore proved under `FlagsClear`, which says no
flag touches a hidden unflagged empty cell. `Findings` shows these defects on
concrete boards. It also proves that the guarded `expand` keeps the invariant
with any flags.

## Model

All sources are in `app/src/main/java/com/emmett/minesweeper/Minesweeper.java`.

| member | source | states |
|---|---|---|
| Grid.NeighbourAdjacent | app/src/main/java/com/emmett/minesweeper/Minesweeper.java:234-262 | a direction that passes the `checkUp`/`checkRight`/`checkDown`/`checkLeft` tests leads to a cell on the board that is adjacent to the current one |
| Grid.AdjacentDirection | app/src/main/java/com/emmett/minesweeper/Minesweeper.java:234-262 | conversely, every adjacent cell on the board is the neighbour in one of the eight directions `expand` tries |
| Grid.AroundAtMostEight | app/src/main/java/com/emmett/minesweeper/Minesweeper.java:160-170 | a cell has at most eight neighbours on the board |
| Minefield.AddMine | app/src/main/java/com/emmett/minesweeper/Minesweeper.java:156-170 | one pass of the placement loop that hits a cell not yet a mine: that cell gets the label -count-1, every other mine keeps its label, and a safe cell gains one exactly when it touches the hit cell; `AddMineLabels` and `AddMineCounts` show the mines grow by that one cell and every number still counts its adjacent mines |
| Minefield.AddMineLabels | app/src/main/java/com/emmett/minesweeper/Minesweeper.java:156-158 | placing a mine on a cell that is not one adds exactly that cell to the mines, and the labels stay pairwise distinct and cover exactly -(count+1) .. -1 |
| Minefield.AddMineCounts | app/src/main/java/com/emmett/minesweeper/Minesweeper.java:160-170 | bumping the non-mine neighbours of the new mine keeps every number equal to the count of mines around it |
| Minefield.AddMinePlaced | app/src/main/java/com/emmett/minesweeper/Minesweeper.java:150-171 | one placement step away from the clicked cell moves the loop invariant from `count` to `count + 1` mines |
| Minefield.PlaceMines | app/src/main/java/com/emmett/minesweeper/Minesweeper.java:148-172 | when the draws suffice, the loop ends with exactly `mineNumber` distinctly labelled mines, consistent counts and the clicked cell safe |
| Minefield.PlaceMinesFromDraws | app/src/main/java/com/emmett/minesweeper/Minesweeper.java:148-170 | every mine the loop adds is a cell drawn by `Math.random` other than the first-clicked one, so the mines afterwards are the earlier mines plus some of the draws |
| Minefield.CreateMap | app/src/main/java/com/emmett/minesweeper/Minesweeper.java:146-173 | a created map has one entry per cell, exactly `mineNumber` mines labelled -1 .. -mineNumber, each label on one mine, every other cell holding its neighbour-mine count, and the first-clicked cell is not a mine; every mine is one of the drawn cells |
| Minefield.PlaceMinesProgress | app/src/main/java/com/emmett/minesweeper/Minesweeper.java:148-172 | the placement loop returns a map whenever the remaining draws hold enough distinct cells that are neither the clicked cell nor a mine |
| Minefield.CreateMapProgress | app/src/main/java/com/emmett/minesweeper/Minesweeper.java:146-173 | `createMap` returns a map whenever the draws hold `mineNumber` distinct cells other than the clicked one |
| Minefield.CountsAtMostEight | app/src/main/java/com/emmett/minesweeper/Minesweeper.java:160-170 | on a consistent map every number lies in 0 .. 8 |
| Minefield.ZeroHasNoMineAround | app/src/main/java/com/emmett/minesweeper/Minesweeper.java:160-170 | on a consistent map a cell holding 0 has no mine among its neighbours |
| Minesweeper.MineNumber | app/src/main/java/com/emmett/minesweeper/Minesweeper.java:54 | the mine count is the largest integer not above size × 15.625 / 100, or size × 20.625 / 100 on Hard, which is what the cast to `int` of a non-negative product keeps; `New` pins it to 10, 40 and 99 for the three levels |
| Minesweeper.New | app/src/main/java/com/emmett/minesweeper/Minesweeper.java:36-62 | Easy is 8x8 with 10 mines, Normal 16x16 with 40, Hard 16x30 with 99; `countDown` starts at the number of safe cells; nothing is open, flagged, created or lost |
| Minesweeper.Open | app/src/main/java/com/emmett/minesweeper/Minesweeper.java:179-186 | a flagged cell is left as it was, any other cell ends up open, and no other cell or field changes |
| Expansion.Expand | app/src/main/java/com/emmett/minesweeper/Minesweeper.java:221-263 | `expand` changes only `isOpen` and `countDown`; it closes no cell and opens no flagged cell; an open cell is a no-op; a returning call leaves an unflagged start cell open |
| Expansion.ExpandFrom | app/src/main/java/com/emmett/minesweeper/Minesweeper.java:234-262 | the eight recursive calls from a cell holding 0 have the same frame as `expand` |
| Expansion.ExpandCountBound | app/src/main/java/com/emmett/minesweeper/Minesweeper.java:225-263 | `countDown` drops by at least the number of cells `expand` opens: once per visit, and a flagged cell can be visited more than once |
| Expansion.ExpandFault | app/src/main/java/com/emmett/minesweeper/Minesweeper.java:225-263 | the only way `expand` fails to return is the endless recursion |
| Expansion.OpenStep | app/src/main/java/com/emmett/minesweeper/Minesweeper.java:229-230 | `open` followed by `countDown--` removes the cell from the hidden ones unless it is flagged, in which case nothing is opened |
| Expansion.ExpandSurrounds | app/src/main/java/com/emmett/minesweeper/Minesweeper.java:225-263 | when `expand` returns, every cell holding 0 that it opened has all its neighbours open or flagged |
| Expansion.ExpandFromVisits | app/src/main/java/com/emmett/minesweeper/Minesweeper.java:234-262 | every in-bounds direction from k on is visited: its neighbour ends up open or flagged |
| Expansion.ExpandExact | app/src/main/java/com/emmett/minesweeper/Minesweeper.java:225-263 | with no flag beside a hidden empty cell, `expand` from an unflagged cell returns, and `countDown` drops by exactly the number of cells opened |
| Expansion.ExpandReach | app/src/main/java/com/emmett/minesweeper/Minesweeper.java:231-262 | the recursion leaves only cells holding 0: every cell opened besides the start touches a cell holding 0 that the call opened, or one that is hidden and flagged |
| Expansion.ExpandSafe | app/src/main/java/com/emmett/minesweeper/Minesweeper.java:225-263 | on a consistent map, `expand` from a cell that is not a mine never opens a mine |
| Expansion.ExpandSteps | app/src/main/java/com/emmett/minesweeper/Minesweeper.java:225-263 | the literal recursion within a stack-depth budget changes only `isOpen` and `countDown` and opens no flagged cell |
| Expansion.StepsSound | app/src/main/java/com/emmett/minesweeper/Minesweeper.java:225-263 | whatever the literal recursion returns within some depth is what `Expand` returns |
| Expansion.StepsFromStuck | app/src/main/java/com/emmett/minesweeper/Minesweeper.java:234-262 | from a hidden flagged empty cell with a hidden flagged empty neighbour still to visit, the literal recursion never returns at any depth |
| Expansion.StepsComplete | app/src/main/java/com/emmett/minesweeper/Minesweeper.java:225-263 | with three frames per hidden cell the literal recursion returns exactly what `Expand` returns |
| Expansion.ExpandIsLiteral | app/src/main/java/com/emmett/minesweeper/Minesweeper.java:221-263 | `Expand` fails if and only if the literal recursion exceeds every stack depth, and otherwise equals it at a stated depth |
| Play.EnsureMap | app/src/main/java/com/emmett/minesweeper/Minesweeper.java:92-95 | the map is created only while none exists, around the clicked cell, with the mines and counts of `CreateMap`; nothing else changes |
| Play.Reveal | app/src/main/java/com/emmett/minesweeper/Minesweeper.java:96-124 | a finished game, an open cell or a flagged cell makes the click a no-op; a mine ends the game with that boom position and `countDown` untouched; otherwise the cell is opened and the game is over exactly when `countDown` is 0 |
| Play.EnsureMapProgress | app/src/main/java/com/emmett/minesweeper/Minesweeper.java:92-95 | the first click creates the map whenever the draws hold `mineNumber` distinct cells other than the clicked one |
| Play.Click | app/src/main/java/com/emmett/minesweeper/Minesweeper.java:92-124 | after a click that completes, the map exists |
| Play.LongClick | app/src/main/java/com/emmett/minesweeper/Minesweeper.java:132-139 | only `isFlag[position]` can change, and it flips exactly when the game runs and the cell is hidden |
| Play.LongClickTwice | app/src/main/java/com/emmett/minesweeper/Minesweeper.java:132-139 | toggling a flag twice restores the state |
| Play.GameOver | app/src/main/java/com/emmett/minesweeper/Minesweeper.java:202-219 | the game is over and a cell is open afterwards exactly when it was open, is the exploded one, or is an unflagged mine; flags, map and `countDown` are unchanged |
| Play.LossSweep | app/src/main/java/com/emmett/minesweeper/Minesweeper.java:205-218 | the loop from index i opens exactly the unflagged mines at or after i other than the exploded one |
| Play.ClickKeepsFlag | app/src/main/java/com/emmett/minesweeper/Minesweeper.java:92-124 | a hidden flagged cell stays hidden and flagged through a click |
| Invariant.NewInv | app/src/main/java/com/emmett/minesweeper/Minesweeper.java:36-62 | a new game of any level satisfies the invariant |
| Invariant.LongClickInv | app/src/main/java/com/emmett/minesweeper/Minesweeper.java:132-139 | a long click keeps the invariant |
| Invariant.EnsureMapInv | app/src/main/java/com/emmett/minesweeper/Minesweeper.java:92-95 | creating the map keeps the invariant: `countDown` already equals the number of safe cells |
| Invariant.GameOverInv | app/src/main/java/com/emmett/minesweeper/Minesweeper.java:99-101 | clicking a mine keeps the invariant: the loss opens mines only |
| Invariant.SafeRevealCount | app/src/main/java/com/emmett/minesweeper/Minesweeper.java:110 | an expansion that opens only safe cells and costs one per cell opened keeps `countDown` equal to the safe cells still hidden |
| Invariant.ExpandInv | app/src/main/java/com/emmett/minesweeper/Minesweeper.java:110-124 | with no flag beside a hidden empty cell, a click on a safe cell completes and keeps the invariant |
| Invariant.CorrectFlagsClear | app/src/main/java/com/emmett/minesweeper/Minesweeper.java:160-170 | once the map exists, if every flag sits on a mine then no flag touches a hidden unflagged cell holding 0, because such a cell counts no adjacent mine; so the restriction under which `ClickInv` holds excludes only games with a wrong flag |
| Invariant.ClickInv | app/src/main/java/com/emmett/minesweeper/Minesweeper.java:92-124 | every click keeps the invariant while no flag touches a hidden empty cell |
| Invariant.WonIffAllSafeOpen | app/src/main/java/com/emmett/minesweeper/Minesweeper.java:112-114 | a game not lost is won exactly when every safe cell is open |
| Invariant.FirstClickSafe | app/src/main/java/com/emmett/minesweeper/Minesweeper.java:92-100 | the first click never hits a mine |
| Invariant.MapCreatedOnce | app/src/main/java/com/emmett/minesweeper/Minesweeper.java:92-95 | once created, the map never changes: a later click only reveals |
| Display.OpenFace | app/src/main/java/com/emmett/minesweeper/Minesweeper.java:188-200 | an open cell holding 0 shows empty, a positive value shows that number, a negative value shows a mine, and these three cases exclude each other |
| Display.CellFace | app/src/main/java/com/emmett/minesweeper/Minesweeper.java:331-345 | a flag (wrong on a safe cell once the game is over) takes precedence, then the exploded mine exactly on the open boom cell, then the open cell's own face; a cell neither open nor flagged shows a ball; `RunningFaces`, `LostFaces` and `WonFaces` state what a running, lost and won game shows |
| Display.RunningFaces | app/src/main/java/com/emmett/minesweeper/Minesweeper.java:331-345 | while the game runs no cell shows a mine, an exploded mine or a wrong flag, and every number lies in 1 .. 8 |
| Display.LostFaces | app/src/main/java/com/emmett/minesweeper/Minesweeper.java:202-219 | after a loss the exploded mine shows once, every other unflagged mine shows as a mine, a flag on a safe cell shows as wrong, and other safe cells look as before |
| Display.WonFaces | app/src/main/java/com/emmett/minesweeper/Minesweeper.java:331-345 | after a win every safe cell shows its number or as empty, and every mine shows a ball or a flag |
| Findings.PrematureExpand | app/src/main/java/com/emmett/minesweeper/Minesweeper.java:225-233 | on that board `expand` opens the empty cell, leaves the flagged 1 closed, and takes `countDown` from 2 to 0 |
| Findings.PrematureWin | app/src/main/java/com/emmett/minesweeper/Minesweeper.java:225-233 | on a board that satisfies the invariant (`Findings.FlaggedNumberBoardInv`), a click declares a win while a flagged safe cell is still hidden, breaking the invariant |
| Findings.EndlessClick | app/src/main/java/com/emmett/minesweeper/Minesweeper.java:225-263 | a click next to two touching flagged empty cells never returns, at any stack depth |
| Findings.TwiceVisitedSecondVisit | app/src/main/java/com/emmett/minesweeper/Minesweeper.java:226-233 | a visit to a hidden flagged cell holding 0 whose neighbours are all open leaves every cell as it was and still costs one `countDown` |
| Findings.TwiceVisitedInv | app/src/main/java/com/emmett/minesweeper/Minesweeper.java:36-62 | the one-row board 0, 0, 0, 1, mine, with one flag on the second cell, is a legal position |
| Findings.TwiceVisitedInvIff | app/src/main/java/com/emmett/minesweeper/Minesweeper.java:36-62 | that board is a legal position exactly when `countDown` is 4, the number of its safe cells |
| Findings.TwiceVisitedExpand | app/src/main/java/com/emmett/minesweeper/Minesweeper.java:225-263 | on that board `expand` from the first cell visits the flagged cell twice: it opens three cells, leaves the flag closed, and takes `countDown` down by five |
| Findings.CountDownBelowZero | app/src/main/java/com/emmett/minesweeper/Minesweeper.java:96-124 | when the board with its one flag is legal, the click on its first cell leaves `countDown` at -1 while a safe cell is still hidden, which breaks the invariant |
| Findings.NegativeCountNeverWins | app/src/main/java/com/emmett/minesweeper/Minesweeper.java:110-114 | once `countDown` is below 0, no later click wins: it stays below 0, and a finished game was lost at the clicked cell |
| Findings.ExpandGuarded | app/src/main/java/com/emmett/minesweeper/Minesweeper.java:225-263 | with flagged cells skipped, `expand` always returns, changes only `isOpen` and `countDown`, opens no flagged cell, and leaves an unflagged start cell open |
| Findings.ExpandGuardedFrom | app/src/main/java/com/emmett/minesweeper/Minesweeper.java:234-262 | the eight guarded calls from an open empty cell have the same frame |
| Findings.GuardedExact | app/src/main/java/com/emmett/minesweeper/Minesweeper.java:225-263 | the guarded `expand` costs exactly one `countDown` per cell it opens, whatever the flags |
| Findings.GuardedSafe | app/src/main/java/com/emmett/minesweeper/Minesweeper.java:225-263 | on a consistent map the guarded `expand` from a safe cell opens only safe cells |
| Findings.GuardedAgrees | app/src/main/java/com/emmett/minesweeper/Minesweeper.java:225-263 | with no flag beside a hidden empty cell, the as-written `expand` returns what the guarded one returns |
| Findings.RevealGuarded | app/src/main/java/com/emmett/minesweeper/Minesweeper.java:96-124 | the click with the guarded `expand` has the no-op cases of the source and, on a safe cell, opens it and ends the game exactly when `countDown` is 0 |
| Findings.RevealGuardedInv | app/src/main/java/com/emmett/minesweeper/Minesweeper.java:96-124 | with the guarded `expand`, every click on a created map keeps the invariant, whatever the flags |
| Findings.GuardedFlagBlocksWin | app/src/main/java/com/emmett/minesweeper/Minesweeper.java:110-114 | with the guarded `expand`, a click on a safe cell never wins while a flag sits on a safe cell |

## Left out

- Views, dialogs, drawables, button texts, icon sizing (`init`) and the
  adapter's view plumbing are left out. Only the faces are modelled, as
  `Display.Face`.
- `Math.random` is replaced by an explicit sequence of drawn positions.
  When the sequence runs out before every mine is laid, `EnsureMap` reports
  `OutOfDraws`, whereas the source keeps drawing.
- The `Parcelable` save and restore (`writeToParcel`, the `Parcel`
  constructor, `CREATOR`) is left out, and so is `MainActivity`.
- The floating-point densities 15.625/100 and 20.625/100 are the exact
  fractions 5/32 and 33/160. For the three board sizes the double products
  are exact, so truncation gives the same counts.
- The assignments to `mineNumber` inside the `switch` are dead: the line after
  the `switch` overwrites them. They are not modelled.
- Before the first click the source's `map` is null. Here it is an all-zero
  field that nothing reads before `EnsureMap` replaces it.
- Positions come from the grid view, so every operation requires
  `position < size`. Java `int` overflow cannot occur at these sizes and is not
  modelled.
- Invariant.ClickInv: requires that no flag touches a hidden unflagged empty
  cell once the map exists. `Invariant.CorrectFlagsClear` shows that this
  leaves out only games with a flag on a safe cell: flags that all sit on
  mines always meet it. The source's `expand` breaks the invariant
  otherwise; see Findings.
- Invariant.ExpandInv: same restriction as `ClickInv`, for the same reason; it too
  excludes only games with a wrong flag.
- Expansion.ExpandExact: exactness is stated only under the same restriction.
  In general `Expand` promises only the lower bound of
  `Expansion.ExpandCountBound`.
- Display.LostFaces: the painting of the other cells during `gameOver` is not
  compared face by face. The lemma states the faces the restored adapter shows.

## Findings

| source | as written | input that shows it | evidently intended | confidence | as-written member | corrected member |
|---|---|---|---|---|---|---|
| app/src/main/java/com/emmett/minesweeper/Minesweeper.java:225-233 | `expand` stops only at open cells. On a flagged cell `open` returns without opening it, yet `countDown--` still runs | one row holding an empty cell, a 1, and a mine; the 1 is flagged. Clicking the empty cell drops `countDown` to 0 and declares a win while the flagged safe cell is still hidden. No level builds so small a board. On an Easy board the flagged cell is charged once per visit in the same way, but how often it is visited, the totals and the outcome depend on the rest of the board. | `expand` skips flagged cells as it skips open ones, so `countDown` counts exactly the safe cells still hidden | not executed | Findings.PrematureWin | Findings.RevealGuardedInv |
| app/src/main/java/com/emmett/minesweeper/Minesweeper.java:225-263 | the recursion continues from a visited flagged cell holding 0, which stays closed | one row holding 0, 0, 0, 1 and a mine; positions 1 and 2 are flagged. Clicking position 0 makes positions 1 and 2 call each other until the stack overflows. No level builds so small a board; `expand` and the click read only `row` and `column`, so the same cells in a corner of an Easy board, its other mines far away, behave the same. | the same guard ends the recursion at flagged cells, so every click returns | not executed | Findings.EndlessClick | Findings.ExpandGuarded |
| app/src/main/java/com/emmett/minesweeper/Minesweeper.java:225-263 | `countDown--` runs on every visit to a flagged cell, and a flagged cell holding 0 can be visited once from each neighbouring empty cell | one row holding 0, 0, 0, 1 and a mine; position 1 is flagged. Clicking position 0 visits position 1 from positions 0 and 2, so `countDown` goes from 4 to -1 and the game can never be won. No level builds so small a board. On an Easy board the flagged cell is charged once per visit in the same way, but how often it is visited, the totals and the outcome depend on the rest of the board. | `countDown` drops once per cell opened, so it always equals the number of safe cells still hidden | not executed | Findings.CountDownBelowZero | Findings.GuardedExact |
