# MindArena puzzle cores in Dafny

This project models the puzzle logic of two MindArena mini-games and proves
properties of the model.

**Block puzzle** (`src/BlockPuzzleGame.jsx`). Players drag pieces from a tray
of three onto a 10x10 board. A row filled entirely with one colour flashes
white and is then compacted away, for 100 points per row. The game ends when
no piece on offer fits anywhere.

The model is in three modules:
- `BlockGrid` holds the board, the pieces and the colour generator as values.
  It has the loop-based queries of the component as methods, each proved
  against a specification function: `canPlaceBlock`, `canPlaceAnyBlock`, the
  row scan, the flash, the compaction and the 3x3 drop search.
- `BlockSession` holds the component's React state as the fields of one
  `Session` object. Every handler is a method that updates those fields.
- The two deferred steps of the row clear (`setTimeout` of 120 ms and 450 ms)
  become explicit timer firings, `FireRowCheck` and `FireCompaction`. They
  work on whatever grid is current when they fire.

**Word search** (`src/utils/generateGrid.js`, `src/components/GameBoard.jsx`).
- `WordGrid` lays the words into a size x size two-dimensional array. Each
  word gets at most 2000 random (row, column, direction) attempts, and the
  remaining blanks are then filled with random capital letters. The array is
  updated in place and its contents are specified by functions on sequences.
- `WordBoard` covers the selection on the board: the straight-line geometry of
  `getLineCells`, reading letters along a path, matching a listed word in
  either direction, and the `start`/`hover`/`activePath` state machine as a
  `Selection` object.

`Common` holds `Option` (JavaScript's `null`), sequence reversal, and the
random oracle. `Math.random()` is an input: a `Roll`, a real in [0, 1). `Pick(roll,
n)` is `Math.floor(roll * n)`.

In four places the code does something a player would not expect. The model
does what the code does:

- **Multi-row compaction.** The captured row list is sorted in descending
  order, and each index is spliced out and an empty row unshifted at the top.
  Each unshift moves the rows above down by one, so after the first removal
  the next index no longer names the completed row. For completed rows i < j
  the code deletes row j and the row originally at i - 1, or the fresh empty
  row when i = 0. The flashing row i stays on the board. With rows 3 and 4
  completed, original row 2 disappears and row 3 survives
  (`BlockGrid.CompactTwoRows`, `BlockGrid.CompactRowsThreeAndFour`). The score
  is still 100 per captured row.
- **Flashing rows.** A flashed row consists entirely of `#ffffff`, so it
  qualifies as completed again if a row check fires before its compaction
  (`BlockGrid.FlashedRowsRequalify`).
- **Timers are not cancelled.** `startGame` and `resetGame` neither cancel
  nor neutralise row checks or compactions already scheduled. A pending
  compaction runs against the new board. The model keeps the pending queues
  across `StartGame` and `ResetGame`.
- **Drag handlers see an old board.** `handleMove` and `handleEnd` are
  memoised callbacks whose dependency lists leave out `grid`, so the
  `canPlaceBlock` they call reads the board of the render that last rebuilt
  them. `handleMove` is rebuilt only when a drag starts; `handleEnd` also
  when the preview changes. `placeBlock` then writes onto the current board
  without checking again. If a compaction moves a filled cell under the
  preview during a drag, the drop paints over that cell. `Session` keeps the
  two captured boards as `moveBoard` and `endBoard`
  (`BlockSession.StalePreviewOverwrites`).

## Model

| member | source | states |
|---|---|---|
| Common.Pick | src/BlockPuzzleGame.jsx:21-23 | `Math.floor(roll * n)` is a valid index below `n` for non-empty collections, and 0 for `n = 0` |
| Common.Scaled | src/BlockPuzzleGame.jsx:21-23 | `roll * n` built up by repeated addition lies in `[0, n)` whenever `n > 0` |
| Common.ScaledIsProduct | src/BlockPuzzleGame.jsx:21-23 | the repeated sum equals the product `roll * n` for every `n` |
| Common.PickIsFloor | src/BlockPuzzleGame.jsx:120 | `Pick(roll, n)` is exactly `Math.floor(roll * n)` |
| Common.Reverse | src/components/GameBoard.jsx:78 | the reversed copy has the same length, and element i is element `len-1-i` of the input |
| BlockGrid.EmptyGrid | src/BlockPuzzleGame.jsx:135 | a 10x10 board whose every cell is `""` |
| BlockGrid.MakeBlockWellFormed | src/BlockPuzzleGame.jsx:122-128 | a piece built from a catalogue shape and a palette colour keeps its id, shape and colour, and its `cells` is an exact height x width matrix of that colour |
| BlockGrid.SmartColor | src/BlockPuzzleGame.jsx:19-23 | on reuse (non-empty history and reuse roll below 0.8) the colour comes from the history; otherwise it comes from the palette |
| BlockGrid.SmartColorInvariant | src/BlockPuzzleGame.jsx:18-27 | every colour returned is a palette colour; the history stays at most three palette colours; reuse leaves it unchanged; a fresh colour becomes the newest entry with the survivors in order, appended below three and evicting the oldest at three |
| BlockGrid.GenerateBlockWellFormed | src/BlockPuzzleGame.jsx:119-129 | a generated piece carries the given id, a catalogue shape, a palette colour and a matching `cells` matrix, and the history stays bounded |
| BlockGrid.InitialTrayValid | src/BlockPuzzleGame.jsx:136-137 | the dealt tray is three well-formed pieces carrying the given ids in order, and the history stays bounded |
| BlockGrid.RemoveId | src/BlockPuzzleGame.jsx:166 | a piece survives the filter exactly when it was in the tray and has a different id |
| BlockGrid.RemoveIdLength | src/BlockPuzzleGame.jsx:166 | the filter shrinks the tray by exactly the number of pieces carrying the id |
| BlockGrid.RemoveIdUnique | src/BlockPuzzleGame.jsx:166 | filtering keeps the tray's ids distinct |
| BlockGrid.TrayReplacement | src/BlockPuzzleGame.jsx:165-169 | placing a tray piece and appending a freshly generated one keeps the tray size and distinct ids, and the placed piece is gone |
| BlockGrid.CanPlaceBlock | src/BlockPuzzleGame.jsx:141-150 | true iff a piece is given, its footprint lies within [0,10) on both axes, and every covered cell is `""`; false for `null` and for any footprint off the board |
| BlockGrid.WriteBlock | src/BlockPuzzleGame.jsx:155-163 | the copied grid is `Placed`: the piece's colour on its footprint and nothing else |
| BlockGrid.PlacedCells | src/BlockPuzzleGame.jsx:157-161 | after placement, a covered cell holds the piece's colour and every other cell is unchanged |
| BlockGrid.CanPlaceAnyBlock | src/BlockPuzzleGame.jsx:207-216 | true iff some tray piece fits at some cell of the board; false for an empty tray |
| BlockGrid.FindCompletedRows | src/BlockPuzzleGame.jsx:179-185 | the list is strictly ascending, and a row is in it iff its first cell is non-empty and every cell equals that colour |
| BlockGrid.FlashRows | src/BlockPuzzleGame.jsx:189 | the result is `MarkRows`: every listed row becomes ten `#ffffff` cells, and other rows are unchanged |
| BlockGrid.FlashedRowsRequalify | src/BlockPuzzleGame.jsx:179-189 | after flashing, the completed rows are exactly the same list as before, so a second check re-selects the flashing rows |
| BlockGrid.DescendingOrder | src/BlockPuzzleGame.jsx:193 | sorting the ascending capture with `b - a` yields the same indices, strictly descending |
| BlockGrid.CompactRows | src/BlockPuzzleGame.jsx:190-198 | the grid is `CompactAll` over the indices in descending order (one splice and unshift per index), still 10x10 |
| BlockGrid.CompactOneRow | src/BlockPuzzleGame.jsx:193-196 | with one completed row i: row i is removed, an empty row enters at the top, rows above i move down one, and rows below stay |
| BlockGrid.CompactTwoRows | src/BlockPuzzleGame.jsx:193-196 | with completed rows i < j: row j and the row at i - 1 are removed (for i = 0, the inserted empty row), and the flashing row i survives |
| BlockGrid.CompactRowsThreeAndFour | src/BlockPuzzleGame.jsx:190-199 | completing rows 3 and 4 removes original rows 2 and 4 and leaves row 3 on the board |
| BlockGrid.FirstFitIndex | src/BlockPuzzleGame.jsx:292-299 | the returned position holds a legal cell, and every earlier candidate is illegal |
| BlockGrid.SearchNeighbourhood | src/BlockPuzzleGame.jsx:289-302 | the double loop over row and column offsets -1..1 returns the first legal top-left cell in row-major order, and only a legal one |
| BlockGrid.DropTargetSound | src/BlockPuzzleGame.jsx:286-302 | a drop lands only where the piece fits; a still-legal preview wins; otherwise the target lies in the 3x3 area around the release cell; no target means no cell of that area fits |
| BlockGrid.Round | src/BlockPuzzleGame.jsx:237-238 | `Math.round` yields the integer within half a unit, with halves rounded up |
| BlockGrid.Clamp | src/BlockPuzzleGame.jsx:239-240 | the index lands in [0,10), is unchanged inside, and goes to 0 below and 9 above |
| BlockGrid.GetGridPosition | src/BlockPuzzleGame.jsx:229-242 | there is no cell without a mounted board; otherwise the cell is on the board |
| BlockGrid.GridPositionInCell | src/BlockPuzzleGame.jsx:229-242 | every point of the drawn square of cell (r, c), which lies at (c, r) times 47.2 px from the measured board corner and is 40 px wide, maps back to (r, c) |
| BlockGrid.RawIndexInCell | src/BlockPuzzleGame.jsx:235-240 | on one axis, every offset inside cell k's drawn square gives the clamped index k, although the subtracted 16 px padding is not on the measured element (src/BlockPuzzleGame.jsx:401-405) |
| BlockSession.Session.constructor | src/BlockPuzzleGame.jsx:31-41 | the initial state: an empty board, an empty tray, score 0, not started, no drag |
| BlockSession.Session.GetSmartColor | src/BlockPuzzleGame.jsx:18-27 | returns the smart colour and updates the history as specified, keeping it at most three palette colours |
| BlockSession.Session.GenerateRandomBlock | src/BlockPuzzleGame.jsx:119-129 | returns the piece `GenerateBlock` specifies, well formed with the given id, and leaves the history `GenerateBlock` gives |
| BlockSession.Session.DealTray | src/BlockPuzzleGame.jsx:137 | the tray and history are `InitialTray`: three successive generations from an empty history, with distinct ids |
| BlockSession.Session.StartGame | src/BlockPuzzleGame.jsx:131-139 | a started, not-over game with score 0, an empty board, and tray and history equal to `InitialTray`, so three pieces; drag state and pending timers lie outside its frame |
| BlockSession.Session.PlaceBlock | src/BlockPuzzleGame.jsx:152-172 | `null` changes nothing. Otherwise the board becomes `Placed` on the current grid, the tray is `RemoveId` plus the `GenerateBlock` piece, so a tray piece is replaced with the size kept, and one row check is scheduled |
| BlockSession.Session.FireRowCheck | src/BlockPuzzleGame.jsx:174-205 | captures exactly the completed rows of the current board and turns the board into `MarkRows` of them; a compaction with that list is queued only when it is non-empty |
| BlockSession.Session.FireCompaction | src/BlockPuzzleGame.jsx:190-200 | compacts the current board with the oldest captured list and adds 100 points per captured row |
| BlockSession.Session.EvaluateGameOver | src/BlockPuzzleGame.jsx:218-226 | the game becomes over exactly when it is started, not over, the tray is non-empty and no piece fits anywhere; the flag is never cleared |
| BlockSession.Session.HandleStart | src/BlockPuzzleGame.jsx:244-258 | ignored unless a game runs and no drag is active; otherwise records the piece and the pointer's offset, the floating piece starts at its drawn corner, and both drag handlers capture the current board |
| BlockSession.Session.HandleMove | src/BlockPuzzleGame.jsx:260-277 | while dragging, the floating piece follows the pointer; the preview is the hit cell exactly when the piece fits there on the board captured at drag start; a preview change makes `handleEnd` capture the current board |
| BlockSession.Session.HandleEnd | src/BlockPuzzleGame.jsx:279-309 | without a drag nothing changes; otherwise the piece is placed once at the `DropTarget` of the board captured at the last preview change, written onto the current board, or nowhere when there is none; the tray keeps its size, the placed piece leaves it, and the drag state is always cleared |
| BlockSession.Session.ResetGame | src/BlockPuzzleGame.jsx:327-342 | the start screen with an empty board, score 0, an empty tray and no drag; the history and pending timers survive |
| BlockSession.StalePreviewOverwrites | src/BlockPuzzleGame.jsx:277-309 | a preview that was free on the captured board wins the drop even when the current board holds a colour there, and the placement paints over it |
| WordGrid.Decode | src/utils/generateGrid.js:29-31 | an attempt starts inside the grid and moves in one of the four table directions |
| WordGrid.BlankGrid | src/utils/generateGrid.js:4 | a size x size grid of empty strings |
| WordGrid.CanPlace | src/utils/generateGrid.js:13-22 | true iff every position along the direction is inside the grid and holds `""` or that same letter |
| WordGrid.WrittenFrame | src/utils/generateGrid.js:33-35 | writing a fitting word never changes a non-empty cell, and cells off its line are untouched |
| WordGrid.WrittenReadable | src/utils/generateGrid.js:33-35 | after the write, letter i of the word sits at (r + dr*i, c + dc*i) |
| WordGrid.DistinctPositions | src/utils/generateGrid.js:6-11 | along a table direction, different letter positions are different cells |
| WordGrid.FirstPlacement | src/utils/generateGrid.js:27-32 | the chosen attempt is the first of the at most 2000 attempts whose word fits, and it uses a table direction; no attempt means every one of them fails |
| WordGrid.PlaceWordOutcome | src/utils/generateGrid.js:24-38 | `place` either skips the word after all attempts fail, leaving the grid unchanged, or lays it along a table direction; the word is then readable, cells off its line are unchanged, and no earlier letter is overwritten |
| WordGrid.WriteWord | src/utils/generateGrid.js:33-35 | the array afterwards holds the grid with the word written along the attempt |
| WordGrid.Place | src/utils/generateGrid.js:24-38 | the retry loop with its 2000 guard leaves the array holding `PlaceWord`, the outcome of `place` |
| WordGrid.PlaceWordReadable | src/utils/generateGrid.js:33-36 | when an attempt is accepted, the word can be read letter by letter along it in the grid `place` leaves |
| WordGrid.PlaceWordKeeps | src/utils/generateGrid.js:24-38 | `place` never overwrites a non-empty cell |
| WordGrid.NewBlank | src/utils/generateGrid.js:4 | a new size x size array whose every cell is `""` |
| WordGrid.PlaceNext | src/utils/generateGrid.js:40 | one step of `words.forEach`: the array afterwards holds the grid with the next word placed |
| WordGrid.PlaceWords | src/utils/generateGrid.js:40 | the `forEach` loop leaves the array holding `PlaceAll`: every word placed in list order |
| WordGrid.PlaceAllKeeps | src/utils/generateGrid.js:40 | laying the later words never overwrites a letter already on the grid |
| WordGrid.LaidReadable | src/utils/generateGrid.js:33-40 | the word laid at step w can be read along its attempt right after that step |
| WordGrid.ReadableKept | src/utils/generateGrid.js:40-49 | a readable word stays readable under any later change that keeps every letter |
| WordGrid.Filled | src/utils/generateGrid.js:42-49 | after the fill no cell is empty, non-empty cells are unchanged, and every filled cell is one letter A-Z |
| WordGrid.FillBlanks | src/utils/generateGrid.js:42-49 | the fill loops leave the array holding the filled grid |
| WordGrid.ReadableLater | src/utils/generateGrid.js:40 | a word readable after the step that laid it stays readable after every later step |
| WordGrid.PlacedWordsStayReadable | src/utils/generateGrid.js:40-49 | every word that was laid is readable in the returned grid |
| WordGrid.GenerateGrid | src/utils/generateGrid.js:3-51 | returns a new size x size array holding `Filled` of `PlaceAll` over the blank grid: the words laid in order, then the blanks filled |
| WordBoard.Sign | src/components/GameBoard.jsx:44 | `Math.sign`: -1, 0 or 1, zero exactly for 0, and sign times value is the absolute value |
| WordBoard.Alignment | src/components/GameBoard.jsx:42-56 | a line exists iff the endpoints differ and share a row, a column or a diagonal; its step is the sign of each difference, its length is the longer distance plus one, and it reaches the end cell |
| WordBoard.GetLineCells | src/components/GameBoard.jsx:32-66 | the walk that gives up at the first out-of-grid cell returns exactly `LineCells`, the specified line or `[]` |
| WordBoard.WalkLine | src/components/GameBoard.jsx:57-65 | the loop returns the whole walk along the derived line when every cell of it is in the grid, and `[]` otherwise |
| WordBoard.LineCellsCharacterised | src/components/GameBoard.jsx:32-66 | the result is the straight run of cells from a to b when both exist, are aligned and the whole run is in the grid, and `[]` otherwise (missing endpoint, equal endpoints, misaligned, or leaving the grid) |
| WordBoard.LineCellsShape | src/components/GameBoard.jsx:42-64 | a non-empty path starts at a, ends at b, has length max(\|dr\|, \|dc\|) + 1, advances by one constant non-zero step in {-1,0,1}², and stays in the grid |
| WordBoard.LettersFromPath | src/components/GameBoard.jsx:69-71 | the cells' strings joined in path order: empty for an empty path, and one character per cell when every cell holds one letter |
| WordBoard.LettersFromPathAt | src/components/GameBoard.jsx:69-71 | with one letter per cell, letter i of the string is the letter of path cell i |
| WordBoard.LettersReverse | src/components/GameBoard.jsx:77-78 | reading the reversed path yields the reversed string |
| WordBoard.Matched | src/components/GameBoard.jsx:81-83 | the forward reading is chosen when it is a listed word; otherwise the backward reading when it is; otherwise nothing |
| WordBoard.FinalizeMatch | src/components/GameBoard.jsx:74-90 | a report is a listed, non-empty, not-yet-found word, with the path as selected or reversed |
| WordBoard.FinalizeMatchSound | src/components/GameBoard.jsx:74-90 | the reported path spells the reported word. The forward reading wins. A word is reported exactly when the chosen reading is non-empty and not found yet |
| WordBoard.Selection.constructor | src/components/GameBoard.jsx:14-16 | no selection: no start, no hover, an empty path |
| WordBoard.Selection.HandleMouseDown | src/components/GameBoard.jsx:99-103 | start and hover become the pressed cell, and the path is that one cell |
| WordBoard.Selection.HandleMouseEnter | src/components/GameBoard.jsx:104-109 | without a start nothing changes; otherwise hover is the entered cell and the path is the line from the start cell to it |
| WordBoard.Selection.HandleMouseUp | src/components/GameBoard.jsx:74-112 | an empty path is ignored and the selection is kept; otherwise the match of the path is reported and start, hover and path are reset |
| WordBoard.Selection.HandleMouseLeave | src/components/GameBoard.jsx:144-149 | start, hover and path are reset |

## Left out

- Audio: `playSound`, the background music and the Web Audio context are outside the model. So are the mobile detection, the JSX rendering and the CSS.
- Dates and the DOM are inputs:
  - Piece ids (`Date.now() + Math.random()`) are parameters, required to differ from the ids in the tray.
  - The board's and the piece's bounding rectangles are the points `origin` and `corner`. A missing `origin` stands for an unmounted board.
- The document-level listener wiring of the drag (`useEffect` at src/BlockPuzzleGame.jsx:311-325) is outside the model. The handlers are called directly.
- Timer delays are not modelled. Only their order is: each `placeBlock` schedules one `FireRowCheck`, and compactions fire oldest first because they all wait 450 ms. How row checks and compactions interleave is left to the caller.
- Touch input is only modelled through the mouse handlers it forwards to. The touch handlers' use of `document.elementFromPoint` (src/components/GameBoard.jsx:115-132) is DOM work. `foundSet`/`activeSet` only highlight cells. `WordSearchGame.jsx`, which receives `onWordFound`, is not part of this model.
- The module-level `lastColors` variable is a field of `Session`, because one game component owns it.
- BlockGrid.GetGridPosition: computes over exact reals. IEEE double rounding of the offsets is not modelled.
- BlockSession.Session.PlaceBlock: requires the footprint to lie on the board. In JavaScript a write off the board would throw or grow a row, and every caller checks `canPlaceBlock` first.
- BlockGrid.CompactRows: requires the captured list to be strictly ascending, which is how the row scan builds it. The descending sort is therefore a reversal, and sorting an arbitrary list is not modelled.
- BlockSession.Session.HandleStart: requires the dragged piece to come from the tray, as the rendered tray guarantees.
- BlockSession.Session.PlaceBlock: requires that no drag is active. Its only caller, `handleEnd`, ends the drag in the same batched state update; the model ends it just before the placement.
- BlockSession.Session.StartGame: requires that no drag is active. The start button is only rendered while no game is started, and then no drag can be active.
- BlockSession.Session.HandleEnd: the music flag is also a dependency of `handleEnd` (through `placeBlock` and `playSound`), so toggling the music during a drag rebuilds it over the board of that moment. Audio is not modelled, so `endBoard` is refreshed only when a drag starts and when the preview changes.
- WordBoard.Selection.constructor: requires a rectangular letter grid, as the generator produces. `grid[r][c]` on a ragged grid, which would read `undefined`, is not modelled.
- WordBoard.LettersReverse: holds only when every cell on the path is a single letter. That is true of generated grids but not of cells holding longer strings.
- WordGrid.Place: requires at least 2000 candidate rolls per word, one per attempt the guard allows.
