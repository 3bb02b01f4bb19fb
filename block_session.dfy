/** The block-puzzle session: the React state of the game component as the
    fields of one object, the colour history the generator keeps between calls,
    and the two deferred steps of the row clear as explicit timer firings. */
module BlockSession {
  import opened Common
  import opened BlockGrid

  /** Every piece on offer is well formed and no two share an id. */
  predicate GoodTray(tray: seq<Block>) {
    (forall b :: b in tray ==> WellFormed(b)) && UniqueIds(tray)
  }

  /** Every scheduled compaction captured a non-empty ascending list of rows. */
  predicate GoodQueue(queue: seq<seq<int>>) {
    forall i :: 0 <= i < |queue| ==> queue[i] != [] && Increasing(queue[i]) && RowIndices(queue[i])
  }

  /** A drag is active exactly when a piece is held; the held piece is a well
      formed piece of the tray; a preview is shown only during a drag; and no
      drag runs while no game is started. */
  predicate GoodDrag(draggedBlock: Option<Block>, isDragging: bool, previewPosition: Option<Cell>,
                     tray: seq<Block>, gameStarted: bool)
  {
    && (isDragging <==> draggedBlock.Some?)
    && (draggedBlock.Some? ==> WellFormed(draggedBlock.value) && draggedBlock.value in tray)
    && (previewPosition.Some? ==> isDragging)
    && (!gameStarted ==> !isDragging)
  }

  class Session {
    var grid: Grid
    /** The tray of pieces on offer. */
    var currentBlocks: seq<Block>
    var score: nat
    var gameStarted: bool
    var gameOver: bool
    var draggedBlock: Option<Block>
    /** Where the floating piece is drawn. */
    var dragPosition: Point
    var isDragging: bool
    var previewPosition: Option<Cell>
    /** The pointer's offset inside the piece when the drag began. */
    var dragStartPos: Point
    /** Recently issued colours, oldest first. */
    var lastColors: seq<string>
    /** Row checks scheduled by placements that have not fired yet. */
    var pendingRowChecks: nat
    /** Compactions scheduled by row checks that have not fired yet, oldest
        first, each with the completed rows it captured. All wait equally
        long, so they fire in the order they were scheduled. */
    var pendingCompactions: seq<seq<int>>
    /** The board handleMove tests against. Its callback is rebuilt only when
        a drag starts, not when the grid changes, so it keeps the board of
        that moment. */
    var moveBoard: Grid
    /** The board handleEnd tests against. Its callback is rebuilt when a drag
        starts and whenever the preview changes, each time over the board of
        that moment. */
    var endBoard: Grid

    ghost predicate Valid()
      reads this
    {
      && IsGrid(grid)
      && GoodHistory(lastColors)
      && GoodTray(currentBlocks)
      && GoodQueue(pendingCompactions)
      && GoodDrag(draggedBlock, isDragging, previewPosition, currentBlocks, gameStarted)
      && IsGrid(moveBoard) && IsGrid(endBoard)
    }

    /** The component's initial state, before the first game is started. */
    constructor ()
      ensures Valid()
      ensures grid == EmptyGrid() && currentBlocks == [] && score == 0
      ensures !gameStarted && !gameOver
      ensures draggedBlock == None && !isDragging && previewPosition == None
      ensures lastColors == [] && pendingRowChecks == 0 && pendingCompactions == []
    {
      grid := EmptyGrid();
      currentBlocks := [];
      score := 0;
      gameStarted := false;
      gameOver := false;
      draggedBlock := None;
      dragPosition := Point(0.0, 0.0);
      isDragging := false;
      previewPosition := None;
      dragStartPos := Point(0.0, 0.0);
      lastColors := [];
      pendingRowChecks := 0;
      pendingCompactions := [];
      moveBoard, endBoard := grid, grid;
    }

    /** getSmartColor: reuse a history colour when the history is non-empty
        and the reuse roll is below 0.8; otherwise draw a palette colour, push
        it and shift the oldest out once the history exceeds three. */
    method GetSmartColor(reuseRoll: Roll, pickRoll: Roll) returns (color: string)
      requires Valid()
      modifies this`lastColors
      ensures Valid()
      ensures color == SmartColor(old(lastColors), reuseRoll, pickRoll) && color in Colors
      ensures lastColors == HistoryAfter(old(lastColors), reuseRoll, pickRoll)
      ensures ReusesHistory(old(lastColors), reuseRoll) ==> lastColors == old(lastColors)
    {
      SmartColorInvariant(lastColors, reuseRoll, pickRoll);
      var history := lastColors;
      if |history| > 0 && reuseRoll < ReuseChance {
        return history[Pick(pickRoll, |history|)];
      }
      color := Colors[Pick(pickRoll, |Colors|)];
      history := history + [color];
      if |history| > HistoryLimit {
        history := history[1..];
      }
      lastColors := history;
    }

    /** generateRandomBlock: a catalogue shape and a smart colour under a fresh id. */
    method GenerateRandomBlock(rolls: BlockRolls, id: Id) returns (b: Block)
      requires Valid()
      modifies this`lastColors
      ensures Valid() && WellFormed(b) && b.id == id
      ensures (b, lastColors) == GenerateBlock(old(lastColors), rolls, id)
    {
      GenerateBlockWellFormed(lastColors, rolls, id);
      var shape := BlockShapes[Pick(rolls.shape, |BlockShapes|)];
      var color := GetSmartColor(rolls.reuse, rolls.pick);
      b := MakeBlock(id, shape, color);
    }

    /** The three generateRandomBlock calls of startGame, one after another. */
    method DealTray(rolls: seq<BlockRolls>, ids: seq<Id>) returns (tray: seq<Block>)
      requires Valid()
      requires |rolls| == 3
      requires |ids| == 3 && ids[0] != ids[1] && ids[0] != ids[2] && ids[1] != ids[2]
      requires lastColors == []
      modifies this`lastColors
      ensures Valid()
      ensures (tray, lastColors) == InitialTray(rolls, ids)
      ensures UniqueIds(tray) && forall b :: b in tray ==> WellFormed(b)
    {
      InitialTrayValid(rolls, ids);
      var b0 := GenerateRandomBlock(rolls[0], ids[0]);
      var b1 := GenerateRandomBlock(rolls[1], ids[1]);
      var b2 := GenerateRandomBlock(rolls[2], ids[2]);
      tray := [b0, b1, b2];
    }

    /** startGame: a started game on an empty board with score 0, an emptied
        colour history and a tray of three fresh pieces. Drag fields and
        timers already scheduled are left as they are. */
    method StartGame(rolls: seq<BlockRolls>, ids: seq<Id>)
      requires Valid()
      requires |rolls| == 3
      requires |ids| == 3 && ids[0] != ids[1] && ids[0] != ids[2] && ids[1] != ids[2]
      requires !isDragging
      modifies this`gameStarted, this`gameOver, this`score, this`grid, this`lastColors, this`currentBlocks
      ensures Valid()
      ensures gameStarted && !gameOver && score == 0 && grid == EmptyGrid()
      ensures (currentBlocks, lastColors) == InitialTray(rolls, ids) && |currentBlocks| == 3
    {
      lastColors := [];
      var tray := DealTray(rolls, ids);
      gameStarted, gameOver, score, grid, currentBlocks := true, false, 0, EmptyGrid(), tray;
    }

    /** placeBlock: nothing without a piece. Otherwise the piece's colour is
        written over its footprint (emptiness is not checked again), the piece
        is filtered out of the tray by id and one new piece is appended, and a
        row check is scheduled. */
    method PlaceBlock(block: Option<Block>, row: int, col: int, rolls: BlockRolls, id: Id)
      requires Valid() && !isDragging
      requires block.Some? ==> OnBoard(block.value, row, col)
      requires forall b :: b in currentBlocks ==> b.id != id
      modifies this`grid, this`currentBlocks, this`lastColors, this`pendingRowChecks
      ensures Valid()
      ensures block.None? ==>
        && grid == old(grid) && currentBlocks == old(currentBlocks)
        && lastColors == old(lastColors) && pendingRowChecks == old(pendingRowChecks)
      ensures block.Some? ==>
        && grid == Placed(old(grid), block.value, row, col)
        && (var (added, history) := GenerateBlock(old(lastColors), rolls, id);
            currentBlocks == RemoveId(old(currentBlocks), block.value.id) + [added] && lastColors == history)
        && pendingRowChecks == old(pendingRowChecks) + 1
      ensures block.Some? && block.value in old(currentBlocks) ==>
        |currentBlocks| == |old(currentBlocks)| && block.value !in currentBlocks
    {
      if block.None? {
        return;
      }
      var b := block.value;
      grid := WriteBlock(grid, b, row, col);
      var remaining := RemoveId(currentBlocks, b.id);
      RemoveIdUnique(currentBlocks, b.id);
      var added := GenerateRandomBlock(rolls, id);
      if b in old(currentBlocks) {
        TrayReplacement(old(currentBlocks), b, added);
      }
      currentBlocks := remaining + [added];
      pendingRowChecks := pendingRowChecks + 1;
    }

    /** The first timer of the row clear (checkCompletedRows): flash every
        completed row of the current grid and, when there is one, schedule the
        compaction with the list of completed rows captured now. */
    method FireRowCheck() returns (completed: seq<int>)
      requires Valid() && pendingRowChecks > 0
      modifies this`grid, this`pendingRowChecks, this`pendingCompactions
      ensures Valid()
      ensures IsCompletedList(old(grid), completed)
      ensures grid == MarkRows(old(grid), completed)
      ensures pendingRowChecks == old(pendingRowChecks) - 1
      ensures pendingCompactions == old(pendingCompactions) + if completed == [] then [] else [completed]
    {
      pendingRowChecks := pendingRowChecks - 1;
      completed := FindCompletedRows(grid);
      if |completed| > 0 {
        grid := FlashRows(grid, completed);
        pendingCompactions := pendingCompactions + [completed];
      } else {
        assert MarkRows(grid, completed) == grid;
      }
    }

    /** The second timer of the row clear: compact the current grid using the
        rows captured by the row check that scheduled it, and add 100 points per
        captured row. */
    method FireCompaction()
      requires Valid() && |pendingCompactions| > 0
      modifies this`grid, this`score, this`pendingCompactions
      ensures Valid()
      ensures grid == CompactAll(old(grid), Reverse(old(pendingCompactions)[0]))
      ensures score == old(score) + 100 * |old(pendingCompactions)[0]|
      ensures pendingCompactions == old(pendingCompactions)[1..]
    {
      var completed := pendingCompactions[0];
      pendingCompactions := pendingCompactions[1..];
      grid := CompactRows(grid, completed);
      score := score + |completed| * 100;
    }

    /** The game-over effect: a started game that is not over and has pieces on
        offer ends when none of them fits anywhere. It never clears the flag. */
    method EvaluateGameOver()
      requires Valid()
      modifies this`gameOver
      ensures Valid()
      ensures gameOver == (old(gameOver) || (gameStarted && |currentBlocks| > 0 && !AnyFits(grid, currentBlocks)))
    {
      if gameStarted && !gameOver && |currentBlocks| > 0 {
        var any := CanPlaceAnyBlock(grid, currentBlocks);
        if !any {
          gameOver := true;
        }
      }
    }

    /** handleStart: ignored unless a game is running and no drag is active;
        otherwise records the piece and the pointer's offset inside it
        (`corner` is the top-left corner of the piece as drawn). */
    method HandleStart(block: Block, client: Point, corner: Point)
      requires Valid() && block in currentBlocks
      modifies this`draggedBlock, this`isDragging, this`dragStartPos, this`dragPosition,
        this`moveBoard, this`endBoard
      ensures Valid()
      ensures !gameStarted || gameOver || old(isDragging) ==>
        && draggedBlock == old(draggedBlock) && isDragging == old(isDragging)
        && dragStartPos == old(dragStartPos) && dragPosition == old(dragPosition)
        && moveBoard == old(moveBoard) && endBoard == old(endBoard)
      ensures gameStarted && !gameOver && !old(isDragging) ==>
        && draggedBlock == Some(block) && isDragging
        && dragStartPos == Point(client.x - corner.x, client.y - corner.y)
        && dragPosition == corner
        && moveBoard == grid && endBoard == grid
    {
      if !gameStarted || gameOver || isDragging {
        return;
      }
      var offset := Point(client.x - corner.x, client.y - corner.y);
      dragStartPos := offset;
      draggedBlock := Some(block);
      isDragging := true;
      dragPosition := Point(client.x - offset.x, client.y - offset.y);
      // The re-render that follows rebuilds both drag callbacks over the current board.
      moveBoard, endBoard := grid, grid;
    }

    /** handleMove: while dragging, move the floating piece with the pointer and
        show a preview at the cell under it only if the piece fits there on
        the board captured when the drag started. */
    method HandleMove(client: Point, origin: Option<Point>)
      requires Valid()
      modifies this`dragPosition, this`previewPosition, this`endBoard
      ensures Valid()
      ensures !isDragging ==>
        dragPosition == old(dragPosition) && previewPosition == old(previewPosition) && endBoard == old(endBoard)
      ensures isDragging ==>
        && dragPosition == Point(client.x - dragStartPos.x, client.y - dragStartPos.y)
        && (var pos := GetGridPosition(client, origin);
            previewPosition ==
              if pos.Some? && Fits(moveBoard, draggedBlock, pos.value.row, pos.value.col) then pos else None)
        && endBoard == if previewPosition.Some? || old(previewPosition).Some? then grid else old(endBoard)
      ensures previewPosition.Some? ==>
        Fits(moveBoard, draggedBlock, previewPosition.value.row, previewPosition.value.col)
    {
      if !isDragging || draggedBlock.None? {
        return;
      }
      dragPosition := Point(client.x - dragStartPos.x, client.y - dragStartPos.y);
      var b := draggedBlock.value;
      var gridPos := GetGridPosition(client, origin);
      var legal := false;
      if gridPos.Some? && gridPos.value.row + b.height <= GridSize && gridPos.value.col + b.width <= GridSize {
        legal := CanPlaceBlock(moveBoard, draggedBlock, gridPos.value.row, gridPos.value.col);
      }
      var next := if legal then gridPos else None;
      if next.Some? || previewPosition.Some? {
        // A new preview object, or clearing a shown one, changes a dependency
        // of handleEnd; the re-render rebuilds it over the current board.
        endBoard := grid;
      }
      previewPosition := next;
    }

    /** handleEnd: without an active drag nothing happens. Otherwise the
        piece is placed at most once, at the preview cell if it still fits,
        else at the first legal cell of the 3x3 search around the release
        point, both judged on the board captured at the last preview change,
        while the colour is written onto the current board; and the drag ends
        whatever the outcome. */
    method HandleEnd(client: Point, origin: Option<Point>, rolls: BlockRolls, id: Id)
      requires Valid()
      requires forall b :: b in currentBlocks ==> b.id != id
      modifies this`grid, this`currentBlocks, this`lastColors, this`pendingRowChecks,
        this`draggedBlock, this`isDragging, this`previewPosition
      ensures Valid()
      ensures |currentBlocks| == |old(currentBlocks)|
      ensures !old(isDragging) ==>
        && grid == old(grid) && currentBlocks == old(currentBlocks) && lastColors == old(lastColors)
        && pendingRowChecks == old(pendingRowChecks)
        && draggedBlock == old(draggedBlock) && isDragging == old(isDragging)
        && previewPosition == old(previewPosition)
      ensures old(isDragging) ==>
        var b := old(draggedBlock).value;
        var target := DropTarget(endBoard, b, old(previewPosition), GetGridPosition(client, origin));
        && (target.Some? ==>
              && grid == Placed(old(grid), b, target.value.row, target.value.col)
              && (var (added, history) := GenerateBlock(old(lastColors), rolls, id);
                  currentBlocks == RemoveId(old(currentBlocks), b.id) + [added] && lastColors == history)
              && b !in currentBlocks
              && pendingRowChecks == old(pendingRowChecks) + 1)
        && (target.None? ==>
              && grid == old(grid) && currentBlocks == old(currentBlocks)
              && lastColors == old(lastColors) && pendingRowChecks == old(pendingRowChecks))
        && draggedBlock == None && !isDragging && previewPosition == None
    {
      if !isDragging || draggedBlock.None? {
        return;
      }
      var blockToPlace := draggedBlock.value;
      var preview := previewPosition;
      ghost var target := DropTarget(endBoard, blockToPlace, preview, GetGridPosition(client, origin));
      // React applies every state update of the handler together, so ending
      // the drag before the placement is not observable.
      draggedBlock, isDragging, previewPosition := None, false, None;
      var previewFits := false;
      if preview.Some? {
        previewFits := CanPlaceBlock(endBoard, Some(blockToPlace), preview.value.row, preview.value.col);
      }
      if previewFits {
        PlaceBlock(Some(blockToPlace), preview.value.row, preview.value.col, rolls, id);
      } else {
        var gridPos := GetGridPosition(client, origin);
        if gridPos.Some? {
          var found := SearchNeighbourhood(endBoard, blockToPlace, gridPos.value);
          if found.Some? {
            PlaceBlock(Some(blockToPlace), found.value.row, found.value.col, rolls, id);
          }
        }
      }
    }

    /** resetGame: back to the start screen with an empty board, score 0, an
        empty tray and no drag. The colour history and any timers already
        scheduled are left as they are. */
    method ResetGame()
      requires Valid()
      modifies this`gameStarted, this`gameOver, this`score, this`grid, this`currentBlocks,
        this`draggedBlock, this`isDragging, this`previewPosition
      ensures Valid()
      ensures !gameStarted && !gameOver && score == 0 && grid == EmptyGrid() && currentBlocks == []
      ensures draggedBlock == None && !isDragging && previewPosition == None
    {
      gameStarted, gameOver, score, grid, currentBlocks := false, false, 0, EmptyGrid(), [];
      draggedBlock, isDragging, previewPosition := None, false, None;
    }
  }

  /** handleEnd judges the drop on the board captured at the last preview
      change but writes onto the current board. Here the preview (5, 5) was
      free when captured; a compaction has since shifted a red cell into
      (5, 5), and the drop paints over it. */
  lemma StalePreviewOverwrites()
    ensures var piece := MakeBlock(0, Shape(1, 1), "#10b981");
      var live := EmptyGrid()[5 := EmptyGrid()[5][5 := "#ef4444"]];
      && IsGrid(live)
      && DropTarget(EmptyGrid(), piece, Some(Cell(5, 5)), None) == Some(Cell(5, 5))
      && live[5][5] != Empty
      && Placed(live, piece, 5, 5)[5][5] == piece.color != live[5][5]
  {
    var piece := MakeBlock(0, Shape(1, 1), "#10b981");
    assert Fits(EmptyGrid(), Some(piece), 5, 5);
  }
}
