/** The block-puzzle board: the 10x10 grid of colour strings, the piece
    catalogue, the placement check, the two phases of the row clear and the
    drop-cell search. Everything here works on values; the session that owns
    the mutable state is in module BlockSession. */
module BlockGrid {
  import opened Common

  const GridSize: nat := 10
  /** The colour string of an empty cell. */
  const Empty: string := ""
  /** The colour a completed row shows while it waits to be removed. */
  const Flash: string := "#ffffff"
  /** The palette pieces are coloured from. */
  const Colors: seq<string> := ["#ef4444", "#3b82f6", "#10b981", "#f59e0b", "#8b5cf6"]

  datatype Shape = Shape(width: nat, height: nat)

  /** The six solid rectangles a piece can have (width x height). */
  const BlockShapes: seq<Shape> :=
    [Shape(1, 1), Shape(2, 1), Shape(1, 2), Shape(2, 2), Shape(3, 1), Shape(3, 2)]

  /** Piece identity; only ever compared for equality. */
  type Id = int

  datatype Block = Block(id: Id, width: nat, height: nat, color: string, cells: seq<seq<string>>)

  /** A board position, also used for the drag preview. */
  datatype Cell = Cell(row: int, col: int)

  /** Rows of colour strings; `Empty` marks a free cell. */
  type Grid = seq<seq<string>>

  predicate IsGrid(g: Grid) {
    |g| == GridSize && forall r :: 0 <= r < GridSize ==> |g[r]| == GridSize
  }

  /** `Array(GRID_SIZE).fill(color)` */
  function Row(color: string): (row: seq<string>)
    ensures |row| == GridSize && forall c :: 0 <= c < GridSize ==> row[c] == color
  {
    seq(GridSize, _ => color)
  }

  function EmptyGrid(): (g: Grid)
    ensures IsGrid(g)
    ensures forall r, c :: 0 <= r < GridSize && 0 <= c < GridSize ==> g[r][c] == Empty
  {
    seq(GridSize, _ => Row(Empty))
  }

  /** A piece of the given shape whose `cells` matrix is filled with `color`. */
  function MakeBlock(id: Id, shape: Shape, color: string): Block {
    Block(id, shape.width, shape.height, color, seq(shape.height, _ => seq(shape.width, _ => color)))
  }

  /** What every generated piece satisfies: a catalogue shape, a palette colour,
      and a `height` x `width` matrix of that colour. */
  predicate WellFormed(b: Block) {
    && Shape(b.width, b.height) in BlockShapes
    && b.color in Colors
    && |b.cells| == b.height
    && forall r :: 0 <= r < b.height ==>
         |b.cells[r]| == b.width && forall c :: 0 <= c < b.width ==> b.cells[r][c] == b.color
  }

  lemma {:induction false} MakeBlockWellFormed(id: Id, shape: Shape, color: string)
    requires shape in BlockShapes && color in Colors
    ensures var b := MakeBlock(id, shape, color);
      WellFormed(b) && b.id == id && b.color == color && Shape(b.width, b.height) == shape
  {
    var b := MakeBlock(id, shape, color);
    assert Shape(b.width, b.height) == shape;
  }

  // ---------------------------------------------------------------------------
  // Piece generation

  /** A roll below this reuses a colour from the history. */
  const ReuseChance: real := 0.8
  /** The colour history never holds more entries than this. */
  const HistoryLimit: nat := 3

  /** The rolls one call of generateRandomBlock consumes: the shape index,
      the reuse decision and the colour index. */
  datatype BlockRolls = BlockRolls(shape: Roll, reuse: Roll, pick: Roll)

  predicate GoodHistory(history: seq<string>) {
    |history| <= HistoryLimit && forall c :: c in history ==> c in Colors
  }

  /** getSmartColor draws from the history when it is non-empty and the reuse
      roll is below 0.8. */
  predicate ReusesHistory(history: seq<string>, reuseRoll: Roll) {
    |history| > 0 && reuseRoll < ReuseChance
  }

  /** The colour getSmartColor returns. */
  function SmartColor(history: seq<string>, reuseRoll: Roll, pickRoll: Roll): (color: string)
    ensures ReusesHistory(history, reuseRoll) ==> color in history
    ensures !ReusesHistory(history, reuseRoll) ==> color in Colors
  {
    if ReusesHistory(history, reuseRoll) then history[Pick(pickRoll, |history|)]
    else Colors[Pick(pickRoll, |Colors|)]
  }

  /** The history after getSmartColor: unchanged on reuse; otherwise the new
      colour is pushed and, once there are more than three, the oldest is shifted out. */
  function HistoryAfter(history: seq<string>, reuseRoll: Roll, pickRoll: Roll): seq<string>
  {
    if ReusesHistory(history, reuseRoll) then history
    else
      var pushed := history + [SmartColor(history, reuseRoll, pickRoll)];
      if |pushed| > HistoryLimit then pushed[1..] else pushed
  }

  /** The history stays bounded by three palette colours, every returned colour
      is a palette colour, and a fresh colour becomes the newest entry while
      the survivors keep their order, oldest evicted first. */
  lemma SmartColorInvariant(history: seq<string>, reuseRoll: Roll, pickRoll: Roll)
    requires GoodHistory(history)
    ensures var color := SmartColor(history, reuseRoll, pickRoll);
      var after := HistoryAfter(history, reuseRoll, pickRoll);
      && color in Colors
      && GoodHistory(after)
      && (ReusesHistory(history, reuseRoll) ==> after == history)
      && (!ReusesHistory(history, reuseRoll) ==>
            && after[|after| - 1] == color
            && after == (history + [color])[|history| + 1 - |after|..]
            && (|history| < HistoryLimit ==> after == history + [color])
            && (|history| == HistoryLimit ==> after == history[1..] + [color]))
  {
    var color := SmartColor(history, reuseRoll, pickRoll);
    if !ReusesHistory(history, reuseRoll) {
      var pushed := history + [color];
      if |pushed| > HistoryLimit {
        assert pushed[1..] == history[1..] + [color];
      }
    }
  }

  /** generateRandomBlock as a value: the new piece and the colour history after it. */
  function GenerateBlock(history: seq<string>, rolls: BlockRolls, id: Id): (Block, seq<string>)
  {
    var shape := BlockShapes[Pick(rolls.shape, |BlockShapes|)];
    var color := SmartColor(history, rolls.reuse, rolls.pick);
    (MakeBlock(id, shape, color), HistoryAfter(history, rolls.reuse, rolls.pick))
  }

  /** A generated piece has the requested id, a catalogue shape and a palette
      colour, with `cells` an exact height x width matrix of that colour. */
  lemma GenerateBlockWellFormed(history: seq<string>, rolls: BlockRolls, id: Id)
    requires GoodHistory(history)
    ensures var (b, after) := GenerateBlock(history, rolls, id);
      WellFormed(b) && b.id == id && GoodHistory(after)
  {
    SmartColorInvariant(history, rolls.reuse, rolls.pick);
    MakeBlockWellFormed(id, BlockShapes[Pick(rolls.shape, |BlockShapes|)],
                        SmartColor(history, rolls.reuse, rolls.pick));
  }

  /** The tray startGame deals: three pieces generated one after another
      from an emptied history, and the history they leave behind. */
  function InitialTray(rolls: seq<BlockRolls>, ids: seq<Id>): (seq<Block>, seq<string>)
    requires |rolls| == 3 && |ids| == 3
  {
    var (b0, h0) := GenerateBlock([], rolls[0], ids[0]);
    var (b1, h1) := GenerateBlock(h0, rolls[1], ids[1]);
    var (b2, h2) := GenerateBlock(h1, rolls[2], ids[2]);
    ([b0, b1, b2], h2)
  }

  /** The dealt tray holds three well-formed pieces carrying the given ids, in
      order, and the history is still bounded. */
  lemma InitialTrayValid(rolls: seq<BlockRolls>, ids: seq<Id>)
    requires |rolls| == 3 && |ids| == 3
    ensures var (tray, history) := InitialTray(rolls, ids);
      && |tray| == 3 && GoodHistory(history)
      && (forall i :: 0 <= i < 3 ==> WellFormed(tray[i]) && tray[i].id == ids[i])
  {
    var (b0, h0) := GenerateBlock([], rolls[0], ids[0]);
    GenerateBlockWellFormed([], rolls[0], ids[0]);
    var (b1, h1) := GenerateBlock(h0, rolls[1], ids[1]);
    GenerateBlockWellFormed(h0, rolls[1], ids[1]);
    var (b2, h2) := GenerateBlock(h1, rolls[2], ids[2]);
    GenerateBlockWellFormed(h1, rolls[2], ids[2]);
  }

  // ---------------------------------------------------------------------------
  // The tray

  predicate UniqueIds(tray: seq<Block>) {
    forall i, j :: 0 <= i < j < |tray| ==> tray[i].id != tray[j].id
  }

  /** `prev.filter(b => b.id !== id)` */
  function RemoveId(tray: seq<Block>, id: Id): (rest: seq<Block>)
    ensures forall b :: b in rest <==> b in tray && b.id != id
  {
    if tray == [] then []
    else if tray[0].id != id then [tray[0]] + RemoveId(tray[1..], id)
    else RemoveId(tray[1..], id)
  }

  /** How many pieces of the tray carry `id`. */
  function CountId(tray: seq<Block>, id: Id): nat {
    if tray == [] then 0 else (if tray[0].id == id then 1 else 0) + CountId(tray[1..], id)
  }

  /** The filter drops exactly the pieces carrying the id. */
  lemma {:induction false} RemoveIdLength(tray: seq<Block>, id: Id)
    ensures |RemoveId(tray, id)| == |tray| - CountId(tray, id)
  {
    if tray != [] {
      RemoveIdLength(tray[1..], id);
    }
  }

  /** Filtering keeps the ids of a tray unique. */
  lemma {:induction false} RemoveIdUnique(tray: seq<Block>, id: Id)
    requires UniqueIds(tray)
    ensures UniqueIds(RemoveId(tray, id))
  {
    if tray != [] {
      var rest := RemoveId(tray[1..], id);
      RemoveIdUnique(tray[1..], id);
      if tray[0].id != id {
        var r := [tray[0]] + rest;
        forall i, j | 0 <= i < j < |r|
          ensures r[i].id != r[j].id
        {
          if i == 0 {
            assert r[j] in rest;
            var k :| 0 <= k < |tray[1..]| && tray[1..][k] == r[j];
            assert tray[k + 1] == r[j];
          } else {
            assert r[i] == rest[i - 1] && r[j] == rest[j - 1];
          }
        }
      }
    }
  }

  /** In a tray with unique ids, each piece's id occurs exactly once. */
  lemma {:induction false} UniqueCountOne(tray: seq<Block>, i: int)
    requires UniqueIds(tray) && 0 <= i < |tray|
    ensures CountId(tray, tray[i].id) == 1
  {
    if i == 0 {
      NoIdNoCount(tray[1..], tray[0].id);
    } else {
      assert tray[1..][i - 1] == tray[i];
      UniqueCountOne(tray[1..], i - 1);
    }
  }

  lemma {:induction false} NoIdNoCount(tray: seq<Block>, id: Id)
    requires forall j :: 0 <= j < |tray| ==> tray[j].id != id
    ensures CountId(tray, id) == 0
  {
    if tray != [] {
      NoIdNoCount(tray[1..], id);
    }
  }

  /** placeBlock's tray update: the placed piece leaves, one new piece joins at
      the end, so a tray with unique ids keeps its length and its uniqueness. */
  lemma TrayReplacement(tray: seq<Block>, placed: Block, added: Block)
    requires UniqueIds(tray) && placed in tray
    requires forall b :: b in tray ==> b.id != added.id
    ensures |RemoveId(tray, placed.id) + [added]| == |tray|
    ensures UniqueIds(RemoveId(tray, placed.id) + [added])
    ensures placed !in RemoveId(tray, placed.id) + [added]
  {
    var i :| 0 <= i < |tray| && tray[i] == placed;
    UniqueCountOne(tray, i);
    RemoveIdLength(tray, placed.id);
    RemoveIdUnique(tray, placed.id);
    var rest := RemoveId(tray, placed.id);
    var r := rest + [added];
    forall i, j | 0 <= i < j < |r|
      ensures r[i].id != r[j].id
    {
      if j == |r| - 1 {
        assert r[i] in rest;
      } else {
        assert r[i] == rest[i] && r[j] == rest[j];
      }
    }
  }

  // ---------------------------------------------------------------------------
  // Placement

  /** Whether the piece placed with its top-left corner at (row, col) covers (r, c). */
  predicate Covers(b: Block, row: int, col: int, r: int, c: int) {
    row <= r < row + b.height && col <= c < col + b.width
  }

  /** The footprint lies inside [0, GridSize) on both axes. */
  predicate OnBoard(b: Block, row: int, col: int) {
    0 <= row && 0 <= col && row + b.height <= GridSize && col + b.width <= GridSize
  }

  /** The placement rule: a piece is present, its footprint is on the board,
      and every cell it covers is empty. */
  predicate Fits(g: Grid, block: Option<Block>, row: int, col: int)
    requires IsGrid(g)
  {
    && block.Some?
    && OnBoard(block.value, row, col)
    && forall r, c :: row <= r < row + block.value.height && col <= c < col + block.value.width ==> g[r][c] == Empty
  }

  /** canPlaceBlock: rejects a missing piece and an off-board footprint, then
      scans the footprint row by row for an occupied cell. */
  method CanPlaceBlock(g: Grid, block: Option<Block>, row: int, col: int) returns (ok: bool)
    requires IsGrid(g)
    ensures ok <==> Fits(g, block, row, col)
    ensures block.None? ==> !ok
    ensures block.Some? && !OnBoard(block.value, row, col) ==> !ok
  {
    if block.None? {
      return false;
    }
    var b := block.value;
    if row < 0 || col < 0 || row + b.height > GridSize || col + b.width > GridSize {
      return false;
    }
    var r := 0;
    while r < b.height
      invariant 0 <= r <= b.height
      invariant forall x, y :: row <= x < row + r && col <= y < col + b.width ==> g[x][y] == Empty
    {
      var c := 0;
      while c < b.width
        invariant 0 <= c <= b.width
        invariant forall x, y :: row <= x < row + r && col <= y < col + b.width ==> g[x][y] == Empty
        invariant forall x, y :: x == row + r && col <= y < col + c ==> g[x][y] == Empty
      {
        if g[row + r][col + c] != Empty {
          return false;
        }
        c := c + 1;
      }
      r := r + 1;
    }
    return true;
  }

  /** The grid after writing the piece's colour over its footprint. */
  function Placed(g: Grid, b: Block, row: int, col: int): Grid
    requires IsGrid(g)
  {
    seq(GridSize, r requires 0 <= r < GridSize =>
      seq(GridSize, c requires 0 <= c < GridSize =>
        if Covers(b, row, col, r, c) then b.color else g[r][c]))
  }

  /** The grid write inside placeBlock: a copy of the grid with the piece's
      colour written cell by cell. Emptiness is not checked again. */
  method WriteBlock(g: Grid, b: Block, row: int, col: int) returns (next: Grid)
    requires IsGrid(g) && OnBoard(b, row, col)
    ensures IsGrid(next)
    ensures next == Placed(g, b, row, col)
  {
    next := g;
    var r := 0;
    while r < b.height
      invariant 0 <= r <= b.height
      invariant IsGrid(next)
      invariant forall x, y :: 0 <= x < GridSize && 0 <= y < GridSize ==>
        next[x][y] == if row <= x < row + r && col <= y < col + b.width then b.color else g[x][y]
    {
      var c := 0;
      while c < b.width
        invariant 0 <= c <= b.width
        invariant IsGrid(next)
        invariant forall x, y :: 0 <= x < GridSize && 0 <= y < GridSize ==>
          next[x][y] ==
            if (row <= x < row + r && col <= y < col + b.width) || (x == row + r && col <= y < col + c)
            then b.color else g[x][y]
      {
        next := next[row + r := next[row + r][col + c := b.color]];
        c := c + 1;
      }
      r := r + 1;
    }
    PlacedExt(g, b, row, col, next);
  }

  lemma PlacedExt(g: Grid, b: Block, row: int, col: int, next: Grid)
    requires IsGrid(g) && IsGrid(next)
    requires forall x, y :: 0 <= x < GridSize && 0 <= y < GridSize ==>
      next[x][y] == if Covers(b, row, col, x, y) then b.color else g[x][y]
    ensures next == Placed(g, b, row, col)
  {
    var p := Placed(g, b, row, col);
    forall x | 0 <= x < GridSize
      ensures next[x] == p[x]
    {
    }
  }

  /** Placing writes the colour into exactly the covered cells: the rest of
      the board is untouched and the board keeps its shape. */
  lemma PlacedCells(g: Grid, b: Block, row: int, col: int, r: int, c: int)
    requires IsGrid(g) && 0 <= r < GridSize && 0 <= c < GridSize
    ensures IsGrid(Placed(g, b, row, col))
    ensures Covers(b, row, col, r, c) ==> Placed(g, b, row, col)[r][c] == b.color
    ensures !Covers(b, row, col, r, c) ==> Placed(g, b, row, col)[r][c] == g[r][c]
  {
  }

  // ---------------------------------------------------------------------------
  // Terminal-state detection

  /** Some piece of the tray fits at some top-left cell of the board. */
  predicate AnyFits(g: Grid, tray: seq<Block>)
    requires IsGrid(g)
  {
    exists i, r, c :: 0 <= i < |tray| && 0 <= r < GridSize && 0 <= c < GridSize && Fits(g, Some(tray[i]), r, c)
  }

  /** canPlaceAnyBlock: tries every piece at every cell and stops at the first fit. */
  method CanPlaceAnyBlock(g: Grid, tray: seq<Block>) returns (any: bool)
    requires IsGrid(g)
    ensures any <==> AnyFits(g, tray)
    ensures tray == [] ==> !any
  {
    var i := 0;
    while i < |tray|
      invariant 0 <= i <= |tray|
      invariant forall k, x, y :: 0 <= k < i && 0 <= x < GridSize && 0 <= y < GridSize ==> !Fits(g, Some(tray[k]), x, y)
    {
      var r := 0;
      while r < GridSize
        invariant 0 <= r <= GridSize
        invariant forall k, x, y :: 0 <= k < i && 0 <= x < GridSize && 0 <= y < GridSize ==> !Fits(g, Some(tray[k]), x, y)
        invariant forall x, y :: 0 <= x < r && 0 <= y < GridSize ==> !Fits(g, Some(tray[i]), x, y)
      {
        var c := 0;
        while c < GridSize
          invariant 0 <= c <= GridSize
          invariant forall k, x, y :: 0 <= k < i && 0 <= x < GridSize && 0 <= y < GridSize ==> !Fits(g, Some(tray[k]), x, y)
          invariant forall x, y :: 0 <= x < r && 0 <= y < GridSize ==> !Fits(g, Some(tray[i]), x, y)
          invariant forall y :: 0 <= y < c ==> !Fits(g, Some(tray[i]), r, y)
        {
          var ok := CanPlaceBlock(g, Some(tray[i]), r, c);
          if ok {
            return true;
          }
          c := c + 1;
        }
        r := r + 1;
      }
      i := i + 1;
    }
    return false;
  }

  // ---------------------------------------------------------------------------
  // Row clear, phase 1: find and flash the completed rows

  /** A row counts as completed when its first cell is coloured and every cell
      has that same colour. A flashing row is completed too. */
  predicate RowComplete(row: seq<string>)
    requires |row| == GridSize
  {
    row[0] != Empty && forall c :: 0 <= c < GridSize ==> row[c] == row[0]
  }

  predicate Increasing(s: seq<int>) {
    forall i, j :: 0 <= i < j < |s| ==> s[i] < s[j]
  }

  predicate RowIndices(s: seq<int>) {
    forall i :: 0 <= i < |s| ==> 0 <= s[i] < GridSize
  }

  /** `completed` lists, in increasing order, exactly the completed rows of `g`. */
  predicate IsCompletedList(g: Grid, completed: seq<int>)
    requires IsGrid(g)
  {
    && Increasing(completed)
    && RowIndices(completed)
    && forall r :: 0 <= r < GridSize ==> (r in completed <==> RowComplete(g[r]))
  }

  /** The detection loop of checkCompletedRows: scans the rows top to bottom
      and pushes the index of every completed one. */
  method FindCompletedRows(g: Grid) returns (completed: seq<int>)
    requires IsGrid(g)
    ensures IsCompletedList(g, completed)
  {
    completed := [];
    var r := 0;
    while r < GridSize
      invariant 0 <= r <= GridSize
      invariant Increasing(completed) && RowIndices(completed)
      invariant forall i :: 0 <= i < |completed| ==> completed[i] < r
      invariant forall x :: 0 <= x < r ==> (x in completed <==> RowComplete(g[x]))
      invariant forall x :: x in completed ==> x < r
    {
      var row := g[r];
      var color := row[0];
      if color != Empty && forall c :: 0 <= c < GridSize ==> row[c] == color {
        completed := completed + [r];
      }
      r := r + 1;
    }
  }

  /** The grid with every listed row overwritten by a flashing row. */
  function MarkRows(g: Grid, completed: seq<int>): Grid
    requires IsGrid(g)
  {
    seq(GridSize, r requires 0 <= r < GridSize => if r in completed then Row(Flash) else g[r])
  }

  /** The marking loop of checkCompletedRows: each listed row becomes a
      flashing row; no other row changes. */
  method FlashRows(g: Grid, completed: seq<int>) returns (temp: Grid)
    requires IsGrid(g) && RowIndices(completed)
    ensures IsGrid(temp)
    ensures temp == MarkRows(g, completed)
  {
    temp := g;
    var k := 0;
    while k < |completed|
      invariant 0 <= k <= |completed|
      invariant |temp| == GridSize
      invariant forall r :: 0 <= r < GridSize ==> temp[r] == if r in completed[..k] then Row(Flash) else g[r]
    {
      temp := temp[completed[k] := Row(Flash)];
      assert completed[..k + 1] == completed[..k] + [completed[k]];
      k := k + 1;
    }
    assert completed[..k] == completed;
  }

  /** Flashing rows qualify again: if phase 1 ran a second time before the
      compaction, it would report exactly the same rows. */
  lemma {:induction false} FlashedRowsRequalify(g: Grid, completed: seq<int>)
    requires IsGrid(g) && IsCompletedList(g, completed)
    ensures IsGrid(MarkRows(g, completed))
    ensures IsCompletedList(MarkRows(g, completed), completed)
  {
    var m := MarkRows(g, completed);
    forall r | 0 <= r < GridSize
      ensures r in completed <==> RowComplete(m[r])
    {
      if r in completed {
        assert m[r] == Row(Flash);
      }
    }
  }

  // ---------------------------------------------------------------------------
  // Row clear, phase 2: compaction

  /** `after.splice(idx, 1); after.unshift(empty row)` */
  function Unshifted(g: Grid, idx: int): (after: Grid)
    requires IsGrid(g) && 0 <= idx < GridSize
    ensures IsGrid(after)
  {
    [Row(Empty)] + g[..idx] + g[idx + 1..]
  }

  /** The grid after applying splice-and-unshift for each index of `order`, in order. */
  function CompactAll(g: Grid, order: seq<int>): (after: Grid)
    requires IsGrid(g) && RowIndices(order)
    ensures IsGrid(after)
    decreases |order|
  {
    if order == [] then g
    else Unshifted(CompactAll(g, order[..|order| - 1]), order[|order| - 1])
  }

  /** Sorting the captured indices with `(a, b) => b - a` puts them in strictly
      decreasing order; for the increasing list phase 1 builds, that order is
      the list reversed. */
  lemma {:induction false} DescendingOrder(completed: seq<int>)
    requires Increasing(completed)
    ensures forall i, j :: 0 <= i < j < |completed| ==> Reverse(completed)[i] > Reverse(completed)[j]
    ensures forall x :: x in Reverse(completed) <==> x in completed
  {
    var r := Reverse(completed);
    forall x
      ensures x in r <==> x in completed
    {
      if x in completed {
        var i :| 0 <= i < |completed| && completed[i] == x;
        assert r[|completed| - 1 - i] == x;
      }
    }
  }

  /** The deferred compaction of checkCompletedRows: sort the captured indices
      from highest to lowest, then for each one splice that position out and
      unshift an empty row. */
  method CompactRows(prev: Grid, completed: seq<int>) returns (after: Grid)
    requires IsGrid(prev) && Increasing(completed) && RowIndices(completed)
    ensures IsGrid(after)
    ensures after == CompactAll(prev, Reverse(completed))
  {
    after := prev;
    var order := Reverse(completed);
    var k := 0;
    while k < |order|
      invariant 0 <= k <= |order|
      invariant IsGrid(after)
      invariant after == CompactAll(prev, order[..k])
    {
      var idx := order[k];
      after := after[..idx] + after[idx + 1..];
      after := [Row(Empty)] + after;
      assert order[..k + 1][..k] == order[..k];
      k := k + 1;
    }
    assert order[..k] == order;
  }

  /** For a single completed row i: that row is removed, an empty row enters at
      the top, rows above i move down by one and rows below i stay put. */
  lemma CompactOneRow(g: Grid, i: int)
    requires IsGrid(g) && 0 <= i < GridSize
    ensures var after := CompactAll(g, Reverse([i]));
      && after[0] == Row(Empty)
      && (forall r :: 1 <= r <= i ==> after[r] == g[r - 1])
      && (forall r :: i < r < GridSize ==> after[r] == g[r])
  {
    assert Reverse([i]) == [i];
    assert [i][..0] == [];
    var after := [Row(Empty)] + g[..i] + g[i + 1..];
    assert CompactAll(g, [i]) == Unshifted(g, i) == after;
    assert forall r :: 1 <= r <= i ==> after[r] == g[..i][r - 1];
    assert forall r :: i < r < GridSize ==> after[r] == g[i + 1..][r - i - 1];
  }

  /** Two completed rows i < j: the second splice runs on a grid that has
      already shifted, so it deletes the row that was at i - 1 (or, for i = 0,
      the empty row just inserted) and the flashing row i survives. */
  lemma {:induction false} CompactTwoRows(g: Grid, i: int, j: int)
    requires IsGrid(g) && 0 <= i < j < GridSize
    ensures i > 0 ==>
              CompactAll(g, Reverse([i, j])) == [Row(Empty), Row(Empty)] + g[..i - 1] + g[i..j] + g[j + 1..]
    ensures i == 0 ==> CompactAll(g, Reverse([i, j])) == [Row(Empty)] + g[..j] + g[j + 1..]
  {
    var order := Reverse([i, j]);
    assert order == [j, i];
    assert order[..1] == [j] && order[..1][..0] == [];
    var once := Unshifted(g, j);
    assert CompactAll(g, order[..1]) == once;
    assert once == [Row(Empty)] + g[..j] + g[j + 1..];
    if i > 0 {
      assert once[..i] == [Row(Empty)] + g[..i - 1];
      assert once[i + 1..] == g[i..j] + g[j + 1..];
    } else {
      assert once[1..] == g[..j] + g[j + 1..];
    }
  }

  /** The row-clear scenario with rows 3 and 4 completed: the original row 2
      disappears and the flashing row 3 is still on the board. */
  lemma CompactRowsThreeAndFour(g: Grid)
    requires IsGrid(g)
    ensures var after := CompactAll(g, Reverse([3, 4]));
      && after[0] == Row(Empty) && after[1] == Row(Empty)
      && after[2] == g[0] && after[3] == g[1] && after[4] == g[3]
      && (forall r :: 5 <= r < GridSize ==> after[r] == g[r])
  {
    CompactTwoRows(g, 3, 4);
  }

  // ---------------------------------------------------------------------------
  // Drop resolution

  /** The 3x3 block of cells around `p`, row-major: row offset outer, column
      offset inner, both running -1, 0, 1. */
  function Neighbourhood(p: Cell): (cells: seq<Cell>)
    ensures |cells| == 9
  {
    seq(9, k requires 0 <= k < 9 => Cell(p.row + k / 3 - 1, p.col + k % 3 - 1))
  }

  /** The position in `cands` of the first cell where the piece fits, or
      `|cands|` when there is none. */
  function FirstFitIndex(g: Grid, b: Block, cands: seq<Cell>): (k: nat)
    requires IsGrid(g)
    ensures k <= |cands|
    ensures k < |cands| ==> Fits(g, Some(b), cands[k].row, cands[k].col)
    ensures forall j :: 0 <= j < k ==> !Fits(g, Some(b), cands[j].row, cands[j].col)
  {
    if cands == [] then 0
    else if Fits(g, Some(b), cands[0].row, cands[0].col) then 0
    else 1 + FirstFitIndex(g, b, cands[1..])
  }

  function FirstFit(g: Grid, b: Block, cands: seq<Cell>): Option<Cell>
    requires IsGrid(g)
  {
    var k := FirstFitIndex(g, b, cands);
    if k < |cands| then Some(cands[k]) else None
  }

  /** The fallback search of handleEnd: walks the 3x3 neighbourhood of the
      release cell and stops at the first legal top-left cell. */
  method SearchNeighbourhood(g: Grid, b: Block, pos: Cell) returns (found: Option<Cell>)
    requires IsGrid(g)
    ensures found == FirstFit(g, b, Neighbourhood(pos))
    ensures found.Some? ==> Fits(g, Some(b), found.value.row, found.value.col)
  {
    ghost var cands := Neighbourhood(pos);
    ghost var first := FirstFitIndex(g, b, cands);
    found := None;
    var placed := false;
    var dR: int := -1;
    while dR <= 1 && !placed
      invariant -1 <= dR <= 2
      invariant placed ==> found == FirstFit(g, b, cands)
      invariant !placed ==> found == None && first >= 3 * (dR + 1)
    {
      var dC: int := -1;
      while dC <= 1 && !placed
        invariant -1 <= dC <= 2
        invariant placed ==> found == FirstFit(g, b, cands)
        invariant !placed ==> found == None && first >= 3 * (dR + 1) + (dC + 1)
      {
        var r := pos.row + dR;
        var c := pos.col + dC;
        var legal := false;
        if r >= 0 && c >= 0 && r + b.height <= GridSize && c + b.width <= GridSize {
          legal := CanPlaceBlock(g, Some(b), r, c);
        }
        assert cands[3 * (dR + 1) + (dC + 1)] == Cell(r, c);
        if legal {
          found := Some(Cell(r, c));
          placed := true;
        }
        dC := dC + 1;
      }
      dR := dR + 1;
    }
  }

  /** Where a drop lands: the preview cell if the piece still fits there,
      otherwise the first fit around the release cell, otherwise nowhere. */
  function DropTarget(g: Grid, b: Block, preview: Option<Cell>, release: Option<Cell>): (target: Option<Cell>)
    requires IsGrid(g)
  {
    if preview.Some? && Fits(g, Some(b), preview.value.row, preview.value.col) then preview
    else if release.Some? then FirstFit(g, b, Neighbourhood(release.value))
    else None
  }

  /** A drop only ever lands where the piece fits; the preview wins when it is
      legal, and otherwise the landing cell is the first legal one of the 3x3
      search around the release cell. */
  lemma DropTargetSound(g: Grid, b: Block, preview: Option<Cell>, release: Option<Cell>)
    requires IsGrid(g)
    ensures var t := DropTarget(g, b, preview, release);
      && (t.Some? ==> Fits(g, Some(b), t.value.row, t.value.col))
      && (preview.Some? && Fits(g, Some(b), preview.value.row, preview.value.col) ==> t == preview)
      && (t.Some? && t != preview ==> release.Some? && t.value in Neighbourhood(release.value))
      && (t.None? && release.Some? ==>
            forall k :: 0 <= k < 9 ==>
              !Fits(g, Some(b), Neighbourhood(release.value)[k].row, Neighbourhood(release.value)[k].col))
  {
  }

  // ---------------------------------------------------------------------------
  // Hit-testing

  /** Layout of the rendered board: cell size, gap and padding in pixels. */
  const CellSize: real := 40.0
  const Gap: real := 7.2
  const Padding: real := 16.0

  datatype Point = Point(x: real, y: real)

  /** `Math.round`: the nearest integer, halves rounded up. */
  function Round(x: real): (n: int)
    ensures n as real - 0.5 <= x < n as real + 0.5
  {
    (x + 0.5).Floor
  }

  /** `Math.max(0, Math.min(GRID_SIZE - 1, v))` */
  function Clamp(v: int): (k: int)
    ensures 0 <= k < GridSize
    ensures 0 <= v < GridSize ==> k == v
    ensures v < 0 ==> k == 0
    ensures v >= GridSize ==> k == GridSize - 1
  {
    if v < 0 then 0 else if v > GridSize - 1 then GridSize - 1 else v
  }

  /** The (unclamped) cell index a coordinate relative to the board's corner falls in. */
  function RawIndex(rel: real): int {
    Round((rel - Padding - Gap / 2.0) / (CellSize + Gap))
  }

  /** getGridPosition: no cell while the board is not mounted (`origin` is
      its top-left corner); otherwise the nearest cell, clamped onto the board. */
  function GetGridPosition(client: Point, origin: Option<Point>): (pos: Option<Cell>)
    ensures pos.Some? <==> origin.Some?
    ensures pos.Some? ==> 0 <= pos.value.row < GridSize && 0 <= pos.value.col < GridSize
  {
    if origin.None? then None
    else Some(Cell(Clamp(RawIndex(client.y - origin.value.y)), Clamp(RawIndex(client.x - origin.value.x))))
  }

  /** The hit-test inverts the layout. The measured board element carries
      only the gaps, so cell k is drawn over [k * 47.2, k * 47.2 + 40] from its
      corner; the 16 px padding the code subtracts shifts every index boundary
      into the gap after a cell, so each point of the drawn square still maps
      to k. */
  lemma RawIndexInCell(rel: real, k: int)
    requires 0 <= k < GridSize
    requires k as real * (CellSize + Gap) <= rel <= k as real * (CellSize + Gap) + CellSize
    ensures Clamp(RawIndex(rel)) == k
  {
    var q := (rel - Padding - Gap / 2.0) / (CellSize + Gap);
    assert q * (CellSize + Gap) == rel - Padding - Gap / 2.0;
    assert k as real - 0.5 <= q < k as real + 0.5;
  }

  /** Every point of the drawn square of cell (r, c) maps back to (r, c). */
  lemma GridPositionInCell(origin: Point, client: Point, r: int, c: int)
    requires 0 <= r < GridSize && 0 <= c < GridSize
    requires r as real * (CellSize + Gap) <= client.y - origin.y <= r as real * (CellSize + Gap) + CellSize
    requires c as real * (CellSize + Gap) <= client.x - origin.x <= c as real * (CellSize + Gap) + CellSize
    ensures GetGridPosition(client, Some(origin)) == Some(Cell(r, c))
  {
    RawIndexInCell(client.y - origin.y, r);
    RawIndexInCell(client.x - origin.x, c);
  }
}
