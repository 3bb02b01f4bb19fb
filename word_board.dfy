/** The word-search board's selection: a press starts a path, moving the
    pointer stretches it along the straight line from the start cell, and a
    release reads the letters along the path and reports a word of the list
    that has not been found yet, in either reading direction. */
module WordBoard {
  import opened Common

  /** A cell, as row and column. */
  datatype Pos = Pos(r: int, c: int)

  /** The letter grid the board shows: one string per cell. */
  type Grid = seq<seq<string>>

  /** `grid.length`. */
  function Rows(grid: Grid): nat { |grid| }

  /** `grid[0]?.length ?? 0`. */
  function Cols(grid: Grid): nat { if |grid| == 0 then 0 else |grid[0]| }

  /** Every row has `Cols(grid)` cells. */
  predicate IsRect(grid: Grid) {
    forall r :: 0 <= r < |grid| ==> |grid[r]| == Cols(grid)
  }

  predicate InBounds(p: Pos, rows: nat, cols: nat) {
    0 <= p.r < rows && 0 <= p.c < cols
  }

  predicate AllInBounds(path: seq<Pos>, rows: nat, cols: nat) {
    forall i :: 0 <= i < |path| ==> InBounds(path[i], rows, cols)
  }

  // ---------------------------------------------------------------------------
  // Line geometry

  /** `Math.sign`. */
  function Sign(x: int): (s: int)
    ensures s * x >= 0 && s * x == Abs(x)
    ensures -1 <= s <= 1 && (s == 0 <==> x == 0)
  {
    if x > 0 then 1 else if x < 0 then -1 else 0
  }

  /** `Math.abs`. */
  function Abs(x: int): nat { if x < 0 then -x else x }

  /** The endpoints are distinct and share a row, a column or a diagonal. */
  predicate Aligned(a: Pos, b: Pos) {
    a != b && (a.r == b.r || a.c == b.c || Abs(b.r - a.r) == Abs(b.c - a.c))
  }

  /** The number of steps from `a` to `b` along the longer axis. */
  function Span(a: Pos, b: Pos): nat {
    if Abs(b.r - a.r) >= Abs(b.c - a.c) then Abs(b.r - a.r) else Abs(b.c - a.c)
  }

  /** The cell `i` unit steps from `a` towards `b`. */
  function LinePoint(a: Pos, b: Pos, i: int): Pos {
    Pos(a.r + Sign(b.r - a.r) * i, a.c + Sign(b.c - a.c) * i)
  }

  /** A unit step and the number of cells of a straight line. */
  datatype Line = Line(stepR: int, stepC: int, len: nat)

  /** The alignment checks of getLineCells: horizontal, vertical, diagonal,
      or no line at all. */
  function Alignment(a: Pos, b: Pos): (line: Option<Line>)
    ensures line.Some? <==> Aligned(a, b)
    ensures line.Some? ==>
      line.value == Line(Sign(b.r - a.r), Sign(b.c - a.c), Span(a, b) + 1) &&
      LinePoint(a, b, Span(a, b)) == b
  {
    var dr, dc := b.r - a.r, b.c - a.c;
    if dr == 0 && dc != 0 then Some(Line(0, Sign(dc), Abs(dc) + 1))
    else if dc == 0 && dr != 0 then Some(Line(Sign(dr), 0, Abs(dr) + 1))
    else if Abs(dr) == Abs(dc) && dr != 0 then Some(Line(Sign(dr), Sign(dc), Abs(dr) + 1))
    else None
  }

  /** The cells `a + step * i` for `i` below the line's length. */
  function Walk(a: Pos, line: Line): (cells: seq<Pos>)
    ensures |cells| == line.len
  {
    seq(line.len, i => Pos(a.r + line.stepR * i, a.c + line.stepC * i))
  }

  /** What getLineCells returns: the straight path between two cells, or
      `[]` for a missing endpoint, a misaligned pair or a path that leaves the
      grid. */
  function LineCells(a: Option<Pos>, b: Option<Pos>, rows: nat, cols: nat): (cells: seq<Pos>)
    ensures AllInBounds(cells, rows, cols)
  {
    if a.None? || b.None? then []
    else match Alignment(a.value, b.value)
      case None => []
      case Some(line) =>
        var cells := Walk(a.value, line);
        if AllInBounds(cells, rows, cols) then cells else []
  }

  /** getLineCells: derives the step, then walks the line, giving up with
      `[]` as soon as a cell lies outside the grid. */
  method GetLineCells(a: Option<Pos>, b: Option<Pos>, rows: nat, cols: nat) returns (cells: seq<Pos>)
    ensures cells == LineCells(a, b, rows, cols)
  {
    if a.None? || b.None? {
      return [];
    }
    var dr := b.value.r - a.value.r;
    var dc := b.value.c - a.value.c;
    var stepR, stepC, len := 0, 0, 0;
    if dr == 0 && dc != 0 {
      stepR, stepC, len := 0, Sign(dc), Abs(dc) + 1;
    } else if dc == 0 && dr != 0 {
      stepR, stepC, len := Sign(dr), 0, Abs(dr) + 1;
    } else if Abs(dr) == Abs(dc) && dr != 0 {
      stepR, stepC, len := Sign(dr), Sign(dc), Abs(dr) + 1;
    } else {
      return [];
    }
    assert Alignment(a.value, b.value) == Some(Line(stepR, stepC, len));
    cells := WalkLine(a.value, Line(stepR, stepC, len), rows, cols);
  }

  /** The walk of getLineCells along a derived line: the cells in order, or
      `[]` as soon as one lies outside the grid. */
  method WalkLine(a: Pos, line: Line, rows: nat, cols: nat) returns (cells: seq<Pos>)
    ensures cells == if AllInBounds(Walk(a, line), rows, cols) then Walk(a, line) else []
  {
    ghost var walk := Walk(a, line);
    cells := [];
    var i := 0;
    while i < line.len
      invariant 0 <= i <= line.len
      invariant cells == walk[..i]
      invariant AllInBounds(cells, rows, cols)
    {
      var r := a.r + line.stepR * i;
      var c := a.c + line.stepC * i;
      if r < 0 || r >= rows || c < 0 || c >= cols {
        assert !InBounds(walk[i], rows, cols);
        return [];
      }
      cells := cells + [Pos(r, c)];
      i := i + 1;
    }
    assert cells == walk;
  }

  /** getLineCells is the straight path from `a` to `b` when both exist, are
      aligned and the whole path lies in the grid, and `[]` otherwise. */
  lemma LineCellsCharacterised(a: Option<Pos>, b: Option<Pos>, rows: nat, cols: nat)
    ensures LineCells(a, b, rows, cols) ==
      if a.Some? && b.Some? && Aligned(a.value, b.value) &&
         (forall i :: 0 <= i <= Span(a.value, b.value) ==> InBounds(LinePoint(a.value, b.value, i), rows, cols))
      then seq(Span(a.value, b.value) + 1, i => LinePoint(a.value, b.value, i))
      else []
  {
    if a.Some? && b.Some? && Aligned(a.value, b.value) {
      var line := Alignment(a.value, b.value).value;
      var walk := Walk(a.value, line);
      assert forall i :: 0 <= i < |walk| ==> walk[i] == LinePoint(a.value, b.value, i);
    }
  }

  /** A non-empty path runs from `a` to `b` in `Span + 1` cells, moving by
      one constant unit step that is not zero, and stays in the grid. */
  lemma LineCellsShape(a: Option<Pos>, b: Option<Pos>, rows: nat, cols: nat)
    requires LineCells(a, b, rows, cols) != []
    ensures a.Some? && b.Some? && Aligned(a.value, b.value)
    ensures var cells := LineCells(a, b, rows, cols);
      var sr, sc := Sign(b.value.r - a.value.r), Sign(b.value.c - a.value.c);
      && cells[0] == a.value
      && cells[|cells| - 1] == b.value
      && |cells| == Span(a.value, b.value) + 1
      && -1 <= sr <= 1 && -1 <= sc <= 1 && (sr, sc) != (0, 0)
      && (forall i :: 0 <= i < |cells| - 1 ==> cells[i + 1] == Pos(cells[i].r + sr, cells[i].c + sc))
      && AllInBounds(cells, rows, cols)
  {
    var line := Alignment(a.value, b.value).value;
    var cells := LineCells(a, b, rows, cols);
    assert cells == Walk(a.value, line);
  }

  // ---------------------------------------------------------------------------
  // Reading and matching

  predicate OnGrid(grid: Grid, p: Pos) {
    0 <= p.r < |grid| && 0 <= p.c < |grid[p.r]|
  }

  predicate PathOnGrid(grid: Grid, path: seq<Pos>) {
    forall i :: 0 <= i < |path| ==> OnGrid(grid, path[i])
  }

  /** lettersFromPath: the cells' strings joined in path order. */
  function LettersFromPath(grid: Grid, path: seq<Pos>): (s: string)
    requires PathOnGrid(grid, path)
    ensures |path| == 0 ==> s == ""
    ensures SingleLetters(grid, path) ==> |s| == |path|
    decreases |path|
  {
    if path == [] then ""
    else LettersFromPath(grid, path[..|path| - 1]) + grid[path[|path| - 1].r][path[|path| - 1].c]
  }

  /** Every cell on the path holds exactly one letter, as in generated grids. */
  predicate SingleLetters(grid: Grid, path: seq<Pos>)
    requires PathOnGrid(grid, path)
  {
    forall i :: 0 <= i < |path| ==> |grid[path[i].r][path[i].c]| == 1
  }

  /** With one letter per cell, the `i`th letter read is the letter of the
      `i`th cell. */
  lemma {:induction false} LettersFromPathAt(grid: Grid, path: seq<Pos>)
    requires PathOnGrid(grid, path) && SingleLetters(grid, path)
    ensures |LettersFromPath(grid, path)| == |path|
    ensures forall i :: 0 <= i < |path| ==> LettersFromPath(grid, path)[i] == grid[path[i].r][path[i].c][0]
    decreases |path|
  {
    if path != [] {
      var init := path[..|path| - 1];
      assert PathOnGrid(grid, init) && SingleLetters(grid, init) by {
        assert forall i :: 0 <= i < |init| ==> init[i] == path[i];
      }
      LettersFromPathAt(grid, init);
      var read, before := LettersFromPath(grid, path), LettersFromPath(grid, init);
      var last := grid[path[|path| - 1].r][path[|path| - 1].c];
      assert read == before + last && |last| == 1;
      forall i | 0 <= i < |path|
        ensures read[i] == grid[path[i].r][path[i].c][0]
      {
        if i < |init| {
          assert read[i] == before[i] && init[i] == path[i];
        }
      }
    }
  }

  /** Reading the reversed path yields the reversed word. */
  lemma LettersReverse(grid: Grid, path: seq<Pos>)
    requires PathOnGrid(grid, path) && SingleLetters(grid, path)
    ensures PathOnGrid(grid, Reverse(path)) && SingleLetters(grid, Reverse(path))
    ensures LettersFromPath(grid, Reverse(path)) == Reverse(LettersFromPath(grid, path))
  {
    var rev := Reverse(path);
    forall i | 0 <= i < |rev|
      ensures OnGrid(grid, rev[i]) && |grid[rev[i].r][rev[i].c]| == 1
    {
      assert rev[i] == path[|path| - 1 - i];
    }
    LettersFromPathAt(grid, path);
    LettersFromPathAt(grid, rev);
    var forward, backward := LettersFromPath(grid, path), LettersFromPath(grid, rev);
    forall i | 0 <= i < |backward|
      ensures backward[i] == Reverse(forward)[i]
    {
      assert backward[i] == grid[rev[i].r][rev[i].c][0];
      assert forward[|path| - 1 - i] == grid[path[|path| - 1 - i].r][path[|path| - 1 - i].c][0];
    }
    assert backward == Reverse(forward);
  }

  /** A word reported by a release, with the path spelling it. */
  datatype Match = Match(word: string, path: seq<Pos>)

  /** The word finalizeSelection would accept before the found-words check:
      the forward reading if it is a listed word, else the backward reading
      if that is. */
  function Matched(words: seq<string>, forward: string, backward: string): (m: Option<string>)
    ensures m.Some? <==> forward in words || backward in words
    ensures forward in words ==> m == Some(forward)
    ensures forward !in words && backward in words ==> m == Some(backward)
  {
    if forward in words then Some(forward)
    else if backward in words then Some(backward)
    else None
  }

  /** The report of finalizeSelection for a non-empty path: a listed word that
      is not found yet (a JavaScript empty string counts as no match), with the
      path turned so that it reads the word. */
  function FinalizeMatch(grid: Grid, words: seq<string>, foundWords: seq<string>, path: seq<Pos>): (m: Option<Match>)
    requires PathOnGrid(grid, path)
    ensures m.Some? ==>
      && m.value.word in words && m.value.word !in foundWords && m.value.word != ""
      && (m.value.path == path || m.value.path == Reverse(path))
  {
    var forward := LettersFromPath(grid, path);
    assert PathOnGrid(grid, Reverse(path)) by {
      assert forall i :: 0 <= i < |path| ==> Reverse(path)[i] == path[|path| - 1 - i];
    }
    var backward := LettersFromPath(grid, Reverse(path));
    var matched := Matched(words, forward, backward);
    if matched.Some? && matched.value != "" && matched.value !in foundWords then
      Some(Match(matched.value, if matched.value == forward then path else Reverse(path)))
    else None
  }

  /** A reported word is listed, not yet found, and spelled by the reported
      path, which is the selected path or its reverse; the forward reading
      wins when both readings are listed; and a word is reported exactly when
      the reading chosen is a non-empty listed word not found yet. */
  lemma FinalizeMatchSound(grid: Grid, words: seq<string>, foundWords: seq<string>, path: seq<Pos>)
    requires PathOnGrid(grid, path)
    ensures PathOnGrid(grid, Reverse(path))
    ensures var m := FinalizeMatch(grid, words, foundWords, path);
      var forward := LettersFromPath(grid, path);
      var backward := LettersFromPath(grid, Reverse(path));
      && (m.Some? ==>
            && PathOnGrid(grid, m.value.path)
            && LettersFromPath(grid, m.value.path) == m.value.word)
      && (forward in words ==> (m.Some? <==> forward != "" && forward !in foundWords))
      && (forward in words && m.Some? ==> m.value == Match(forward, path))
      && (forward !in words ==> (m.Some? <==> backward in words && backward != "" && backward !in foundWords))
  {
    assert forall i :: 0 <= i < |path| ==> Reverse(path)[i] == path[|path| - 1 - i];
  }

  // ---------------------------------------------------------------------------
  // The selection state machine

  class Selection {
    /** The grid the board shows. */
    const grid: Grid
    var start: Option<Pos>
    var hover: Option<Pos>
    var activePath: seq<Pos>

    ghost predicate Valid()
      reads this
    {
      IsRect(grid) && AllInBounds(activePath, Rows(grid), Cols(grid))
    }

    /** The board before any press: nothing selected. */
    constructor (grid: Grid)
      requires IsRect(grid)
      ensures Valid()
      ensures this.grid == grid && start == None && hover == None && activePath == []
    {
      this.grid := grid;
      start := None;
      hover := None;
      activePath := [];
    }

    /** handleMouseDown: a one-cell path at the pressed cell. */
    method HandleMouseDown(r: int, c: int)
      requires Valid() && InBounds(Pos(r, c), Rows(grid), Cols(grid))
      modifies this
      ensures Valid()
      ensures start == Some(Pos(r, c)) && hover == Some(Pos(r, c)) && activePath == [Pos(r, c)]
    {
      start := Some(Pos(r, c));
      hover := Some(Pos(r, c));
      activePath := [Pos(r, c)];
    }

    /** handleMouseEnter: without a press nothing happens; otherwise the path
        becomes the line from the start cell to the entered one. */
    method HandleMouseEnter(r: int, c: int)
      requires Valid()
      modifies this
      ensures Valid()
      ensures start == old(start)
      ensures old(start).None? ==> hover == old(hover) && activePath == old(activePath)
      ensures old(start).Some? ==>
        hover == Some(Pos(r, c)) && activePath == LineCells(start, Some(Pos(r, c)), Rows(grid), Cols(grid))
    {
      if start.None? {
        return;
      }
      var p := GetLineCells(start, Some(Pos(r, c)), |grid|, Cols(grid));
      hover := Some(Pos(r, c));
      activePath := p;
    }

    /** handleMouseUp, that is finalizeSelection on the active path. An empty
        path is ignored and the selection stays; otherwise the match (what
        onWordFound receives) is returned and the selection is cleared. */
    method HandleMouseUp(words: seq<string>, foundWords: seq<string>) returns (found: Option<Match>)
      requires Valid()
      modifies this
      ensures Valid()
      ensures old(activePath) == [] ==>
        found == None && start == old(start) && hover == old(hover) && activePath == []
      ensures old(activePath) != [] ==>
        && PathOnGrid(grid, old(activePath))
        && found == FinalizeMatch(grid, words, foundWords, old(activePath))
        && start == None && hover == None && activePath == []
    {
      if activePath == [] {
        return None;
      }
      assert PathOnGrid(grid, activePath) by {
        forall i | 0 <= i < |activePath|
          ensures OnGrid(grid, activePath[i])
        {
          assert InBounds(activePath[i], Rows(grid), Cols(grid));
        }
      }
      found := FinalizeMatch(grid, words, foundWords, activePath);
      start := None;
      hover := None;
      activePath := [];
    }

    /** The board's onMouseLeave: the selection is cancelled. */
    method HandleMouseLeave()
      requires Valid()
      modifies this
      ensures Valid()
      ensures start == None && hover == None && activePath == []
    {
      start := None;
      hover := None;
      activePath := [];
    }
  }
}
