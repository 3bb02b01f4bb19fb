/** The word-search generator: words are laid into a size x size grid of
    one-letter strings along one of four directions, retrying random
    candidates a bounded number of times, and the remaining blanks are filled
    with random capital letters. The grid is a two-dimensional array updated
    in place; its contents are specified by functions on sequences. */
module WordGrid {
  import opened Common

  const Letters: string := "ABCDEFGHIJKLMNOPQRSTUVWXYZ"
  /** Right, down, down-right and up-right, as (row step, column step). */
  const Directions: seq<(int, int)> := [(0, 1), (1, 0), (1, 1), (-1, 1)]
  /** The number of candidates tried per word before it is skipped. */
  const MaxTries: nat := 2000
  /** The contents of a cell no word has claimed. */
  const Blank: string := ""

  /** The rolls one placement attempt draws: row, column and direction. */
  datatype Candidate = Candidate(row: Roll, col: Roll, dir: Roll)

  /** A start cell and a step. */
  datatype Placement = Placement(r: int, c: int, dr: int, dc: int)

  /** The attempt a candidate's rolls select. */
  function Decode(cand: Candidate, size: nat): (p: Placement)
    ensures (p.dr, p.dc) in Directions
    ensures size > 0 ==> 0 <= p.r < size && 0 <= p.c < size
  {
    var (dr, dc) := Directions[Pick(cand.dir, |Directions|)];
    Placement(Pick(cand.row, size), Pick(cand.col, size), dr, dc)
  }

  function RowAt(p: Placement, i: int): int { p.r + p.dr * i }
  function ColAt(p: Placement, i: int): int { p.c + p.dc * i }

  type Grid = seq<seq<string>>

  predicate IsSquare(g: Grid, size: nat) {
    |g| == size && forall r :: 0 <= r < size ==> |g[r]| == size
  }

  predicate InGrid(size: nat, r: int, c: int) {
    0 <= r < size && 0 <= c < size
  }

  function BlankGrid(size: nat): (g: Grid)
    ensures IsSquare(g, size)
    ensures forall r, c :: InGrid(size, r, c) ==> g[r][c] == Blank
  {
    seq(size, _ => seq(size, _ => Blank))
  }

  /** The array holds exactly the contents `g`. */
  ghost predicate Holds(a: array2<string>, g: Grid)
    reads a
  {
    && IsSquare(g, a.Length0) && a.Length1 == a.Length0
    && forall r, c :: InGrid(a.Length0, r, c) ==> a[r, c] == g[r][c]
  }

  // ---------------------------------------------------------------------------
  // Laying one word

  /** canPlace: every letter position stays inside the grid and holds either
      nothing or that same letter, so crossing words may share letters. */
  predicate Fits(g: Grid, size: nat, word: string, p: Placement)
    requires IsSquare(g, size)
  {
    forall i :: 0 <= i < |word| ==>
      InGrid(size, RowAt(p, i), ColAt(p, i)) &&
      (g[RowAt(p, i)][ColAt(p, i)] == Blank || g[RowAt(p, i)][ColAt(p, i)] == [word[i]])
  }

  method CanPlace(grid: array2<string>, ghost g: Grid, size: nat, word: string, p: Placement) returns (ok: bool)
    requires grid.Length0 == size && Holds(grid, g)
    ensures ok <==> Fits(g, size, word, p)
  {
    var i := 0;
    while i < |word|
      invariant 0 <= i <= |word|
      invariant forall k :: 0 <= k < i ==>
        InGrid(size, RowAt(p, k), ColAt(p, k)) &&
        (g[RowAt(p, k)][ColAt(p, k)] == Blank || g[RowAt(p, k)][ColAt(p, k)] == [word[k]])
    {
      var nr := p.r + p.dr * i;
      var nc := p.c + p.dc * i;
      assert nr == RowAt(p, i) && nc == ColAt(p, i);
      if nr < 0 || nr >= size || nc < 0 || nc >= size {
        return false;
      }
      var cell := grid[nr, nc];
      if cell != Blank && cell != [word[i]] {
        return false;
      }
      i := i + 1;
    }
    return true;
  }

  /** The grid after the first `n` letters of `word` are written along `p`. */
  function Written(g: Grid, size: nat, word: string, p: Placement, n: nat): (w: Grid)
    requires IsSquare(g, size) && n <= |word|
    requires forall i :: 0 <= i < n ==> InGrid(size, RowAt(p, i), ColAt(p, i))
    ensures IsSquare(w, size)
    decreases n
  {
    if n == 0 then g
    else
      var w := Written(g, size, word, p, n - 1);
      var r, c := RowAt(p, n - 1), ColAt(p, n - 1);
      assert InGrid(size, r, c);
      w[r := w[r][c := [word[n - 1]]]]
  }

  /** No cell that already held a letter is changed. */
  ghost predicate KeepsLetters(g: Grid, h: Grid, size: nat)
    requires IsSquare(g, size) && IsSquare(h, size)
  {
    forall r, c :: InGrid(size, r, c) && g[r][c] != Blank ==> h[r][c] == g[r][c]
  }

  /** `word` can be read along `p`. */
  ghost predicate Readable(g: Grid, size: nat, word: string, p: Placement)
    requires IsSquare(g, size)
  {
    forall i :: 0 <= i < |word| ==>
      InGrid(size, RowAt(p, i), ColAt(p, i)) && g[RowAt(p, i)][ColAt(p, i)] == [word[i]]
  }

  /** Writing a word that fits only fills blanks or rewrites a letter with
      itself, and cells off its line are untouched. */
  lemma {:induction false} WrittenFrame(g: Grid, size: nat, word: string, p: Placement, n: nat)
    requires IsSquare(g, size) && n <= |word| && Fits(g, size, word, p)
    ensures KeepsLetters(g, Written(g, size, word, p, n), size)
    ensures forall r, c :: InGrid(size, r, c) && (forall i :: 0 <= i < n ==> (RowAt(p, i), ColAt(p, i)) != (r, c)) ==>
      Written(g, size, word, p, n)[r][c] == g[r][c]
  {
    if n > 0 {
      WrittenFrame(g, size, word, p, n - 1);
      var w := Written(g, size, word, p, n - 1);
      var h := Written(g, size, word, p, n);
      forall r, c | InGrid(size, r, c) && g[r][c] != Blank
        ensures h[r][c] == g[r][c]
      {
        if (r, c) == (RowAt(p, n - 1), ColAt(p, n - 1)) {
          assert g[r][c] == [word[n - 1]];
        }
      }
    }
  }

  /** Along a direction of the table the positions of different letters differ. */
  lemma DistinctPositions(p: Placement, i: int, j: int)
    requires (p.dr, p.dc) in Directions && i != j
    ensures (RowAt(p, i), ColAt(p, i)) != (RowAt(p, j), ColAt(p, j))
  {
  }

  /** After writing, the first `n` letters of the word are on its line. */
  lemma {:induction false} WrittenReadable(g: Grid, size: nat, word: string, p: Placement, n: nat)
    requires IsSquare(g, size) && n <= |word| && Fits(g, size, word, p) && (p.dr, p.dc) in Directions
    ensures forall i :: 0 <= i < n ==>
      Written(g, size, word, p, n)[RowAt(p, i)][ColAt(p, i)] == [word[i]]
  {
    if n > 0 {
      WrittenReadable(g, size, word, p, n - 1);
      forall i | 0 <= i < n - 1
        ensures Written(g, size, word, p, n)[RowAt(p, i)][ColAt(p, i)] == [word[i]]
      {
        DistinctPositions(p, i, n - 1);
      }
    }
  }

  // ---------------------------------------------------------------------------
  // Retrying candidates

  /** The first attempt, among candidates `k` up to the try limit, whose word fits. */
  function FirstPlacement(g: Grid, size: nat, word: string, cands: seq<Candidate>, k: nat): (found: Option<Placement>)
    requires IsSquare(g, size)
    ensures found.Some? ==> Fits(g, size, word, found.value) && (found.value.dr, found.value.dc) in Directions
    ensures found.Some? ==>
      exists j :: k <= j < |cands| && j < MaxTries && found.value == Decode(cands[j], size) &&
        forall i :: k <= i < j ==> !Fits(g, size, word, Decode(cands[i], size))
    ensures found.None? ==> forall j :: k <= j < |cands| && j < MaxTries ==> !Fits(g, size, word, Decode(cands[j], size))
    decreases |cands| - k
  {
    if k >= |cands| || k >= MaxTries then None
    else if Fits(g, size, word, Decode(cands[k], size)) then Some(Decode(cands[k], size))
    else FirstPlacement(g, size, word, cands, k + 1)
  }

  /** The grid after place(word): the first fitting attempt is written, or,
      when every attempt fails, the word is skipped and nothing changes. */
  function PlaceWord(g: Grid, size: nat, word: string, cands: seq<Candidate>): (h: Grid)
    requires IsSquare(g, size)
    ensures IsSquare(h, size)
  {
    match FirstPlacement(g, size, word, cands, 0)
    case None => g
    case Some(p) => Written(g, size, word, p, |word|)
  }

  /** place either skips the word, leaving the grid as it was after all
      attempts failed, or lays it along a table direction where it fits: the
      word is then readable, cells off its line are untouched and no letter
      placed earlier is overwritten. */
  lemma PlaceWordOutcome(g: Grid, size: nat, word: string, cands: seq<Candidate>)
    requires IsSquare(g, size)
    ensures KeepsLetters(g, PlaceWord(g, size, word, cands), size)
    ensures FirstPlacement(g, size, word, cands, 0).None? ==>
      PlaceWord(g, size, word, cands) == g &&
      forall j :: 0 <= j < |cands| && j < MaxTries ==> !Fits(g, size, word, Decode(cands[j], size))
    ensures FirstPlacement(g, size, word, cands, 0).Some? ==>
      var p := FirstPlacement(g, size, word, cands, 0).value;
      var h := PlaceWord(g, size, word, cands);
      && (p.dr, p.dc) in Directions
      && Readable(h, size, word, p)
      && forall r, c :: InGrid(size, r, c) && (forall i :: 0 <= i < |word| ==> (RowAt(p, i), ColAt(p, i)) != (r, c)) ==>
           h[r][c] == g[r][c]
  {
    var found := FirstPlacement(g, size, word, cands, 0);
    if found.Some? {
      WrittenFrame(g, size, word, found.value, |word|);
      PlaceWordReadable(g, size, word, cands, found.value);
    }
  }

  /** Writes `word` along `p` (the inner loop of place). */
  method WriteWord(grid: array2<string>, ghost g: Grid, size: nat, word: string, p: Placement)
    requires grid.Length0 == size && Holds(grid, g) && Fits(g, size, word, p)
    modifies grid
    ensures Holds(grid, Written(g, size, word, p, |word|))
  {
    var i := 0;
    while i < |word|
      invariant 0 <= i <= |word|
      invariant Holds(grid, Written(g, size, word, p, i))
    {
      assert InGrid(size, RowAt(p, i), ColAt(p, i));
      grid[p.r + p.dr * i, p.c + p.dc * i] := [word[i]];
      i := i + 1;
    }
  }

  /** place: draws up to 2000 candidates and writes the word at the first one
      where it fits. */
  method Place(grid: array2<string>, ghost g: Grid, size: nat, word: string, cands: seq<Candidate>)
    requires grid.Length0 == size && Holds(grid, g)
    requires |cands| >= MaxTries
    modifies grid
    ensures Holds(grid, PlaceWord(g, size, word, cands))
  {
    var placed := false;
    var guard := 0;
    while !placed && guard < MaxTries
      invariant 0 <= guard <= MaxTries
      invariant !placed ==> Holds(grid, g) && FirstPlacement(g, size, word, cands, guard) == FirstPlacement(g, size, word, cands, 0)
      invariant placed ==> Holds(grid, PlaceWord(g, size, word, cands))
    {
      var cand := cands[guard];
      guard := guard + 1;
      var r := Pick(cand.row, size);
      var c := Pick(cand.col, size);
      var (dr, dc) := Directions[Pick(cand.dir, |Directions|)];
      var p := Placement(r, c, dr, dc);
      assert p == Decode(cand, size);
      var ok := CanPlace(grid, g, size, word, p);
      if !ok {
        continue;
      }
      WriteWord(grid, g, size, word, p);
      placed := true;
    }
  }

  // ---------------------------------------------------------------------------
  // The whole generator

  /** The grid after `words.forEach(place)` has handled the first `n`
      words, one candidate stream per word. */
  function PlaceAll(g: Grid, size: nat, words: seq<string>, cands: seq<seq<Candidate>>, n: nat): (h: Grid)
    requires IsSquare(g, size) && |cands| == |words| && n <= |words|
    ensures IsSquare(h, size)
    decreases n
  {
    if n == 0 then g
    else PlaceWord(PlaceAll(g, size, words, cands, n - 1), size, words[n - 1], cands[n - 1])
  }

  /** One roll per cell of a size x size grid. */
  predicate FillRolls(fill: seq<seq<Roll>>, size: nat) {
    && |fill| == size
    && forall r :: 0 <= r < size ==> |fill[r]| == size
  }

  /** The fill pass: every blank receives the letter its roll selects. */
  function Filled(g: Grid, size: nat, fill: seq<seq<Roll>>): (h: Grid)
    requires IsSquare(g, size) && FillRolls(fill, size)
    ensures IsSquare(h, size)
    ensures forall r, c :: InGrid(size, r, c) ==>
      && h[r][c] != Blank
      && (g[r][c] != Blank ==> h[r][c] == g[r][c])
      && (g[r][c] == Blank ==> |h[r][c]| == 1 && h[r][c][0] in Letters)
  {
    seq(size, r requires 0 <= r < size =>
      seq(size, c requires 0 <= c < size =>
        if g[r][c] == Blank then [Letters[Pick(fill[r][c], |Letters|)]] else g[r][c]))
  }

  /** Every word that place laid is still readable in the finished grid:
      neither later words nor the fill pass overwrite a letter. */
  lemma PlacedWordsStayReadable(size: nat, words: seq<string>, cands: seq<seq<Candidate>>, fill: seq<seq<Roll>>, w: nat)
    requires |cands| == |words|
    requires FillRolls(fill, size) && w < |words|
    ensures var found := FirstPlacement(PlaceAll(BlankGrid(size), size, words, cands, w), size, words[w], cands[w], 0);
      found.Some? ==>
        Readable(Filled(PlaceAll(BlankGrid(size), size, words, cands, |words|), size, fill), size, words[w], found.value)
  {
    var found := FirstPlacement(PlaceAll(BlankGrid(size), size, words, cands, w), size, words[w], cands[w], 0);
    if found.Some? {
      var after := PlaceAll(BlankGrid(size), size, words, cands, |words|);
      LaidReadable(size, words, cands, w, found.value);
      ReadableLater(size, words, cands, w, found.value, |words|);
      ReadableKept(after, Filled(after, size, fill), size, words[w], found.value);
    }
  }

  /** A word that can be read stays readable when no letter is overwritten. */
  lemma ReadableKept(g: Grid, h: Grid, size: nat, word: string, p: Placement)
    requires IsSquare(g, size) && IsSquare(h, size)
    requires Readable(g, size, word, p) && KeepsLetters(g, h, size)
    ensures Readable(h, size, word, p)
  {
    forall i | 0 <= i < |word|
      ensures InGrid(size, RowAt(p, i), ColAt(p, i)) && h[RowAt(p, i)][ColAt(p, i)] == [word[i]]
    {
      assert g[RowAt(p, i)][ColAt(p, i)] == [word[i]];
    }
  }

  /** The word place lays is readable where it was laid. */
  lemma PlaceWordReadable(g: Grid, size: nat, word: string, cands: seq<Candidate>, p: Placement)
    requires IsSquare(g, size)
    requires FirstPlacement(g, size, word, cands, 0) == Some(p)
    ensures Readable(PlaceWord(g, size, word, cands), size, word, p)
  {
    WrittenReadable(g, size, word, p, |word|);
  }

  /** place never overwrites a letter. */
  lemma PlaceWordKeeps(g: Grid, size: nat, word: string, cands: seq<Candidate>)
    requires IsSquare(g, size)
    ensures KeepsLetters(g, PlaceWord(g, size, word, cands), size)
  {
    PlaceWordOutcome(g, size, word, cands);
  }

  lemma KeepsLettersTrans(f: Grid, g: Grid, h: Grid, size: nat)
    requires IsSquare(f, size) && IsSquare(g, size) && IsSquare(h, size)
    requires KeepsLetters(f, g, size) && KeepsLetters(g, h, size)
    ensures KeepsLetters(f, h, size)
  {
  }

  /** Laying further words never overwrites a letter: steps `m` to `n` of
      `words.forEach` keep every letter present after step `m`. */
  lemma {:induction false} PlaceAllKeeps(g: Grid, size: nat, words: seq<string>, cands: seq<seq<Candidate>>, m: nat, n: nat)
    requires IsSquare(g, size) && |cands| == |words| && m <= n <= |words|
    ensures KeepsLetters(PlaceAll(g, size, words, cands, m), PlaceAll(g, size, words, cands, n), size)
    decreases n
  {
    if m < n {
      PlaceAllKeeps(g, size, words, cands, m, n - 1);
      var prev := PlaceAll(g, size, words, cands, n - 1);
      PlaceWordKeeps(prev, size, words[n - 1], cands[n - 1]);
      KeepsLettersTrans(PlaceAll(g, size, words, cands, m), prev, PlaceAll(g, size, words, cands, n), size);
    }
  }

  /** The word laid at step `w` is readable right after that step. */
  lemma LaidReadable(size: nat, words: seq<string>, cands: seq<seq<Candidate>>, w: nat, p: Placement)
    requires |cands| == |words| && w < |words|
    requires FirstPlacement(PlaceAll(BlankGrid(size), size, words, cands, w), size, words[w], cands[w], 0) == Some(p)
    ensures Readable(PlaceAll(BlankGrid(size), size, words, cands, w + 1), size, words[w], p)
  {
    PlaceWordReadable(PlaceAll(BlankGrid(size), size, words, cands, w), size, words[w], cands[w], p);
  }

  /** The word laid at step `w` is readable after every later step `n`. */
  lemma ReadableLater(size: nat, words: seq<string>, cands: seq<seq<Candidate>>, w: nat, p: Placement, n: nat)
    requires |cands| == |words|
    requires w < n <= |words|
    requires Readable(PlaceAll(BlankGrid(size), size, words, cands, w + 1), size, words[w], p)
    ensures Readable(PlaceAll(BlankGrid(size), size, words, cands, n), size, words[w], p)
  {
    PlaceAllKeeps(BlankGrid(size), size, words, cands, w + 1, n);
    ReadableKept(PlaceAll(BlankGrid(size), size, words, cands, w + 1), PlaceAll(BlankGrid(size), size, words, cands, n), size, words[w], p);
  }

  /** The fill loops: visit every cell row by row and give each blank one the
      letter its roll selects. */
  method FillBlanks(grid: array2<string>, ghost g: Grid, size: nat, fill: seq<seq<Roll>>)
    requires grid.Length0 == size && Holds(grid, g)
    requires FillRolls(fill, size)
    modifies grid
    ensures Holds(grid, Filled(g, size, fill))
  {
    ghost var target := Filled(g, size, fill);
    var r := 0;
    while r < size
      invariant 0 <= r <= size
      invariant forall x, y :: InGrid(size, x, y) ==> grid[x, y] == if x < r then target[x][y] else g[x][y]
    {
      var c := 0;
      while c < size
        invariant 0 <= c <= size
        invariant forall x, y :: InGrid(size, x, y) ==>
          grid[x, y] == if x < r || (x == r && y < c) then target[x][y] else g[x][y]
      {
        if grid[r, c] == Blank {
          grid[r, c] := [Letters[Pick(fill[r][c], |Letters|)]];
        }
        c := c + 1;
      }
      r := r + 1;
    }
  }

  /** Candidate streams for every word, each long enough for the guard. */
  predicate Streams(words: seq<string>, cands: seq<seq<Candidate>>) {
    |cands| == |words| && forall w :: 0 <= w < |cands| ==> |cands[w]| >= MaxTries
  }

  /** One step of `words.forEach`: place the next word. */
  method PlaceNext(grid: array2<string>, ghost g: Grid, size: nat, words: seq<string>, cands: seq<seq<Candidate>>, w: nat)
    requires grid.Length0 == size && IsSquare(g, size) && Streams(words, cands) && w < |words|
    requires Holds(grid, PlaceAll(g, size, words, cands, w))
    modifies grid
    ensures Holds(grid, PlaceAll(g, size, words, cands, w + 1))
  {
    Place(grid, PlaceAll(g, size, words, cands, w), size, words[w], cands[w]);
  }

  /** `words.forEach(w => place(w))`: lays the words in list order. */
  method PlaceWords(grid: array2<string>, ghost g: Grid, size: nat, words: seq<string>, cands: seq<seq<Candidate>>)
    requires grid.Length0 == size && Holds(grid, g) && Streams(words, cands)
    modifies grid
    ensures Holds(grid, PlaceAll(g, size, words, cands, |words|))
  {
    var w := 0;
    while w < |words|
      invariant 0 <= w <= |words|
      invariant Holds(grid, PlaceAll(g, size, words, cands, w))
    {
      PlaceNext(grid, g, size, words, cands, w);
      w := w + 1;
    }
  }

  /** A blank array of the given size. */
  method NewBlank(size: nat) returns (grid: array2<string>)
    ensures fresh(grid) && grid.Length0 == size
    ensures Holds(grid, BlankGrid(size))
  {
    grid := new string[size, size]((_, _) => Blank);
  }

  /** generateGrid: a fresh size x size grid with every word laid in turn
      and the remaining blanks filled. `cands[w]` holds the attempts drawn for
      `words[w]`; `fill[r][c]` is the roll for cell (r, c). */
  method GenerateGrid(words: seq<string>, size: nat, cands: seq<seq<Candidate>>, fill: seq<seq<Roll>>)
    returns (grid: array2<string>)
    requires Streams(words, cands) && FillRolls(fill, size)
    ensures fresh(grid)
    ensures grid.Length0 == size && grid.Length1 == size
    ensures Holds(grid, Filled(PlaceAll(BlankGrid(size), size, words, cands, |words|), size, fill))
  {
    grid := NewBlank(size);
    PlaceWords(grid, BlankGrid(size), size, words, cands);
    FillBlanks(grid, PlaceAll(BlankGrid(size), size, words, cands, |words|), size, fill);
  }
}
